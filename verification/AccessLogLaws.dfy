/**
 The other forms of the access-log language: a variable without braces, a dollar that opens
 nothing, and the errors.
 */
module AccessLogLaws {
  import opened Wrappers
  import opened Strings
  import opened AccessLog

  ghost predicate IsName(name: string) {
    name != [] && forall k | 0 <= k < |name| :: IsNameChar(name[k])
  }

  // The name stands after the dollar at `i` and ends at `next`.
  ghost predicate BareName(s: string, i: nat, name: string, next: nat) {
    && IsName(name) && next == i + 1 + |name| && next <= |s|
    && s[i] == '$' && s[i + 1..next] == name
    && (next < |s| ==> !IsNameChar(s[next]))
  }

  lemma LexBare(s: string, i: nat, name: string, next: nat)
    requires BareName(s, i, name, next)
    ensures Lex(s, i) == Ok(Token(Bare, next))
  {
    forall k | i + 1 <= k < next ensures IsNameChar(s[k]) {
      assert s[i + 1..next][k - i - 1] == s[k];
    }
    assert IsNameChar(s[i + 1]);
    NameEndIs(s, i + 1, next);
  }

  // `$name` before anything that cannot belong to the name yields what `${name}` does.
  lemma YieldsBare(
      s: string, i: nat, name: string, next: nat, variable: Variable, table: Table, values: Values, tail: string)
    requires BareName(s, i, name, next) && table(name) == Some(variable)
    requires Yields(s, next, table, values, tail)
    ensures Yields(s, i, table, values, values(variable) + tail)
  {
    LexBare(s, i, name, next);
    YieldsToken(s, i, table, values, tail);
  }

  // A dollar before anything else is a dollar.
  lemma YieldsLoneDollar(s: string, i: nat, table: Table, values: Values, tail: string)
    requires i < |s| && s[i] == '$'
    requires i + 1 < |s| ==> !IsNameChar(s[i + 1]) && s[i + 1] != '$' && s[i + 1] != '{'
    requires Yields(s, i + 1, table, values, tail)
    ensures Yields(s, i, table, values, "$" + tail)
  {
    NameEndIs(s, i + 1, i + 1);
    YieldsToken(s, i, table, values, tail);
  }

  // A name that is not in the table is an error in both forms.
  lemma UnknownVariableFails(s: string, i: nat, name: string, next: nat, table: Table)
    requires table(name) == None
    ensures BareName(s, i, name, next) ==> Parsed(s, i, table) == Err(UnknownVariable(name))
    ensures At(s, i, "${" + name + "}") && '}' !in name ==> Parsed(s, i, table) == Err(UnknownVariable(name))
  {
    if BareName(s, i, name, next) {
      LexBare(s, i, name, next);
    }
    if At(s, i, "${" + name + "}") && '}' !in name {
      LexVariable(s, i, name);
    }
  }

  // An opened brace that is never closed is an error.
  lemma UnterminatedFails(s: string, i: nat, table: Table)
    requires i + 1 < |s| && s[i] == '$' && s[i + 1] == '{' && forall k | i + 2 <= k < |s| :: s[k] != '}'
    ensures Parsed(s, i, table) == Err(Unterminated)
  {
    FindNone(s, i + 2, '}');
  }
}
