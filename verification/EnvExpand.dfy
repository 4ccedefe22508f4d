/**
 Environment placeholders inside RON strings. The expander copies everything outside strings,
 and inside them replaces `$$` and `${NAME}` / `${NAME:-default}`.
 */
module EnvExpand {
  import opened Wrappers
  import opened Strings

  datatype Error = Unterminated | InvalidPlaceholder | NotSet | NotUnicode

  datatype Result<+T> = Ok(value: T) | Err(error: Error)

  datatype EnvValue = Unicode(value: string) | Garbled

  type Env = map<string, EnvValue>

  // ----- A plain scanner of RON string boundaries -----

  datatype Mode = Outside | Inside | Escape

  function Next(mode: Mode, c: char): Mode {
    match mode
    case Outside => if c == '"' then Inside else Outside
    case Escape => Inside
    case Inside => if c == '\\' then Escape else if c == '"' then Outside else Inside
  }

  function Scan(mode: Mode, s: string): Mode
    decreases |s|
  {
    if s == [] then mode else Scan(Next(mode, s[0]), s[1..])
  }

  lemma {:induction false} ScanConcat(mode: Mode, a: string, b: string)
    ensures Scan(mode, a + b) == Scan(Scan(mode, a), b)
    decreases |a|
  {
    if a == [] {
      assert a + b == b;
    } else {
      ScanConcat(Next(mode, a[0]), a[1..], b);
      assert (a + b)[1..] == a[1..] + b;
    }
  }

  // ----- What RON text means: code characters, and the characters of its strings -----

  datatype Item = Code(c: char) | Text(c: char) | OtherEscape(c: char)

  function Unescaped(c: char): Item {
    if c == '\\' || c == '"' then Text(c)
    else if c == 'n' then Text('\n')
    else if c == 'r' then Text('\r')
    else if c == 't' then Text('\t')
    else OtherEscape(c)
  }

  function Reads(mode: Mode, c: char): seq<Item> {
    match mode
    case Outside => [Code(c)]
    case Escape => [Unescaped(c)]
    case Inside => if c == '\\' then [] else if c == '"' then [Code(c)] else [Text(c)]
  }

  function Decode(mode: Mode, s: string): seq<Item>
    decreases |s|
  {
    if s == [] then [] else Reads(mode, s[0]) + Decode(Next(mode, s[0]), s[1..])
  }

  lemma {:induction false} DecodeConcat(mode: Mode, a: string, b: string)
    ensures Decode(mode, a + b) == Decode(mode, a) + Decode(Scan(mode, a), b)
    decreases |a|
  {
    if a == [] {
      assert a + b == b;
    } else {
      var next, rest := Next(mode, a[0]), a[1..];
      DecodeConcat(next, rest, b);
      assert a == [a[0]] + rest && a + b == [a[0]] + (rest + b);
      DecodeFirst(mode, a[0], rest);
      DecodeFirst(mode, a[0], rest + b);
      ItemsRegroup(Reads(mode, a[0]), Decode(next, rest), Decode(Scan(next, rest), b));
    }
  }

  lemma DecodeFirst(mode: Mode, c: char, rest: string)
    ensures Decode(mode, [c] + rest) == Reads(mode, c) + Decode(Next(mode, c), rest)
  {
    assert ([c] + rest)[1..] == rest;
  }

  lemma ItemsRegroup(a: seq<Item>, b: seq<Item>, c: seq<Item>)
    ensures a + (b + c) == a + b + c
  {
  }

  function Texts(s: string): (items: seq<Item>)
    ensures |items| == |s| && forall i | 0 <= i < |s| :: items[i] == Text(s[i])
  {
    seq(|s|, i requires 0 <= i < |s| => Text(s[i]))
  }

  // ----- Escaping a substituted value -----

  function EscapedChar(c: char): string {
    if c == '\\' then "\\\\"
    else if c == '"' then "\\\""
    else if c == '\n' then "\\n"
    else if c == '\r' then "\\r"
    else if c == '\t' then "\\t"
    else [c]
  }

  function Escaped(value: string): string {
    if value == [] then [] else EscapedChar(value[0]) + Escaped(value[1..])
  }

  lemma EscapedFrom(value: string, i: nat)
    requires i < |value|
    ensures Escaped(value[i..]) == EscapedChar(value[i]) + Escaped(value[i + 1..])
  {
    assert value[i..][1..] == value[i + 1..];
  }

  lemma AppendEscaped(done: string, c: string, rest: string, whole: string)
    requires done + (c + rest) == whole
    ensures (done + c) + rest == whole
  {
  }

  method EscapeFragment(value: string) returns (escaped: string)
    ensures escaped == Escaped(value)
  {
    escaped := "";
    for i := 0 to |value|
      invariant escaped + Escaped(value[i..]) == Escaped(value)
    {
      EscapedFrom(value, i);
      AppendEscaped(escaped, EscapedChar(value[i]), Escaped(value[i + 1..]), Escaped(value));
      escaped := escaped + EscapedChar(value[i]);
    }
  }

  lemma EscapedCharReads(c: char)
    ensures Scan(Inside, EscapedChar(c)) == Inside
    ensures Decode(Inside, EscapedChar(c)) == [Text(c)]
  {
    var e := EscapedChar(c);
    if |e| == 2 {
      assert e[1..] == [e[1]] && e[1..][1..] == [];
      assert Scan(Inside, e) == Scan(Escape, e[1..]) == Scan(Inside, []);
      assert Decode(Inside, e) == Decode(Escape, e[1..]) == [Unescaped(e[1])] + Decode(Inside, []);
    } else {
      assert e[1..] == [];
    }
  }

  // An escaped value stays within its string and reads back as exactly the value.
  lemma {:induction false} EscapedReadsBack(value: string)
    ensures Scan(Inside, Escaped(value)) == Inside
    ensures Decode(Inside, Escaped(value)) == Texts(value)
  {
    if value != [] {
      var first, rest := EscapedChar(value[0]), Escaped(value[1..]);
      EscapedCharReads(value[0]);
      EscapedReadsBack(value[1..]);
      ScanConcat(Inside, first, rest);
      DecodeConcat(Inside, first, rest);
      assert Texts(value) == [Text(value[0])] + Texts(value[1..]);
    }
  }

  // An escaped value holds no line break, carriage return or tab.
  lemma {:induction false} EscapedIsOneLine(value: string)
    ensures '\n' !in Escaped(value) && '\r' !in Escaped(value) && '\t' !in Escaped(value)
  {
    if value != [] {
      EscapedIsOneLine(value[1..]);
    }
  }

  // ----- Placeholders -----

  // The first `:-` of a token.
  function FindDefault(token: string): (r: Option<nat>)
    ensures r.None? ==> forall i | 0 <= i < |token| - 1 :: !(token[i] == ':' && token[i + 1] == '-')
    ensures r.Some? ==> r.value + 1 < |token| && token[r.value] == ':' && token[r.value + 1] == '-'
    ensures r.Some? ==> forall i | 0 <= i < r.value :: !(token[i] == ':' && token[i + 1] == '-')
  {
    if |token| < 2 then None
    else if token[0] == ':' && token[1] == '-' then Some(0)
    else
      var rest := FindDefault(token[1..]);
      if rest.None? then
        assert forall i | 1 <= i < |token| - 1 :: token[i] == token[1..][i - 1] && token[i + 1] == token[1..][i];
        None
      else
        assert forall i | 1 <= i < rest.value + 1 :: token[i] == token[1..][i - 1] && token[i + 1] == token[1..][i];
        Some(rest.value + 1)
  }

  predicate IsName(name: string) {
    name != [] && forall i | 0 <= i < |name| :: IsNameChar(name[i])
  }

  function Resolve(token: string, env: Env): Result<string> {
    var split := FindDefault(token);
    var name := if split.Some? then token[..split.value] else token;
    if !IsName(name) then Err(InvalidPlaceholder)
    else if name in env then
      if env[name].Unicode? then Ok(env[name].value) else Err(NotUnicode)
    else if split.Some? then Ok(token[split.value + 2..])
    else Err(NotSet)
  }

  // ----- The expander, step by step -----

  // One step: the index it goes on from, what it emits, and the mode it leaves.
  datatype Advance = Advance(index: nat, emitted: string, mode: Mode)

  predicate Opens(s: string, index: nat, c: char) {
    index + 1 < |s| && s[index] == '$' && s[index + 1] == c
  }

  function Placeholder(s: string, index: nat, env: Env): (r: Result<Advance>)
    requires Opens(s, index, '{')
    ensures r.Ok? ==> index + 2 < r.value.index <= |s|
  {
    var close := Find(s, index + 2, '}');
    if close.None? then Err(Unterminated)
    else
      var value := Resolve(s[index + 2..close.value], env);
      if value.Err? then Err(value.error) else Ok(Advance(close.value + 1, Escaped(value.value), Inside))
  }

  function AdvanceFrom(mode: Mode, s: string, index: nat, env: Env): (r: Result<Advance>)
    requires index < |s|
    ensures r.Ok? ==> index < r.value.index <= |s|
  {
    if mode == Inside && Opens(s, index, '$') then Ok(Advance(index + 2, "$", Inside))
    else if mode == Inside && Opens(s, index, '{') then Placeholder(s, index, env)
    else Ok(Advance(index + 1, [s[index]], Next(mode, s[index])))
  }

  function Expanded(mode: Mode, s: string, index: nat, env: Env): Result<string>
    requires index <= |s|
    decreases |s| - index
  {
    if index == |s| then Ok("")
    else
      var step := AdvanceFrom(mode, s, index, env);
      if step.Err? then Err(step.error)
      else Prepend(step.value.emitted, Expanded(step.value.mode, s, step.value.index, env))
  }

  function Prepend(prefix: string, r: Result<string>): Result<string> {
    if r.Err? then r else Ok(prefix + r.value)
  }

  // The mode in which the expander ends.
  function FinalMode(mode: Mode, s: string, index: nat, env: Env): Mode
    requires index <= |s|
    decreases |s| - index
  {
    if index == |s| then mode
    else
      var step := AdvanceFrom(mode, s, index, env);
      if step.Err? then mode else FinalMode(step.value.mode, s, step.value.index, env)
  }

  // The value of the placeholder at `index`.
  function ValueAt(s: string, index: nat, env: Env): string
    requires Opens(s, index, '{') && Placeholder(s, index, env).Ok?
  {
    Resolve(s[index + 2..Find(s, index + 2, '}').value], env).value
  }

  lemma WritesValue(s: string, index: nat, env: Env)
    requires Opens(s, index, '{') && Placeholder(s, index, env).Ok?
    ensures Placeholder(s, index, env).value.emitted == Escaped(ValueAt(s, index, env))
    ensures Placeholder(s, index, env).value.mode == Inside
  {
  }

  // What one step of the template stands for: outside strings its own character, inside them the
  // character written, a dollar for `$$`, and its value's characters for a placeholder.
  function StepMeaning(mode: Mode, s: string, index: nat, env: Env): seq<Item>
    requires index < |s| && AdvanceFrom(mode, s, index, env).Ok?
  {
    if mode == Inside && Opens(s, index, '$') then [Text('$')]
    else if mode == Inside && Opens(s, index, '{') then
      Texts(ValueAt(s, index, env))
    else Reads(mode, s[index])
  }

  function Meaning(mode: Mode, s: string, index: nat, env: Env): seq<Item>
    requires index <= |s|
    decreases |s| - index
  {
    if index == |s| || AdvanceFrom(mode, s, index, env).Err? then []
    else
      var step := AdvanceFrom(mode, s, index, env).value;
      StepMeaning(mode, s, index, env) + Meaning(step.mode, s, step.index, env)
  }

  lemma SingleScans(mode: Mode, c: char)
    ensures Scan(mode, [c]) == Next(mode, c) && Decode(mode, [c]) == Reads(mode, c)
  {
    assert [c][1..] == [];
  }

  lemma AdvanceScans(mode: Mode, s: string, index: nat, env: Env)
    requires index < |s| && AdvanceFrom(mode, s, index, env).Ok?
    ensures var step := AdvanceFrom(mode, s, index, env).value;
            && Scan(mode, step.emitted) == step.mode
            && Decode(mode, step.emitted) == StepMeaning(mode, s, index, env)
  {
    if mode == Inside && Opens(s, index, '$') {
      SingleScans(Inside, '$');
    } else if mode == Inside && Opens(s, index, '{') {
      WritesValue(s, index, env);
      EscapedReadsBack(ValueAt(s, index, env));
    } else {
      SingleScans(mode, s[index]);
    }
  }

  // From any point of the input on, a plain scanner over the rest of the output ends in the mode
  // in which the expander ends, so the output's string boundaries are the expander's.
  lemma {:induction false} ScannerStaysInStep(mode: Mode, s: string, index: nat, env: Env)
    requires index <= |s| && Expanded(mode, s, index, env).Ok?
    ensures Scan(mode, Expanded(mode, s, index, env).value) == FinalMode(mode, s, index, env)
    decreases |s| - index
  {
    if index < |s| {
      var step := AdvanceFrom(mode, s, index, env).value;
      AdvanceScans(mode, s, index, env);
      ScannerStaysInStep(step.mode, s, step.index, env);
      ScanConcat(mode, step.emitted, Expanded(step.mode, s, step.index, env).value);
    }
  }

  // Expansion preserves meaning: read as RON, the output is what the template stands for.
  lemma {:induction false} ExpansionPreservesMeaning(mode: Mode, s: string, index: nat, env: Env)
    requires index <= |s| && Expanded(mode, s, index, env).Ok?
    ensures Decode(mode, Expanded(mode, s, index, env).value) == Meaning(mode, s, index, env)
    decreases |s| - index
  {
    if index < |s| {
      var step := AdvanceFrom(mode, s, index, env).value;
      AdvanceScans(mode, s, index, env);
      ExpansionPreservesMeaning(step.mode, s, step.index, env);
      DecodeConcat(mode, step.emitted, Expanded(step.mode, s, step.index, env).value);
    }
  }

  // Text without a dollar sign passes through untouched.
  lemma {:induction false} PlainTextIsUnchanged(mode: Mode, s: string, index: nat, env: Env)
    requires index <= |s| && '$' !in s
    ensures Expanded(mode, s, index, env) == Ok(s[index..])
    decreases |s| - index
  {
    if index < |s| {
      PlainTextIsUnchanged(Next(mode, s[index]), s, index + 1, env);
      assert s[index..] == [s[index]] + s[index + 1..];
    } else {
      assert s[index..] == "";
    }
  }

  // ----- The expander as it runs -----

  // Halfway through: what is written scans to the current mode, and what is left completes it.
  ghost predicate Halfway(s: string, env: Env, index: nat, mode: Mode, expanded: string) {
    && index <= |s|
    && Scan(Outside, expanded) == mode
    && Expanded(Outside, s, 0, env) == Prepend(expanded, Expanded(mode, s, index, env))
  }

  lemma PrependAll(r: Result<string>, a: string, b: string)
    ensures Prepend("", r) == r
    ensures Prepend(a, Prepend(b, r)) == Prepend(a + b, r)
  {
    if r.Ok? {
      assert "" + r.value == r.value && a + (b + r.value) == a + b + r.value;
    }
  }

  lemma HalfwayGoesOn(s: string, env: Env, index: nat, mode: Mode, expanded: string)
    requires Halfway(s, env, index, mode, expanded) && index < |s|
    ensures var step := AdvanceFrom(mode, s, index, env);
            if step.Err? then Expanded(Outside, s, 0, env) == Err(step.error)
            else Halfway(s, env, step.value.index, step.value.mode, expanded + step.value.emitted)
  {
    var step := AdvanceFrom(mode, s, index, env);
    if step.Ok? {
      AdvanceScans(mode, s, index, env);
      ScanConcat(Outside, expanded, step.value.emitted);
      PrependAll(Expanded(step.value.mode, s, step.value.index, env), expanded, step.value.emitted);
    }
  }

  method ExpandPlaceholder(s: string, index: nat, env: Env) returns (r: Result<Advance>)
    requires Opens(s, index, '{')
    ensures r == Placeholder(s, index, env)
  {
    var end := Find(s, index + 2, '}');
    if end.None? {
      return Err(Unterminated);
    }
    var replacement := Resolve(s[index + 2..end.value], env);
    if replacement.Err? {
      return Err(replacement.error);
    }
    var fragment := EscapeFragment(replacement.value);
    return Ok(Advance(end.value + 1, fragment, Inside));
  }

  /** The whole expander. Its flags and the scanner's view of what it has written agree after
      every step. */
  method Expand(contents: string, env: Env) returns (r: Result<string>)
    ensures r == Expanded(Outside, contents, 0, env)
    ensures r.Ok? ==> Decode(Outside, r.value) == Meaning(Outside, contents, 0, env)
    ensures r.Ok? ==> Scan(Outside, r.value) == FinalMode(Outside, contents, 0, env)
  {
    var index, inString, escaped, expanded := 0, false, false, "";
    PrependAll(Expanded(Outside, contents, 0, env), "", "");
    while index < |contents|
      invariant escaped ==> inString
      invariant Halfway(contents, env, index, ModeOf(inString, escaped), expanded)
    {
      HalfwayGoesOn(contents, env, index, ModeOf(inString, escaped), expanded);
      var ch := contents[index];
      if !inString {
        expanded, inString, index := expanded + [ch], ch == '"', index + 1;
      } else if escaped {
        expanded, escaped, index := expanded + [ch], false, index + 1;
      } else if ch == '\\' {
        expanded, escaped, index := expanded + [ch], true, index + 1;
      } else if ch == '"' {
        expanded, inString, index := expanded + [ch], false, index + 1;
      } else if Opens(contents, index, '$') {
        expanded, index := expanded + "$", index + 2;
      } else if Opens(contents, index, '{') {
        var placeholder := ExpandPlaceholder(contents, index, env);
        if placeholder.Err? {
          return Err(placeholder.error);
        }
        expanded, index := expanded + placeholder.value.emitted, placeholder.value.index;
      } else {
        expanded, index := expanded + [ch], index + 1;
      }
    }
    assert expanded + "" == expanded;
    r := Ok(expanded);
    ScannerStaysInStep(Outside, contents, 0, env);
    ExpansionPreservesMeaning(Outside, contents, 0, env);
  }

  function ModeOf(inString: bool, escaped: bool): Mode {
    if !inString then Outside else if escaped then Escape else Inside
  }
}
