/**
 The access-log template language: literal text, `$$`, `$name` and `${name}`.
 The table of variables is a parameter.
 */
module AccessLog {
  import opened Wrappers
  import opened Strings

  datatype Error = Unterminated | UnknownVariable(name: string)

  datatype Result<+T> = Ok(value: T) | Err(error: Error)

  type Variable = nat

  type Table = string -> Option<Variable>

  datatype Segment = Literal(text: string) | Value(variable: Variable)

  // ----- Tokens -----

  datatype Kind = Run | DoubleDollar | LoneDollar | Braced | Bare

  // A token of the template, up to but excluding `end`.
  datatype Token = Token(kind: Kind, end: nat)

  // The first dollar sign from `i` on, or the end.
  function RunEnd(s: string, i: nat): (end: nat)
    requires i <= |s|
    ensures i <= end <= |s| && (forall k | i <= k < end :: s[k] != '$') && (end < |s| ==> s[end] == '$')
    decreases |s| - i
  {
    if i == |s| || s[i] == '$' then i else RunEnd(s, i + 1)
  }

  // The first character from `i` on that cannot belong to a name, or the end.
  function NameEnd(s: string, i: nat): (end: nat)
    requires i <= |s|
    ensures i <= end <= |s| && (forall k | i <= k < end :: IsNameChar(s[k])) && (end < |s| ==> !IsNameChar(s[end]))
    decreases |s| - i
  {
    if i == |s| || !IsNameChar(s[i]) then i else NameEnd(s, i + 1)
  }

  // The token that starts at `i`.
  function Lex(s: string, i: nat): (r: Result<Token>)
    requires i < |s|
    ensures r.Ok? ==> i < r.value.end <= |s|
    ensures r.Ok? && r.value.kind == Braced ==> i + 2 < r.value.end
  {
    if s[i] != '$' then Ok(Token(Run, RunEnd(s, i)))
    else if i + 1 < |s| && s[i + 1] == '$' then Ok(Token(DoubleDollar, i + 2))
    else if i + 1 < |s| && s[i + 1] == '{' then
      var close := Find(s, i + 2, '}');
      if close.None? then Err(Unterminated) else Ok(Token(Braced, close.value + 1))
    else if NameEnd(s, i + 1) == i + 1 then Ok(Token(LoneDollar, i + 1))
    else Ok(Token(Bare, NameEnd(s, i + 1)))
  }

  function Lookup(name: string, table: Table): Result<Segment> {
    if table(name).None? then Err(UnknownVariable(name)) else Ok(Value(table(name).value))
  }

  function Denote(s: string, i: nat, token: Token, table: Table): Result<Segment>
    requires i < token.end <= |s| && (token.kind == Braced ==> i + 2 < token.end)
  {
    match token.kind
    case Run => Ok(Literal(s[i..token.end]))
    case DoubleDollar => Ok(Literal("$"))
    case LoneDollar => Ok(Literal("$"))
    case Braced => Lookup(s[i + 2..token.end - 1], table)
    case Bare => Lookup(s[i + 1..token.end], table)
  }

  // ----- Parsing and rendering -----

  function Cons(segment: Segment, rest: Result<seq<Segment>>): Result<seq<Segment>> {
    if rest.Err? then rest else Ok([segment] + rest.value)
  }

  // The segments of the template from `i` on.
  function Parsed(s: string, i: nat, table: Table): Result<seq<Segment>>
    requires i <= |s|
    decreases |s| - i
  {
    if i == |s| then Ok([])
    else if Lex(s, i).Err? then Err(Lex(s, i).error)
    else
      var token := Lex(s, i).value;
      var segment := Denote(s, i, token, table);
      if segment.Err? then Err(segment.error) else Cons(segment.value, Parsed(s, token.end, table))
  }

  type Values = Variable -> string

  function RenderSegment(segment: Segment, values: Values): string {
    match segment
    case Literal(text) => text
    case Value(variable) => values(variable)
  }

  function Rendered(segments: seq<Segment>, values: Values): string {
    if segments == [] then "" else RenderSegment(segments[0], values) + Rendered(segments[1..], values)
  }

  method Render(segments: seq<Segment>, values: Values) returns (rendered: string)
    ensures rendered == Rendered(segments, values)
  {
    rendered := "";
    for i := 0 to |segments|
      invariant rendered + Rendered(segments[i..], values) == Rendered(segments, values)
    {
      assert segments[i..][1..] == segments[i + 1..];
      rendered := rendered + RenderSegment(segments[i], values);
    }
  }

  // ----- Every character of the template is consumed exactly once -----

  // The tokens tile the template from `i` to its end, and token `k` denotes segment `k`.
  ghost predicate Tiles(s: string, i: nat, tokens: seq<Token>, table: Table, segments: seq<Segment>)
    decreases |tokens|
  {
    if tokens == [] then i == |s| && segments == []
    else
      && i < |s| && Lex(s, i) == Ok(tokens[0]) && segments != []
      && Denote(s, i, tokens[0], table) == Ok(segments[0])
      && Tiles(s, tokens[0].end, tokens[1..], table, segments[1..])
  }

  lemma {:induction false} ParseConsumesTemplate(s: string, i: nat, table: Table) returns (tokens: seq<Token>)
    requires i <= |s| && Parsed(s, i, table).Ok?
    ensures Tiles(s, i, tokens, table, Parsed(s, i, table).value)
    decreases |s| - i
  {
    if i == |s| {
      return [];
    }
    var token := Lex(s, i).value;
    var rest := ParseConsumesTemplate(s, token.end, table);
    tokens := [token] + rest;
    assert tokens[1..] == rest;
    assert Parsed(s, i, table).value[1..] == Parsed(s, token.end, table).value;
  }

  // ----- The parser as it runs -----

  function Append(segments: seq<Segment>, rest: Result<seq<Segment>>): Result<seq<Segment>> {
    if rest.Err? then rest else Ok(segments + rest.value)
  }

  lemma AppendCons(segments: seq<Segment>, segment: Segment, rest: Result<seq<Segment>>)
    ensures Append(segments, Cons(segment, rest)) == Append(segments + [segment], rest)
    ensures Append([], rest) == rest
    ensures Append(segments, Ok([])) == Ok(segments)
  {
    if rest.Ok? {
      assert segments + ([segment] + rest.value) == segments + [segment] + rest.value;
      assert [] + rest.value == rest.value;
    }
    assert segments + [] == segments;
  }

  lemma {:induction false} RunEndIs(s: string, i: nat, end: nat)
    requires i <= end <= |s| && (forall k | i <= k < end :: s[k] != '$') && (end < |s| ==> s[end] == '$')
    ensures RunEnd(s, i) == end
    decreases end - i
  {
    if i < end {
      RunEndIs(s, i + 1, end);
    }
  }

  lemma {:induction false} NameEndIs(s: string, i: nat, end: nat)
    requires i <= end <= |s| && (forall k | i <= k < end :: IsNameChar(s[k])) && (end < |s| ==> !IsNameChar(s[end]))
    ensures NameEnd(s, i) == end
    decreases end - i
  {
    if i < end {
      NameEndIs(s, i + 1, end);
    }
  }

  // The token at a dollar sign and its segment, or the error.
  method ParseDollar(s: string, index: nat, table: Table) returns (r: Result<(Segment, nat)>)
    requires index < |s| && s[index] == '$'
    ensures r.Ok? ==> index < r.value.1 <= |s| && Parsed(s, index, table) == Cons(r.value.0, Parsed(s, r.value.1, table))
    ensures r.Err? ==> Parsed(s, index, table) == Err(r.error)
  {
    if index + 1 < |s| {
      if s[index + 1] == '$' {
        return Ok((Literal("$"), index + 2));
      }
      if s[index + 1] == '{' {
        var close := Find(s, index + 2, '}');
        if close.None? {
          return Err(Unterminated);
        }
        var braced := Lookup(s[index + 2..close.value], table);
        return if braced.Err? then Err(braced.error) else Ok((braced.value, close.value + 1));
      }
    }
    var end := index + 1;
    while end < |s| && IsNameChar(s[end])
      invariant index < end <= |s| && forall k | index < k < end :: IsNameChar(s[k])
    {
      end := end + 1;
    }
    NameEndIs(s, index + 1, end);
    if end == index + 1 {
      return Ok((Literal("$"), index + 1));
    }
    var bare := Lookup(s[index + 1..end], table);
    return if bare.Err? then Err(bare.error) else Ok((bare.value, end));
  }

  method Parse(template: string, table: Table) returns (r: Result<seq<Segment>>)
    ensures r == Parsed(template, 0, table)
  {
    var segments: seq<Segment> := [];
    var literalStart, index := 0, 0;
    AppendCons([], Literal(""), Parsed(template, 0, table));
    while index < |template|
      invariant 0 <= literalStart <= index <= |template|
      invariant forall k | literalStart <= k < index :: template[k] != '$'
      invariant Parsed(template, 0, table) == Append(segments, Parsed(template, literalStart, table))
    {
      if template[index] != '$' {
        index := index + 1;
        continue;
      }
      if literalStart < index {
        RunEndIs(template, literalStart, index);
        var literal := Literal(template[literalStart..index]);
        AppendCons(segments, literal, Parsed(template, index, table));
        segments := segments + [literal];
      }
      var token := ParseDollar(template, index, table);
      if token.Err? {
        return Err(token.error);
      }
      AppendCons(segments, token.value.0, Parsed(template, token.value.1, table));
      segments := segments + [token.value.0];
      index := token.value.1;
      literalStart := index;
    }
    if literalStart < |template| {
      RunEndIs(template, literalStart, |template|);
      var literal := Literal(template[literalStart..]);
      assert template[literalStart..|template|] == template[literalStart..];
      AppendCons(segments, literal, Parsed(template, |template|, table));
      segments := segments + [literal];
    }
    AppendCons(segments, Literal(""), Ok([]));
    r := Ok(segments);
  }

  // ----- Printing and parsing back -----

  type Names = Variable -> string

  function DoubledChar(c: char): string {
    if c == '$' then "$$" else [c]
  }

  function Doubled(text: string): string {
    if text == [] then [] else DoubledChar(text[0]) + Doubled(text[1..])
  }

  function PrintedSegment(segment: Segment, names: Names): string {
    match segment
    case Literal(text) => Doubled(text)
    case Value(variable) => "${" + names(variable) + "}"
  }

  function Printed(segments: seq<Segment>, names: Names): string {
    if segments == [] then "" else PrintedSegment(segments[0], names) + Printed(segments[1..], names)
  }

  // `piece` stands in the template at `i`.
  ghost predicate At(s: string, i: nat, piece: string) {
    i + |piece| <= |s| && forall k | 0 <= k < |piece| :: s[i + k] == piece[k]
  }

  lemma AtIndex(s: string, i: nat, piece: string, k: nat)
    requires At(s, i, piece) && k < |piece|
    ensures s[i + k] == piece[k]
  {
  }

  lemma AtSplit(s: string, i: nat, a: string, b: string)
    requires At(s, i, a + b)
    ensures At(s, i, a) && At(s, i + |a|, b)
  {
    var both := a + b;
    forall k | 0 <= k < |a| ensures s[i + k] == a[k] {
      assert both[k] == a[k];
    }
    forall k | 0 <= k < |b| ensures s[i + |a| + k] == b[k] {
      assert both[|a| + k] == b[k] && s[i + (|a| + k)] == both[|a| + k];
    }
  }

  // From `i` on the template parses, and then renders to `text` for these values.
  ghost predicate Yields(s: string, i: nat, table: Table, values: Values, text: string) {
    i <= |s| && Parsed(s, i, table).Ok? && Rendered(Parsed(s, i, table).value, values) == text
  }

  lemma YieldsToken(s: string, i: nat, table: Table, values: Values, text: string)
    requires i < |s| && Lex(s, i).Ok? && Denote(s, i, Lex(s, i).value, table).Ok?
    requires Yields(s, Lex(s, i).value.end, table, values, text)
    ensures Yields(s, i, table, values, RenderSegment(Denote(s, i, Lex(s, i).value, table).value, values) + text)
  {
    var segment, parsed := Denote(s, i, Lex(s, i).value, table).value, Parsed(s, Lex(s, i).value.end, table).value;
    assert ([segment] + parsed)[1..] == parsed;
  }

  // A run in front can be split off again.
  lemma RunYields(s: string, i: nat, table: Table, values: Values, text: string) returns (tail: string)
    requires i < |s| && s[i] != '$' && Yields(s, i, table, values, text)
    ensures Yields(s, RunEnd(s, i), table, values, tail) && text == s[i..RunEnd(s, i)] + tail
  {
    var segment, parsed := Literal(s[i..RunEnd(s, i)]), Parsed(s, RunEnd(s, i), table).value;
    assert ([segment] + parsed)[1..] == parsed;
    tail := Rendered(parsed, values);
  }

  lemma PrependChar(s: string, i: nat, end: nat, tail: string)
    requires i < end <= |s|
    ensures [s[i]] + (s[i + 1..end] + tail) == s[i..end] + tail
  {
  }

  // An ordinary character in front only lengthens the text.
  lemma YieldsPlain(s: string, i: nat, table: Table, values: Values, text: string)
    requires i < |s| && s[i] != '$' && Yields(s, i + 1, table, values, text)
    ensures Yields(s, i, table, values, [s[i]] + text)
  {
    if i + 1 < |s| && s[i + 1] != '$' {
      var tail := RunYields(s, i + 1, table, values, text);
      PrependChar(s, i, RunEnd(s, i), tail);
      YieldsToken(s, i, table, values, tail);
    } else {
      YieldsToken(s, i, table, values, text);
    }
  }

  lemma YieldsChar(s: string, i: nat, c: char, table: Table, values: Values, text: string)
    requires At(s, i, DoubledChar(c)) && Yields(s, i + |DoubledChar(c)|, table, values, text)
    ensures Yields(s, i, table, values, [c] + text)
  {
    AtIndex(s, i, DoubledChar(c), 0);
    if c == '$' {
      AtIndex(s, i, DoubledChar(c), 1);
      YieldsToken(s, i, table, values, text);
    } else {
      YieldsPlain(s, i, table, values, text);
    }
  }

  lemma ConsAppend(text: string, tail: string)
    requires text != []
    ensures text + tail == [text[0]] + (text[1..] + tail)
  {
  }

  lemma YieldsFirst(s: string, i: nat, text: string, table: Table, values: Values, tail: string)
    requires text != [] && At(s, i, DoubledChar(text[0]))
    requires Yields(s, i + |DoubledChar(text[0])|, table, values, text[1..] + tail)
    ensures Yields(s, i, table, values, text + tail)
  {
    YieldsChar(s, i, text[0], table, values, text[1..] + tail);
    ConsAppend(text, tail);
  }

  lemma {:induction false} YieldsDoubled(
      s: string, i: nat, text: string, table: Table, values: Values, tail: string, end: nat)
    requires At(s, i, Doubled(text)) && end == i + |Doubled(text)| && Yields(s, end, table, values, tail)
    ensures Yields(s, i, table, values, text + tail)
    decreases |text|
  {
    if text == [] {
      assert text + tail == tail;
    } else {
      var next := i + |DoubledChar(text[0])|;
      AtSplit(s, i, DoubledChar(text[0]), Doubled(text[1..]));
      YieldsDoubled(s, next, text[1..], table, values, tail, end);
      YieldsFirst(s, i, text, table, values, tail);
    }
  }

  lemma LexVariable(s: string, i: nat, name: string)
    requires At(s, i, "${" + name + "}") && '}' !in name
    ensures i < |s| && Lex(s, i) == Ok(Token(Braced, i + |name| + 3))
    ensures s[i + 2..i + 2 + |name|] == name
  {
    AtSplit(s, i, "${" + name, "}");
    AtSplit(s, i, "${", name);
    AtIndex(s, i, "${", 0);
    AtIndex(s, i, "${", 1);
    AtIndex(s, i + |"${" + name|, "}", 0);
    NameStandsAt(s, i + 2, name);
    FindIs(s, i + 2, '}', i + 2 + |name|);
  }

  lemma YieldsVariable(s: string, i: nat, name: string, variable: Variable, table: Table, values: Values, tail: string)
    requires At(s, i, "${" + name + "}") && table(name) == Some(variable) && '}' !in name
    requires Yields(s, i + |name| + 3, table, values, tail)
    ensures Yields(s, i, table, values, values(variable) + tail)
  {
    LexVariable(s, i, name);
    YieldsToken(s, i, table, values, tail);
  }

  lemma NameStandsAt(s: string, i: nat, name: string)
    requires At(s, i, name) && '}' !in name
    ensures i + |name| <= |s| && s[i..i + |name|] == name
    ensures forall k | i <= k < i + |name| :: s[k] != '}'
  {
    forall k | i <= k < i + |name| ensures s[k] != '}' {
      AtIndex(s, i, name, k - i);
    }
  }

  // A variable's name leads back to it and can stand between braces.
  ghost predicate Printable(segment: Segment, names: Names, table: Table) {
    segment.Value? ==> table(names(segment.variable)) == Some(segment.variable) && '}' !in names(segment.variable)
  }

  lemma PrintedSegmentYields(
      s: string, i: nat, segment: Segment, names: Names, table: Table, values: Values, tail: string)
    requires Printable(segment, names, table) && At(s, i, PrintedSegment(segment, names))
    requires Yields(s, i + |PrintedSegment(segment, names)|, table, values, tail)
    ensures Yields(s, i, table, values, RenderSegment(segment, values) + tail)
  {
    match segment
    case Literal(text) => YieldsDoubled(s, i, text, table, values, tail, i + |Doubled(text)|);
    case Value(variable) => YieldsVariable(s, i, names(variable), variable, table, values, tail);
  }

  lemma Regroup(before: string, first: string, rest: string)
    ensures before + (first + rest) == before + first + rest
    ensures At(before + first + rest, |before|, first)
  {
  }

  lemma {:induction false} PrintedYields(
      before: string, segments: seq<Segment>, names: Names, table: Table, values: Values)
    requires forall k | 0 <= k < |segments| :: Printable(segments[k], names, table)
    ensures Yields(before + Printed(segments, names), |before|, table, values, Rendered(segments, values))
    decreases |segments|
  {
    if segments != [] {
      var first, rest := PrintedSegment(segments[0], names), Printed(segments[1..], names);
      Regroup(before, first, rest);
      PrintedYields(before + first, segments[1..], names, table, values);
      PrintedPairYields(before + first + rest, |before|, segments, names, table, values);
    }
  }

  lemma PrintedPairYields(s: string, i: nat, segments: seq<Segment>, names: Names, table: Table, values: Values)
    requires segments != [] && Printable(segments[0], names, table)
    requires At(s, i, PrintedSegment(segments[0], names))
    requires Yields(s, i + |PrintedSegment(segments[0], names)|, table, values, Rendered(segments[1..], values))
    ensures Yields(s, i, table, values, Rendered(segments, values))
  {
    PrintedSegmentYields(s, i, segments[0], names, table, values, Rendered(segments[1..], values));
  }

  // Printing any list of segments and parsing the result gives a format that renders the same
  // text for all values.
  lemma PrintParseRenders(segments: seq<Segment>, names: Names, table: Table, values: Values)
    requires forall k | 0 <= k < |segments| :: Printable(segments[k], names, table)
    ensures var parsed := Parsed(Printed(segments, names), 0, table);
            parsed.Ok? && Rendered(parsed.value, values) == Rendered(segments, values)
  {
    PrintedYields("", segments, names, table, values);
    assert "" + Printed(segments, names) == Printed(segments, names);
  }
}
