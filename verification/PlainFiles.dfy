/**
 A whole file without includes. The expander is run on one line at a time and starts each of them
 outside a string, so the file comes out as one expansion of its text as long as no string
 runs over the end of a line.
 */
module PlainFiles {
  import ConfigPaths
  import IncludeTree
  import opened EnvExpand
  import opened ExpandJoin

  // ----- Line by line -----

  function Line(line: string, env: Env): Result<string> {
    Expanded(Outside, line, 0, env)
  }

  function ByLine(lines: seq<string>, env: Env): Result<string> {
    if lines == [] then Ok("") else Then(Line(lines[0], env), ByLine(lines[1..], env))
  }

  lemma ThenRegroups(a: Result<string>, b: Result<string>, c: Result<string>)
    ensures Then(a, Then(b, c)) == Then(Then(a, b), c)
    ensures Then(Ok(""), a) == a
  {
    if a.Ok? && b.Ok? {
      PrependAll(c, a.value, b.value);
    }
    PrependAll(a, "", "");
  }

  lemma {:induction false} ByLineSplitsOffLast(lines: seq<string>, env: Env)
    requires lines != []
    ensures ByLine(lines, env) == Then(ByLine(lines[..|lines| - 1], env), Line(lines[|lines| - 1], env))
    decreases |lines|
  {
    var last := Line(lines[|lines| - 1], env);
    if |lines| == 1 {
      ThenWithNothing(last);
      ThenRegroups(last, last, last);
      assert lines[..0] == [] && lines[1..] == [];
    } else {
      var rest := lines[1..];
      ByLineSplitsOffLast(rest, env);
      assert rest[..|rest| - 1] == lines[..|lines| - 1][1..];
      ThenRegroups(Line(lines[0], env), ByLine(rest[..|rest| - 1], env), last);
    }
  }

  lemma ThenWithNothing(a: Result<string>)
    ensures Then(a, Ok("")) == a
  {
    if a.Ok? {
      assert a.value + "" == a.value;
    }
  }

  // The expander is outside strings at the end of every line but the last.
  ghost predicate LinesEndOutside(lines: seq<string>, env: Env) {
    forall i | 0 <= i < |lines| - 1 :: FinalMode(Outside, lines[i], 0, env) == Outside
  }

  // A plain scanner over the output is outside strings where each line starts.
  ghost predicate LinesStartOutside(lines: seq<string>, env: Env) {
    lines == []
    || (&& LinesStartOutside(lines[..|lines| - 1], env)
        && ByLine(lines[..|lines| - 1], env).Ok?
        && Scan(Outside, ByLine(lines[..|lines| - 1], env).value) == Outside)
  }

  lemma ScanOfLines(lines: seq<string>, env: Env)
    requires lines != [] && ByLine(lines, env).Ok?
    ensures ByLine(lines[..|lines| - 1], env).Ok?
    ensures Scan(Outside, ByLine(lines[..|lines| - 1], env).value) == Outside ==>
              Scan(Outside, ByLine(lines, env).value) == FinalMode(Outside, lines[|lines| - 1], 0, env)
  {
    var before, last := lines[..|lines| - 1], lines[|lines| - 1];
    ByLineSplitsOffLast(lines, env);
    ScanConcat(Outside, ByLine(before, env).value, Line(last, env).value);
    ScannerStaysInStep(Outside, last, 0, env);
  }

  // The expander starts every line in the state of a scanner over what it has written exactly
  // when every line but the last ends outside a string.
  lemma {:induction false} InStepIffLinesEndOutside(lines: seq<string>, env: Env)
    requires ByLine(lines, env).Ok?
    ensures LinesStartOutside(lines, env) <==> LinesEndOutside(lines, env)
    decreases |lines|
  {
    if lines != [] {
      var before := lines[..|lines| - 1];
      ScanOfLines(lines, env);
      InStepIffLinesEndOutside(before, env);
      EndOutsideSteps(lines, env);
      if before != [] {
        ScanOfLines(before, env);
      }
    }
  }

  lemma EndOutsideSteps(lines: seq<string>, env: Env)
    requires lines != []
    ensures var before := lines[..|lines| - 1];
            LinesEndOutside(lines, env) <==>
            LinesEndOutside(before, env)
            && (before != [] ==> FinalMode(Outside, before[|before| - 1], 0, env) == Outside)
  {
    var before := lines[..|lines| - 1];
    if LinesEndOutside(before, env) && (before != [] ==> FinalMode(Outside, before[|before| - 1], 0, env) == Outside) {
      forall i | 0 <= i < |lines| - 1 ensures FinalMode(Outside, lines[i], 0, env) == Outside {
        assert lines[i] == before[i];
      }
    }
    if LinesEndOutside(lines, env) {
      forall i | 0 <= i < |before| ensures FinalMode(Outside, before[i], 0, env) == Outside {
        assert before[i] == lines[i];
      }
    }
  }

  // ----- The whole file -----

  lemma JoinsLast(before: seq<string>, last: string, env: Env)
    requires Line(ConfigPaths.Concat(before), env) == ByLine(before, env)
    requires ByLine(before, env).Ok? && LinesEndOutside(before, env)
    requires before != [] ==>
               && ConfigPaths.EndsLine(before[|before| - 1])
               && FinalMode(Outside, before[|before| - 1], 0, env) == Outside
    ensures Line(ConfigPaths.Concat(before) + last, env) == Then(ByLine(before, env), Line(last, env))
  {
    var a := ConfigPaths.Concat(before);
    if before == [] {
      assert a + last == last;
      ThenRegroups(Line(last, env), Ok(""), Ok(""));
    } else {
      ConfigPaths.EndOfConcat(before);
      InStepIffLinesEndOutside(before, env);
      ScanOfLines(before, env);
      ScannerStaysInStep(Outside, a, 0, env);
      TwoParts(a, last, env);
    }
  }

  /**
   Expanding line by line is expanding the whole text at once, when every line but the last ends
   outside a string.
   */
  lemma {:induction false} LineByLineIsWholeText(lines: seq<string>, env: Env)
    requires ByLine(lines, env).Ok? && LinesEndOutside(lines, env)
    requires forall i | 0 <= i < |lines| - 1 :: ConfigPaths.EndsLine(lines[i])
    ensures Line(ConfigPaths.Concat(lines), env) == ByLine(lines, env)
    decreases |lines|
  {
    if lines != [] {
      var before, last := lines[..|lines| - 1], lines[|lines| - 1];
      ScanOfLines(lines, env);
      EndOutsideSteps(lines, env);
      LineByLineIsWholeText(before, env);
      ConfigPaths.ConcatSplitsOffLast(lines);
      ByLineSplitsOffLast(lines, env);
      JoinsLast(before, last, env);
    }
  }

  // A string over two lines: its second line, `$$"`, is copied as if outside strings, where the
  // text as a whole would be expanded.
  lemma SpanningStringIsMissed(env: Env)
    ensures var first, second := ['"', '\n'], ['$', '$', '"'];
            && ByLine([first, second], env) == Ok(first + second)
            && Line(first + second, env) == Ok(first + ['$', '"'])
  {
    var first, second := ['"', '\n'], ['$', '$', '"'];
    QuotedNewline(env);
    UnquotedDollars(env);
    ByLineSplitsOffLast([first, second], env);
    ByLineSplitsOffLast([first], env);
    assert [first, second][..1] == [first] && [first][..0] == [];
    ThenRegroups(Line(first, env), Ok(""), Ok(""));
    QuotedText(env);
  }

  // The whole text, `"`, a newline, `$$"`.
  lemma QuotedText(env: Env)
    ensures Line(['"', '\n'] + ['$', '$', '"'], env) == Ok(['"', '\n'] + ['$', '"'])
  {
    var s := ['"', '\n'] + ['$', '$', '"'];
    Copies(Inside, s, 4, env, 5, "");
    assert AdvanceFrom(Inside, s, 2, env) == Ok(Advance(4, "$", Inside));
    assert Expanded(Inside, s, 2, env) == Ok("$" + (['"'] + ""));
    Copies(Inside, s, 1, env, 2, "$" + (['"'] + ""));
    Copies(Outside, s, 0, env, 1, ['\n'] + ("$" + (['"'] + "")));
    assert ['"'] + (['\n'] + ("$" + (['"'] + ""))) == ['"', '\n'] + ['$', '"'];
  }

  lemma Copies(mode: Mode, s: string, index: nat, env: Env, next: nat, rest: string)
    requires index < |s| && next == index + 1
    requires mode == Inside ==> s[index] != '$'
    requires Expanded(Next(mode, s[index]), s, next, env) == Ok(rest)
    ensures Expanded(mode, s, index, env) == Ok([s[index]] + rest)
    ensures FinalMode(mode, s, index, env) == FinalMode(Next(mode, s[index]), s, next, env)
  {
  }

  lemma QuotedNewline(env: Env)
    ensures Line(['"', '\n'], env) == Ok(['"', '\n']) && FinalMode(Outside, ['"', '\n'], 0, env) == Inside
  {
    var s := ['"', '\n'];
    Copies(Inside, s, 1, env, 2, "");
    Copies(Outside, s, 0, env, 1, ['\n'] + "");
    assert ['"'] + (['\n'] + "") == s;
  }

  lemma UnquotedDollars(env: Env)
    ensures Line(['$', '$', '"'], env) == Ok(['$', '$', '"'])
  {
    var s := ['$', '$', '"'];
    Copies(Outside, s, 2, env, 3, "");
    Copies(Outside, s, 1, env, 2, ['"'] + "");
    Copies(Outside, s, 0, env, 1, ['$'] + (['"'] + ""));
    assert ['$'] + (['$'] + (['"'] + "")) == s;
  }

  // ----- The preprocessor on such a file -----

  function AsPreprocessed(r: Result<string>): IncludeTree.Result<string> {
    if r.Err? then IncludeTree.Err(IncludeTree.Placeholder(r.error)) else IncludeTree.Ok(r.value)
  }

  lemma {:induction false} WalkIsByLine(
      w: IncludeTree.World, known: set<ConfigPaths.Name>, path: ConfigPaths.Path, lines: seq<string>,
      stack: seq<ConfigPaths.Name>)
    requires IncludeTree.Knows(w, known)
    requires forall i | 0 <= i < |lines| :: w.directive(lines[i]).Text?
    ensures IncludeTree.WalkLines(w, known, path, lines, stack) == AsPreprocessed(ByLine(lines, w.env))
    decreases |lines|
  {
    if lines != [] {
      assert w.directive(lines[0]).Text?;
      WalkIsByLine(w, known, path, lines[1..], stack);
    }
  }

  /**
   A file without includes, as preprocessed: if every line but the last ends outside a string, the
   result is the expansion of the whole text, and reads as what the text stands for.
   */
  lemma PlainFileKeepsMeaning(
      w: IncludeTree.World, known: set<ConfigPaths.Name>, path: ConfigPaths.Path, contents: string)
    requires IncludeTree.Knows(w, known) && ConfigPaths.Normalize(path) in known
    requires forall i | 0 <= i < |ConfigPaths.SplitLines(contents)| ::
               w.directive(ConfigPaths.SplitLines(contents)[i]).Text?
    requires LinesEndOutside(ConfigPaths.SplitLines(contents), w.env)
    requires IncludeTree.WalkFile(w, known, path, contents, []).Ok?
    ensures var text := IncludeTree.WalkFile(w, known, path, contents, []).value;
            && Expanded(Outside, contents, 0, w.env) == Ok(text)
            && Decode(Outside, text) == Meaning(Outside, contents, 0, w.env)
  {
    var lines, name := ConfigPaths.SplitLines(contents), ConfigPaths.Normalize(path);
    IncludeTree.PushShrinks(known, [], name);
    WalkIsByLine(w, known, path, lines, [] + [name]);
    ConfigPaths.SplitLinesKeepsText(contents);
    LineByLineIsWholeText(lines, w.env);
    ExpansionPreservesMeaning(Outside, contents, 0, w.env);
  }
}
