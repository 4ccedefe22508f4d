/**
 Paths as the include machinery compares them, and the files they lead to. A path is a list of
 components below the root (relative paths are taken after joining the working directory).
 */
module ConfigPaths {
  import opened Wrappers

  datatype Component = CurDir | ParentDir | Normal(name: string)

  type Path = seq<Component>

  // A normalised path: plain names only.
  type Name = seq<string>

  function Apply(current: Name, component: Component): Name {
    match component
    case CurDir => current
    case ParentDir => if current == [] then [] else current[..|current| - 1]
    case Normal(name) => current + [name]
  }

  function Normalize(path: Path): Name {
    if path == [] then [] else Apply(Normalize(path[..|path| - 1]), path[|path| - 1])
  }

  method NormalizePathForStack(path: Path) returns (name: Name)
    ensures name == Normalize(path)
  {
    name := [];
    for i := 0 to |path|
      invariant name == Normalize(path[..i])
    {
      assert path[..i + 1][..i] == path[..i];
      match path[i]
      case CurDir =>
      case ParentDir =>
        if name != [] {
          name := name[..|name| - 1];
        }
      case Normal(component) => name := name + [component];
    }
    assert path[..|path|] == path;
  }

  function Parent(path: Path): Path {
    if path == [] then [] else path[..|path| - 1]
  }

  predicate NamesAFile(path: Path) {
    path != [] && path[|path| - 1].Normal?
  }

  function AsPath(name: Name): Path {
    seq(|name|, i requires 0 <= i < |name| => Normal(name[i]))
  }

  // Normalisation is idempotent: a normalised name, read as a path, is its own normal form.
  lemma {:induction false} NormalizeIdempotent(name: Name)
    ensures Normalize(AsPath(name)) == name
    decreases |name|
  {
    if name != [] {
      NormalizeIdempotent(name[..|name| - 1]);
      assert AsPath(name)[..|name| - 1] == AsPath(name[..|name| - 1]);
    }
  }

  // Joining depends on the base only through its normal form.
  lemma {:induction false} JoinRespectsNormalForm(a: Path, b: Path, suffix: Path)
    requires Normalize(a) == Normalize(b)
    ensures Normalize(a + suffix) == Normalize(b + suffix)
    decreases |suffix|
  {
    if suffix == [] {
      assert a + suffix == a && b + suffix == b;
    } else {
      var shorter := suffix[..|suffix| - 1];
      JoinRespectsNormalForm(a, b, shorter);
      assert (a + suffix)[..|a + suffix| - 1] == a + shorter;
      assert (b + suffix)[..|b + suffix| - 1] == b + shorter;
    }
  }

  // A name and a climb after it cancel out, the current directory does nothing, and the root is
  // its own parent.
  lemma ClimbCancels(a: Path, name: string, b: Path)
    ensures Normalize(a + [Normal(name), ParentDir] + b) == Normalize(a + b)
    ensures Normalize(a + [CurDir] + b) == Normalize(a + b)
    ensures Normalize(a + [Normal(name)]) == Normalize(a) + [name]
    ensures Normalize([ParentDir]) == []
  {
    var once := a + [Normal(name)];
    assert (a + [Normal(name), ParentDir])[..|a| + 1] == once && once[..|a|] == a;
    assert (a + [CurDir])[..|a|] == a;
    assert Normalize(once) == Normalize(a) + [name];
    assert (Normalize(a) + [name])[..|Normalize(a)|] == Normalize(a);
    JoinRespectsNormalForm(a + [Normal(name), ParentDir], a, b);
    JoinRespectsNormalForm(a + [CurDir], a, b);
    assert [ParentDir][..0] == [] && Normalize([]) == [];
  }

  // Two paths to the same file have the same directory.
  lemma ParentRespectsNormalForm(a: Path, b: Path)
    requires NamesAFile(a) && NamesAFile(b) && Normalize(a) == Normalize(b)
    ensures Normalize(Parent(a)) == Normalize(Parent(b))
  {
    assert Normalize(Parent(a)) == Normalize(a)[..|Normalize(a)| - 1];
    assert Normalize(Parent(b)) == Normalize(b)[..|Normalize(b)| - 1];
  }

  // ----- Lines -----

  function SplitInclusive(s: string): seq<string> {
    if s == [] then []
    else
      var rest := SplitInclusive(s[1..]);
      if s[0] == '\n' || rest == [] then [[s[0]]] + rest
      else [[s[0]] + rest[0]] + rest[1..]
  }

  // The text after the last newline, if there is a newline.
  function LastTail(s: string): Option<string> {
    if s == [] then None
    else if s[|s| - 1] == '\n' then Some("")
    else
      var earlier := LastTail(s[..|s| - 1]);
      if earlier.None? then None else Some(earlier.value + [s[|s| - 1]])
  }

  function SplitLines(contents: string): seq<string> {
    if contents == [] then [contents]
    else
      var lines := SplitInclusive(contents);
      var tail := LastTail(contents);
      if contents[|contents| - 1] != '\n' && tail.Some? && (lines == [] || lines[|lines| - 1] != tail.value)
      then lines + [tail.value]
      else lines
  }

  function Concat(lines: seq<string>): string {
    if lines == [] then "" else lines[0] + Concat(lines[1..])
  }

  // No newline before the last character.
  ghost predicate IsOneLine(line: string) {
    line != [] && '\n' !in line[..|line| - 1]
  }

  predicate EndsLine(line: string) {
    line != [] && line[|line| - 1] == '\n'
  }

  // Every line but the last ends with its newline, and a newline stands nowhere else.
  ghost predicate AreLines(lines: seq<string>) {
    && (forall i | 0 <= i < |lines| :: IsOneLine(lines[i]))
    && (forall i | 0 <= i < |lines| - 1 :: EndsLine(lines[i]))
  }

  lemma {:induction false} SplitInclusiveKeepsText(s: string)
    ensures Concat(SplitInclusive(s)) == s
    ensures AreLines(SplitInclusive(s))
    ensures s != [] ==> SplitInclusive(s) != []
  {
    if s != [] {
      SplitInclusiveKeepsText(s[1..]);
      var rest := SplitInclusive(s[1..]);
      assert s == [s[0]] + s[1..];
      if s[0] == '\n' || rest == [] {
        LineBefore(s[0], rest);
      } else {
        CharBefore(s[0], rest);
      }
    }
  }

  lemma LineBefore(c: char, rest: seq<string>)
    requires AreLines(rest) && (c == '\n' || rest == [])
    ensures AreLines([[c]] + rest) && Concat([[c]] + rest) == [c] + Concat(rest)
  {
    var lines := [[c]] + rest;
    assert lines[1..] == rest;
    assert forall i | 1 <= i < |lines| :: lines[i] == rest[i - 1];
  }

  lemma CharBefore(c: char, rest: seq<string>)
    requires AreLines(rest) && c != '\n' && rest != []
    ensures var lines := [[c] + rest[0]] + rest[1..];
            AreLines(lines) && Concat(lines) == [c] + Concat(rest)
  {
    var lines := [[c] + rest[0]] + rest[1..];
    LongerLine(c, rest[0]);
    assert lines[1..] == rest[1..];
    forall i | 0 <= i < |lines| ensures IsOneLine(lines[i]) && (EndsLine(lines[i]) <==> EndsLine(rest[i])) {
    }
    ConsConcat([c], rest[0], Concat(rest[1..]));
  }

  lemma ConsConcat(a: string, b: string, c: string)
    ensures (a + b) + c == a + (b + c)
  {
  }

  lemma LongerLine(c: char, line: string)
    requires IsOneLine(line) && c != '\n'
    ensures IsOneLine([c] + line) && (EndsLine([c] + line) <==> EndsLine(line))
  {
    var longer := [c] + line;
    assert longer[..|longer| - 1] == [c] + line[..|line| - 1];
  }

  lemma {:induction false} LastTailIsLastLine(front: string, last: string)
    requires front == [] || EndsLine(front)
    requires '\n' !in last
    ensures LastTail(front + last) == if front == [] then None else Some(last)
    decreases |last|
  {
    if last == [] {
      assert front + last == front;
    } else {
      LastTailIsLastLine(front, last[..|last| - 1]);
      assert (front + last)[..|front + last| - 1] == front + last[..|last| - 1];
      assert last == last[..|last| - 1] + [last[|last| - 1]] && last[|last| - 1] in last;
    }
  }

  lemma {:induction false} ConcatSplitsOffLast(lines: seq<string>)
    requires lines != []
    ensures Concat(lines) == Concat(lines[..|lines| - 1]) + lines[|lines| - 1]
  {
    if |lines| > 1 {
      ConcatSplitsOffLast(lines[1..]);
      assert lines[1..][..|lines| - 2] == lines[..|lines| - 1][1..];
    }
  }

  // The last line without a newline is what follows the last newline.
  lemma LastLineIsTail(lines: seq<string>)
    requires AreLines(lines) && lines != [] && !EndsLine(lines[|lines| - 1])
    ensures LastTail(Concat(lines)).Some? ==> LastTail(Concat(lines)).value == lines[|lines| - 1]
  {
    var earlier, last := lines[..|lines| - 1], lines[|lines| - 1];
    ConcatSplitsOffLast(lines);
    UnendedLine(last);
    if earlier != [] {
      assert earlier[|earlier| - 1] == lines[|lines| - 2];
      EndOfConcat(earlier);
    }
    LastTailIsLastLine(Concat(earlier), last);
  }

  lemma UnendedLine(line: string)
    requires IsOneLine(line) && !EndsLine(line)
    ensures '\n' !in line
  {
    assert line == line[..|line| - 1] + [line[|line| - 1]];
  }

  lemma EndOfConcat(lines: seq<string>)
    requires lines != [] && EndsLine(lines[|lines| - 1])
    ensures EndsLine(Concat(lines))
  {
    ConcatSplitsOffLast(lines);
    EndOfPair(Concat(lines[..|lines| - 1]), lines[|lines| - 1]);
  }

  lemma EndOfPair(a: string, b: string)
    requires EndsLine(b)
    ensures EndsLine(a + b)
  {
  }

  // Splitting loses no text, and the extra push after it never happens.
  lemma SplitLinesKeepsText(contents: string)
    ensures Concat(SplitLines(contents)) == contents
    ensures contents != [] ==> SplitLines(contents) == SplitInclusive(contents) && AreLines(SplitLines(contents))
  {
    if contents != [] {
      SplitInclusiveKeepsText(contents);
      var lines := SplitInclusive(contents);
      ConcatSplitsOffLast(lines);
      if contents[|contents| - 1] != '\n' {
        LastLineIsTail(lines);
      }
    }
  }
}
