/**
 Recursive includes. The preprocessor walks includes depth first with a stack of the files it is
 in; the finite include tree is the independent description of what it should produce.
 */
module IncludeTree {
  import opened ConfigPaths
  import EnvExpand

  datatype Error =
    | Cycle(chain: seq<Name>)
    | BadDirective
    | EmptyInclude
    | UnsupportedGlob
    | NotADirectory
    | Unreadable
    | Placeholder(cause: EnvExpand.Error)

  datatype Result<+T> = Ok(value: T) | Err(error: Error)

  datatype Glob = Plain | RonFiles | Unsupported

  // An include pattern: absolute or relative to the including file, and possibly `*.ron`.
  datatype Pattern = Pattern(absolute: bool, components: Path, glob: Glob)

  datatype Directive = Text | Include(pattern: Pattern) | Malformed

  // Files by normalised name, the `.ron` names of each directory in order, the reading of a line
  // as an include directive, and the environment.
  datatype World = World(
    files: map<Name, string>,
    directories: map<Name, seq<string>>,
    directive: string -> Directive,
    env: EnvExpand.Env)

  function Read(w: World, path: Path): Result<string> {
    if NamesAFile(path) && Normalize(path) in w.files then Ok(w.files[Normalize(path)]) else Err(Unreadable)
  }

  function Resolve(w: World, source: Path, pattern: Pattern): Result<seq<Path>> {
    if pattern.components == [] then Err(EmptyInclude)
    else
      var resolved := if pattern.absolute then pattern.components else Parent(source) + pattern.components;
      match pattern.glob
      case Plain => Ok([resolved])
      case Unsupported => Err(UnsupportedGlob)
      case RonFiles =>
        RonFilesIn(w, Parent(resolved))
  }

  function RonFilesIn(w: World, directory: Path): Result<seq<Path>> {
    if Normalize(directory) in w.directories then
      var names := w.directories[Normalize(directory)];
      Ok(seq(|names|, i requires 0 <= i < |names| => directory + [Normal(names[i])]))
    else if Normalize(directory) in w.files then Err(NotADirectory)
    else Ok([])
  }

  predicate EndsWithNewline(s: string) {
    s != [] && s[|s| - 1] == '\n'
  }

  function Terminated(included: string, newline: bool): string {
    if newline && !EndsWithNewline(included) then included + "\n" else included
  }

  function ExpandText(w: World, line: string): Result<string> {
    var r := EnvExpand.Expanded(EnvExpand.Outside, line, 0, w.env);
    if r.Err? then Err(Placeholder(r.error)) else Ok(r.value)
  }

  // The position of the first occurrence of a name on the stack.
  function Position(stack: seq<Name>, name: Name): (i: nat)
    requires name in stack
    ensures i < |stack| && stack[i] == name && name !in stack[..i]
  {
    if stack[0] == name then 0
    else
      assert stack == [stack[0]] + stack[1..];
      var i := Position(stack[1..], name);
      assert stack[..i + 1] == [stack[0]] + stack[1..][..i];
      i + 1
  }

  // ----- The walk, with its measure: the known files that are not on the stack -----

  ghost function Names(stack: seq<Name>): set<Name> {
    set i | 0 <= i < |stack| :: stack[i]
  }

  lemma PushShrinks(known: set<Name>, stack: seq<Name>, name: Name)
    requires name in known && name !in stack
    ensures |known - Names(stack + [name])| < |known - Names(stack)|
  {
    var more := stack + [name];
    assert Names(more) == Names(stack) + {name} by {
      assert more[|stack|] == name;
      assert forall i | 0 <= i < |stack| :: more[i] == stack[i];
    }
    assert known - Names(stack) == (known - Names(more)) + {name};
  }

  ghost predicate Knows(w: World, known: set<Name>) {
    forall name | name in w.files :: name in known
  }

  ghost function WalkFile(w: World, known: set<Name>, path: Path, contents: string, stack: seq<Name>): Result<string>
    requires Knows(w, known) && Normalize(path) in known
    decreases |known - Names(stack)|, 0, 0
  {
    var name := Normalize(path);
    if name in stack then Err(Cycle(stack[Position(stack, name)..] + [name]))
    else
      PushShrinks(known, stack, name);
      WalkLines(w, known, path, SplitLines(contents), stack + [name])
  }

  ghost function WalkLines(w: World, known: set<Name>, path: Path, lines: seq<string>, stack: seq<Name>): Result<string>
    requires Knows(w, known)
    decreases |known - Names(stack)|, 3, |lines|
  {
    if lines == [] then Ok("")
    else Join(WalkLine(w, known, path, lines[0], stack), WalkLines(w, known, path, lines[1..], stack))
  }

  ghost function WalkLine(w: World, known: set<Name>, path: Path, line: string, stack: seq<Name>): Result<string>
    requires Knows(w, known)
    decreases |known - Names(stack)|, 2, 0
  {
    match w.directive(line)
    case Malformed => Err(BadDirective)
    case Text => ExpandText(w, line)
    case Include(pattern) =>
      var paths := Resolve(w, path, pattern);
      if paths.Err? then Err(paths.error) else WalkIncludes(w, known, paths.value, EndsWithNewline(line), stack)
  }

  ghost function WalkIncludes(w: World, known: set<Name>, paths: seq<Path>, newline: bool, stack: seq<Name>): Result<string>
    requires Knows(w, known)
    decreases |known - Names(stack)|, 1, |paths|
  {
    if paths == [] then Ok("")
    else
      var contents := Read(w, paths[0]);
      if contents.Err? then Err(contents.error)
      else
        var included := WalkFile(w, known, paths[0], contents.value, stack);
        if included.Err? then included
        else Join(Ok(Terminated(included.value, newline)), WalkIncludes(w, known, paths[1..], newline, stack))
  }

  // The first failure wins; otherwise the texts follow each other.
  function Join(a: Result<string>, b: Result<string>): Result<string> {
    if a.Err? then a else if b.Err? then b else Ok(a.value + b.value)
  }

  // ----- Include trees -----

  datatype Tree = Tree(lines: seq<Line>)

  datatype Line = Verbatim(text: string) | Included(trees: seq<Tree>, newline: bool)

  // The tree spells out one file: every line, and every file that every include names.
  ghost predicate IsTree(w: World, path: Path, contents: string, tree: Tree)
    decreases tree
  {
    var lines := SplitLines(contents);
    |tree.lines| == |lines| && forall i | 0 <= i < |lines| :: IsLine(w, path, lines[i], tree.lines[i])
  }

  ghost predicate IsLine(w: World, path: Path, line: string, expected: Line)
    decreases expected
  {
    match w.directive(line)
    case Malformed => false
    case Text => expected.Verbatim? && ExpandText(w, line) == Ok(expected.text)
    case Include(pattern) =>
      var paths := Resolve(w, path, pattern);
      && expected.Included? && paths.Ok? && |expected.trees| == |paths.value|
      && expected.newline == EndsWithNewline(line)
      && forall i | 0 <= i < |paths.value| ::
           Read(w, paths.value[i]).Ok?
           && IsTree(w, paths.value[i], Read(w, paths.value[i]).value, expected.trees[i])
  }

  function Flatten(tree: Tree): string
    decreases tree
  {
    FlattenLines(tree.lines)
  }

  function FlattenLines(lines: seq<Line>): string
    decreases lines
  {
    if lines == [] then ""
    else
      (match lines[0]
       case Verbatim(text) => text
       case Included(trees, newline) => FlattenTrees(trees, newline))
      + FlattenLines(lines[1..])
  }

  function FlattenTrees(trees: seq<Tree>, newline: bool): string
    decreases trees
  {
    if trees == [] then "" else Terminated(Flatten(trees[0]), newline) + FlattenTrees(trees[1..], newline)
  }
}
