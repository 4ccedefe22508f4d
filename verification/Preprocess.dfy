/**
 The preprocessor as it runs: a shared include stack pushed and popped around each file, and the
 output appended line by line.
 */
module Preprocess {
  import opened ConfigPaths
  import opened IncludeTree
  import IncludeTheorems
  import EnvExpand

  class IncludeStack {
    var paths: seq<Name>

    constructor ()
      ensures paths == []
    {
      paths := [];
    }
  }

  lemma JoinFolds(a: string, b: string, r: Result<string>)
    ensures Join(Ok(a), Join(Ok(b), r)) == Join(Ok(a + b), r)
    ensures Join(Ok(""), r) == r
  {
    if r.Ok? {
      assert a + (b + r.value) == a + b + r.value && "" + r.value == r.value;
    }
  }

  method PreprocessFile(w: World, contents: string, path: Path, stack: IncludeStack, ghost known: set<Name>)
    returns (r: Result<string>)
    requires Knows(w, known) && Normalize(path) in known
    modifies stack
    ensures r == WalkFile(w, known, path, contents, old(stack.paths))
    ensures r.Ok? ==> stack.paths == old(stack.paths)
    decreases |known - Names(stack.paths)|, 0, 0
  {
    var name := NormalizePathForStack(path);
    if name in stack.paths {
      var index := Position(stack.paths, name);
      return Err(Cycle(stack.paths[index..] + [name]));
    }
    PushShrinks(known, stack.paths, name);
    ghost var outer := stack.paths;
    stack.paths := stack.paths + [name];
    var lines := SplitLines(contents);
    var expanded := "";
    JoinFolds("", "", WalkLines(w, known, path, lines, stack.paths));
    assert lines[0..] == lines;
    for i := 0 to |lines|
      invariant stack.paths == outer + [name]
      invariant WalkLines(w, known, path, lines, outer + [name])
             == Join(Ok(expanded), WalkLines(w, known, path, lines[i..], outer + [name]))
    {
      assert lines[i..][1..] == lines[i + 1..];
      var line := PreprocessLine(w, lines[i], path, stack, known);
      if line.Err? {
        return line;
      }
      JoinFolds(expanded, line.value, WalkLines(w, known, path, lines[i + 1..], outer + [name]));
      expanded := expanded + line.value;
    }
    assert expanded + "" == expanded;
    stack.paths := stack.paths[..|stack.paths| - 1];
    r := Ok(expanded);
  }

  method PreprocessLine(w: World, line: string, path: Path, stack: IncludeStack, ghost known: set<Name>)
    returns (r: Result<string>)
    requires Knows(w, known)
    modifies stack
    ensures r == WalkLine(w, known, path, line, old(stack.paths))
    ensures r.Ok? ==> stack.paths == old(stack.paths)
    decreases |known - Names(stack.paths)|, 2, 0
  {
    match w.directive(line)
    case Malformed => return Err(BadDirective);
    case Text =>
      var text := EnvExpand.Expand(line, w.env);
      return if text.Err? then Err(Placeholder(text.error)) else Ok(text.value);
    case Include(pattern) =>
      var paths := Resolve(w, path, pattern);
      if paths.Err? {
        return Err(paths.error);
      }
      r := PreprocessIncludes(w, paths.value, EndsWithNewline(line), stack, known);
  }

  method PreprocessIncludes(w: World, paths: seq<Path>, newline: bool, stack: IncludeStack, ghost known: set<Name>)
    returns (r: Result<string>)
    requires Knows(w, known)
    modifies stack
    ensures r == WalkIncludes(w, known, paths, newline, old(stack.paths))
    ensures r.Ok? ==> stack.paths == old(stack.paths)
    decreases |known - Names(stack.paths)|, 1, |paths|
  {
    var expanded := "";
    ghost var outer := stack.paths;
    JoinFolds("", "", WalkIncludes(w, known, paths, newline, outer));
    assert paths[0..] == paths;
    for i := 0 to |paths|
      invariant stack.paths == outer
      invariant WalkIncludes(w, known, paths, newline, outer)
             == Join(Ok(expanded), WalkIncludes(w, known, paths[i..], newline, outer))
    {
      assert paths[i..][1..] == paths[i + 1..];
      var contents := Read(w, paths[i]);
      if contents.Err? {
        return Err(contents.error);
      }
      var included := PreprocessFile(w, contents.value, paths[i], stack, known);
      if included.Err? {
        return included;
      }
      var text := Terminated(included.value, newline);
      JoinFolds(expanded, text, WalkIncludes(w, known, paths[i + 1..], newline, outer));
      expanded := expanded + text;
    }
    assert expanded + "" == expanded;
    r := Ok(expanded);
  }

  /** Preprocessing a file on disk: it succeeds exactly when the file has a finite include tree,
      returns that tree's text, and on well-formed files fails only for a reachable cycle. */
  method PreprocessSource(w: World, path: Path) returns (r: Result<string>)
    requires Read(w, path).Ok?
    ensures r.Ok? <==> exists tree :: IsTree(w, path, Read(w, path).value, tree)
    ensures forall tree | IsTree(w, path, Read(w, path).value, tree) :: r == Ok(Flatten(tree))
    ensures IncludeTheorems.WellFormed(w, path) ==> (r.Err? <==> IncludeTheorems.Cyclic(w, path))
    ensures r.Err? && r.error.Cycle? ==> IncludeTheorems.Cyclic(w, path)
  {
    ghost var known := w.files.Keys;
    var stack := new IncludeStack();
    var contents := Read(w, path);
    r := PreprocessFile(w, contents.value, path, stack, known);
    IncludeTheorems.SucceedsIffTree(w, known, path);
    if IncludeTheorems.WellFormed(w, path) {
      IncludeTheorems.FailsIffCyclic(w, known, path);
    }
    if r.Err? && r.error.Cycle? {
      IncludeTheorems.CycleErrorIsReal(w, known, path);
    }
  }
}
