/**
 What the include walk computes: it succeeds exactly when a finite include tree exists and then
 returns that tree's text; on well-formed files it fails exactly when an include cycle is
 reachable.
 */
module IncludeTheorems {
  import opened ConfigPaths
  import opened IncludeTree

  // ----- A successful walk comes from a tree -----

  lemma {:induction false} TreeOfFile(w: World, known: set<Name>, path: Path, contents: string, stack: seq<Name>)
    returns (tree: Tree)
    requires Knows(w, known) && Normalize(path) in known && WalkFile(w, known, path, contents, stack).Ok?
    ensures IsTree(w, path, contents, tree)
    ensures Flatten(tree) == WalkFile(w, known, path, contents, stack).value
    decreases |known - Names(stack)|, 0, 0
  {
    PushShrinks(known, stack, Normalize(path));
    var lines := TreeOfLines(w, known, path, SplitLines(contents), stack + [Normalize(path)]);
    tree := Tree(lines);
  }

  lemma {:induction false} TreeOfLines(w: World, known: set<Name>, path: Path, lines: seq<string>, stack: seq<Name>)
    returns (r: seq<Line>)
    requires Knows(w, known) && WalkLines(w, known, path, lines, stack).Ok?
    ensures |r| == |lines| && forall i | 0 <= i < |lines| :: IsLine(w, path, lines[i], r[i])
    ensures FlattenLines(r) == WalkLines(w, known, path, lines, stack).value
    decreases |known - Names(stack)|, 3, |lines|
  {
    r := [];
    if lines != [] {
      var first := TreeOfLine(w, known, path, lines[0], stack);
      var rest := TreeOfLines(w, known, path, lines[1..], stack);
      r := [first] + rest;
      FlattenFirst(first, rest);
      LinesFollow(w, path, lines, first, rest);
    }
  }

  lemma FlattenFirst(first: Line, rest: seq<Line>)
    ensures FlattenLines([first] + rest) == FlattenLines([first]) + FlattenLines(rest)
  {
    assert ([first] + rest)[1..] == rest && [first][1..] == [];
  }

  lemma LinesFollow(w: World, path: Path, lines: seq<string>, first: Line, rest: seq<Line>)
    requires lines != [] && |rest| == |lines| - 1 && IsLine(w, path, lines[0], first)
    requires forall i | 0 <= i < |rest| :: IsLine(w, path, lines[1..][i], rest[i])
    ensures forall i | 0 <= i < |lines| :: IsLine(w, path, lines[i], ([first] + rest)[i])
  {
    forall i | 0 <= i < |lines| ensures IsLine(w, path, lines[i], ([first] + rest)[i]) {
      if i > 0 {
        assert lines[1..][i - 1] == lines[i];
      }
    }
  }

  lemma {:induction false} TreeOfLine(w: World, known: set<Name>, path: Path, line: string, stack: seq<Name>)
    returns (r: Line)
    requires Knows(w, known) && WalkLine(w, known, path, line, stack).Ok?
    ensures IsLine(w, path, line, r)
    ensures FlattenLines([r]) == WalkLine(w, known, path, line, stack).value
    decreases |known - Names(stack)|, 2, 0
  {
    match w.directive(line)
    case Text =>
      r := Verbatim(ExpandText(w, line).value);
      assert FlattenLines([r]) == r.text + FlattenLines([]);
    case Include(pattern) =>
      var paths := Resolve(w, path, pattern).value;
      var trees := TreesOfIncludes(w, known, paths, EndsWithNewline(line), stack);
      r := Included(trees, EndsWithNewline(line));
      assert FlattenLines([r]) == FlattenTrees(trees, r.newline) + FlattenLines([]);
  }

  lemma {:induction false} TreesOfIncludes(w: World, known: set<Name>, paths: seq<Path>, newline: bool, stack: seq<Name>)
    returns (trees: seq<Tree>)
    requires Knows(w, known) && WalkIncludes(w, known, paths, newline, stack).Ok?
    ensures |trees| == |paths|
    ensures forall i | 0 <= i < |paths| :: Read(w, paths[i]).Ok? && IsTree(w, paths[i], Read(w, paths[i]).value, trees[i])
    ensures FlattenTrees(trees, newline) == WalkIncludes(w, known, paths, newline, stack).value
    decreases |known - Names(stack)|, 1, |paths|
  {
    trees := [];
    if paths != [] {
      var first := TreeOfFile(w, known, paths[0], Read(w, paths[0]).value, stack);
      var rest := TreesOfIncludes(w, known, paths[1..], newline, stack);
      trees := [first] + rest;
      assert trees[1..] == rest;
    }
  }

  // ----- A file has at most one tree, whichever path leads to it -----

  // The same files under paths of the same normal form.
  ghost predicate SameFiles(a: Result<seq<Path>>, b: Result<seq<Path>>) {
    && a.Ok? == b.Ok?
    && (a.Ok? ==>
          && |a.value| == |b.value|
          && forall i | 0 <= i < |a.value| ::
               Normalize(a.value[i]) == Normalize(b.value[i]) && (NamesAFile(a.value[i]) <==> NamesAFile(b.value[i])))
  }

  lemma ListingRespectsNormalForm(w: World, d: Path, e: Path)
    requires Normalize(d) == Normalize(e)
    ensures SameFiles(RonFilesIn(w, d), RonFilesIn(w, e))
  {
    if Normalize(d) in w.directories {
      var names := w.directories[Normalize(d)];
      forall i | 0 <= i < |names|
        ensures Normalize(d + [Normal(names[i])]) == Normalize(e + [Normal(names[i])])
      {
        JoinRespectsNormalForm(d, e, [Normal(names[i])]);
      }
    }
  }

  lemma ParentOfJoin(p: Path, suffix: Path)
    requires suffix != []
    ensures Parent(p + suffix) == p + Parent(suffix)
  {
  }

  lemma ListingBelow(w: World, d: Path, e: Path, suffix: Path)
    requires Normalize(d) == Normalize(e) && suffix != []
    ensures SameFiles(RonFilesIn(w, Parent(d + suffix)), RonFilesIn(w, Parent(e + suffix)))
  {
    ParentOfJoin(d, suffix);
    ParentOfJoin(e, suffix);
    JoinRespectsNormalForm(d, e, Parent(suffix));
    ListingRespectsNormalForm(w, d + Parent(suffix), e + Parent(suffix));
  }

  lemma JoinNamesSameFile(d: Path, e: Path, suffix: Path)
    requires Normalize(d) == Normalize(e) && suffix != []
    ensures SameFiles(Ok([d + suffix]), Ok([e + suffix]))
  {
    JoinRespectsNormalForm(d, e, suffix);
    LastOfJoin(d, suffix);
    LastOfJoin(e, suffix);
  }

  lemma LastOfJoin(d: Path, suffix: Path)
    requires suffix != []
    ensures NamesAFile(d + suffix) <==> NamesAFile(suffix)
  {
  }

  lemma ResolveRespectsNormalForm(w: World, p: Path, q: Path, pattern: Pattern)
    requires NamesAFile(p) && NamesAFile(q) && Normalize(p) == Normalize(q)
    ensures SameFiles(Resolve(w, p, pattern), Resolve(w, q, pattern))
  {
    if !pattern.absolute && pattern.components != [] {
      ParentRespectsNormalForm(p, q);
      match pattern.glob
      case Plain => JoinNamesSameFile(Parent(p), Parent(q), pattern.components);
      case Unsupported =>
      case RonFiles => ListingBelow(w, Parent(p), Parent(q), pattern.components);
    }
  }

  lemma {:induction false} SameTree(w: World, p: Path, q: Path, contents: string, t: Tree, u: Tree)
    requires NamesAFile(p) && NamesAFile(q) && Normalize(p) == Normalize(q)
    requires IsTree(w, p, contents, t) && IsTree(w, q, contents, u)
    ensures t == u
    decreases t
  {
    var lines := SplitLines(contents);
    forall i | 0 <= i < |lines| ensures t.lines[i] == u.lines[i] {
      assert IsLine(w, p, lines[i], t.lines[i]) && IsLine(w, q, lines[i], u.lines[i]);
      SameLine(w, p, q, lines[i], t.lines[i], u.lines[i]);
    }
  }

  lemma {:induction false} SameLine(w: World, p: Path, q: Path, line: string, a: Line, b: Line)
    requires NamesAFile(p) && NamesAFile(q) && Normalize(p) == Normalize(q)
    requires IsLine(w, p, line, a) && IsLine(w, q, line, b)
    ensures a == b
    decreases a
  {
    if w.directive(line).Include? {
      var pattern := w.directive(line).pattern;
      ResolveRespectsNormalForm(w, p, q, pattern);
      var pp, qq := Resolve(w, p, pattern).value, Resolve(w, q, pattern).value;
      forall i | 0 <= i < |pp| ensures a.trees[i] == b.trees[i] {
        assert Read(w, pp[i]) == Read(w, qq[i]);
        SameTree(w, pp[i], qq[i], Read(w, pp[i]).value, a.trees[i], b.trees[i]);
      }
    }
  }

  // ----- A tree makes the walk succeed -----

  // Every tree of a file on the stack properly contains this one.
  ghost predicate Below(w: World, stack: seq<Name>, tree: Tree) {
    forall p: Path, u: Tree | NamesAFile(p) && Normalize(p) in stack && Normalize(p) in w.files
                              && IsTree(w, p, w.files[Normalize(p)], u) ::
      tree < u
  }

  lemma PushBelow(w: World, path: Path, stack: seq<Name>, tree: Tree, sub: Tree)
    requires Read(w, path).Ok? && IsTree(w, path, Read(w, path).value, tree)
    requires Below(w, stack, tree) && sub < tree
    ensures Below(w, stack + [Normalize(path)], sub)
  {
    var more := stack + [Normalize(path)];
    forall p: Path, u: Tree | NamesAFile(p) && Normalize(p) in more && Normalize(p) in w.files
                              && IsTree(w, p, w.files[Normalize(p)], u)
      ensures sub < u
    {
      if Normalize(p) == Normalize(path) {
        SameTree(w, path, p, w.files[Normalize(p)], tree, u);
      } else {
        assert Normalize(p) in stack;
        assert tree < u;
      }
    }
  }

  lemma {:induction false} TreeWalks(w: World, known: set<Name>, path: Path, stack: seq<Name>, tree: Tree)
    requires Knows(w, known) && Read(w, path).Ok? && IsTree(w, path, Read(w, path).value, tree)
    requires Below(w, stack, tree)
    ensures WalkFile(w, known, path, Read(w, path).value, stack) == Ok(Flatten(tree))
    decreases tree
  {
    var name, contents := Normalize(path), Read(w, path).value;
    assert name in stack ==> tree < tree;
    PushShrinks(known, stack, name);
    forall i, j | 0 <= i < |tree.lines| && tree.lines[i].Included? && 0 <= j < |tree.lines[i].trees|
      ensures Below(w, stack + [name], tree.lines[i].trees[j])
    {
      PushBelow(w, path, stack, tree, tree.lines[i].trees[j]);
    }
    TreeWalksLines(w, known, path, SplitLines(contents), stack + [name], tree.lines);
  }

  lemma {:induction false} TreeWalksLines(
      w: World, known: set<Name>, path: Path, lines: seq<string>, stack: seq<Name>, expected: seq<Line>)
    requires Knows(w, known) && |expected| == |lines|
    requires forall i | 0 <= i < |lines| :: IsLine(w, path, lines[i], expected[i])
    requires forall i, j | 0 <= i < |expected| && expected[i].Included? && 0 <= j < |expected[i].trees| ::
               Below(w, stack, expected[i].trees[j])
    ensures WalkLines(w, known, path, lines, stack) == Ok(FlattenLines(expected))
    decreases expected
  {
    if lines != [] {
      assert IsLine(w, path, lines[0], expected[0]);
      if expected[0].Included? {
        var paths := Resolve(w, path, w.directive(lines[0]).pattern).value;
        TreeWalksIncludes(w, known, paths, expected[0].newline, stack, expected[0].trees);
      }
      TreeWalksLines(w, known, path, lines[1..], stack, expected[1..]);
    }
  }

  lemma {:induction false} TreeWalksIncludes(
      w: World, known: set<Name>, paths: seq<Path>, newline: bool, stack: seq<Name>, trees: seq<Tree>)
    requires Knows(w, known) && |trees| == |paths|
    requires forall i | 0 <= i < |paths| :: Read(w, paths[i]).Ok? && IsTree(w, paths[i], Read(w, paths[i]).value, trees[i])
    requires forall i | 0 <= i < |trees| :: Below(w, stack, trees[i])
    ensures WalkIncludes(w, known, paths, newline, stack) == Ok(FlattenTrees(trees, newline))
    decreases trees
  {
    if paths != [] {
      TreeWalks(w, known, paths[0], stack, trees[0]);
      TreeWalksIncludes(w, known, paths[1..], newline, stack, trees[1..]);
    }
  }

  // The walk succeeds exactly when the file has a finite include tree, and returns its text.
  lemma SucceedsIffTree(w: World, known: set<Name>, root: Path)
    requires Knows(w, known) && Read(w, root).Ok?
    ensures WalkFile(w, known, root, Read(w, root).value, []).Ok? <==>
            exists tree :: IsTree(w, root, Read(w, root).value, tree)
    ensures forall tree | IsTree(w, root, Read(w, root).value, tree) ::
              WalkFile(w, known, root, Read(w, root).value, []) == Ok(Flatten(tree))
  {
    var contents := Read(w, root).value;
    if WalkFile(w, known, root, contents, []).Ok? {
      var tree := TreeOfFile(w, known, root, contents, []);
      assert IsTree(w, root, contents, tree);
    }
    forall tree | IsTree(w, root, contents, tree)
      ensures WalkFile(w, known, root, contents, []) == Ok(Flatten(tree))
    {
      TreeWalks(w, known, root, [], tree);
    }
  }

  // ----- Cycles -----

  ghost predicate Names1(w: World, p: Path, line: string, q: Path) {
    && w.directive(line).Include?
    && Resolve(w, p, w.directive(line).pattern).Ok?
    && q in Resolve(w, p, w.directive(line).pattern).value
  }

  // Some line of the file at `p` includes `q`.
  ghost predicate Includes(w: World, p: Path, q: Path) {
    && Read(w, p).Ok? && Read(w, q).Ok?
    && exists i | 0 <= i < |SplitLines(Read(w, p).value)| :: Names1(w, p, SplitLines(Read(w, p).value)[i], q)
  }

  ghost predicate IsTrail(w: World, trail: seq<Path>) {
    trail != [] && forall i | 0 <= i < |trail| - 1 :: Includes(w, trail[i], trail[i + 1])
  }

  ghost predicate ClosesCycle(trail: seq<Path>) {
    exists i | 0 <= i < |trail| - 1 :: Normalize(trail[i]) == Normalize(trail[|trail| - 1])
  }

  // Following includes from the root leads back to a file already passed.
  ghost predicate Cyclic(w: World, root: Path) {
    exists trail :: IsTrail(w, trail) && trail[0] == root && ClosesCycle(trail)
  }

  function NamesOf(trail: seq<Path>): seq<Name> {
    seq(|trail|, i requires 0 <= i < |trail| => Normalize(trail[i]))
  }

  // A line is in order: its directive reads, its placeholders resolve, its includes are readable.
  ghost predicate LineOk(w: World, p: Path, line: string) {
    match w.directive(line)
    case Malformed => false
    case Text => ExpandText(w, line).Ok?
    case Include(pattern) =>
      Resolve(w, p, pattern).Ok? && forall q | q in Resolve(w, p, pattern).value :: Read(w, q).Ok?
  }

  // Every line of every file that includes lead to from the root is in order.
  ghost predicate WellFormed(w: World, root: Path) {
    forall trail: seq<Path> | IsTrail(w, trail) && trail[0] == root :: FileOk(w, trail[|trail| - 1])
  }

  ghost predicate FileOk(w: World, p: Path) {
    Read(w, p).Ok? ==>
      forall i | 0 <= i < |SplitLines(Read(w, p).value)| :: LineOk(w, p, SplitLines(Read(w, p).value)[i])
  }

  // The failures that a cycle explains: the cycle error itself, and any failure of well-formed files.
  ghost predicate Explained(w: World, root: Path, r: Result<string>) {
    r.Err? && (r.error.Cycle? || WellFormed(w, root))
  }

  lemma {:induction false} FailureIsCycle(w: World, known: set<Name>, before: seq<Path>, path: Path)
    requires Knows(w, known) && Read(w, path).Ok? && IsTrail(w, before + [path])
    requires Explained(w, (before + [path])[0], WalkFile(w, known, path, Read(w, path).value, NamesOf(before)))
    ensures Cyclic(w, (before + [path])[0])
    decreases |known - Names(NamesOf(before))|, 0, 0
  {
    var trail, stack := before + [path], NamesOf(before);
    if Normalize(path) in stack {
      var i := Position(stack, Normalize(path));
      assert trail[i] == before[i] && trail[|trail| - 1] == path;
      assert ClosesCycle(trail);
    } else {
      PushShrinks(known, stack, Normalize(path));
      assert NamesOf(trail) == stack + [Normalize(path)];
      FailedLines(w, known, trail, path, SplitLines(Read(w, path).value), 0);
    }
  }

  lemma {:induction false} FailedLines(w: World, known: set<Name>, trail: seq<Path>, path: Path, all: seq<string>, from: nat)
    requires Knows(w, known) && IsTrail(w, trail) && trail[|trail| - 1] == path && Read(w, path).Ok?
    requires all == SplitLines(Read(w, path).value) && from <= |all|
    requires Explained(w, trail[0], WalkLines(w, known, path, all[from..], NamesOf(trail)))
    ensures Cyclic(w, trail[0])
    decreases |known - Names(NamesOf(trail))|, 3, |all| - from
  {
    var line := WalkLine(w, known, path, all[from], NamesOf(trail));
    if line.Err? {
      FailedLine(w, known, trail, path, all, from);
    } else {
      assert all[from..][1..] == all[from + 1..];
      FailedLines(w, known, trail, path, all, from + 1);
    }
  }

  lemma {:induction false} FailedLine(w: World, known: set<Name>, trail: seq<Path>, path: Path, all: seq<string>, i: nat)
    requires Knows(w, known) && IsTrail(w, trail) && trail[|trail| - 1] == path && Read(w, path).Ok?
    requires all == SplitLines(Read(w, path).value) && i < |all|
    requires Explained(w, trail[0], WalkLine(w, known, path, all[i], NamesOf(trail)))
    ensures Cyclic(w, trail[0])
    decreases |known - Names(NamesOf(trail))|, 2, 0
  {
    if WellFormed(w, trail[0]) {
      assert FileOk(w, trail[|trail| - 1]);
      assert LineOk(w, path, all[i]);
    }
    FailedIncludes(w, known, trail, path, all, i, 0);
  }

  lemma {:induction false} FailedIncludes(
      w: World, known: set<Name>, trail: seq<Path>, path: Path, all: seq<string>, i: nat, from: nat)
    requires Knows(w, known) && IsTrail(w, trail) && trail[|trail| - 1] == path && Read(w, path).Ok?
    requires all == SplitLines(Read(w, path).value) && i < |all|
    requires w.directive(all[i]).Include? && Resolve(w, path, w.directive(all[i]).pattern).Ok?
    requires from <= |Resolve(w, path, w.directive(all[i]).pattern).value|
    requires Explained(w, trail[0],
                       WalkIncludes(w, known, Resolve(w, path, w.directive(all[i]).pattern).value[from..],
                                    EndsWithNewline(all[i]), NamesOf(trail)))
    ensures Cyclic(w, trail[0])
    decreases |known - Names(NamesOf(trail))|, 1, |Resolve(w, path, w.directive(all[i]).pattern).value| - from
  {
    var paths := Resolve(w, path, w.directive(all[i]).pattern).value;
    if WellFormed(w, trail[0]) {
      assert FileOk(w, trail[|trail| - 1]);
      assert LineOk(w, path, all[i]);
    }
    var next := paths[from];
    assert next in paths && Read(w, next).Ok?;
    if WalkFile(w, known, next, Read(w, next).value, NamesOf(trail)).Err? {
      assert Names1(w, path, all[i], next);
      assert Includes(w, path, next);
      var longer := trail + [next];
      forall k | 0 <= k < |longer| - 1 ensures Includes(w, longer[k], longer[k + 1]) {
        if k < |trail| - 1 { assert Includes(w, trail[k], trail[k + 1]); }
      }
      FailureIsCycle(w, known, trail, next);
    } else {
      assert paths[from..][1..] == paths[from + 1..];
      FailedIncludes(w, known, trail, path, all, i, from + 1);
    }
  }

  // Along a trail the trees get smaller and smaller.
  lemma {:induction false} TreeAlongTrail(w: World, trail: seq<Path>, tree: Tree, k: nat) returns (sub: Tree)
    requires IsTrail(w, trail) && k < |trail| && Read(w, trail[0]).Ok? && IsTree(w, trail[0], Read(w, trail[0]).value, tree)
    ensures Read(w, trail[k]).Ok? && IsTree(w, trail[k], Read(w, trail[k]).value, sub)
    ensures if k == 0 then sub == tree else sub < tree
    decreases k
  {
    sub := tree;
    if k > 0 {
      var above := TreeAlongTrail(w, trail, tree, k - 1);
      var p, q := trail[k - 1], trail[k];
      assert Includes(w, p, q);
      var lines := SplitLines(Read(w, p).value);
      var i :| 0 <= i < |lines| && Names1(w, p, lines[i], q);
      assert IsLine(w, p, lines[i], above.lines[i]);
      var paths := Resolve(w, p, w.directive(lines[i]).pattern).value;
      var j :| 0 <= j < |paths| && paths[j] == q;
      sub := above.lines[i].trees[j];
      assert above.lines[i].trees[j] < above.lines[i] < above;
    }
  }

  lemma TrailSuffix(w: World, trail: seq<Path>, i: nat)
    requires IsTrail(w, trail) && i < |trail|
    ensures IsTrail(w, trail[i..])
  {
    var rest := trail[i..];
    forall k | 0 <= k < |rest| - 1 ensures Includes(w, rest[k], rest[k + 1]) {
      assert rest[k] == trail[i + k] && rest[k + 1] == trail[i + k + 1];
    }
  }

  // A file that includes itself, however indirectly, has no finite tree.
  lemma LoopHasNoTree(w: World, loop: seq<Path>, tree: Tree)
    requires IsTrail(w, loop) && |loop| >= 2 && Normalize(loop[0]) == Normalize(loop[|loop| - 1])
    requires Read(w, loop[0]).Ok?
    ensures !IsTree(w, loop[0], Read(w, loop[0]).value, tree)
  {
    if IsTree(w, loop[0], Read(w, loop[0]).value, tree) {
      var sub := TreeAlongTrail(w, loop, tree, |loop| - 1);
      SameTree(w, loop[0], loop[|loop| - 1], Read(w, loop[0]).value, tree, sub);
    }
  }

  lemma CycleHasNoTree(w: World, trail: seq<Path>, i: nat, tree: Tree)
    requires IsTrail(w, trail) && i < |trail| - 1 && Normalize(trail[i]) == Normalize(trail[|trail| - 1])
    requires Read(w, trail[0]).Ok?
    ensures !IsTree(w, trail[0], Read(w, trail[0]).value, tree)
  {
    var loop := trail[i..];
    assert loop[0] == trail[i] && loop[|loop| - 1] == trail[|trail| - 1];
    TrailSuffix(w, trail, i);
    if IsTree(w, trail[0], Read(w, trail[0]).value, tree) {
      var upper := TreeAlongTrail(w, trail, tree, i);
      LoopHasNoTree(w, loop, upper);
    }
  }

  lemma CyclicHasNoTree(w: World, root: Path, tree: Tree)
    requires Cyclic(w, root) && Read(w, root).Ok?
    ensures !IsTree(w, root, Read(w, root).value, tree)
  {
    var trail :| IsTrail(w, trail) && trail[0] == root && ClosesCycle(trail);
    var i :| 0 <= i < |trail| - 1 && Normalize(trail[i]) == Normalize(trail[|trail| - 1]);
    CycleHasNoTree(w, trail, i, tree);
  }

  // On well-formed files the walk fails exactly when an include cycle is reachable from the root.
  lemma FailsIffCyclic(w: World, known: set<Name>, root: Path)
    requires Knows(w, known) && Read(w, root).Ok? && WellFormed(w, root)
    ensures WalkFile(w, known, root, Read(w, root).value, []).Err? <==> Cyclic(w, root)
  {
    var contents := Read(w, root).value;
    assert NamesOf([]) == [] && [] + [root] == [root];
    if WalkFile(w, known, root, contents, []).Err? {
      FailureIsCycle(w, known, [], root);
    } else if Cyclic(w, root) {
      var tree := TreeOfFile(w, known, root, contents, []);
      CyclicHasNoTree(w, root, tree);
    }
  }

  // Whatever else is wrong with the files, a cycle error is never a false alarm.
  lemma CycleErrorIsReal(w: World, known: set<Name>, root: Path)
    requires Knows(w, known) && Read(w, root).Ok?
    requires var r := WalkFile(w, known, root, Read(w, root).value, []); r.Err? && r.error.Cycle?
    ensures Cyclic(w, root)
  {
    assert NamesOf([]) == [] && [] + [root] == [root];
    FailureIsCycle(w, known, [], root);
  }
}
