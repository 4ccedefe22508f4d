/**
 What an include stands for: which files each pattern names, and how their texts are put together.
 */
module IncludeLaws {
  import opened ConfigPaths
  import opened IncludeTree

  // ----- Which files -----

  // A plain pattern names one file, relative to the directory of the including file or absolute.
  lemma PlainPattern(w: World, directory: Path, file: string, components: Path)
    requires components != []
    ensures Resolve(w, directory + [Normal(file)], Pattern(false, components, Plain)) == Ok([directory + components])
    ensures Resolve(w, directory + [Normal(file)], Pattern(true, components, Plain)) == Ok([components])
  {
    assert (directory + [Normal(file)])[..|directory|] == directory;
  }

  // `*.ron` in a directory names its files in the order of the listing.
  lemma RonPattern(w: World, directory: Path, file: string, below: Path, star: Component, i: nat)
    requires Normalize(directory + below) in w.directories
    requires i < |w.directories[Normalize(directory + below)]|
    ensures var r := Resolve(w, directory + [Normal(file)], Pattern(false, below + [star], RonFiles));
            var names := w.directories[Normalize(directory + below)];
            && r.Ok? && |r.value| == |names|
            && r.value[i] == directory + below + [Normal(names[i])]
            && Normalize(r.value[i]) == Normalize(directory + below) + [names[i]]
  {
    var dir := directory + below;
    ListedDirectory(w, directory, file, below, star);
    ClimbCancels(dir, w.directories[Normalize(dir)][i], []);
  }

  lemma ListedDirectory(w: World, directory: Path, file: string, below: Path, star: Component)
    ensures Resolve(w, directory + [Normal(file)], Pattern(false, below + [star], RonFiles))
         == RonFilesIn(w, directory + below)
  {
    var dir := directory + below;
    assert Parent(directory + [Normal(file)]) == directory;
    assert directory + (below + [star]) == dir + [star];
    assert Parent(dir + [star]) == dir;
  }

  // A directory that is not there names nothing; a file in its place, another glob and an empty
  // pattern are errors.
  lemma OtherPatterns(w: World, directory: Path, star: Component, source: Path)
    requires Normalize(directory) !in w.directories
    ensures Resolve(w, source, Pattern(true, directory + [star], RonFiles))
         == if Normalize(directory) in w.files then Err(NotADirectory) else Ok([])
    ensures Resolve(w, source, Pattern(true, directory + [star], Unsupported)) == Err(UnsupportedGlob)
    ensures Resolve(w, source, Pattern(true, [], Plain)) == Err(EmptyInclude)
  {
    assert (directory + [star])[..|directory|] == directory;
  }

  // ----- How the texts are put together -----

  // An include on a line of its own is given a final newline if it lacks one; nothing else changes.
  lemma TerminatedMeans(text: string, newline: bool)
    ensures text <= Terminated(text, newline)
    ensures newline ==> Terminated(text, newline) != [] && Terminated(text, newline)[|Terminated(text, newline)| - 1] == '\n'
    ensures !newline || (text != [] && text[|text| - 1] == '\n') ==> Terminated(text, newline) == text
    ensures |Terminated(text, newline)| <= |text| + 1
  {
  }

  // Whether the include line itself ends in a newline.
  lemma NewlineMeans(line: string)
    ensures EndsWithNewline(line) <==> exists text :: line == text + ['\n']
  {
    if EndsWithNewline(line) {
      assert line == line[..|line| - 1] + ['\n'];
    }
  }

  ghost function LineText(line: Line): string {
    match line
    case Verbatim(text) => text
    case Included(trees, newline) => Concat(TreeTexts(trees, newline))
  }

  ghost function TreeTexts(trees: seq<Tree>, newline: bool): seq<string> {
    seq(|trees|, i requires 0 <= i < |trees| => Terminated(Flatten(trees[i]), newline))
  }

  // The texts of the included files follow each other in order.
  lemma {:induction false} TreesInOrder(trees: seq<Tree>, newline: bool)
    ensures FlattenTrees(trees, newline) == Concat(TreeTexts(trees, newline))
    decreases |trees|
  {
    if trees != [] {
      TreesInOrder(trees[1..], newline);
      assert TreeTexts(trees, newline)[1..] == TreeTexts(trees[1..], newline);
    }
  }

  // And so do the lines of a file, each include replaced by its texts.
  lemma {:induction false} LinesInOrder(lines: seq<Line>)
    ensures FlattenLines(lines) == Concat(seq(|lines|, i requires 0 <= i < |lines| => LineText(lines[i])))
    decreases |lines|
  {
    if lines != [] {
      var texts := seq(|lines|, i requires 0 <= i < |lines| => LineText(lines[i]));
      LinesInOrder(lines[1..]);
      if lines[0].Included? {
        TreesInOrder(lines[0].trees, lines[0].newline);
      }
      assert texts[1..] == seq(|lines[1..]|, i requires 0 <= i < |lines[1..]| => LineText(lines[1..][i]));
    }
  }
}
