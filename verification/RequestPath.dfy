/**
 Request-path normalisation: a stack evaluation of the path's segments, rendered again.
 */
module RequestPath {
  import Router
  import opened Wrappers

  // ----- Splitting and joining at slashes -----

  function Split(s: string): (r: seq<string>)
    ensures |r| >= 1
  {
    if s == [] then [""]
    else
      var rest := Split(s[1..]);
      Extend(s[0], rest)
  }

  function Join(segments: seq<string>): string {
    if segments == [] then ""
    else if |segments| == 1 then segments[0]
    else segments[0] + "/" + Join(segments[1..])
  }

  // One character further left.
  function Extend(c: char, pieces: seq<string>): seq<string>
    requires |pieces| >= 1
  {
    if c == '/' then [""] + pieces else [[c] + pieces[0]] + pieces[1..]
  }

  lemma SplitCons(c: char, s: string)
    ensures Split([c] + s) == Extend(c, Split(s))
  {
    assert ([c] + s)[1..] == s;
  }

  lemma ExtendConcat(c: char, a: seq<string>, b: seq<string>)
    requires |a| >= 1
    ensures Extend(c, a + b) == Extend(c, a) + b
  {
    assert (a + b)[1..] == a[1..] + b;
  }

  lemma {:induction false} SplitAtSlash(a: string, b: string)
    ensures Split(a + "/" + b) == Split(a) + Split(b)
    decreases |a|
  {
    if a == [] {
      assert a + "/" + b == ['/'] + b;
      SplitCons('/', b);
    } else {
      var c, rest := a[0], a[1..];
      SplitAtSlash(rest, b);
      assert a == [c] + rest && a + "/" + b == [c] + (rest + "/" + b);
      SplitCons(c, rest);
      SplitCons(c, rest + "/" + b);
      ExtendConcat(c, Split(rest), Split(b));
    }
  }

  lemma {:induction false} SplitPlain(s: string)
    requires '/' !in s
    ensures Split(s) == [s]
  {
    if s != [] {
      SplitPlain(s[1..]);
      assert [s[0]] + s[1..] == s;
    }
  }

  // ----- Good segments and canonical paths -----

  // An empty segment or a single dot.
  predicate Stays(segment: string) {
    |segment| == 0 || (|segment| == 1 && segment[0] == '.')
  }

  // Two dots.
  predicate Climbs(segment: string) {
    |segment| == 2 && segment[0] == '.' && segment[1] == '.'
  }

  ghost predicate Good(segment: string) {
    !Stays(segment) && !Climbs(segment) && '/' !in segment
  }

  ghost predicate AllGood(segments: seq<string>) {
    forall i | 0 <= i < |segments| :: Good(segments[i])
  }

  function Render(segments: seq<string>, trailingSlash: bool): string {
    "/" + Join(segments) + if trailingSlash && segments != [] then "/" else ""
  }

  // Either the asterisk form, or a leading slash, good segments, and at most one trailing slash.
  ghost predicate Canonical(path: string) {
    path == "*" || exists segments, trailingSlash :: AllGood(segments) && path == Render(segments, trailingSlash)
  }

  lemma {:induction false} SplitJoin(segments: seq<string>)
    requires segments != [] && AllGood(segments)
    ensures Split(Join(segments)) == segments
  {
    SplitPlain(segments[0]);
    if |segments| > 1 {
      SplitJoin(segments[1..]);
      SplitAtSlash(segments[0], Join(segments[1..]));
    }
  }

  lemma {:induction false} JoinEnds(segments: seq<string>)
    requires segments != [] && AllGood(segments)
    ensures Join(segments) != "" && Join(segments)[|Join(segments)| - 1] != '/' && Join(segments)[0] != '/'
  {
    assert Good(segments[0]) && segments[0][0] in segments[0] && segments[0][|segments[0]| - 1] in segments[0];
    if |segments| > 1 {
      JoinEnds(segments[1..]);
    }
  }

  // The pieces of a canonical path: an empty one before the first slash, the segments, and an
  // empty one after a final slash.
  lemma SplitRender(segments: seq<string>, trailingSlash: bool)
    requires AllGood(segments)
    ensures Split(Render(segments, trailingSlash))
         == [""] + segments + (if trailingSlash || segments == [] then [""] else [])
  {
    var body := Join(segments);
    if segments == [] {
      SplitAtSlash("", "");
      assert Render(segments, trailingSlash) == "" + "/" + "";
    } else {
      SplitJoin(segments);
      SplitAtSlash("", body);
      assert "" + "/" + body == "/" + body;
      if trailingSlash {
        SplitAtSlash("/" + body, "");
        assert Render(segments, true) == ("/" + body) + "/" + "";
      } else {
        assert Render(segments, false) == "/" + body;
      }
    }
  }

  // ----- Stack evaluation -----

  // Walking the segments with a stack: `None` once `..` climbs above the root.
  function Evaluate(segments: seq<string>): Option<seq<string>> {
    if segments == [] then Some([])
    else
      var before := Evaluate(segments[..|segments| - 1]);
      if before.None? then None else Visit(before.value, segments[|segments| - 1])
  }

  function Visit(stack: seq<string>, segment: string): Option<seq<string>> {
    if Stays(segment) then Some(stack)
    else if Climbs(segment) then if stack == [] then None else Some(stack[..|stack| - 1])
    else Some(stack + [segment])
  }

  lemma {:induction false} EvaluateGood(segments: seq<string>)
    requires forall i | 0 <= i < |segments| :: '/' !in segments[i]
    ensures Evaluate(segments).Some? ==> AllGood(Evaluate(segments).value)
  {
    if segments != [] {
      EvaluateGood(segments[..|segments| - 1]);
    }
  }

  lemma VisitGood(stack: seq<string>, segment: string)
    requires Good(segment)
    ensures Visit(stack, segment) == Some(stack + [segment])
  {
  }

  lemma {:induction false} EvaluateOfGood(segments: seq<string>)
    requires AllGood(segments)
    ensures Evaluate(segments) == Some(segments)
  {
    if segments != [] {
      var shorter, last := segments[..|segments| - 1], segments[|segments| - 1];
      assert segments == shorter + [last];
      EvaluateOfGood(shorter);
      VisitGood(shorter, last);
      assert Evaluate(segments) == Visit(Evaluate(shorter).value, last);
    }
  }

  lemma {:induction false} EvaluateSkipsLeadingEmpty(segments: seq<string>)
    ensures Evaluate([""] + segments) == Evaluate(segments)
    decreases |segments|
  {
    var all := [""] + segments;
    if segments == [] {
      assert all[..0] == [];
    } else {
      EvaluateSkipsLeadingEmpty(segments[..|segments| - 1]);
      assert all[..|all| - 1] == [""] + segments[..|segments| - 1];
    }
  }

  // The pieces of a canonical path evaluate to its segments.
  lemma EvaluateRender(segments: seq<string>, trailingSlash: bool)
    requires AllGood(segments)
    ensures Evaluate(Split(Render(segments, trailingSlash))) == Some(segments)
  {
    SplitRender(segments, trailingSlash);
    EvaluateOfGood(segments);
    EvaluateSkipsLeadingEmpty(segments);
    if trailingSlash || segments == [] {
      var all := [""] + segments + [""];
      assert all[..|all| - 1] == [""] + segments;
    } else {
      assert [""] + segments + [] == [""] + segments;
    }
  }

  // Going on from a stack.
  function EvaluateFrom(stack: Option<seq<string>>, segments: seq<string>): Option<seq<string>> {
    if segments == [] then stack
    else
      var before := EvaluateFrom(stack, segments[..|segments| - 1]);
      if before.None? then None else Visit(before.value, segments[|segments| - 1])
  }

  lemma {:induction false} EvaluateConcat(a: seq<string>, b: seq<string>)
    ensures Evaluate(a + b) == EvaluateFrom(Evaluate(a), b)
    decreases |b|
  {
    if b == [] {
      assert a + b == a;
    } else {
      EvaluateConcat(a, b[..|b| - 1]);
      assert (a + b)[..|a + b| - 1] == a + b[..|b| - 1];
    }
  }

  // A segment and a climb after it cancel out; empty segments and dots do nothing.
  lemma ClimbCancels(a: seq<string>, segment: string, b: seq<string>)
    requires Good(segment)
    ensures Evaluate(a + [segment, ".."] + b) == Evaluate(a + b)
    ensures Evaluate(a + ["."] + b) == Evaluate(a + b) == Evaluate(a + [""] + b)
  {
    CancelsAtEnd(a, segment);
    EvaluateConcat(a + [segment, ".."], b);
    EvaluateConcat(a + ["."], b);
    EvaluateConcat(a + [""], b);
    EvaluateConcat(a, b);
  }

  lemma CancelsAtEnd(a: seq<string>, segment: string)
    requires Good(segment)
    ensures Evaluate(a + [segment, ".."]) == Evaluate(a)
    ensures Evaluate(a + ["."]) == Evaluate(a) == Evaluate(a + [""])
  {
    var once := a + [segment];
    assert (a + [segment, ".."])[..|a| + 1] == once && once[..|a|] == a;
    assert (a + ["."])[..|a|] == a && (a + [""])[..|a|] == a;
    if Evaluate(a).Some? {
      VisitGood(Evaluate(a).value, segment);
      assert Evaluate(once) == Some(Evaluate(a).value + [segment]);
      assert Visit(Evaluate(once).value, "..") == Some(Evaluate(a).value);
    }
  }

  // Segments that go down minus segments that climb.
  function Depth(segments: seq<string>): int {
    if segments == [] then 0
    else
      var last := segments[|segments| - 1];
      Depth(segments[..|segments| - 1]) + if Stays(last) then 0 else if Climbs(last) then -1 else 1
  }

  // Somewhere on the way there are more climbs than segments to climb from.
  ghost predicate EscapesRoot(segments: seq<string>) {
    exists n | 0 <= n <= |segments| :: Depth(segments[..n]) < 0
  }

  // The walk fails exactly when the path climbs above the root; otherwise it ends as deep as it should.
  lemma {:induction false} FailsIffEscapes(segments: seq<string>)
    ensures Evaluate(segments).None? <==> EscapesRoot(segments)
    ensures Evaluate(segments).Some? ==> |Evaluate(segments).value| == Depth(segments)
  {
    if segments == [] {
      assert forall n | 0 <= n <= |segments| :: segments[..n] == [];
    } else {
      var before := segments[..|segments| - 1];
      FailsIffEscapes(before);
      EscapesSooner(segments);
    }
  }

  lemma EscapesSooner(segments: seq<string>)
    requires segments != []
    ensures EscapesRoot(segments) <==> EscapesRoot(segments[..|segments| - 1]) || Depth(segments) < 0
  {
    var before := segments[..|segments| - 1];
    if EscapesRoot(before) {
      var n :| 0 <= n <= |before| && Depth(before[..n]) < 0;
      assert segments[..n] == before[..n];
    }
    if Depth(segments) < 0 {
      assert segments[..|segments|] == segments;
    }
    if EscapesRoot(segments) {
      var n :| 0 <= n <= |segments| && Depth(segments[..n]) < 0;
      if n < |segments| {
        assert before[..n] == segments[..n];
      } else {
        assert segments[..n] == segments;
      }
    }
  }

  // A path that would climb above the root becomes the root.
  lemma EscapeBecomesRoot(path: string)
    requires path != "*"
    ensures EscapesRoot(Split(path)) ==> Normalized(path) == "/"
  {
    FailsIffEscapes(Split(path));
  }

  lemma {:induction false} SplitHasNoSlash(s: string)
    ensures forall i | 0 <= i < |Split(s)| :: '/' !in Split(s)[i]
  {
    if s != [] {
      SplitHasNoSlash(s[1..]);
      var rest, all := Split(s[1..]), Split(s);
      assert forall i | 1 <= i < |all| :: all[i] == if s[0] == '/' then rest[i - 1] else rest[i];
    }
  }

  // ----- Normalisation -----

  // What the normaliser promises: the root if the path climbs above it, otherwise the evaluated
  // segments, keeping a trailing slash.
  function Normalized(path: string): string {
    if path == "*" then "*"
    else
      var evaluated := Evaluate(Split(path));
      if evaluated.None? then "/" else Render(evaluated.value, path != [] && path[|path| - 1] == '/')
  }

  // The segment loop.
  method WalkSegments(pieces: seq<string>) returns (r: Option<seq<string>>)
    ensures r == Evaluate(pieces)
  {
    var segments: seq<string> := [];
    for i := 0 to |pieces|
      invariant Evaluate(pieces[..i]) == Some(segments)
    {
      assert pieces[..i + 1][..i] == pieces[..i];
      var segment := pieces[i];
      if segment == "" || segment == "." {
      } else if segment == ".." {
        if segments == [] {
          EvaluateStaysNone(pieces, i + 1);
          return None;
        }
        segments := segments[..|segments| - 1];
      } else {
        segments := segments + [segment];
      }
    }
    assert pieces[..|pieces|] == pieces;
    return Some(segments);
  }

  // The edits that turn the segments back into a path.
  method Assemble(segments: seq<string>, absolute: bool, trailingSlash: bool) returns (normalized: string)
    requires AllGood(segments)
    ensures normalized == Render(segments, trailingSlash)
  {
    if segments != [] {
      JoinEnds(segments);
    }
    normalized := if absolute then "/" else "";
    normalized := normalized + Join(segments);
    if normalized == "" {
      normalized := "/";
    }
    if trailingSlash && normalized != "/" && normalized[|normalized| - 1] != '/' {
      normalized := normalized + "/";
    }
    if normalized[0] != '/' {
      normalized := "/" + normalized;
    }
  }

  method NormalizeRequestPath(original: string) returns (normalized: string)
    ensures normalized == Normalized(original)
    ensures Canonical(normalized)
  {
    NormalizedIsCanonical(original);
    if original == "*" {
      return "*";
    }
    EmptyIsRoot();
    var path := if original == "" then "/" else original;
    var segments := WalkSegments(Split(path));
    if segments.None? {
      return "/";
    }
    SplitHasNoSlash(path);
    EvaluateGood(Split(path));
    normalized := Assemble(segments.value, path[0] == '/', path[|path| - 1] == '/');
  }

  lemma EmptyIsRoot()
    ensures Evaluate(Split("")) == Evaluate(Split("/")) == Some([])
  {
    SplitAtSlash("", "");
    assert "" + "/" + "" == "/";
    EvaluateSkipsLeadingEmpty([""]);
    EvaluateSkipsLeadingEmpty([]);
    assert [""] + [] == [""];
  }

  lemma {:induction false} EvaluateStaysNone(segments: seq<string>, i: nat)
    requires i <= |segments| && Evaluate(segments[..i]).None?
    ensures Evaluate(segments).None?
    decreases |segments| - i
  {
    if i < |segments| {
      assert segments[..i + 1][..i] == segments[..i];
      EvaluateStaysNone(segments, i + 1);
    } else {
      assert segments[..i] == segments;
    }
  }

  lemma NormalizedIsCanonical(path: string)
    ensures Canonical(Normalized(path))
  {
    SplitHasNoSlash(path);
    EvaluateGood(Split(path));
    assert "/" == Render([], false) && AllGood([]);
  }

  // A canonical path is its own normal form, so normalising twice is normalising once.
  lemma CanonicalIsFixed(path: string)
    requires Canonical(path)
    ensures Normalized(path) == path
  {
    if path != "*" {
      var segments, trailingSlash :| AllGood(segments) && path == Render(segments, trailingSlash);
      EvaluateRender(segments, trailingSlash);
      if segments != [] {
        JoinEnds(segments);
      }
    }
  }

  lemma NormalizeIdempotent(path: string)
    ensures Normalized(Normalized(path)) == Normalized(path)
  {
    NormalizedIsCanonical(path);
    CanonicalIsFixed(Normalized(path));
  }

  // ----- Prefix locations on canonical paths -----

  lemma CutAtSlash(prefix: string, path: string) returns (rest: string)
    requires prefix <= path && |path| > |prefix| && path[|prefix|] == '/'
    ensures path == prefix + "/" + rest
  {
    rest := path[|prefix| + 1..];
    assert path[|prefix|..] == "/" + rest;
  }

  lemma SegmentPrefixFromPieces(p: seq<string>, q: seq<string>, end: seq<string>, rest: seq<string>)
    requires AllGood(p) && (end == [] || end == [""])
    requires [""] + q + end == [""] + p + rest
    ensures p <= q
  {
    var all := [""] + q + end;
    assert forall i | 0 <= i < |p| :: p[i] == all[i + 1];
    assert forall i | 0 <= i < |q| :: q[i] == all[i + 1];
    assert end == [""] ==> all[|all| - 1] == "" && |all| == |q| + 2;
    assert p != [] ==> Good(p[|p| - 1]) && p[|p| - 1] == all[|p|];
  }

  lemma {:induction false} JoinAppend(p: seq<string>, rest: seq<string>)
    requires p != [] && rest != []
    ensures Join(p + rest) == Join(p) + "/" + Join(rest)
  {
    var all := p + rest;
    if |p| == 1 {
      assert all[1..] == rest;
    } else {
      JoinAppend(p[1..], rest);
      assert all[1..] == p[1..] + rest;
    }
  }

  // A prefix location without trailing slash matches exactly the paths whose segments extend its own.
  lemma PrefixMatchesSegments(p: seq<string>, q: seq<string>, trailingSlash: bool)
    requires AllGood(p) && AllGood(q)
    ensures Router.PrefixMatches(Render(p, false), Render(q, trailingSlash)) <==> p <= q
  {
    var prefix, path := Render(p, false), Render(q, trailingSlash);
    SplitRender(p, false);
    SplitRender(q, trailingSlash);
    if p == [] {
      assert prefix == "/";
    } else {
      JoinEnds(p);
      assert prefix == "/" + Join(p) && prefix != "/";
      if path == prefix {
        SegmentPrefixFromPieces(p, q, if trailingSlash || q == [] then [""] else [], []);
      } else if Router.PrefixMatches(prefix, path) {
        var rest := CutAtSlash(prefix, path);
        SplitAtSlash(prefix, rest);
        SegmentPrefixFromPieces(p, q, if trailingSlash || q == [] then [""] else [], Split(rest));
      }
      if p <= q {
        ExtendedPath(p, q, trailingSlash);
      }
    }
  }

  lemma ExtendedPath(p: seq<string>, q: seq<string>, trailingSlash: bool)
    requires p != [] && p <= q
    ensures Router.PrefixMatches(Render(p, false), Render(q, trailingSlash))
  {
    var prefix, path, rest := Render(p, false), Render(q, trailingSlash), q[|p|..];
    assert q == p + rest;
    assert prefix == "/" + Join(p);
    if rest == [] {
      assert q == p;
      assert path == prefix + if trailingSlash then "/" else "";
    } else {
      JoinAppend(p, rest);
      assert path == prefix + ("/" + Join(rest) + if trailingSlash then "/" else "");
    }
  }

  lemma SlashPrefixGivesSegments(p: seq<string>, q: seq<string>, trailingSlash: bool)
    requires AllGood(p) && AllGood(q) && p != []
    requires Render(p, true) <= Render(q, trailingSlash)
    ensures p <= q && (|q| > |p| || trailingSlash)
  {
    var base, path := Render(p, false), Render(q, trailingSlash);
    assert Render(p, true) == base + "/";
    assert base <= path && |path| > |base| && path[|base|] == '/';
    var rest := CutAtSlash(base, path);
    SplitRender(p, false);
    SplitRender(q, trailingSlash);
    SplitAtSlash(base, rest);
    SegmentPrefixFromPieces(p, q, if trailingSlash || q == [] then [""] else [], Split(rest));
  }

  // With a trailing slash it matches what lies below it, and itself only with the slash.
  lemma SlashPrefixMatchesSegments(p: seq<string>, q: seq<string>, trailingSlash: bool)
    requires AllGood(p) && AllGood(q) && p != []
    ensures Router.PrefixMatches(Render(p, true), Render(q, trailingSlash)) <==>
            p <= q && (|q| > |p| || trailingSlash)
  {
    var prefix, path := Render(p, true), Render(q, trailingSlash);
    JoinEnds(p);
    assert |prefix| > 1 && Router.EndsWithSlash(prefix);
    assert Router.PrefixMatches(prefix, path) <==> prefix <= path;
    if prefix <= path {
      SlashPrefixGivesSegments(p, q, trailingSlash);
    }
    if p <= q && (|q| > |p| || trailingSlash) {
      ExtendedSlashPath(p, q, trailingSlash);
    }
  }

  lemma ExtendedSlashPath(p: seq<string>, q: seq<string>, trailingSlash: bool)
    requires p != [] && p <= q && (|q| > |p| || trailingSlash)
    ensures Render(p, true) <= Render(q, trailingSlash)
  {
    var rest := q[|p|..];
    assert q == p + rest;
    if rest == [] {
      assert q == p;
    } else {
      JoinAppend(p, rest);
      assert Render(q, trailingSlash) == Render(p, true) + (Join(rest) + if trailingSlash then "/" else "");
    }
  }
}
