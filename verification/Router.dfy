/**
 Location choice within a virtual host: a one-pass scan for the best exact and prefix
 candidates and a second pass for regexes, against the declarative rule.
 Regex matching is a parameter.
 */
module Router {
  import opened Wrappers

  datatype Matcher =
    | Exact(path: string)
    | PreferredPrefix(path: string)
    | Prefix(path: string)
    | Regex(pattern: string)

  datatype GrpcMatch = GrpcMatch(service: Option<string>, rpcMethod: Option<string>)

  datatype Route = Route(matcher: Matcher, grpc: Option<GrpcMatch>)

  datatype Request = Request(path: string, grpc: Option<(string, string)>)

  type RegexEngine = (string, string) -> bool

  predicate PrefixMatches(prefix: string, path: string) {
    || prefix == "/"
    || path == prefix
    || (prefix <= path && (EndsWithSlash(prefix) || (|path| > |prefix| && path[|prefix|] == '/')))
  }

  predicate EndsWithSlash(s: string) {
    s != [] && s[|s| - 1] == '/'
  }

  predicate MatcherMatches(m: Matcher, path: string, regex: RegexEngine) {
    match m
    case Exact(expected) => path == expected
    case PreferredPrefix(prefix) => PrefixMatches(prefix, path)
    case Prefix(prefix) => PrefixMatches(prefix, path)
    case Regex(pattern) => regex(pattern, path)
  }

  predicate GrpcMatches(m: GrpcMatch, service: string, rpcMethod: string) {
    && (m.service.None? || m.service.value == service)
    && (m.rpcMethod.None? || m.rpcMethod.value == rpcMethod)
  }

  predicate Matches(route: Route, request: Request, regex: RegexEngine) {
    && MatcherMatches(route.matcher, request.path, regex)
    && (route.grpc.None?
        || (request.grpc.Some? && GrpcMatches(route.grpc.value, request.grpc.value.0, request.grpc.value.1)))
  }

  function GrpcRank(route: Route): nat {
    if route.grpc.None? then 0
    else (if route.grpc.value.service.Some? then 1 else 0) + (if route.grpc.value.rpcMethod.Some? then 1 else 0)
  }

  // ----- Candidates and their order -----

  datatype Candidate = Candidate(index: nat, length: nat, rank: nat, preferred: bool)

  function CandidateFor(index: nat, route: Route): Candidate {
    match route.matcher
    case Exact(path) => Candidate(index, |path|, GrpcRank(route), false)
    case PreferredPrefix(path) => Candidate(index, |path|, GrpcRank(route), true)
    case Prefix(path) => Candidate(index, |path|, GrpcRank(route), false)
    case Regex(_) => Candidate(index, 0, GrpcRank(route), false)
  }

  // Longer, then preferred, then more specific gRPC, then earlier.
  predicate Beats(a: Candidate, b: Candidate) {
    || a.length > b.length
    || (a.length == b.length && a.preferred && !b.preferred)
    || (a.length == b.length && a.preferred == b.preferred && a.rank > b.rank)
    || (a.length == b.length && a.preferred == b.preferred && a.rank == b.rank && a.index < b.index)
  }

  lemma BeatsIsStrictTotalOrder(a: Candidate, b: Candidate, c: Candidate)
    ensures !Beats(a, a)
    ensures Beats(a, b) && Beats(b, c) ==> Beats(a, c)
    ensures a.index != b.index ==> Beats(a, b) != Beats(b, a)
  {
  }

  function MoreSpecific(current: Option<Candidate>, candidate: Candidate): Option<Candidate> {
    if current.None? then Some(candidate)
    else
      var existing := current.value;
      if candidate.length > existing.length then Some(candidate)
      else if candidate.length < existing.length then Some(existing)
      else if candidate.preferred && !existing.preferred then Some(candidate)
      else if !candidate.preferred && existing.preferred then Some(existing)
      else if candidate.rank > existing.rank then Some(candidate)
      else if candidate.rank < existing.rank then Some(existing)
      else if candidate.index < existing.index then Some(candidate)
      else Some(existing)
  }

  // ----- The declarative rule -----

  datatype Kind = ExactKind | PrefixKind | RegexKind

  function KindOf(m: Matcher): Kind {
    match m
    case Exact(_) => ExactKind
    case PreferredPrefix(_) => PrefixKind
    case Prefix(_) => PrefixKind
    case Regex(_) => RegexKind
  }

  // Route `i`, among the first `n`, is of the kind and matches.
  ghost predicate Hit(routes: seq<Route>, n: nat, request: Request, regex: RegexEngine, kind: Kind, i: int)
    requires n <= |routes|
  {
    0 <= i < n && KindOf(routes[i].matcher) == kind && Matches(routes[i], request, regex)
  }

  // The best hit of the kind among the first `n` routes: it beats all the others.
  ghost predicate Best(routes: seq<Route>, n: nat, request: Request, regex: RegexEngine, kind: Kind, best: Option<Candidate>)
    requires n <= |routes|
  {
    match best
    case None => forall i :: !Hit(routes, n, request, regex, kind, i)
    case Some(c) =>
      && Hit(routes, n, request, regex, kind, c.index)
      && c == CandidateFor(c.index, routes[c.index])
      && forall i | Hit(routes, n, request, regex, kind, i) && i != c.index :: Beats(c, CandidateFor(i, routes[i]))
  }

  ghost predicate FirstRegex(routes: seq<Route>, request: Request, regex: RegexEngine, first: Option<nat>) {
    match first
    case None => forall i :: !Hit(routes, |routes|, request, regex, RegexKind, i)
    case Some(k) =>
      && Hit(routes, |routes|, request, regex, RegexKind, k)
      && forall i | i < k :: !Hit(routes, |routes|, request, regex, RegexKind, i)
  }

  // Best exact match; else the best prefix if it is preferred; else the first regex; else the best prefix.
  function Pick(exact: Option<Candidate>, prefix: Option<Candidate>, first: Option<nat>): Option<nat> {
    if exact.Some? then Some(exact.value.index)
    else if prefix.Some? && prefix.value.preferred then Some(prefix.value.index)
    else if first.Some? then first
    else if prefix.Some? then Some(prefix.value.index)
    else None
  }

  ghost predicate Chosen(routes: seq<Route>, request: Request, regex: RegexEngine, choice: Option<nat>) {
    exists exact, prefix, first ::
      && Best(routes, |routes|, request, regex, ExactKind, exact)
      && Best(routes, |routes|, request, regex, PrefixKind, prefix)
      && FirstRegex(routes, request, regex, first)
      && choice == Pick(exact, prefix, first)
  }

  lemma BestIsUnique(routes: seq<Route>, request: Request, regex: RegexEngine, kind: Kind, a: Option<Candidate>, b: Option<Candidate>)
    requires Best(routes, |routes|, request, regex, kind, a) && Best(routes, |routes|, request, regex, kind, b)
    ensures a == b
  {
    if a.Some? && b.Some? && a.value.index != b.value.index {
      BeatsIsStrictTotalOrder(a.value, b.value, a.value);
    }
  }

  // The rule names at most one route.
  lemma ChosenIsUnique(routes: seq<Route>, request: Request, regex: RegexEngine, a: Option<nat>, b: Option<nat>)
    requires Chosen(routes, request, regex, a) && Chosen(routes, request, regex, b)
    ensures a == b
  {
    var e1, p1, f1 :|
      && Best(routes, |routes|, request, regex, ExactKind, e1) && Best(routes, |routes|, request, regex, PrefixKind, p1)
      && FirstRegex(routes, request, regex, f1) && a == Pick(e1, p1, f1);
    var e2, p2, f2 :|
      && Best(routes, |routes|, request, regex, ExactKind, e2) && Best(routes, |routes|, request, regex, PrefixKind, p2)
      && FirstRegex(routes, request, regex, f2) && b == Pick(e2, p2, f2);
    BestIsUnique(routes, request, regex, ExactKind, e1, e2);
    BestIsUnique(routes, request, regex, PrefixKind, p1, p2);
    FirstRegexIsUnique(routes, request, regex, f1, f2);
  }

  lemma FirstRegexIsUnique(routes: seq<Route>, request: Request, regex: RegexEngine, a: Option<nat>, b: Option<nat>)
    requires FirstRegex(routes, request, regex, a) && FirstRegex(routes, request, regex, b)
    ensures a == b
  {
    if a.Some? && b.Some? {
      assert !(a.value < b.value) && !(b.value < a.value);
    }
  }

  lemma ChosenMatches(routes: seq<Route>, request: Request, regex: RegexEngine, choice: Option<nat>)
    requires Chosen(routes, request, regex, choice)
    ensures choice.Some? ==> choice.value < |routes| && Matches(routes[choice.value], request, regex)
    ensures choice.None? <==> forall i | 0 <= i < |routes| :: !Matches(routes[i], request, regex)
  {
    if choice.None? {
      forall i | 0 <= i < |routes| ensures !Matches(routes[i], request, regex) {
        assert !Hit(routes, |routes|, request, regex, KindOf(routes[i].matcher), i);
      }
    }
  }

  // ----- The rule spelled out on paths and positions -----

  // The request has what the route asks for.
  ghost predicate Fits(route: Route, request: Request, regex: RegexEngine) {
    && FitsPath(route.matcher, request.path, regex)
    && (route.grpc.Some? ==>
          && request.grpc.Some?
          && (route.grpc.value.service.Some? ==> route.grpc.value.service.value == request.grpc.value.0)
          && (route.grpc.value.rpcMethod.Some? ==> route.grpc.value.rpcMethod.value == request.grpc.value.1))
  }

  ghost predicate FitsPath(m: Matcher, path: string, regex: RegexEngine) {
    match m
    case Exact(p) => p == path
    case PreferredPrefix(p) => LiesUnder(p, path)
    case Prefix(p) => LiesUnder(p, path)
    case Regex(pattern) => regex(pattern, path)
  }

  // The prefix itself, or something below it; the root covers everything.
  ghost predicate LiesUnder(prefix: string, path: string) {
    || prefix == "/" || path == prefix
    || (exists rest :: path == prefix + "/" + rest)
    || (EndsWithSlash(prefix) && exists rest :: path == prefix + rest)
  }

  lemma LiesUnderIffMatches(prefix: string, path: string)
    ensures LiesUnder(prefix, path) <==> PrefixMatches(prefix, path)
  {
    if prefix <= path {
      assert path == prefix + path[|prefix|..];
      if |path| > |prefix| && path[|prefix|] == '/' {
        assert path == prefix + "/" + path[|prefix| + 1..];
      }
    }
  }

  lemma FitsIffMatches(route: Route, request: Request, regex: RegexEngine)
    ensures Fits(route, request, regex) <==> Matches(route, request, regex)
  {
    match route.matcher
    case PreferredPrefix(p) => LiesUnderIffMatches(p, request.path);
    case Prefix(p) => LiesUnderIffMatches(p, request.path);
    case _ =>
  }

  predicate IsPrefix(m: Matcher) {
    m.Prefix? || m.PreferredPrefix?
  }

  // How many of service and method the route fixes.
  ghost function FixedFields(route: Route): nat {
    match route.grpc
    case None => 0
    case Some(g) => |(if g.service.Some? then {"service"} else {}) + (if g.rpcMethod.Some? then {"method"} else {})|
  }

  // Longer; at equal length preferred; then more fields fixed; then earlier, or the same route.
  ghost predicate AtLeast(routes: seq<Route>, c: nat, j: nat)
    requires c < |routes| && j < |routes| && !routes[c].matcher.Regex? && !routes[j].matcher.Regex?
  {
    var a, b := routes[c], routes[j];
    || |a.matcher.path| > |b.matcher.path|
    || (|a.matcher.path| == |b.matcher.path|
        && (|| (a.matcher.PreferredPrefix? && !b.matcher.PreferredPrefix?)
            || (a.matcher.PreferredPrefix? == b.matcher.PreferredPrefix?
                && (FixedFields(a) > FixedFields(b) || (FixedFields(a) == FixedFields(b) && c <= j)))))
  }

  // Route `i` fits, and is an exact one, or a prefix, or a regex.
  ghost predicate ExactFit(routes: seq<Route>, request: Request, regex: RegexEngine, i: nat) {
    i < |routes| && routes[i].matcher.Exact? && Fits(routes[i], request, regex)
  }

  ghost predicate PrefixFit(routes: seq<Route>, request: Request, regex: RegexEngine, i: nat) {
    i < |routes| && IsPrefix(routes[i].matcher) && Fits(routes[i], request, regex)
  }

  ghost predicate RegexFit(routes: seq<Route>, request: Request, regex: RegexEngine, i: nat) {
    i < |routes| && routes[i].matcher.Regex? && Fits(routes[i], request, regex)
  }

  ghost predicate BestPrefix(routes: seq<Route>, request: Request, regex: RegexEngine, c: nat) {
    PrefixFit(routes, request, regex, c)
    && forall j | PrefixFit(routes, request, regex, j) :: AtLeast(routes, c, j)
  }

  /**
   An exact route goes before all others; a preferred prefix that is the best prefix before regexes;
   the first regex before other prefixes; and nothing is chosen only if nothing fits.
   */
  ghost predicate Follows(routes: seq<Route>, request: Request, regex: RegexEngine, choice: Option<nat>) {
    match choice
    case None => forall i | 0 <= i < |routes| :: !Fits(routes[i], request, regex)
    case Some(c) =>
      && c < |routes|
      && match routes[c].matcher
         case Exact(_) =>
           ExactFit(routes, request, regex, c)
           && forall j | ExactFit(routes, request, regex, j) :: AtLeast(routes, c, j)
         case PreferredPrefix(_) =>
           (forall j :: !ExactFit(routes, request, regex, j)) && BestPrefix(routes, request, regex, c)
         case Regex(_) =>
           && RegexFit(routes, request, regex, c)
           && (forall j :: !ExactFit(routes, request, regex, j))
           && (forall j: nat | j < c :: !RegexFit(routes, request, regex, j))
           && (forall j: nat | PrefixFit(routes, request, regex, j) && routes[j].matcher.PreferredPrefix? ::
                 exists k: nat :: PrefixFit(routes, request, regex, k) && |routes[k].matcher.path| > |routes[j].matcher.path|)
         case Prefix(_) =>
           && (forall j :: !ExactFit(routes, request, regex, j))
           && (forall j :: !RegexFit(routes, request, regex, j))
           && BestPrefix(routes, request, regex, c)
  }

  lemma HitIffFit(routes: seq<Route>, request: Request, regex: RegexEngine, i: nat)
    ensures Hit(routes, |routes|, request, regex, ExactKind, i) <==> ExactFit(routes, request, regex, i)
    ensures Hit(routes, |routes|, request, regex, PrefixKind, i) <==> PrefixFit(routes, request, regex, i)
    ensures Hit(routes, |routes|, request, regex, RegexKind, i) <==> RegexFit(routes, request, regex, i)
  {
    if i < |routes| {
      FitsIffMatches(routes[i], request, regex);
    }
  }

  lemma FixedFieldsIsRank(route: Route)
    ensures FixedFields(route) == GrpcRank(route)
  {
    assert |{"service"}| == 1 && |{"method"}| == 1 && |{"service", "method"}| == 2;
    assert {"service"} + {"method"} == {"service", "method"};
    assert {"service"} + {} == {"service"} && {} + {"method"} == {"method"};
  }

  lemma BeatsIsAtLeast(routes: seq<Route>, c: nat, j: nat)
    requires c < |routes| && j < |routes| && !routes[c].matcher.Regex? && !routes[j].matcher.Regex?
    requires c == j || Beats(CandidateFor(c, routes[c]), CandidateFor(j, routes[j]))
    ensures AtLeast(routes, c, j)
  {
    FixedFieldsIsRank(routes[c]);
    FixedFieldsIsRank(routes[j]);
  }

  lemma BestIsAtLeast(routes: seq<Route>, request: Request, regex: RegexEngine, kind: Kind, best: Option<Candidate>)
    requires Best(routes, |routes|, request, regex, kind, best) && best.Some? && kind != RegexKind
    ensures forall j: nat | Hit(routes, |routes|, request, regex, kind, j) :: AtLeast(routes, best.value.index, j)
  {
    forall j: nat | Hit(routes, |routes|, request, regex, kind, j) ensures AtLeast(routes, best.value.index, j) {
      BeatsIsAtLeast(routes, best.value.index, j);
    }
  }

  lemma NoHitNoFit(routes: seq<Route>, request: Request, regex: RegexEngine, kind: Kind)
    requires forall i :: !Hit(routes, |routes|, request, regex, kind, i)
    ensures kind == ExactKind ==> forall j :: !ExactFit(routes, request, regex, j)
    ensures kind == PrefixKind ==> forall j :: !PrefixFit(routes, request, regex, j)
    ensures kind == RegexKind ==> forall j :: !RegexFit(routes, request, regex, j)
  {
    forall j: nat
      ensures !(kind == ExactKind && ExactFit(routes, request, regex, j))
           && !(kind == PrefixKind && PrefixFit(routes, request, regex, j))
           && !(kind == RegexKind && RegexFit(routes, request, regex, j))
    {
      HitIffFit(routes, request, regex, j);
    }
  }

  lemma BestPrefixFollows(routes: seq<Route>, request: Request, regex: RegexEngine, best: Option<Candidate>)
    requires Best(routes, |routes|, request, regex, PrefixKind, best) && best.Some?
    ensures BestPrefix(routes, request, regex, best.value.index)
    ensures routes[best.value.index].matcher.PreferredPrefix? == best.value.preferred
  {
    var c := best.value.index;
    BestIsAtLeast(routes, request, regex, PrefixKind, best);
    HitIffFit(routes, request, regex, c);
    forall j | PrefixFit(routes, request, regex, j) ensures AtLeast(routes, c, j) {
      HitIffFit(routes, request, regex, j);
    }
  }

  lemma BestExactFollows(routes: seq<Route>, request: Request, regex: RegexEngine, best: Option<Candidate>)
    requires Best(routes, |routes|, request, regex, ExactKind, best) && best.Some?
    ensures Follows(routes, request, regex, Some(best.value.index))
  {
    var c := best.value.index;
    BestIsAtLeast(routes, request, regex, ExactKind, best);
    HitIffFit(routes, request, regex, c);
    forall j | ExactFit(routes, request, regex, j) ensures AtLeast(routes, c, j) {
      HitIffFit(routes, request, regex, j);
    }
  }

  lemma FirstRegexFollows(
      routes: seq<Route>, request: Request, regex: RegexEngine, prefix: Option<Candidate>, first: nat)
    requires forall j :: !ExactFit(routes, request, regex, j)
    requires Best(routes, |routes|, request, regex, PrefixKind, prefix) && (prefix.Some? ==> !prefix.value.preferred)
    requires FirstRegex(routes, request, regex, Some(first))
    ensures Follows(routes, request, regex, Some(first))
  {
    HitIffFit(routes, request, regex, first);
    forall j: nat | j < first ensures !RegexFit(routes, request, regex, j) {
      HitIffFit(routes, request, regex, j);
    }
    forall j: nat | PrefixFit(routes, request, regex, j) && routes[j].matcher.PreferredPrefix?
      ensures exists k: nat :: PrefixFit(routes, request, regex, k) && |routes[k].matcher.path| > |routes[j].matcher.path|
    {
      HitIffFit(routes, request, regex, j);
      BestPrefixFollows(routes, request, regex, prefix);
      assert AtLeast(routes, prefix.value.index, j);
    }
  }

  lemma ChosenFollows(routes: seq<Route>, request: Request, regex: RegexEngine, choice: Option<nat>)
    requires Chosen(routes, request, regex, choice)
    ensures Follows(routes, request, regex, choice)
  {
    var exact, prefix, first :|
      && Best(routes, |routes|, request, regex, ExactKind, exact) && Best(routes, |routes|, request, regex, PrefixKind, prefix)
      && FirstRegex(routes, request, regex, first) && choice == Pick(exact, prefix, first);
    if exact.Some? {
      BestExactFollows(routes, request, regex, exact);
      return;
    }
    NoHitNoFit(routes, request, regex, ExactKind);
    if prefix.Some? {
      BestPrefixFollows(routes, request, regex, prefix);
    } else {
      NoHitNoFit(routes, request, regex, PrefixKind);
    }
    if first.Some? {
      if prefix.None? || !prefix.value.preferred {
        FirstRegexFollows(routes, request, regex, prefix, first.value);
      }
    } else {
      NoHitNoFit(routes, request, regex, RegexKind);
      if choice.None? {
        NothingFits(routes, request, regex);
      }
    }
  }

  lemma NothingFits(routes: seq<Route>, request: Request, regex: RegexEngine)
    requires forall j :: !ExactFit(routes, request, regex, j)
    requires forall j :: !PrefixFit(routes, request, regex, j)
    requires forall j :: !RegexFit(routes, request, regex, j)
    ensures forall i | 0 <= i < |routes| :: !Fits(routes[i], request, regex)
  {
    forall i: nat | i < |routes| ensures !Fits(routes[i], request, regex) {
      assert !ExactFit(routes, request, regex, i) && !PrefixFit(routes, request, regex, i) && !RegexFit(routes, request, regex, i);
    }
  }

  lemma AtLeastIsAntisymmetric(routes: seq<Route>, c: nat, j: nat)
    requires c < |routes| && j < |routes| && !routes[c].matcher.Regex? && !routes[j].matcher.Regex?
    requires AtLeast(routes, c, j) && AtLeast(routes, j, c)
    ensures c == j
  {
  }

  // The rule as spelled out names at most one route.
  lemma FollowsIsUnique(routes: seq<Route>, request: Request, regex: RegexEngine, a: Option<nat>, b: Option<nat>)
    requires Follows(routes, request, regex, a) && Follows(routes, request, regex, b)
    ensures a == b
  {
    if a.Some? && b.Some? {
      var c, j := a.value, b.value;
      if ExactFit(routes, request, regex, c) && ExactFit(routes, request, regex, j) {
        AtLeastIsAntisymmetric(routes, c, j);
      } else if PrefixFit(routes, request, regex, c) && PrefixFit(routes, request, regex, j) {
        assert AtLeast(routes, c, j) && AtLeast(routes, j, c);
        AtLeastIsAntisymmetric(routes, c, j);
      } else {
        RegexOrBest(routes, request, regex, c, j);
        RegexOrBest(routes, request, regex, j, c);
      }
    }
  }

  // A regex and a prefix cannot both follow the rule.
  lemma RegexOrBest(routes: seq<Route>, request: Request, regex: RegexEngine, c: nat, j: nat)
    requires Follows(routes, request, regex, Some(c)) && Follows(routes, request, regex, Some(j))
    ensures !(RegexFit(routes, request, regex, c) && PrefixFit(routes, request, regex, j))
  {
  }

  // ----- The scan -----

  lemma BestSkips(routes: seq<Route>, n: nat, request: Request, regex: RegexEngine, kind: Kind, best: Option<Candidate>)
    requires n < |routes| && Best(routes, n, request, regex, kind, best)
    requires !Hit(routes, n + 1, request, regex, kind, n)
    ensures Best(routes, n + 1, request, regex, kind, best)
  {
    if best.None? {
      var m := n + 1;
      forall i ensures !Hit(routes, m, request, regex, kind, i) {
        assert !Hit(routes, n, request, regex, kind, i);
      }
    } else {
      assert Hit(routes, n, request, regex, kind, best.value.index);
      assert Hit(routes, n + 1, request, regex, kind, best.value.index);
      forall i | Hit(routes, n + 1, request, regex, kind, i) && i != best.value.index
        ensures Beats(best.value, CandidateFor(i, routes[i]))
      {
        assert Hit(routes, n, request, regex, kind, i);
      }
    }
  }

  lemma BestImproves(routes: seq<Route>, n: nat, request: Request, regex: RegexEngine, kind: Kind, best: Option<Candidate>)
    requires n < |routes| && Best(routes, n, request, regex, kind, best)
    requires Hit(routes, n + 1, request, regex, kind, n)
    ensures Best(routes, n + 1, request, regex, kind, MoreSpecific(best, CandidateFor(n, routes[n])))
  {
    var c, after := CandidateFor(n, routes[n]), MoreSpecific(best, CandidateFor(n, routes[n]));
    assert best.Some? ==> Hit(routes, n, request, regex, kind, best.value.index);
    assert Hit(routes, n + 1, request, regex, kind, after.value.index);
    forall i | Hit(routes, n + 1, request, regex, kind, i) && i != after.value.index
      ensures Beats(after.value, CandidateFor(i, routes[i]))
    {
      if i < n {
        assert Hit(routes, n, request, regex, kind, i);
        BeatsIsStrictTotalOrder(c, best.value, CandidateFor(i, routes[i]));
      }
    }
  }

  method SelectRoute(routes: seq<Route>, request: Request, regex: RegexEngine) returns (choice: Option<nat>)
    ensures Chosen(routes, request, regex, choice)
    ensures Follows(routes, request, regex, choice)
  {
    var exact: Option<Candidate>, prefix: Option<Candidate> := None, None;
    for index := 0 to |routes|
      invariant Best(routes, index, request, regex, ExactKind, exact)
      invariant Best(routes, index, request, regex, PrefixKind, prefix)
    {
      var route := routes[index];
      if !Matches(route, request, regex) {
        BestSkips(routes, index, request, regex, ExactKind, exact);
        BestSkips(routes, index, request, regex, PrefixKind, prefix);
        continue;
      }
      match KindOf(route.matcher)
      case ExactKind =>
        BestImproves(routes, index, request, regex, ExactKind, exact);
        BestSkips(routes, index, request, regex, PrefixKind, prefix);
        exact := MoreSpecific(exact, CandidateFor(index, route));
      case PrefixKind =>
        BestSkips(routes, index, request, regex, ExactKind, exact);
        BestImproves(routes, index, request, regex, PrefixKind, prefix);
        prefix := MoreSpecific(prefix, CandidateFor(index, route));
      case RegexKind =>
        BestSkips(routes, index, request, regex, ExactKind, exact);
        BestSkips(routes, index, request, regex, PrefixKind, prefix);
    }
    var first := FindRegex(routes, request, regex);
    choice := Pick(exact, prefix, first);
    ChosenFollows(routes, request, regex, choice);
  }

  method FindRegex(routes: seq<Route>, request: Request, regex: RegexEngine) returns (first: Option<nat>)
    ensures FirstRegex(routes, request, regex, first)
  {
    for index := 0 to |routes|
      invariant forall i | i < index :: !Hit(routes, |routes|, request, regex, RegexKind, i)
    {
      if routes[index].matcher.Regex? && Matches(routes[index], request, regex) {
        return Some(index);
      }
    }
    return None;
  }
}
