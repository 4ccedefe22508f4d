/**
 Server-name matching and the choice of a virtual host by name.
 */
module ServerNames {
  import opened Strings
  import opened Wrappers

  // ----- Text helpers of the matcher -----

  function Lower(s: string): (r: string)
    ensures |r| == |s|
  {
    seq(|s|, i requires 0 <= i < |s| => LowerChar(s[i]))
  }

  function LowerChar(c: char): char {
    if 'A' <= c <= 'Z' then c - 'A' + 'a' else c
  }

  // Only capital letters change, and none is left.
  lemma LowerHasNoCapitals(s: string, i: nat)
    requires i < |s|
    ensures !('A' <= Lower(s)[i] <= 'Z')
    ensures !('A' <= s[i] <= 'Z') ==> Lower(s)[i] == s[i]
    ensures 'A' <= s[i] <= 'Z' ==> Lower(s)[i] as int == s[i] as int + 32
  {
  }

  // The text before the first occurrence of `c`, or all of it.
  function Before(s: string, c: char): string {
    if s == [] || s[0] == c then [] else [s[0]] + Before(s[1..], c)
  }

  predicate EndsWith(s: string, suffix: string) {
    |suffix| <= |s| && s[|s| - |suffix|..] == suffix
  }

  function NormalizeHost(host: string): string {
    if host != [] && host[0] == '[' && ']' in host[1..] then Lower(Before(host[1..], ']'))
    else Lower(Before(host, ':'))
  }

  // ----- Matching one pattern -----

  datatype Match =
    | Exact
    | DotWildcard(suffixLen: nat)
    | LeadingWildcard(suffixLen: nat)
    | TrailingWildcard(prefixLen: nat)

  // A priority: the kind of match first, the length of its fixed part second.
  datatype Level = Level(kind: nat, length: nat)

  function Priority(m: Match): Level {
    match m
    case Exact => Level(4, 0)
    case DotWildcard(suffixLen) => Level(2, suffixLen)
    case LeadingWildcard(suffixLen) => Level(2, suffixLen)
    case TrailingWildcard(prefixLen) => Level(1, prefixLen)
  }

  // A pattern already trimmed and lower-cased, against a normalised host name.
  function MatchNormalized(pattern: string, hostname: string): Option<Match> {
    if pattern == [] then None
    else if pattern[0] == '.' then
      var suffix := pattern[1..];
      if suffix == [] then None
      else if hostname == suffix || EndsWith(hostname, "." + suffix) then Some(DotWildcard(|suffix|))
      else None
    else if "*." <= pattern then
      var suffix := pattern[2..];
      if suffix == [] || hostname == suffix then None
      else if EndsWith(hostname, "." + suffix) then Some(LeadingWildcard(|suffix|))
      else None
    else if EndsWith(pattern, ".*") then
      var prefix := pattern[..|pattern| - 2];
      if prefix == [] || hostname == prefix then None
      else if prefix <= hostname && |hostname| > |prefix| + 1 && hostname[|prefix|] == '.' then
        Some(TrailingWildcard(|prefix|))
      else None
    else if hostname == pattern then Some(Exact)
    else None
  }

  function MatchServerName(pattern: string, host: string): Option<Match> {
    MatchNormalized(Lower(Trim(pattern)), NormalizeHost(host))
  }

  // A dot wildcard stands for the bare name and the leading wildcard together.
  lemma DotWildcardIsUnion(suffix: string, hostname: string)
    requires suffix != []
    ensures MatchNormalized("." + suffix, hostname).Some? <==>
            hostname == suffix || MatchNormalized("*." + suffix, hostname).Some?
  {
    assert ("." + suffix)[1..] == suffix && ("*." + suffix)[2..] == suffix;
  }

  // ----- What each form of pattern matches -----

  // White space around a pattern and the case of its letters do not matter.
  lemma PatternIsNormalized(front: string, pattern: string, back: string, host: string)
    requires AllSpace(front) && AllSpace(back)
    requires pattern != [] && !IsSpace(pattern[0]) && !IsSpace(pattern[|pattern| - 1])
    ensures MatchServerName(front + pattern + back, host) == MatchNormalized(Lower(pattern), NormalizeHost(host))
  {
    TrimTakesEnds(front, pattern, back);
  }

  // A pattern without a wildcard.
  ghost predicate IsPlain(pattern: string) {
    pattern != [] && pattern[0] != '.' && !("*." <= pattern) && !EndsWith(pattern, ".*")
  }

  lemma PlainMatchesItself(pattern: string, hostname: string)
    requires IsPlain(pattern)
    ensures MatchNormalized(pattern, hostname) == (if hostname == pattern then Some(Exact) else None)
  {
  }

  // Ends in a dot and the suffix.
  ghost predicate IsBelow(hostname: string, suffix: string) {
    exists front :: hostname == front + "." + suffix
  }

  lemma BelowIffEndsWith(hostname: string, suffix: string)
    ensures IsBelow(hostname, suffix) <==> EndsWith(hostname, "." + suffix)
    ensures !IsBelow(suffix, suffix)
  {
    if EndsWith(hostname, "." + suffix) {
      var n := |hostname| - |suffix| - 1;
      assert hostname == hostname[..n] + ("." + suffix) == hostname[..n] + "." + suffix;
    }
    if IsBelow(hostname, suffix) {
      var front :| hostname == front + "." + suffix;
      assert hostname[|front|..] == "." + suffix;
    }
  }

  lemma StarMatchesBelow(suffix: string, hostname: string)
    requires suffix != []
    ensures MatchNormalized("*." + suffix, hostname)
         == if IsBelow(hostname, suffix) then Some(LeadingWildcard(|suffix|)) else None
  {
    assert ("*." + suffix)[2..] == suffix;
    BelowIffEndsWith(hostname, suffix);
  }

  lemma DotMatchesSelfAndBelow(suffix: string, hostname: string)
    requires suffix != []
    ensures MatchNormalized("." + suffix, hostname)
         == if hostname == suffix || IsBelow(hostname, suffix) then Some(DotWildcard(|suffix|)) else None
  {
    assert ("." + suffix)[1..] == suffix;
    BelowIffEndsWith(hostname, suffix);
  }

  // Starts with the prefix and a dot, and goes on.
  ghost predicate GoesOn(hostname: string, prefix: string) {
    exists rest :: rest != [] && hostname == prefix + "." + rest
  }

  lemma GoesOnIff(hostname: string, prefix: string)
    ensures GoesOn(hostname, prefix)
       <==> prefix <= hostname && |hostname| > |prefix| + 1 && hostname[|prefix|] == '.'
  {
    if prefix <= hostname && |hostname| > |prefix| + 1 && hostname[|prefix|] == '.' {
      var rest := hostname[|prefix| + 1..];
      assert hostname == prefix + "." + rest;
    }
  }

  lemma TrailingMatchesGoingOn(prefix: string, hostname: string)
    requires prefix != [] && prefix[0] != '.' && !("*." <= prefix + ".*")
    ensures MatchNormalized(prefix + ".*", hostname)
         == if GoesOn(hostname, prefix) then Some(TrailingWildcard(|prefix|)) else None
  {
    var pattern := prefix + ".*";
    assert pattern[|prefix|..] == ".*" && pattern[..|pattern| - 2] == prefix && pattern[0] == prefix[0];
    GoesOnIff(hostname, prefix);
  }

  // ----- Which match wins -----

  // An exact match outranks every wildcard, one with a suffix every one with a prefix, and of two
  // of a kind the longer.
  lemma MatchesAreRanked(m: Match, n: Match)
    ensures m == Exact && n != Exact ==> LowerLevel(Priority(n), Priority(m))
    ensures (m.DotWildcard? || m.LeadingWildcard?) && n.TrailingWildcard? ==> LowerLevel(Priority(n), Priority(m))
    ensures (m.DotWildcard? || m.LeadingWildcard?) && (n.DotWildcard? || n.LeadingWildcard?) && m.suffixLen > n.suffixLen
        ==> LowerLevel(Priority(n), Priority(m))
    ensures m.TrailingWildcard? && n.TrailingWildcard? && m.prefixLen > n.prefixLen ==> LowerLevel(Priority(n), Priority(m))
    ensures Priority(Exact) == Priority(n) ==> n == Exact
  {
  }

  // Two normalised patterns that match a host with equal priority are the same pattern,
  // or the dot and star forms of one suffix.
  lemma EqualPriorityMeansSameName(p: string, q: string, hostname: string)
    requires MatchNormalized(p, hostname).Some? && MatchNormalized(q, hostname).Some?
    requires Priority(MatchNormalized(p, hostname).value) == Priority(MatchNormalized(q, hostname).value)
    ensures p == q || exists suffix :: {p, q} == {"." + suffix, "*." + suffix}
  {
    var m, n := MatchNormalized(p, hostname).value, MatchNormalized(q, hostname).value;
    if m.TrailingWildcard? {
      assert p == hostname[..m.prefixLen] + ".*" && q == hostname[..n.prefixLen] + ".*";
    } else if !m.Exact? {
      var suffix := hostname[|hostname| - m.suffixLen..];
      SuffixForm(p, hostname);
      SuffixForm(q, hostname);
      assert p == "." + suffix || p == "*." + suffix;
      assert q == "." + suffix || q == "*." + suffix;
    }
  }

  lemma SuffixForm(p: string, hostname: string)
    requires MatchNormalized(p, hostname).Some?
    requires MatchNormalized(p, hostname).value.DotWildcard? || MatchNormalized(p, hostname).value.LeadingWildcard?
    ensures var len := MatchNormalized(p, hostname).value.suffixLen;
            && len <= |hostname|
            && p == (if MatchNormalized(p, hostname).value.DotWildcard? then "." else "*.") + hostname[|hostname| - len..]
  {
    if p[0] == '.' {
      TailAfterDot(hostname, p[1..]);
      assert p == "." + p[1..];
    } else {
      TailAfterDot(hostname, p[2..]);
      PrefixAndRest("*.", p);
    }
  }

  lemma PrefixAndRest(prefix: string, p: string)
    requires prefix <= p
    ensures p == prefix + p[|prefix|..]
  {
  }

  lemma TailAfterDot(hostname: string, suffix: string)
    requires hostname == suffix || EndsWith(hostname, "." + suffix)
    ensures |suffix| <= |hostname| && hostname[|hostname| - |suffix|..] == suffix
  {
    if hostname != suffix {
      assert hostname[|hostname| - |suffix|..] == hostname[|hostname| - |suffix| - 1..][1..];
      assert ("." + suffix)[1..] == suffix;
    }
  }

  // ----- The best pattern -----

  predicate LowerLevel(a: Level, b: Level) {
    a.kind < b.kind || (a.kind == b.kind && a.length < b.length)
  }

  lemma LevelsAreOrdered(a: Level, b: Level, c: Level)
    ensures LowerLevel(a, b) || a == b || LowerLevel(b, a)
    ensures !(LowerLevel(a, b) && LowerLevel(b, a))
    ensures LowerLevel(a, b) && LowerLevel(b, c) ==> LowerLevel(a, c)
  {
  }

  // `a` ranks strictly below `b`: lower priority, or equal priority and a later name.
  predicate RanksBelow(a: (string, Match), b: (string, Match)) {
    || LowerLevel(Priority(a.1), Priority(b.1))
    || (Priority(a.1) == Priority(b.1) && Less(b.0, a.0))
  }

  lemma RanksBelowTransitive(a: (string, Match), b: (string, Match), c: (string, Match))
    requires RanksBelow(a, b) && RanksBelow(b, c)
    ensures RanksBelow(a, c)
  {
    if Less(b.0, a.0) && Less(c.0, b.0) {
      LessTransitive(c.0, b.0, a.0);
    }
  }

  lemma RanksBelowTotal(a: (string, Match), b: (string, Match))
    ensures RanksBelow(a, b) || RanksBelow(b, a) || a.0 == b.0
    ensures !(RanksBelow(a, b) && RanksBelow(b, a))
  {
    LessTotal(a.0, b.0);
  }

  // Keeping the maximum so far, as `max_by` does: a later equal element replaces an earlier one.
  function BestPattern(patterns: seq<string>, host: string): Option<(string, Match)> {
    if patterns == [] then None
    else
      var best := BestPattern(patterns[..|patterns| - 1], host);
      var last := patterns[|patterns| - 1];
      var matched := MatchServerName(last, host);
      if matched.None? then best
      else if best.None? || !RanksBelow((last, matched.value), best.value) then Some((last, matched.value))
      else best
  }

  ghost predicate IsMaximum(patterns: seq<string>, host: string, best: (string, Match)) {
    && best.0 in patterns && MatchServerName(best.0, host) == Some(best.1)
    && forall p | p in patterns && p != best.0 && MatchServerName(p, host).Some? ::
         RanksBelow((p, MatchServerName(p, host).value), best)
  }

  // The result matches, has maximal priority, and every other matching name ranks strictly below it.
  lemma {:induction false} BestPatternIsMaximum(patterns: seq<string>, host: string)
    ensures BestPattern(patterns, host).None? <==> forall p | p in patterns :: MatchServerName(p, host).None?
    ensures BestPattern(patterns, host).Some? ==> IsMaximum(patterns, host, BestPattern(patterns, host).value)
  {
    if patterns != [] {
      var shorter, last := patterns[..|patterns| - 1], patterns[|patterns| - 1];
      BestPatternIsMaximum(shorter, host);
      assert forall p :: p in patterns <==> p in shorter || p == last;
      var best, matched := BestPattern(shorter, host), MatchServerName(last, host);
      if best.Some? && matched.Some? {
        RanksBelowTotal((last, matched.value), best.value);
        if !RanksBelow((last, matched.value), best.value) && last != best.value.0 {
          forall p | p in shorter && p != best.value.0 && MatchServerName(p, host).Some?
            ensures RanksBelow((p, MatchServerName(p, host).value), (last, matched.value))
          {
            RanksBelowTransitive((p, MatchServerName(p, host).value), best.value, (last, matched.value));
          }
        }
      }
    }
  }

  // Of two patterns of equal priority the one that comes first in the alphabet is taken.
  lemma TieGoesToFirstName(patterns: seq<string>, host: string, p: string, m: Match)
    requires p in patterns && MatchServerName(p, host) == Some(m)
    ensures var best := BestPattern(patterns, host);
            best.Some? && (p != best.value.0 && Priority(m) == Priority(best.value.1) ==> Less(best.value.0, p))
  {
    BestPatternIsMaximum(patterns, host);
    if Priority(m) == Priority(BestPattern(patterns, host).value.1) {
      LevelsAreOrdered(Priority(m), Priority(m), Priority(m));
    }
  }

  // The order and the multiplicity of the patterns do not matter, so choosing over the keys of
  // a hash map is deterministic.
  lemma BestPatternIgnoresOrder(a: seq<string>, b: seq<string>, host: string)
    requires forall p :: p in a <==> p in b
    ensures BestPattern(a, host) == BestPattern(b, host)
  {
    BestPatternIsMaximum(a, host);
    BestPatternIsMaximum(b, host);
    var x, y := BestPattern(a, host), BestPattern(b, host);
    if x.Some? && y.Some? && x.value.0 != y.value.0 {
      RanksBelowTotal(x.value, y.value);
    }
  }

  // ----- Choosing a virtual host -----

  datatype VirtualHost = VirtualHost(serverNames: seq<string>)

  // The priorities with which some name of the virtual host matches.
  ghost function Attained(vhost: VirtualHost, host: string): iset<Level> {
    iset p | p in vhost.serverNames && MatchServerName(p, host).Some? :: Priority(MatchServerName(p, host).value)
  }

  ghost function Levels(vhosts: seq<VirtualHost>, host: string): seq<iset<Level>> {
    seq(|vhosts|, i requires 0 <= i < |vhosts| => Attained(vhosts[i], host))
  }

  // The highest level of a set, if it has one.
  ghost predicate IsTop(levels: iset<Level>, top: Option<Level>) {
    match top
    case None => forall q :: q !in levels
    case Some(t) => t in levels && forall q | q in levels && q != t :: LowerLevel(q, t)
  }

  function BestPriority(vhost: VirtualHost, host: string): Option<Level> {
    var best := BestPattern(vhost.serverNames, host);
    if best.None? then None else Some(Priority(best.value.1))
  }

  lemma BestPriorityIsTop(vhost: VirtualHost, host: string)
    ensures IsTop(Attained(vhost, host), BestPriority(vhost, host))
  {
    BestPatternIsMaximum(vhost.serverNames, host);
  }

  datatype Selection = Selection(index: nat, level: Level)

  // Among the first `n`: none has any level, or the selected one is the earliest with the highest.
  ghost predicate Selected(levels: seq<iset<Level>>, n: nat, selected: Option<Selection>)
    requires n <= |levels|
  {
    match selected
    case None => forall i, q | 0 <= i < n :: q !in levels[i]
    case Some(s) =>
      && s.index < n && s.level in levels[s.index]
      && (forall i, q | 0 <= i < n && q in levels[i] && q != s.level :: LowerLevel(q, s.level))
      && (forall i | 0 <= i < s.index :: s.level !in levels[i])
  }

  function Improve(selected: Option<Selection>, index: nat, top: Option<Level>): Option<Selection> {
    if top.None? then selected
    else if selected.None? || LowerLevel(selected.value.level, top.value) then Some(Selection(index, top.value))
    else selected
  }

  lemma ImproveSelects(levels: seq<iset<Level>>, n: nat, selected: Option<Selection>, top: Option<Level>)
    requires n < |levels| && Selected(levels, n, selected) && IsTop(levels[n], top)
    ensures Selected(levels, n + 1, Improve(selected, n, top))
  {
    if top.Some? && selected.Some? {
      var held, found := selected.value.level, top.value;
      LevelsAreOrdered(held, found, held);
      forall i, q | 0 <= i < n && q in levels[i] && LowerLevel(held, found) ensures LowerLevel(q, found) {
        LevelsAreOrdered(q, held, found);
      }
      forall q | q in levels[n] && q != held && !LowerLevel(held, found) ensures LowerLevel(q, held) {
        LevelsAreOrdered(q, found, held);
      }
    }
  }

  // The earliest virtual host whose names reach the highest priority; the default if none matches.
  method SelectVhost(vhosts: seq<VirtualHost>, host: string) returns (choice: Option<nat>)
    ensures choice.None? ==> Selected(Levels(vhosts, host), |vhosts|, None)
    ensures choice.Some? ==> exists level :: Selected(Levels(vhosts, host), |vhosts|, Some(Selection(choice.value, level)))
  {
    ghost var levels := Levels(vhosts, host);
    var selected: Option<Selection> := None;
    for i := 0 to |vhosts|
      invariant Selected(levels, i, selected)
    {
      BestPriorityIsTop(vhosts[i], host);
      var priority := BestPriority(vhosts[i], host);
      ImproveSelects(levels, i, selected, priority);
      if priority.Some? {
        if selected.None? || LowerLevel(selected.value.level, priority.value) {
          selected := Some(Selection(i, priority.value));
        }
      }
    }
    if selected.None? {
      return None;
    }
    choice := Some(selected.value.index);
    assert Selected(levels, |vhosts|, Some(Selection(choice.value, selected.value.level)));
  }

  ghost predicate NamesExactly(vhost: VirtualHost, host: string) {
    exists p :: p in vhost.serverNames && MatchServerName(p, host) == Some(Exact)
  }

  lemma TopOfLevels(levels: seq<iset<Level>>, selected: Option<Selection>, i: nat, q: Level)
    requires Selected(levels, |levels|, selected) && i < |levels| && q in levels[i]
    ensures selected.Some? && (q == selected.value.level || LowerLevel(q, selected.value.level))
    ensures q == selected.value.level ==> selected.value.index <= i
    ensures selected.value.index < |levels| && selected.value.level in levels[selected.value.index]
  {
  }

  lemma Attains(vhost: VirtualHost, host: string, p: string)
    requires p in vhost.serverNames && MatchServerName(p, host).Some?
    ensures Priority(MatchServerName(p, host).value) in Attained(vhost, host)
  {
  }

  // Only an exact name attains the highest level.
  lemma ExactLevelIsNamed(vhost: VirtualHost, host: string, level: Level)
    requires level in Attained(vhost, host) && !LowerLevel(level, Priority(Exact))
    ensures level == Priority(Exact) && NamesExactly(vhost, host)
  {
    var q :| q in vhost.serverNames && MatchServerName(q, host).Some?
             && Priority(MatchServerName(q, host).value) == level;
    MatchesAreRanked(Exact, MatchServerName(q, host).value);
  }

  // A virtual host that lists the host name itself goes before all that match by wildcard, and the
  // first such one is taken.
  lemma ExactNameWins(vhosts: seq<VirtualHost>, host: string, selected: Option<Selection>, i: nat)
    requires Selected(Levels(vhosts, host), |vhosts|, selected)
    requires i < |vhosts| && NamesExactly(vhosts[i], host)
    ensures selected.Some? && selected.value.index <= i && NamesExactly(vhosts[selected.value.index], host)
  {
    var p :| p in vhosts[i].serverNames && MatchServerName(p, host) == Some(Exact);
    Attains(vhosts[i], host, p);
    TopOfLevels(Levels(vhosts, host), selected, i, Priority(Exact));
    LevelsAreOrdered(Priority(Exact), selected.value.level, Priority(Exact));
    ExactLevelIsNamed(vhosts[selected.value.index], host, selected.value.level);
  }

  // No name of any virtual host matches with a higher rank than the one taken.
  lemma NoMatchRanksHigher(vhosts: seq<VirtualHost>, host: string, selected: Option<Selection>, i: nat, p: string)
    requires Selected(Levels(vhosts, host), |vhosts|, selected)
    requires i < |vhosts| && p in vhosts[i].serverNames && MatchServerName(p, host).Some?
    ensures selected.Some? && !LowerLevel(selected.value.level, Priority(MatchServerName(p, host).value))
  {
    var level := Priority(MatchServerName(p, host).value);
    Attains(vhosts[i], host, p);
    TopOfLevels(Levels(vhosts, host), selected, i, level);
    LevelsAreOrdered(level, selected.value.level, level);
  }

  // The port and the case of a host name do not matter; nor do brackets around an address.
  lemma HostIsNormalized(name: string, port: string)
    requires ':' !in name && ']' !in name
    ensures name == [] || name[0] != '[' ==> NormalizeHost(name) == Lower(name) == NormalizeHost(name + ":" + port)
    ensures NormalizeHost("[" + name + "]" + port) == Lower(name)
  {
    BeforeIs(name, ':', "");
    BeforeIs(name, ':', ":" + port);
    assert name + "" == name && name + (":" + port) == name + ":" + port;
    var bracketed := "[" + name + "]" + port;
    assert bracketed[1..] == name + ("]" + port);
    BeforeIs(name, ']', "]" + port);
    assert (name + ("]" + port))[|name|] == ']';
  }

  lemma {:induction false} BeforeIs(s: string, c: char, rest: string)
    requires c !in s && (rest == [] || rest[0] == c)
    ensures Before(s + rest, c) == s
  {
    if s == [] {
      assert s + rest == rest;
    } else {
      BeforeIs(s[1..], c, rest);
      assert (s + rest)[1..] == s[1..] + rest;
      assert [s[0]] + s[1..] == s;
    }
  }

  // The choice is unique: no other virtual host can be selected.
  lemma SelectionIsUnique(levels: seq<iset<Level>>, a: Option<Selection>, b: Option<Selection>)
    requires Selected(levels, |levels|, a) && Selected(levels, |levels|, b)
    ensures a == b
  {
    if a.Some? && b.Some? {
      LevelsAreOrdered(a.value.level, b.value.level, a.value.level);
      assert a.value.level in levels[a.value.index] && b.value.level in levels[b.value.index];
    }
  }
}
