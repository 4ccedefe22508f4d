/**
 Logical invalidation: a purge records a rule instead of deleting entries, and an entry
 that a later rule covers is dropped when a lookup meets it. Against it stands the eager
 cache, in which a purge deletes what it covers at once.
 */
module Invalidation {
  import opened CacheTypes

  datatype Selector = All | Exact(key: Key) | Prefix(prefix: Key) | Tagged(tag: string)

  datatype Rule = Rule(selector: Selector, createdAtMs: nat)

  predicate SelectorMatches(selector: Selector, key: Key, entry: Entry) {
    match selector
    case All => true
    case Exact(expected) => key == expected
    case Prefix(prefix) => prefix <= key
    case Tagged(tag) => tag in entry.tags
  }

  predicate RuleMatches(rule: Rule, key: Key, entry: Entry) {
    entry.storedAtMs < rule.createdAtMs && SelectorMatches(rule.selector, key, entry)
  }

  predicate LogicallyInvalid(rules: seq<Rule>, key: Key, entry: Entry) {
    exists i | 0 <= i < |rules| :: RuleMatches(rules[i], key, entry)
  }

  // ----- Lookup -----

  datatype Phase = Fresh | Grace | Keep | Dead

  // Where a lookup goes once the fill lock is taken out of the picture: every decision that
  // serves, revalidates or hands on a stored entry carries it.
  datatype Decision =
    | DropEntry(key: Key, entry: Entry)
    | Bypass
    | FreshHit(key: Key, entry: Entry)
    | Refill(key: Key, entry: Entry)
    | Miss

  datatype Cache = Cache(entries: map<Key, Entry>, rules: seq<Rule>)

  // `matching` is the variant key that the request selects, `phase` the entry's lifecycle phase.
  function Decide(c: Cache, matching: Key, phase: Entry -> Phase, forceRevalidation: bool): Decision {
    if matching !in c.entries then Miss
    else
      var entry := c.entries[matching];
      if LogicallyInvalid(c.rules, matching, entry) then DropEntry(matching, entry)
      else if entry.kind == HitForPass then
        if phase(entry) == Dead then DropEntry(matching, entry) else Bypass
      else if phase(entry) == Dead then DropEntry(matching, entry)
      else if phase(entry) == Fresh && !entry.requiresRevalidation && !forceRevalidation then
        FreshHit(matching, entry)
      else Refill(matching, entry)
  }

  // ----- Runs -----

  datatype Event =
    | Store(key: Key, entry: Entry)
    | Invalidate(selector: Selector, now: nat)
    | Lookup(matching: Key, phase: Entry -> Phase, forceRevalidation: bool)
    | Evict(key: Key)
    | Clear

  function LazyStep(c: Cache, event: Event): Cache {
    match event
    case Store(key, entry) => c.(entries := c.entries[key := entry])
    case Invalidate(selector, now) => c.(rules := c.rules + [Rule(selector, now)])
    case Lookup(matching, phase, force) =>
      if Decide(c, matching, phase, force).DropEntry? then c.(entries := c.entries - {matching}) else c
    case Evict(key) => c.(entries := c.entries - {key})
    case Clear => c.(rules := [])
  }

  // The eager cache has no rules: a purge deletes the covered entries on the spot.
  function EagerStep(entries: map<Key, Entry>, event: Event): map<Key, Entry> {
    match event
    case Store(key, entry) => entries[key := entry]
    case Invalidate(selector, now) => map k | k in entries && !RuleMatches(Rule(selector, now), k, entries[k]) :: entries[k]
    case Lookup(matching, phase, force) =>
      if Decide(Cache(entries, []), matching, phase, force).DropEntry? then entries - {matching} else entries
    case Evict(key) => entries - {key}
    case Clear => entries
  }

  function Lazy(events: seq<Event>): Cache {
    if events == [] then Cache(map[], []) else LazyStep(Lazy(events[..|events| - 1]), events[|events| - 1])
  }

  function Eager(events: seq<Event>): map<Key, Entry> {
    if events == [] then map[] else EagerStep(Eager(events[..|events| - 1]), events[|events| - 1])
  }

  function Visible(c: Cache): map<Key, Entry> {
    map k | k in c.entries && !LogicallyInvalid(c.rules, k, c.entries[k]) :: c.entries[k]
  }

  // Stores are stamped with the time they happen, time does not go backwards, and no one clears
  // the rules.
  ghost predicate Timely(events: seq<Event>) {
    && (forall i, j | 0 <= i < j < |events| && events[i].Invalidate? && events[j].Store? ::
          events[i].now <= events[j].entry.storedAtMs)
    && (forall i | 0 <= i < |events| :: !events[i].Clear?)
  }

  // ----- What a purge removes and what a lookup does, in terms of what is visible -----

  // After a purge an entry is visible exactly when it was, and is not both selected and older.
  ghost predicate RemovesExactly(c: Cache, purge: Event, selected: (Key, Entry) -> bool, now: nat) {
    forall k, e ::
      Shows(LazyStep(c, purge), k, e) <==> Shows(c, k, e) && !(selected(k, e) && e.storedAtMs < now)
  }

  ghost predicate Shows(c: Cache, key: Key, entry: Entry) {
    key in Visible(c) && Visible(c)[key] == entry
  }

  lemma ShowsAfterRule(c: Cache, selector: Selector, now: nat, k: Key, e: Entry)
    ensures Shows(LazyStep(c, Invalidate(selector, now)), k, e)
       <==> Shows(c, k, e) && !RuleMatches(Rule(selector, now), k, e)
  {
    if k in c.entries {
      LogicallyInvalidAppend(c.rules, Rule(selector, now), k, c.entries[k]);
    }
  }

  lemma PurgeOfEverything(c: Cache, now: nat)
    ensures RemovesExactly(c, Invalidate(All, now), (k, e) => true, now)
  {
    forall k, e ensures Shows(LazyStep(c, Invalidate(All, now)), k, e) <==> Shows(c, k, e) && e.storedAtMs >= now {
      ShowsAfterRule(c, All, now, k, e);
    }
  }

  lemma PurgeOfKey(c: Cache, key: Key, now: nat)
    ensures RemovesExactly(c, Invalidate(Exact(key), now), (k, e) => k == key, now)
  {
    forall k, e
      ensures Shows(LazyStep(c, Invalidate(Exact(key), now)), k, e)
         <==> Shows(c, k, e) && !(k == key && e.storedAtMs < now)
    {
      ShowsAfterRule(c, Exact(key), now, k, e);
    }
  }

  lemma PurgeOfPrefix(c: Cache, prefix: Key, now: nat)
    ensures RemovesExactly(c, Invalidate(Prefix(prefix), now), (k: Key, e: Entry) => prefix <= k, now)
  {
    forall k, e
      ensures Shows(LazyStep(c, Invalidate(Prefix(prefix), now)), k, e)
         <==> Shows(c, k, e) && !(prefix <= k && e.storedAtMs < now)
    {
      ShowsAfterRule(c, Prefix(prefix), now, k, e);
    }
  }

  lemma PurgeOfTag(c: Cache, tag: string, now: nat)
    ensures RemovesExactly(c, Invalidate(Tagged(tag), now), (k: Key, e: Entry) => tag in e.tags, now)
  {
    forall k, e
      ensures Shows(LazyStep(c, Invalidate(Tagged(tag), now)), k, e)
         <==> Shows(c, k, e) && !(tag in e.tags && e.storedAtMs < now)
    {
      ShowsAfterRule(c, Tagged(tag), now, k, e);
    }
  }

  // A store shows at once unless a rule covers it; an eviction takes its key away; no other key moves.
  lemma StoreAndEvict(c: Cache, key: Key, entry: Entry)
    ensures !LogicallyInvalid(c.rules, key, entry) ==> Shows(LazyStep(c, Store(key, entry)), key, entry)
    ensures key !in Visible(LazyStep(c, Evict(key)))
    ensures forall k, e | k != key ::
              && (Shows(LazyStep(c, Store(key, entry)), k, e) <==> Shows(c, k, e))
              && (Shows(LazyStep(c, Evict(key)), k, e) <==> Shows(c, k, e))
  {
  }

  // Without rules everything stored shows.
  lemma WithoutRulesAllShow(entries: map<Key, Entry>)
    ensures Visible(Cache(entries, [])) == entries
  {
  }

  // A lookup serves, revalidates, bypasses, drops or misses, each exactly when it should.
  lemma LookupDecides(c: Cache, matching: Key, phase: Entry -> Phase, force: bool)
    ensures var d := Decide(c, matching, phase, force);
            var seen := Visible(c);
            && (d.FreshHit? <==>
                  && matching in seen && seen[matching].kind == Response && phase(seen[matching]) == Fresh
                  && !seen[matching].requiresRevalidation && !force)
            && (d.Bypass? <==> matching in seen && seen[matching].kind == HitForPass && phase(seen[matching]) != Dead)
            && (d.Refill? <==>
                  && matching in seen && seen[matching].kind == Response && phase(seen[matching]) != Dead
                  && (phase(seen[matching]) != Fresh || seen[matching].requiresRevalidation || force))
            && (d.DropEntry? <==>
                  matching in c.entries && (matching !in seen || phase(seen[matching]) == Dead))
            && (d.Miss? <==> matching !in c.entries)
            && (d.FreshHit? || d.Refill? ==> d.key == matching && d.entry == seen[matching])
  {
  }

  // A lookup that decides to drop takes the entry away; any other changes nothing.
  lemma LookupDrops(c: Cache, matching: Key, phase: Entry -> Phase, force: bool)
    ensures var c' := LazyStep(c, Lookup(matching, phase, force));
            && c'.rules == c.rules
            && (forall k | k != matching :: k in c'.entries <==> k in c.entries)
            && (forall k | k in c'.entries :: k in c.entries && c'.entries[k] == c.entries[k])
            && (matching in c'.entries <==>
                  matching in Visible(c) && phase(c.entries[matching]) != Dead)
  {
  }

  // ----- Lazy refines eager -----

  lemma LogicallyInvalidAppend(rules: seq<Rule>, rule: Rule, key: Key, entry: Entry)
    ensures LogicallyInvalid(rules + [rule], key, entry)
       <==> LogicallyInvalid(rules, key, entry) || RuleMatches(rule, key, entry)
  {
    var more := rules + [rule];
    assert more[|rules|] == rule;
    if LogicallyInvalid(rules, key, entry) {
      var i :| 0 <= i < |rules| && RuleMatches(rules[i], key, entry);
      assert more[i] == rules[i];
    }
  }

  lemma PurgeKeepsAgreement(c: Cache, selector: Selector, now: nat)
    ensures Visible(LazyStep(c, Invalidate(selector, now))) == EagerStep(Visible(c), Invalidate(selector, now))
  {
    forall k | k in c.entries
      ensures LogicallyInvalid(c.rules + [Rule(selector, now)], k, c.entries[k])
         <==> LogicallyInvalid(c.rules, k, c.entries[k]) || RuleMatches(Rule(selector, now), k, c.entries[k])
    {
      LogicallyInvalidAppend(c.rules, Rule(selector, now), k, c.entries[k]);
    }
  }

  // A store keeps the two caches in agreement exactly when no rule already covers the stored entry.
  lemma StoreKeepsAgreementIff(c: Cache, key: Key, entry: Entry)
    ensures Visible(LazyStep(c, Store(key, entry))) == EagerStep(Visible(c), Store(key, entry))
       <==> !LogicallyInvalid(c.rules, key, entry)
  {
    var after := Visible(LazyStep(c, Store(key, entry)));
    assert key in after <==> !LogicallyInvalid(c.rules, key, entry);
  }

  lemma LookupKeepsAgreement(c: Cache, matching: Key, phase: Entry -> Phase, force: bool)
    ensures Visible(LazyStep(c, Lookup(matching, phase, force))) == EagerStep(Visible(c), Lookup(matching, phase, force))
  {
  }

  // Clearing the rules keeps agreement exactly when nothing invalid was still stored.
  lemma ClearKeepsAgreementIff(c: Cache)
    ensures Visible(LazyStep(c, Clear)) == EagerStep(Visible(c), Clear)
       <==> forall k | k in c.entries :: !LogicallyInvalid(c.rules, k, c.entries[k])
  {
    var cleared := Visible(c.(rules := []));
    if k :| k in c.entries && LogicallyInvalid(c.rules, k, c.entries[k]) {
      assert k in cleared && k !in Visible(c);
    }
  }

  ghost predicate Harmless(c: Cache, event: Event) {
    match event
    case Store(key, entry) => !LogicallyInvalid(c.rules, key, entry)
    case Clear => forall k | k in c.entries :: !LogicallyInvalid(c.rules, k, c.entries[k])
    case _ => true
  }

  lemma StepKeepsAgreementIff(c: Cache, event: Event)
    ensures Visible(LazyStep(c, event)) == EagerStep(Visible(c), event) <==> Harmless(c, event)
  {
    match event
    case Store(key, entry) => StoreKeepsAgreementIff(c, key, entry);
    case Invalidate(selector, now) => PurgeKeepsAgreement(c, selector, now);
    case Lookup(matching, phase, force) => LookupKeepsAgreement(c, matching, phase, force);
    case Evict(key) =>
    case Clear => ClearKeepsAgreementIff(c);
  }

  // ----- Whole runs -----

  ghost predicate HarmlessRun(events: seq<Event>) {
    events == []
    || (HarmlessRun(events[..|events| - 1]) && Harmless(Lazy(events[..|events| - 1]), events[|events| - 1]))
  }

  // After every event, the entries that are not logically invalid are the eager cache.
  ghost predicate AgreesThroughout(events: seq<Event>) {
    Visible(Lazy(events)) == Eager(events) && (events == [] || AgreesThroughout(events[..|events| - 1]))
  }

  /**
   Lazy invalidation refines eager deletion throughout a run exactly when every store of the run
   is newer than the rules that select it, and every clearing finds nothing invalid stored.
   */
  lemma {:induction false} LazyRefinesEagerIff(events: seq<Event>)
    ensures AgreesThroughout(events) <==> HarmlessRun(events)
  {
    if events != [] {
      var before, event := events[..|events| - 1], events[|events| - 1];
      LazyRefinesEagerIff(before);
      StepKeepsAgreementIff(Lazy(before), event);
    }
  }

  lemma {:induction false} RulesPrecede(events: seq<Event>, storedAtMs: nat)
    requires forall i | 0 <= i < |events| && events[i].Invalidate? :: events[i].now <= storedAtMs
    ensures forall i | 0 <= i < |Lazy(events).rules| :: Lazy(events).rules[i].createdAtMs <= storedAtMs
  {
    if events != [] {
      RulesPrecede(events[..|events| - 1], storedAtMs);
    }
  }

  lemma {:induction false} TimelyIsHarmless(events: seq<Event>)
    requires Timely(events)
    ensures HarmlessRun(events)
  {
    if events != [] {
      var before, event := events[..|events| - 1], events[|events| - 1];
      TimelyIsHarmless(before);
      if event.Store? {
        RulesPrecede(before, event.entry.storedAtMs);
      }
    }
  }

  // After every timely run the entries that are not logically invalid are the eager cache.
  lemma LazyRefinesEager(events: seq<Event>)
    requires Timely(events)
    ensures Visible(Lazy(events)) == Eager(events)
  {
    TimelyIsHarmless(events);
    LazyRefinesEagerIff(events);
  }

  // A lookup goes on to use an entry exactly when the eager cache would, and then the same one.
  lemma LookupUsesOnlyValid(events: seq<Event>, matching: Key, phase: Entry -> Phase, force: bool)
    requires HarmlessRun(events)
    ensures var seen := Decide(Lazy(events), matching, phase, force);
            var expected := Decide(Cache(Eager(events), []), matching, phase, force);
            && (seen.FreshHit? || seen.Refill? || seen.Bypass? ==> seen == expected)
            && (expected.FreshHit? || expected.Refill? || expected.Bypass? ==> seen == expected)
            && (seen.FreshHit? || seen.Refill? ==>
                  matching in Eager(events) && seen.entry == Eager(events)[matching])
  {
    LazyRefinesEagerIff(events);
    if matching in Lazy(events).entries {
      assert matching in Visible(Lazy(events)) <==>
        !LogicallyInvalid(Lazy(events).rules, matching, Lazy(events).entries[matching]);
    }
  }

  // ----- Runs in which the two part -----

  lemma Then(events: seq<Event>, event: Event)
    ensures Lazy(events + [event]) == LazyStep(Lazy(events), event)
    ensures Eager(events + [event]) == EagerStep(Eager(events), event)
  {
    assert (events + [event])[..|events|] == events;
  }

  // An entry stamped before a rule that already exists is hidden as soon as it is stored.
  lemma LateStoreIsHidden(key: Key, entry: Entry, now: nat)
    requires entry.storedAtMs < now
    ensures var events := [] + [Invalidate(All, now)] + [Store(key, entry)];
            key in Eager(events) && key !in Visible(Lazy(events))
  {
    Then([], Invalidate(All, now));
    Then([] + [Invalidate(All, now)], Store(key, entry));
    var rules := Lazy([] + [Invalidate(All, now)]).rules;
    assert rules == [Rule(All, now)] && RuleMatches(rules[0], key, entry);
  }

  // Clearing the rules brings back an entry that was purged and not yet looked up.
  lemma ClearRevivesEntry(key: Key, entry: Entry, now: nat)
    requires entry.storedAtMs < now
    ensures var events := [] + [Store(key, entry)] + [Invalidate(All, now)] + [Clear];
            key !in Eager(events) && key in Visible(Lazy(events))
  {
    var stored := [] + [Store(key, entry)];
    Then([], Store(key, entry));
    Then(stored, Invalidate(All, now));
    Then(stored + [Invalidate(All, now)], Clear);
    assert Eager(stored) == map[key := entry];
  }
}
