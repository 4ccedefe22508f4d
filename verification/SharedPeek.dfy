/**
 The check that a sync task makes before it takes the sync lock. It loads the generation, then the
 epoch, then asks the store, while other tasks go on; it returns early if the store is in that
 epoch and not beyond that generation.
 */
module SharedPeek {
  import opened SharedIndex
  import opened SharedSync
  import opened SharedDrift

  // The lock holder already knows what it will make the position.
  predicate HasTarget(h: Holder) {
    h.HaveDelta? || h.Loaded? || h.StoreGeneration? || h.StoreEpoch? || h.StoreSeq?
  }

  // Within the store's epoch a position only moves forward.
  ghost predicate Ordered(s: State) {
    && s.replica.position.epoch in s.histories
    && (HasTarget(s.holder) && s.replica.position.epoch == s.document.epoch ==>
          && s.holder.target.epoch == s.document.epoch
          && s.replica.position.generation <= s.holder.target.generation)
  }

  // The store and the replica are in epoch `e`, the replica at generation `g` or beyond.
  ghost predicate AtLeast(s: State, e: nat, g: nat) {
    s.document.epoch == e && s.replica.position.epoch == e && s.replica.position.generation >= g
  }

  // A position of the store's epoch is not beyond the store.
  lemma NotBeyondStore(s: State, p: Position)
    requires StoreOk(s) && Reached(s.histories, p) && p.epoch == s.document.epoch
    ensures p.generation <= s.document.generation
  {
  }

  lemma FetchStepKeepsOrder(s: State, a: Action, capacity: nat)
    requires Inv(s) && Ordered(s) && (a.Enter? || a.TakePosition? || a.CheckState? || a.ReadDelta? || a.Load?)
    ensures Ordered(Step(s, a, capacity)) && Step(s, a, capacity).replica == s.replica
    ensures Step(s, a, capacity).document == s.document
  {
    if (a.ReadDelta? && s.holder.Checked?) || (a.Load? && s.holder.MustReload?) {
      if s.replica.position.epoch == s.document.epoch {
        NotBeyondStore(s, s.replica.position);
      }
    }
  }

  lemma CommitStepKeepsOrder(s: State, a: Action, capacity: nat)
    requires Inv(s) && Ordered(s) && (a.UpdateIndex? || a.StoreNext?)
    ensures var s' := Step(s, a, capacity);
            && Ordered(s') && s'.document == s.document
            && (s.replica.position.epoch == s.document.epoch ==>
                  && s'.replica.position.epoch == s.replica.position.epoch
                  && s'.replica.position.generation >= s.replica.position.generation)
  {
  }

  lemma StepKeepsOrder(s: State, a: Action, capacity: nat)
    requires Inv(s) && Ordered(s) && Guarded(s, a)
    ensures Ordered(Step(s, a, capacity))
  {
    match a
    case UpdateIndex | StoreNext => CommitStepKeepsOrder(s, a, capacity);
    case RemotePublish(_) | LocalPublish(_, _) | NewSegment(_) | Rebuild(_, _) =>
    case _ => FetchStepKeepsOrder(s, a, capacity);
  }

  lemma StepGoesForward(s: State, a: Action, capacity: nat, e: nat, g: nat)
    requires Inv(s) && Ordered(s) && Guarded(s, a) && AtLeast(s, e, g)
    requires Step(s, a, capacity).document.epoch == e
    ensures AtLeast(Step(s, a, capacity), e, g)
  {
    match a
    case UpdateIndex | StoreNext => CommitStepKeepsOrder(s, a, capacity);
    case LocalPublish(_, _) => if s.holder.Free? { NotBeyondStore(s, s.replica.position); }
    case RemotePublish(_) | NewSegment(_) | Rebuild(_, _) =>
    case _ => FetchStepKeepsOrder(s, a, capacity);
  }

  // An epoch that the store has left never comes back.
  lemma EpochStaysLeft(s: State, a: Action, capacity: nat, e: nat)
    requires s.document.epoch in s.histories && e in s.histories && s.document.epoch != e
    ensures e in Step(s, a, capacity).histories && Step(s, a, capacity).document.epoch != e
  {
  }

  lemma {:induction false} EpochStaysLeftOverRun(s: State, actions: seq<Action>, capacity: nat, e: nat)
    requires s.document.epoch in s.histories && e in s.histories && s.document.epoch != e
    ensures e in After(s, actions, capacity).histories && After(s, actions, capacity).document.epoch != e
  {
    if actions != [] {
      var before := actions[..|actions| - 1];
      EpochStaysLeftOverRun(s, before, capacity, e);
      EpochStaysLeft(After(s, before, capacity), actions[|actions| - 1], capacity, e);
    }
  }

  lemma {:induction false} RunKeepsOrder(s: State, actions: seq<Action>, capacity: nat)
    requires Inv(s) && Ordered(s) && GuardedRun(s, actions, capacity)
    ensures Inv(After(s, actions, capacity)) && Ordered(After(s, actions, capacity))
  {
    if actions != [] {
      var before, last := actions[..|actions| - 1], actions[|actions| - 1];
      RunKeepsOrder(s, before, capacity);
      StepKeepsInvIff(After(s, before, capacity), last, capacity);
      StepKeepsOrder(After(s, before, capacity), last, capacity);
    }
  }

  lemma {:induction false} RunGoesForward(s: State, actions: seq<Action>, capacity: nat, e: nat, g: nat)
    requires Inv(s) && Ordered(s) && GuardedRun(s, actions, capacity)
    requires s.replica.position.epoch == e && s.replica.position.generation >= g
    requires After(s, actions, capacity).document.epoch == e
    ensures AtLeast(After(s, actions, capacity), e, g)
  {
    if s.document.epoch != e {
      EpochStaysLeftOverRun(s, actions, capacity, e);
    }
    if actions != [] {
      var before, last := actions[..|actions| - 1], actions[|actions| - 1];
      RunKeepsOrder(s, before, capacity);
      EpochIsStill(s, before, capacity, e, last);
      RunGoesForward(s, before, capacity, e, g);
      StepGoesForward(After(s, before, capacity), last, capacity, e, g);
    }
  }

  lemma EpochIsStill(s: State, before: seq<Action>, capacity: nat, e: nat, last: Action)
    requires s.document.epoch == e && e in s.histories
    requires Step(After(s, before, capacity), last, capacity).document.epoch == e
    ensures After(s, before, capacity).document.epoch == e
  {
    HistoriesStay(s, before, capacity, e);
    if After(s, before, capacity).document.epoch != e {
      EpochStaysLeft(After(s, before, capacity), last, capacity, e);
    }
  }

  lemma {:induction false} HistoriesStay(s: State, actions: seq<Action>, capacity: nat, e: nat)
    requires s.document.epoch in s.histories && e in s.histories
    ensures e in After(s, actions, capacity).histories
  {
    if actions != [] {
      HistoriesStay(s, actions[..|actions| - 1], capacity, e);
    }
  }

  // A replica at the store's generation, in its epoch, holds its contents.
  lemma AtStoreAgrees(s: State)
    requires Inv(s) && Ordered(s) && AtLeast(s, s.document.epoch, s.document.generation)
    ensures Agree(s.replica.contents, s.document.contents)
  {
    match s.holder
    case StoreGeneration(target) => ContentsAtStore(s, target);
    case StoreEpoch(target) => ContentsAtStore(s, target);
    case StoreSeq(target) => ContentsAtStore(s, target);
    case _ => ContentsAtStore(s, s.replica.position);
  }

  lemma ContentsAtStore(s: State, p: Position)
    requires StoreOk(s) && InStep(s.histories, s.replica, p)
    requires p.epoch == s.document.epoch && p.generation >= s.document.generation
    ensures Agree(s.replica.contents, s.document.contents)
  {
    NotBeyondStore(s, p);
    DocumentIsReached(s);
  }

  // ----- When an early return is right -----

  // The task has loaded generation `g` and, in state `s`, the epoch. Wherever the run goes on from
  // there, if the check then returns early, the replica holds the store's contents.
  ghost predicate ReturnsRight(s: State, g: nat, capacity: nat)
    requires s.document.epoch in s.histories
  {
    forall second :: ReturnsRightAfter(s, g, second, capacity)
  }

  ghost predicate ReturnsRightAfter(s: State, g: nat, second: seq<Action>, capacity: nat)
    requires s.document.epoch in s.histories
  {
    var s2 := After(s, second, capacity);
    GuardedRun(s, second, capacity) && s2.document.epoch == s.replica.position.epoch && s2.document.generation <= g ==>
      Agree(s2.replica.contents, s2.document.contents)
  }

  // Where the replica will be once the lock holder has finished.
  function Headed(s: State): Position {
    if HasTarget(s.holder) then s.holder.target else s.replica.position
  }

  // A rebuild to a generation below `g` would pass unnoticed.
  predicate CanFallBack(s: State, g: nat) {
    Headed(s).lastSeq == 0 && Headed(s).generation < g
  }

  // What the lock holder is about to put in place, if anything, and what is in place now.
  function Pending(s: State): Contents {
    match s.holder
    case HaveDelta(_, ops) => CatchUp(s.replica.contents, ops)
    case Loaded(_, contents) => contents
    case _ => s.replica.contents
  }

  ghost predicate AllAgree(s: State) {
    Agree(s.replica.contents, s.document.contents) && Agree(Pending(s), s.document.contents)
  }

  // The generation lies between the replica's and the store's, and nothing can come of it.
  ghost predicate Between(s: State, g: nat) {
    g <= s.document.generation && !CanFallBack(s, g) && (g == s.document.generation ==> AllAgree(s))
  }

  // The loaded generation is not beyond the replica's; or it lies between the replica's and the
  // store's and nothing can come of it; or the store has left the epoch.
  ghost predicate SoundPeek(s: State, g: nat) {
    s.document.epoch != s.replica.position.epoch || g <= s.replica.position.generation || Between(s, g)
  }

  // ----- Sound: kept by every guarded step while the store stays in the epoch -----

  lemma FetchKeepsBetween(s: State, a: Action, capacity: nat, g: nat)
    requires Inv(s) && Ordered(s) && s.document.epoch == s.replica.position.epoch && Between(s, g)
    requires a.Enter? || a.TakePosition? || a.CheckState? || a.ReadDelta? || a.Load?
    ensures Between(Step(s, a, capacity), g)
  {
    var s' := Step(s, a, capacity);
    FetchStepKeepsOrder(s, a, capacity);
    if a.ReadDelta? && s.holder.Checked? && s'.holder.HaveDelta? {
      FetchedDeltaAgrees(s, s'.holder.ops);
    }
  }

  lemma FetchedDeltaAgrees(s: State, ops: seq<Operation>)
    requires Inv(s) && s.holder.Checked? && AfterDelta(s.document, s.holder.seen) == HaveDelta(PositionOf(s.document), ops)
    ensures Agree(CatchUp(s.replica.contents, ops), s.document.contents)
  {
    DeltaExtends(s, s.holder.seen);
    DocumentIsReached(s);
    ApplyingExtension(s.histories, s.replica, s.replica.position, PositionOf(s.document), ops);
  }

  lemma CommitKeepsBetween(s: State, a: Action, capacity: nat, g: nat)
    requires Inv(s) && Ordered(s) && s.document.epoch == s.replica.position.epoch && Between(s, g)
    requires a.UpdateIndex? || a.StoreNext?
    ensures Between(Step(s, a, capacity), g)
  {
  }

  lemma RebuildKeepsBetween(s: State, generation: nat, base: Contents, g: nat)
    requires Inv(s) && Ordered(s) && s.document.epoch == s.replica.position.epoch && Between(s, g)
    requires s.replica.position.generation < g && MayRebuild(s, generation, base)
    ensures Between(Rebuilt(s, generation, base), g)
  {
  }

  lemma StepKeepsSound(s: State, a: Action, capacity: nat, g: nat)
    requires Inv(s) && Ordered(s) && Guarded(s, a) && SoundPeek(s, g)
    requires s.document.epoch == s.replica.position.epoch == Step(s, a, capacity).document.epoch
    ensures var s' := Step(s, a, capacity);
            s'.replica.position.epoch == s.replica.position.epoch && SoundPeek(s', g)
  {
    var e, p := s.document.epoch, s.replica.position.generation;
    StepGoesForward(s, a, capacity, e, p);
    if g > p {
      match a
      case UpdateIndex | StoreNext => CommitKeepsBetween(s, a, capacity, g);
      case Rebuild(generation, base) => RebuildKeepsBetween(s, generation, base, g);
      case RemotePublish(_) | LocalPublish(_, _) | NewSegment(_) => PublishKeepsBetween(s, a, capacity, g);
      case _ => FetchKeepsBetween(s, a, capacity, g);
    }
  }

  lemma PublishKeepsBetween(s: State, a: Action, capacity: nat, g: nat)
    requires Inv(s) && Ordered(s) && Guarded(s, a) && s.document.epoch == s.replica.position.epoch && Between(s, g)
    requires a.RemotePublish? || a.LocalPublish? || a.NewSegment?
    requires Step(s, a, capacity).document.epoch == s.document.epoch
    ensures g <= Step(s, a, capacity).replica.position.generation || Between(Step(s, a, capacity), g)
  {
    if !a.NewSegment? && a.ops != [] {
      PublishedDocument(s.document, a.ops, capacity);
    }
  }

  lemma {:induction false} RunKeepsSound(s: State, second: seq<Action>, capacity: nat, g: nat)
    requires Inv(s) && Ordered(s) && GuardedRun(s, second, capacity) && SoundPeek(s, g)
    requires After(s, second, capacity).document.epoch == s.replica.position.epoch
    ensures var s2 := After(s, second, capacity);
            && s2.replica.position.epoch == s.replica.position.epoch && SoundPeek(s2, g)
  {
    var e := s.replica.position.epoch;
    if s.document.epoch != e {
      EpochStaysLeftOverRun(s, second, capacity, e);
    }
    if second != [] {
      var before, last := second[..|second| - 1], second[|second| - 1];
      RunKeepsOrder(s, before, capacity);
      EpochIsStill(s, before, capacity, e, last);
      RunKeepsSound(s, before, capacity, g);
      StepKeepsSound(After(s, before, capacity), last, capacity, g);
    }
  }

  lemma SoundReturnsRight(s: State, g: nat, second: seq<Action>, capacity: nat)
    requires Inv(s) && Ordered(s) && SoundPeek(s, g)
    ensures ReturnsRightAfter(s, g, second, capacity)
  {
    var s2 := After(s, second, capacity);
    if GuardedRun(s, second, capacity) && s2.document.epoch == s.replica.position.epoch && s2.document.generation <= g {
      RunKeepsOrder(s, second, capacity);
      RunKeepsSound(s, second, capacity, g);
      if g <= s2.replica.position.generation {
        AtStoreAgrees(s2);
      }
    }
  }

  // ----- Unsound: a guarded run that returns early in disagreement -----

  lemma Extend(s: State, actions: seq<Action>, a: Action, capacity: nat)
    requires s.document.epoch in s.histories
    ensures After(s, actions + [a], capacity) == Step(After(s, actions, capacity), a, capacity)
    ensures GuardedRun(s, actions + [a], capacity)
       <==> GuardedRun(s, actions, capacity) && Guarded(After(s, actions, capacity), a)
  {
    assert (actions + [a])[..|actions|] == actions;
  }

  lemma OneAction(s: State, a: Action, capacity: nat)
    requires s.document.epoch in s.histories
    ensures After(s, [a], capacity) == Step(s, a, capacity)
    ensures GuardedRun(s, [a], capacity) <==> Guarded(s, a)
  {
    Extend(s, [], a, capacity);
    assert [] + [a] == [a] && After(s, [], capacity) == s;
  }

  // A publish up to the loaded generation is not noticed.
  lemma PublishUnnoticed(s: State, capacity: nat)
    requires s.document.epoch in s.histories
    ensures var s2 := Step(s, RemotePublish([Flip(s.replica.contents)]), capacity);
            && s2.document.epoch == s.document.epoch && s2.document.generation == s.document.generation + 1
            && s2.replica == s.replica && !Agree(s2.replica.contents, s2.document.contents)
  {
    var op := Flip(s.replica.contents);
    OnePublish(s.document, op, capacity);
    FlipDiffers(s.replica.contents, s.document.contents);
    Lacks(s.replica.contents, ApplyToDocument(s.document.contents, op), "k");
  }

  // The generation is beyond the store's.
  lemma BeyondStoreGoesWrong(s: State, g: nat, capacity: nat)
    requires s.document.epoch in s.histories
    requires s.document.epoch == s.replica.position.epoch && s.document.generation < g
    ensures !ReturnsRightAfter(s, g, [RemotePublish([Flip(s.replica.contents)])], capacity)
  {
    PublishUnnoticed(s, capacity);
    OneAction(s, RemotePublish([Flip(s.replica.contents)]), capacity);
  }

  // A rebuild that leaves the replica in step takes the store below the generation again.
  lemma FallBackIsGuarded(s: State, g: nat)
    requires Inv(s) && Ordered(s) && s.document.epoch == s.replica.position.epoch
    requires s.replica.position.generation < g && CanFallBack(s, g)
    ensures MayRebuild(s, g - 1, s.replica.contents)
  {
    match s.holder
    case Loaded(target, contents) =>
      var h := s.histories[target.epoch];
      EarlierIsEmpty(h, s.replica.position.generation, target.generation);
    case _ =>
  }

  lemma EarlierIsEmpty(h: History, early: nat, late: nat)
    requires early <= late <= h.Generation() && LogAt(h, late) == []
    ensures LogAt(h, early) == []
  {
    var m, n := BatchesAt(h, early), BatchesAt(h, late);
    FlattenPrefix(h.batches[..n], m);
    assert h.batches[..n][..m] == h.batches[..m];
  }

  lemma FallBackGoesWrong(s: State, g: nat, capacity: nat)
    requires Inv(s) && Ordered(s) && s.document.epoch == s.replica.position.epoch
    requires s.replica.position.generation < g && CanFallBack(s, g)
    ensures !ReturnsRightAfter(
               s, g, [Rebuild(g - 1, s.replica.contents)] + [RemotePublish([Flip(s.replica.contents)])], capacity)
  {
    var a, b := Rebuild(g - 1, s.replica.contents), RemotePublish([Flip(s.replica.contents)]);
    FallBackIsGuarded(s, g);
    OneAction(s, a, capacity);
    Extend(s, [a], b, capacity);
    PublishUnnoticed(Step(s, a, capacity), capacity);
  }

  // The store is at the generation, and the contents are, or will be, something else.
  lemma DisagreementShows(s: State, capacity: nat)
    requires s.document.epoch in s.histories
    requires s.document.epoch == s.replica.position.epoch && !AllAgree(s)
    ensures exists second :: !ReturnsRightAfter(s, s.document.generation, second, capacity)
  {
    if !Agree(s.replica.contents, s.document.contents) {
      assert !ReturnsRightAfter(s, s.document.generation, [], capacity);
    } else {
      OneAction(s, UpdateIndex, capacity);
      assert !ReturnsRightAfter(s, s.document.generation, [UpdateIndex], capacity);
    }
  }

  /**
   The unlocked check, exactly. With generation `g` loaded and then, in any reachable state `s`, the
   epoch: no guarded continuation makes the check return early while the replica's contents
   differ from the store's, exactly when the check is sound in `s`.
   */
  lemma UnlockedReturnIff(s: State, g: nat, capacity: nat)
    requires Inv(s) && Ordered(s)
    ensures ReturnsRight(s, g, capacity) <==> SoundPeek(s, g)
  {
    if SoundPeek(s, g) {
      forall second ensures ReturnsRightAfter(s, g, second, capacity) {
        SoundReturnsRight(s, g, second, capacity);
      }
    } else if s.document.generation < g {
      BeyondStoreGoesWrong(s, g, capacity);
    } else if CanFallBack(s, g) {
      FallBackGoesWrong(s, g, capacity);
    } else {
      DisagreementShows(s, capacity);
    }
  }

  // In particular, two loads that see the same epoch are sound in every guarded run.
  lemma SameEpochIsSound(s: State, first: seq<Action>, capacity: nat)
    requires Inv(s) && Ordered(s) && GuardedRun(s, first, capacity)
    requires After(s, first, capacity).replica.position.epoch == s.replica.position.epoch
    ensures SoundPeek(After(s, first, capacity), s.replica.position.generation)
  {
    var s1 := After(s, first, capacity);
    if s1.document.epoch == s.replica.position.epoch {
      RunGoesForward(s, first, capacity, s1.document.epoch, s.replica.position.generation);
    }
  }

  // ----- A torn read -----

  const TORN_START := Start(10, EMPTY)

  // Another task's sync to a new segment, as far as its last store.
  const TORN_FETCH: seq<Action> := [NewSegment(2), Enter, TakePosition, CheckState(false), Load(false)]

  const TORN_FIRST: seq<Action> := TORN_FETCH + [UpdateIndex] + [StoreNext] + [StoreNext] + [StoreNext]

  const TORN_HISTORIES := map[1 := History(EMPTY, 10, []), 2 := History(EMPTY, 0, [])]

  lemma FetchOfNewSegment(capacity: nat)
    ensures GuardedRun(TORN_START, TORN_FETCH, capacity)
    ensures After(TORN_START, TORN_FETCH, capacity)
         == State(TORN_HISTORIES, Document(0, 2, 0, EMPTY, []), TORN_START.replica, Loaded(Position(0, 2, 0), EMPTY))
  {
    var a1: seq<Action> := [] + [NewSegment(2)];
    Extend(TORN_START, [], NewSegment(2), capacity);
    var a2 := a1 + [Enter];
    Extend(TORN_START, a1, Enter, capacity);
    var a3 := a2 + [TakePosition];
    Extend(TORN_START, a2, TakePosition, capacity);
    var a4 := a3 + [CheckState(false)];
    Extend(TORN_START, a3, CheckState(false), capacity);
    Extend(TORN_START, a4, Load(false), capacity);
    assert TORN_FETCH == a4 + [Load(false)];
  }

  lemma ReloadOfNewSegment(capacity: nat)
    ensures GuardedRun(TORN_START, TORN_FIRST, capacity)
    ensures After(TORN_START, TORN_FIRST, capacity)
         == State(TORN_HISTORIES, Document(0, 2, 0, EMPTY, []),
                  Replica(Position(0, 2, 0), EMPTY, Record(2, 0, [])), Free)
  {
    FetchOfNewSegment(capacity);
    var a1 := TORN_FETCH + [UpdateIndex];
    var a2 := a1 + [StoreNext];
    Extend(TORN_START, TORN_FETCH, UpdateIndex, capacity);
    Extend(TORN_START, a1, StoreNext, capacity);
    Extend(TORN_START, a2, StoreNext, capacity);
    Extend(TORN_START, a2 + [StoreNext], StoreNext, capacity);
    StoresReachTarget(After(TORN_START, a1, capacity), capacity);
  }

  /**
   Why both loads must see one epoch: with the generation read before and the epoch read after
   another task's reload, the check returns early although the replica lacks an entry.
   */
  lemma TornReadIsStale(capacity: nat)
    ensures var s1 := After(TORN_START, TORN_FIRST, capacity);
            var s2 := Step(s1, RemotePublish([OTHER]), capacity);
            && Inv(TORN_START) && Ordered(TORN_START) && GuardedRun(TORN_START, TORN_FIRST, capacity)
            && s2.document.epoch == s1.replica.position.epoch
            && s2.document.generation <= TORN_START.replica.position.generation
            && !Agree(s2.replica.contents, s2.document.contents)
  {
    StartIsInStep(1, 10, EMPTY);
    ReloadOfNewSegment(capacity);
    var d := Document(0, 2, 0, EMPTY, []);
    OnePublish(d, OTHER, capacity);
    Lacks(EMPTY, ApplyToDocument(EMPTY, OTHER), "other");
  }
}
