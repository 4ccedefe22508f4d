/**
 Replica synchronisation as a step system. Sync tasks and publishers of one process serialise on
 the sync lock; between any two of their steps other processes publish, segments are replaced,
 and a starting process may rebuild the store in place.

 A rebuild keeps the store's epoch, and a publisher takes over whatever position the store
 reports, so a replica can lose step. `StepKeepsInvIff` says exactly when it does.
 */
module SharedSync {
  import opened SharedIndex

  // ----- What has been published, per store epoch -----

  // From the creation of a segment, or its last rebuild, on.
  datatype History = History(base: Contents, firstGeneration: nat, batches: seq<seq<Operation>>) {
    function Generation(): nat {
      firstGeneration + |batches|
    }
  }

  function Flatten(batches: seq<seq<Operation>>): seq<Operation> {
    if batches == [] then [] else Flatten(batches[..|batches| - 1]) + batches[|batches| - 1]
  }

  function BatchesAt(h: History, generation: nat): (n: nat)
    requires generation <= h.Generation()
    ensures n <= |h.batches|
  {
    if generation <= h.firstGeneration then 0 else generation - h.firstGeneration
  }

  // The operations published up to a generation.
  function LogAt(h: History, generation: nat): seq<Operation>
    requires generation <= h.Generation()
  {
    Flatten(h.batches[..BatchesAt(h, generation)])
  }

  lemma {:induction false} FlattenPrefix(batches: seq<seq<Operation>>, n: nat)
    requires n <= |batches|
    ensures Flatten(batches[..n]) <= Flatten(batches)
    decreases |batches|
  {
    if n < |batches| {
      var shorter := batches[..|batches| - 1];
      FlattenPrefix(shorter, n);
      assert shorter[..n] == batches[..n];
    } else {
      assert batches[..n] == batches;
    }
  }

  // ----- State -----

  datatype Position = Position(generation: nat, epoch: nat, lastSeq: nat)

  // Since its last full load, in `epoch` and covering the first `origin` operations there, the
  // replica has applied the operations of `trace` one by one.
  datatype Record = Record(epoch: nat, origin: nat, trace: seq<Operation>) {
    function Then(ops: seq<Operation>): Record {
      this.(trace := trace + ops)
    }
  }

  datatype Replica = Replica(position: Position, contents: Contents, record: Record) {
    function Apply(ops: seq<Operation>): Replica {
      this.(contents := CatchUp(contents, ops), record := record.Then(ops))
    }
  }

  // Progress of the task that holds the sync lock.
  datatype Holder =
    | Free
    | Entered
    | ReadPosition(seen: Position)
    | Checked(seen: Position)
    | HaveDelta(target: Position, ops: seq<Operation>)
    | MustReload
    | Loaded(target: Position, contents: Contents)
    | StoreGeneration(target: Position)
    | StoreEpoch(target: Position)
    | StoreSeq(target: Position)

  datatype State = State(histories: map<nat, History>, document: Document, replica: Replica, holder: Holder)

  datatype Action =
    | Enter
    | TakePosition
    | CheckState(fails: bool)
    | ReadDelta(fails: bool)
    | Load(fails: bool)
    | UpdateIndex
    | StoreNext
    | RemotePublish(ops: seq<Operation>)
    | LocalPublish(ops: seq<Operation>, fails: bool)
    | NewSegment(epoch: nat)
    | Rebuild(generation: nat, base: Contents)

  const EMPTY := Contents(map[], map[], [])

  function PositionOf(d: Document): Position {
    Position(d.generation, d.epoch, d.lastSeq)
  }

  predicate IsCurrent(s: State) {
    s.replica.position == PositionOf(s.document)
  }

  function Publish(s: State, ops: seq<Operation>, capacity: nat): State
    requires s.document.epoch in s.histories
  {
    if ops == [] then s
    else
      var h := s.histories[s.document.epoch];
      s.(document := ApplyOperations(s.document, ops, capacity),
         histories := s.histories[s.document.epoch := h.(batches := h.batches + [ops])])
  }

  // What a task does after its second look at the store's state.
  function AfterCheck(d: Document, seen: Position): Holder {
    if d.epoch == seen.epoch && d.generation <= seen.generation then Free
    else if d.epoch != seen.epoch then MustReload
    else Checked(seen)
  }

  function AfterDelta(d: Document, seen: Position): Holder {
    var ops := OperationsSince(d, seen.lastSeq);
    if d.epoch == seen.epoch && d.generation > seen.generation && d.lastSeq >= seen.lastSeq && ops != []
    then HaveDelta(PositionOf(d), ops)
    else MustReload
  }

  // A disabled action leaves the state as it is.
  function Step(s: State, a: Action, capacity: nat): (r: State)
    requires s.document.epoch in s.histories
    ensures r.document.epoch in r.histories
  {
    match (a, s.holder)
    case (Enter, Free) => s.(holder := Entered)
    case (TakePosition, Entered) => s.(holder := ReadPosition(s.replica.position))
    case (CheckState(fails), ReadPosition(seen)) =>
      s.(holder := if fails then Free else AfterCheck(s.document, seen))
    case (ReadDelta(fails), Checked(seen)) =>
      s.(holder := if fails then MustReload else AfterDelta(s.document, seen))
    case (Load(fails), MustReload) =>
      s.(holder := if fails then Free else Loaded(PositionOf(s.document), s.document.contents))
    case (UpdateIndex, HaveDelta(target, ops)) =>
      s.(replica := s.replica.Apply(ops), holder := StoreGeneration(target))
    case (UpdateIndex, Loaded(target, contents)) =>
      s.(replica := s.replica.(contents := contents, record := Record(target.epoch, target.lastSeq, [])),
         holder := StoreGeneration(target))
    case (StoreNext, StoreGeneration(target)) =>
      s.(replica := s.replica.(position := s.replica.position.(generation := target.generation)),
         holder := StoreEpoch(target))
    case (StoreNext, StoreEpoch(target)) =>
      s.(replica := s.replica.(position := s.replica.position.(epoch := target.epoch)),
         holder := StoreSeq(target))
    case (StoreNext, StoreSeq(target)) =>
      s.(replica := s.replica.(position := s.replica.position.(lastSeq := target.lastSeq)), holder := Free)
    case (RemotePublish(ops), _) => Publish(s, ops, capacity)
    case (LocalPublish(ops, fails), Free) => PublishLocally(s, ops, fails, capacity)
    case (NewSegment(epoch), _) =>
      if epoch in s.histories then s
      else s.(histories := s.histories[epoch := History(EMPTY, 0, [])],
              document := Document(0, epoch, 0, EMPTY, []))
    case (Rebuild(generation, base), _) => Rebuilt(s, generation, base)
    case _ => s
  }

  // The process has changed its own index, publishes the same operations and takes the position
  // that the store reports. When publishing fails the index stays changed.
  function PublishLocally(s: State, ops: seq<Operation>, fails: bool, capacity: nat): State
    requires s.document.epoch in s.histories
  {
    if ops == [] then s
    else if fails then s.(replica := s.replica.Apply(ops))
    else
      var published := Publish(s, ops, capacity);
      published.(replica := s.replica.Apply(ops).(position := PositionOf(published.document)))
  }

  // New contents under the epoch that the segment already has.
  function Rebuilt(s: State, generation: nat, base: Contents): State {
    s.(histories := s.histories[s.document.epoch := History(base, generation, [])],
       document := Document(generation, s.document.epoch, 0, base, []))
  }

  function After(s: State, actions: seq<Action>, capacity: nat): (r: State)
    requires s.document.epoch in s.histories
    ensures r.document.epoch in r.histories
  {
    if actions == [] then s else Step(After(s, actions[..|actions| - 1], capacity), actions[|actions| - 1], capacity)
  }

  // ----- The invariant -----

  // The position is one the epoch's history really went through, or precedes all of it.
  ghost predicate Reached(histories: map<nat, History>, p: Position) {
    && p.epoch in histories
    && p.generation <= histories[p.epoch].Generation()
    && p.lastSeq == |LogAt(histories[p.epoch], p.generation)|
  }

  // At position `p` the replica holds every published operation, each applied exactly once
  // and in order: the first ones by a full load, the rest one by one.
  ghost predicate InStep(histories: map<nat, History>, r: Replica, p: Position) {
    && Reached(histories, p)
    && var log := LogAt(histories[p.epoch], p.generation);
       && r.record.epoch == p.epoch && r.record.origin <= |log|
       && r.record.trace == log[r.record.origin..]
       && Agree(r.contents, Replay(histories[p.epoch].base, log))
  }

  // Contents loaded from the store at position `p`.
  ghost predicate IsLoad(histories: map<nat, History>, contents: Contents, p: Position) {
    && Reached(histories, p)
    && Agree(contents, Replay(histories[p.epoch].base, LogAt(histories[p.epoch], p.generation)))
  }

  ghost predicate StoreOk(s: State) {
    && s.document.epoch in s.histories
    && var h := s.histories[s.document.epoch];
       s.document.generation == h.Generation() && Describes(s.document, h.base, Flatten(h.batches))
  }

  ghost predicate HolderOk(s: State) {
    match s.holder
    case Free | Entered | MustReload => InStep(s.histories, s.replica, s.replica.position)
    case ReadPosition(seen) => seen == s.replica.position && InStep(s.histories, s.replica, s.replica.position)
    case Checked(seen) => seen == s.replica.position && InStep(s.histories, s.replica, s.replica.position)
    case HaveDelta(target, ops) =>
      && InStep(s.histories, s.replica, s.replica.position)
      && Extends(s.histories, s.replica.position, target, ops)
    case Loaded(target, contents) =>
      InStep(s.histories, s.replica, s.replica.position) && IsLoad(s.histories, contents, target)
    case StoreGeneration(target) => InStep(s.histories, s.replica, target)
    case StoreEpoch(target) =>
      InStep(s.histories, s.replica, target) && s.replica.position.generation == target.generation
    case StoreSeq(target) =>
      && InStep(s.histories, s.replica, target)
      && s.replica.position.generation == target.generation && s.replica.position.epoch == target.epoch
  }

  // The operations lead from one position of an epoch to a later one.
  ghost predicate Extends(histories: map<nat, History>, p: Position, target: Position, ops: seq<Operation>) {
    && ops != [] && Reached(histories, p) && Reached(histories, target) && p.epoch == target.epoch
    && LogAt(histories[p.epoch], target.generation) == LogAt(histories[p.epoch], p.generation) + ops
  }

  ghost predicate Inv(s: State) {
    StoreOk(s) && HolderOk(s)
  }

  // ----- Publishing only adds to what positions refer to -----

  ghost predicate Grows(before: map<nat, History>, after: map<nat, History>) {
    forall e | e in before ::
      && e in after && after[e].base == before[e].base && after[e].firstGeneration == before[e].firstGeneration
      && before[e].batches <= after[e].batches
  }

  lemma LogsAreStable(before: map<nat, History>, after: map<nat, History>, p: Position)
    requires Grows(before, after) && Reached(before, p)
    ensures Reached(after, p)
    ensures LogAt(after[p.epoch], p.generation) == LogAt(before[p.epoch], p.generation)
  {
    var n := BatchesAt(before[p.epoch], p.generation);
    assert after[p.epoch].batches[..n] == before[p.epoch].batches[..n];
  }

  lemma GrowthKeepsHolder(s: State, histories: map<nat, History>, document: Document)
    requires HolderOk(s) && Grows(s.histories, histories)
    ensures HolderOk(s.(histories := histories, document := document))
  {
    if Reached(s.histories, s.replica.position) {
      LogsAreStable(s.histories, histories, s.replica.position);
    }
    match s.holder
    case Free | Entered | MustReload | ReadPosition(_) | Checked(_) =>
    case HaveDelta(target, _) => LogsAreStable(s.histories, histories, target);
    case Loaded(target, _) => LogsAreStable(s.histories, histories, target);
    case StoreGeneration(target) => LogsAreStable(s.histories, histories, target);
    case StoreEpoch(target) => LogsAreStable(s.histories, histories, target);
    case StoreSeq(target) => LogsAreStable(s.histories, histories, target);
  }

  lemma BatchAppends(h: History, ops: seq<Operation>)
    ensures var h' := h.(batches := h.batches + [ops]);
            && Flatten(h'.batches) == Flatten(h.batches) + ops
            && LogAt(h, h.Generation()) == Flatten(h.batches)
            && LogAt(h', h'.Generation()) == Flatten(h'.batches)
  {
    var batches := h.batches + [ops];
    assert batches[..|batches| - 1] == h.batches;
    assert batches[..|batches|] == batches && h.batches[..|h.batches|] == h.batches;
  }

  lemma PublishKeepsInv(s: State, ops: seq<Operation>, capacity: nat)
    requires Inv(s)
    ensures Inv(Publish(s, ops, capacity))
    ensures Grows(s.histories, Publish(s, ops, capacity).histories)
    ensures ops != [] ==>
              var s' := Publish(s, ops, capacity);
              && s'.document.epoch == s.document.epoch
              && LogAt(s'.histories[s.document.epoch], s'.document.generation)
                 == LogAt(s.histories[s.document.epoch], s.document.generation) + ops
              && Reached(s'.histories, PositionOf(s'.document))
  {
    if ops != [] {
      var h := s.histories[s.document.epoch];
      BatchAppends(h, ops);
      ApplyOperationsDescribes(s.document, h.base, Flatten(h.batches), ops, capacity);
      var s' := Publish(s, ops, capacity);
      assert Grows(s.histories, s'.histories);
      GrowthKeepsHolder(s, s'.histories, s'.document);
    }
  }

  lemma DocumentIsReached(s: State)
    requires StoreOk(s)
    ensures Reached(s.histories, PositionOf(s.document))
    ensures var h := s.histories[s.document.epoch];
            LogAt(h, s.document.generation) == Flatten(h.batches)
  {
    var h := s.histories[s.document.epoch];
    assert h.batches[..|h.batches|] == h.batches;
  }

  lemma DeltaExtends(s: State, seen: Position)
    requires StoreOk(s) && Reached(s.histories, seen) && AfterDelta(s.document, seen).HaveDelta?
    ensures Extends(s.histories, seen, PositionOf(s.document), OperationsSince(s.document, seen.lastSeq))
  {
    var h := s.histories[seen.epoch];
    DocumentIsReached(s);
    FlattenPrefix(h.batches, BatchesAt(h, seen.generation));
    DeltaIsExactSuffix(s.document, h.base, Flatten(h.batches), seen.lastSeq);
  }

  // Applying the operations that extend a position carries the replica to the target.
  lemma ApplyingExtension(histories: map<nat, History>, r: Replica, p: Position, target: Position, ops: seq<Operation>)
    requires InStep(histories, r, p) && Extends(histories, p, target, ops)
    ensures InStep(histories, r.Apply(ops), target)
  {
    var h := histories[p.epoch];
    var log := LogAt(h, p.generation);
    CatchUpAgrees(r.contents, Replay(h.base, log), ops);
    ReplayComposes(h.base, log, ops);
    assert (log + ops)[r.record.origin..] == log[r.record.origin..] + ops;
  }

  // ----- When the invariant survives -----

  // A publisher must have applied everything that the store holds, and must succeed.
  predicate MayPublish(s: State, ops: seq<Operation>, fails: bool) {
    ops == [] ||
    (!fails && s.replica.position.epoch == s.document.epoch && s.replica.position.lastSeq == s.document.lastSeq)
  }

  // What the contents at a position are worth after a rebuild of the store.
  ghost predicate Survives(p: Position, contents: Contents, epoch: nat, generation: nat, base: Contents) {
    p.epoch != epoch || (p.lastSeq == 0 && p.generation <= generation && Agree(contents, base))
  }

  // No position and no fetched target of the rebuilt epoch is in use, unless it amounts to the
  // rebuilt store.
  ghost predicate MayRebuild(s: State, generation: nat, base: Contents) {
    var epoch := s.document.epoch;
    match s.holder
    case Free | Entered | MustReload | ReadPosition(_) | Checked(_) =>
      Survives(s.replica.position, s.replica.contents, epoch, generation, base)
    case HaveDelta(target, _) => target.epoch != epoch
    case Loaded(target, contents) =>
      && Survives(s.replica.position, s.replica.contents, epoch, generation, base)
      && Survives(target, contents, epoch, generation, base)
    case StoreGeneration(target) => Survives(target, s.replica.contents, epoch, generation, base)
    case StoreEpoch(target) => Survives(target, s.replica.contents, epoch, generation, base)
    case StoreSeq(target) => Survives(target, s.replica.contents, epoch, generation, base)
  }

  ghost predicate Guarded(s: State, a: Action) {
    match a
    case LocalPublish(ops, fails) => s.holder.Free? ==> MayPublish(s, ops, fails)
    case Rebuild(generation, base) => MayRebuild(s, generation, base)
    case _ => true
  }

  // A replica in the store's epoch that has applied as many operations as the store is current.
  lemma SameSequenceIsCurrent(s: State)
    requires StoreOk(s) && InStep(s.histories, s.replica, s.replica.position)
    requires s.replica.position.epoch == s.document.epoch
    ensures s.replica.position.lastSeq <= s.document.lastSeq
    ensures s.replica.position.lastSeq == s.document.lastSeq ==>
              LogAt(s.histories[s.document.epoch], s.replica.position.generation)
              == Flatten(s.histories[s.document.epoch].batches)
  {
    var h := s.histories[s.document.epoch];
    FlattenPrefix(h.batches, BatchesAt(h, s.replica.position.generation));
  }

  lemma CurrentPublishKeepsInv(s: State, ops: seq<Operation>, capacity: nat)
    requires Inv(s) && s.holder.Free? && MayPublish(s, ops, false)
    ensures Inv(PublishLocally(s, ops, false, capacity))
    ensures ops != [] ==> IsCurrent(PublishLocally(s, ops, false, capacity))
  {
    if ops != [] {
      SameSequenceIsCurrent(s);
      DocumentIsReached(s);
      PublishKeepsInv(s, ops, capacity);
      var published := Publish(s, ops, capacity);
      LogsAreStable(s.histories, published.histories, s.replica.position);
      ApplyingExtension(published.histories, s.replica, s.replica.position, PositionOf(published.document), ops);
    }
  }

  // Any other publish leaves the replica's record with a gap, or with operations of no log.
  lemma StalePublishLosesStep(s: State, ops: seq<Operation>, fails: bool, capacity: nat)
    requires Inv(s) && s.holder.Free? && !MayPublish(s, ops, fails)
    ensures !Inv(PublishLocally(s, ops, fails, capacity))
  {
    var s' := PublishLocally(s, ops, fails, capacity);
    assert |s'.replica.record.trace| == |s.replica.record.trace| + |ops|;
    if !fails && s.replica.position.epoch == s.document.epoch {
      SameSequenceIsCurrent(s);
      PublishKeepsInv(s, ops, capacity);
      DocumentIsReached(s);
    }
  }

  lemma PublishKeepsInvIff(s: State, ops: seq<Operation>, fails: bool, capacity: nat)
    requires Inv(s) && s.holder.Free?
    ensures Inv(PublishLocally(s, ops, fails, capacity)) <==> MayPublish(s, ops, fails)
  {
    if !MayPublish(s, ops, fails) {
      StalePublishLosesStep(s, ops, fails, capacity);
    } else {
      CurrentPublishKeepsInv(s, ops, capacity);
    }
  }

  lemma RebuildInStepIff(s: State, r: Replica, p: Position, generation: nat, base: Contents)
    requires InStep(s.histories, r, p)
    ensures InStep(Rebuilt(s, generation, base).histories, r, p)
       <==> Survives(p, r.contents, s.document.epoch, generation, base)
  {
    if p.epoch == s.document.epoch {
      AtRebuilt(base, generation, p.generation);
    } else {
      assert Rebuilt(s, generation, base).histories[p.epoch] == s.histories[p.epoch];
    }
  }

  // A rebuilt history has no operations yet.
  lemma AtRebuilt(base: Contents, generation: nat, at: nat)
    ensures at <= generation ==> LogAt(History(base, generation, []), at) == []
    ensures Replay(base, []) == base
  {
  }

  lemma RebuildLoadIff(s: State, contents: Contents, p: Position, generation: nat, base: Contents)
    requires IsLoad(s.histories, contents, p)
    ensures IsLoad(Rebuilt(s, generation, base).histories, contents, p)
       <==> Survives(p, contents, s.document.epoch, generation, base)
  {
    assert Replay(base, []) == base;
  }

  lemma RebuildDeltaIff(s: State, p: Position, target: Position, ops: seq<Operation>, generation: nat, base: Contents)
    requires Extends(s.histories, p, target, ops)
    ensures Extends(Rebuilt(s, generation, base).histories, p, target, ops) <==> target.epoch != s.document.epoch
  {
  }

  lemma RebuildKeepsInvIff(s: State, generation: nat, base: Contents)
    requires Inv(s)
    ensures Inv(Rebuilt(s, generation, base)) <==> MayRebuild(s, generation, base)
  {
    RebuiltStoreOk(s, generation, base);
    if InStep(s.histories, s.replica, s.replica.position) {
      RebuildInStepIff(s, s.replica, s.replica.position, generation, base);
    }
    match s.holder
    case Free | Entered | MustReload | ReadPosition(_) | Checked(_) =>
    case HaveDelta(target, ops) => RebuildDeltaIff(s, s.replica.position, target, ops, generation, base);
    case Loaded(target, contents) => RebuildLoadIff(s, contents, target, generation, base);
    case StoreGeneration(target) => RebuildInStepIff(s, s.replica, target, generation, base);
    case StoreEpoch(target) => RebuildInStepIff(s, s.replica, target, generation, base);
    case StoreSeq(target) => RebuildInStepIff(s, s.replica, target, generation, base);
  }

  lemma RebuiltStoreOk(s: State, generation: nat, base: Contents)
    ensures StoreOk(Rebuilt(s, generation, base))
  {
    assert Replay(base, []) == base;
  }

  lemma NewSegmentKeepsInv(s: State, epoch: nat, capacity: nat)
    requires Inv(s)
    ensures Inv(Step(s, NewSegment(epoch), capacity))
  {
    var s' := Step(s, NewSegment(epoch), capacity);
    if epoch !in s.histories {
      assert Grows(s.histories, s'.histories);
      GrowthKeepsHolder(s, s'.histories, s'.document);
      assert Replay(EMPTY, []) == EMPTY;
    }
  }

  // The sync task fetches; its replica stays as it is.
  lemma FetchStepKeepsInv(s: State, a: Action, capacity: nat)
    requires Inv(s) && (a.Enter? || a.TakePosition? || a.CheckState? || a.ReadDelta? || a.Load?)
    ensures Inv(Step(s, a, capacity))
  {
    var holder := Step(s, a, capacity).holder;
    assert Step(s, a, capacity) == s.(holder := holder);
    if a.ReadDelta? && s.holder.Checked? && holder.HaveDelta? {
      DeltaExtends(s, s.holder.seen);
    } else if a.Load? && holder.Loaded? {
      DocumentIsReached(s);
    }
  }

  lemma LoadedIsInStep(histories: map<nat, History>, r: Replica, target: Position, contents: Contents)
    requires IsLoad(histories, contents, target)
    ensures InStep(histories, r.(contents := contents, record := Record(target.epoch, target.lastSeq, [])), target)
  {
  }

  lemma UpdateReachesTarget(s: State, capacity: nat)
    requires Inv(s) && (s.holder.HaveDelta? || s.holder.Loaded?)
    ensures var replica := Step(s, UpdateIndex, capacity).replica;
            && Step(s, UpdateIndex, capacity) == s.(replica := replica, holder := StoreGeneration(s.holder.target))
            && InStep(s.histories, replica, s.holder.target)
  {
    match s.holder
    case HaveDelta(target, ops) => ApplyingExtension(s.histories, s.replica, s.replica.position, target, ops);
    case Loaded(target, contents) => LoadedIsInStep(s.histories, s.replica, target, contents);
  }

  // The sync task updates its index and then its position.
  lemma CommitStepKeepsInv(s: State, a: Action, capacity: nat)
    requires Inv(s) && (a.UpdateIndex? || a.StoreNext?)
    ensures Inv(Step(s, a, capacity))
  {
    if a.UpdateIndex? && (s.holder.HaveDelta? || s.holder.Loaded?) {
      UpdateReachesTarget(s, capacity);
    }
  }

  /**
   Every step of every task, publisher and store operation keeps the replica in step exactly when
   it is guarded: a publisher has applied all that the store holds and succeeds, and a rebuild
   meets no position of its epoch but one that amounts to the rebuilt store.
   */
  lemma StepKeepsInvIff(s: State, a: Action, capacity: nat)
    requires Inv(s)
    ensures Inv(Step(s, a, capacity)) <==> Guarded(s, a)
  {
    match a
    case RemotePublish(ops) => PublishKeepsInv(s, ops, capacity);
    case LocalPublish(ops, fails) => if s.holder.Free? { PublishKeepsInvIff(s, ops, fails, capacity); }
    case NewSegment(epoch) => NewSegmentKeepsInv(s, epoch, capacity);
    case Rebuild(generation, base) => RebuildKeepsInvIff(s, generation, base);
    case UpdateIndex | StoreNext => CommitStepKeepsInv(s, a, capacity);
    case _ => FetchStepKeepsInv(s, a, capacity);
  }

  // A store that has just been created or rebuilt, and a replica that holds its contents.
  lemma StartIsInStep(epoch: nat, generation: nat, base: Contents)
    ensures Inv(State(map[epoch := History(base, generation, [])], Document(generation, epoch, 0, base, []),
                      Replica(Position(generation, epoch, 0), base, Record(epoch, 0, [])), Free))
  {
    assert Replay(base, []) == base && Flatten([]) == [];
  }

  ghost predicate GuardedRun(s: State, actions: seq<Action>, capacity: nat)
    requires s.document.epoch in s.histories
  {
    actions == []
    || (GuardedRun(s, actions[..|actions| - 1], capacity)
        && Guarded(After(s, actions[..|actions| - 1], capacity), actions[|actions| - 1]))
  }

  // In step after every action.
  ghost predicate StaysInStep(s: State, actions: seq<Action>, capacity: nat)
    requires s.document.epoch in s.histories
  {
    Inv(After(s, actions, capacity)) && (actions == [] || StaysInStep(s, actions[..|actions| - 1], capacity))
  }

  /**
   Over every run, in every interleaving, the replica has applied each operation of its epoch's
   log up to its position once and in order, exactly when every action of the run is guarded.
   */
  lemma {:induction false} EveryRunStaysInStepIff(s: State, actions: seq<Action>, capacity: nat)
    requires Inv(s)
    ensures StaysInStep(s, actions, capacity) <==> GuardedRun(s, actions, capacity)
  {
    if actions != [] {
      var before := actions[..|actions| - 1];
      EveryRunStaysInStepIff(s, before, capacity);
      if StaysInStep(s, before, capacity) {
        StepKeepsInvIff(After(s, before, capacity), actions[|actions| - 1], capacity);
      }
    }
  }

  // ----- What a finished sync achieves -----

  // A call that returns early under the lock had nothing to fetch.
  lemma EarlyReturnIsCurrent(s: State)
    requires Inv(s) && s.holder.Free?
    requires s.document.epoch == s.replica.position.epoch && s.document.generation <= s.replica.position.generation
    ensures IsCurrent(s) && Agree(s.replica.contents, s.document.contents)
  {
    DocumentIsReached(s);
  }

  // The rest of an undisturbed sync, from the check on: by delta if the store offers one, or by reload.
  function Fetch(s: State, tryDelta: bool, capacity: nat): State
    requires s.document.epoch in s.histories
  {
    var read := Step(s, ReadDelta(!tryDelta), capacity);
    if read.holder.MustReload? then Step(read, Load(false), capacity) else read
  }

  function Commit(s: State, capacity: nat): State
    requires s.document.epoch in s.histories
  {
    var updated := Step(s, UpdateIndex, capacity);
    Step(Step(Step(updated, StoreNext, capacity), StoreNext, capacity), StoreNext, capacity)
  }

  lemma FetchTargetsStore(s: State, tryDelta: bool, capacity: nat)
    requires Inv(s) && s.holder.Checked?
    ensures var fetched := Fetch(s, tryDelta, capacity);
            && Inv(fetched) && fetched.histories == s.histories && fetched.document == s.document
            && (fetched.holder.HaveDelta? || fetched.holder.Loaded?)
            && fetched.holder.target == PositionOf(s.document)
  {
    FetchStepKeepsInv(s, ReadDelta(!tryDelta), capacity);
    var read := Step(s, ReadDelta(!tryDelta), capacity);
    if read.holder.MustReload? {
      FetchStepKeepsInv(read, Load(false), capacity);
    }
  }

  // The three stores move the position to the target, and change nothing else.
  lemma StoresReachTarget(s: State, capacity: nat)
    requires s.document.epoch in s.histories && s.holder.StoreGeneration?
    ensures Step(Step(Step(s, StoreNext, capacity), StoreNext, capacity), StoreNext, capacity)
         == s.(replica := s.replica.(position := s.holder.target), holder := Free)
  {
  }

  lemma CommitReachesTarget(s: State, capacity: nat)
    requires Inv(s) && (s.holder.HaveDelta? || s.holder.Loaded?)
    ensures var done := Commit(s, capacity);
            && done.histories == s.histories && done.document == s.document && done.holder.Free?
            && done.replica.position == s.holder.target
            && InStep(done.histories, done.replica, s.holder.target)
  {
    UpdateReachesTarget(s, capacity);
    StoresReachTarget(Step(s, UpdateIndex, capacity), capacity);
  }

  // Undisturbed, the delta path and the reload path end in the same place: at the store's
  // position, in agreement with the store's contents.
  lemma DeltaEqualsReload(s: State, tryDelta: bool, capacity: nat)
    requires Inv(s) && s.holder.Checked?
    ensures var done := Commit(Fetch(s, tryDelta, capacity), capacity);
            && done.holder.Free? && done.document == s.document
            && IsCurrent(done) && Agree(done.replica.contents, s.document.contents)
  {
    DocumentIsReached(s);
    FetchTargetsStore(s, tryDelta, capacity);
    CommitReachesTarget(Fetch(s, tryDelta, capacity), capacity);
  }
}
