/**
 Waiting for a snapshot change, as a step system: any number of waiters and notifiers,
 interleaved at every atomic access. Atomics are sequentially consistent, and a `Notified`
 future receives every `notify_waiters` call made after it was created.
 */
module SnapshotWait {

  type Id = nat

  // `ticket` is the number of notifications issued when the waiter's future was created.
  datatype WaiterPc =
    | Looping
    | Registered(ticket: nat)
    | Blocked(ticket: nat)
    | Expired
    | Returned(version: nat)

  datatype Waiter = Waiter(since: nat, timed: bool, pc: WaiterPc)

  datatype NotifierPc = Bumped(version: nat) | Recorded(version: nat)

  datatype State = State(
    version: nat,
    notifications: nat,
    waiters: map<Id, Waiter>,
    notifiers: map<Id, NotifierPc>)

  datatype Action =
    | Call(w: Id, since: nat, timed: bool)
    | Register(w: Id)
    | Check(w: Id)
    | Wake(w: Id)
    | Expire(w: Id)
    | ReadAfterTimeout(w: Id)
    | Bump(n: Id)
    | Record(n: Id)
    | Notify(n: Id)

  function Move(s: State, w: Id, pc: WaiterPc): State
    requires w in s.waiters
  {
    s.(waiters := s.waiters[w := s.waiters[w].(pc := pc)])
  }

  // A disabled action leaves the state as it is.
  function Step(s: State, a: Action): State {
    match a
    case Call(w, since, timed) =>
      if w in s.waiters then s else s.(waiters := s.waiters[w := Waiter(since, timed, Looping)])
    case Register(w) =>
      if w in s.waiters && s.waiters[w].pc.Looping? then Move(s, w, Registered(s.notifications)) else s
    case Check(w) =>
      if w in s.waiters && s.waiters[w].pc.Registered? then
        Move(s, w, if s.version > s.waiters[w].since then Returned(s.version) else Blocked(s.waiters[w].pc.ticket))
      else s
    case Wake(w) =>
      if w in s.waiters && s.waiters[w].pc.Blocked? && s.notifications > s.waiters[w].pc.ticket
      then Move(s, w, Looping) else s
    case Expire(w) =>
      if w in s.waiters && s.waiters[w].pc.Blocked? && s.waiters[w].timed then Move(s, w, Expired) else s
    case ReadAfterTimeout(w) =>
      if w in s.waiters && s.waiters[w].pc.Expired? then Move(s, w, Returned(s.version)) else s
    case Bump(n) =>
      if n in s.notifiers then s
      else s.(version := s.version + 1, notifiers := s.notifiers[n := Bumped(s.version + 1)])
    case Record(n) =>
      if n in s.notifiers && s.notifiers[n].Bumped?
      then s.(notifiers := s.notifiers[n := Recorded(s.notifiers[n].version)]) else s
    case Notify(n) =>
      if n in s.notifiers && s.notifiers[n].Recorded?
      then s.(notifications := s.notifications + 1, notifiers := s.notifiers - {n}) else s
  }

  function After(s: State, actions: seq<Action>): State {
    if actions == [] then s else Step(After(s, actions[..|actions| - 1]), actions[|actions| - 1])
  }

  // A waiter that is blocked although its version has passed is signalled or about to be.
  ghost predicate WillWake(s: State, w: Id)
    requires w in s.waiters && s.waiters[w].pc.Blocked?
  {
    s.version > s.waiters[w].since ==>
      s.notifications > s.waiters[w].pc.ticket || s.notifiers != map[]
  }

  // Only a timed waiter may return a version it already knew.
  ghost predicate ReturnOk(s: State, w: Id)
    requires w in s.waiters && s.waiters[w].pc.Returned?
  {
    && s.waiters[w].pc.version <= s.version
    && (!s.waiters[w].timed ==> s.waiters[w].pc.version > s.waiters[w].since)
  }

  ghost predicate WaiterOk(s: State, w: Id)
    requires w in s.waiters
  {
    match s.waiters[w].pc
    case Looping => true
    case Registered(ticket) => ticket <= s.notifications
    case Blocked(ticket) => ticket <= s.notifications && WillWake(s, w)
    case Expired => s.waiters[w].timed
    case Returned(_) => ReturnOk(s, w)
  }

  ghost predicate Inv(s: State) {
    forall w | w in s.waiters :: WaiterOk(s, w)
  }

  // Before anyone waits.
  lemma StartKeepsInv(version: nat)
    ensures Inv(State(version, 0, map[], map[]))
  {
  }

  lemma StepKeepsInv(s: State, a: Action)
    requires Inv(s)
    ensures Inv(Step(s, a))
  {
    var s' := Step(s, a);
    forall w | w in s'.waiters ensures WaiterOk(s', w) {
      if w in s.waiters {
        assert WaiterOk(s, w);
      }
      if a.Bump? && a.n !in s.notifiers {
        assert a.n in s'.notifiers;
      }
      if a.Record? && s' != s {
        assert a.n in s'.notifiers;
      }
    }
  }

  // No lost wake-up, and no early return without a timeout, in any interleaving.
  lemma {:induction false} NoLostWakeUp(s: State, actions: seq<Action>)
    requires Inv(s)
    ensures var s' := After(s, actions);
            && Inv(s')
            && (forall w | w in s'.waiters && s'.waiters[w].pc.Blocked? :: WillWake(s', w))
            && (forall w | w in s'.waiters && s'.waiters[w].pc.Returned? :: ReturnOk(s', w))
  {
    if actions != [] {
      NoLostWakeUp(s, actions[..|actions| - 1]);
      StepKeepsInv(After(s, actions[..|actions| - 1]), actions[|actions| - 1]);
    }
    var s' := After(s, actions);
    forall w | w in s'.waiters && s'.waiters[w].pc.Blocked? ensures WillWake(s', w) {
      assert WaiterOk(s', w);
    }
    forall w | w in s'.waiters && s'.waiters[w].pc.Returned? ensures ReturnOk(s', w) {
      assert WaiterOk(s', w);
    }
  }

  // Once the notifiers are done, a blocked waiter whose version has passed gets back to the
  // check by its own steps and returns the current version.
  lemma PassedWaiterReturns(s: State, w: Id)
    requires Inv(s) && w in s.waiters && s.waiters[w].pc.Blocked?
    requires s.version > s.waiters[w].since && s.notifiers == map[]
    ensures Step(Step(Step(s, Wake(w)), Register(w)), Check(w)).waiters[w].pc == Returned(s.version)
  {
    assert WaiterOk(s, w);
  }
}
