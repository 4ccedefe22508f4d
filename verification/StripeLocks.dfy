/**
 The striped I/O locks as a step system. Each stripe is a fair read-write lock: waiters are
 granted in the order in which they joined, readers share, a writer excludes everyone.
 A read call asks for one stripe; a write call takes its stripes one by one in ascending order.
 A task may be cancelled at any point, which drops its guards and its place in the queue.
 */
module StripeLocks {
  import opened Wrappers

  type Id = nat

  // The task holds `stripes[..acquired]`; `waiting` is its place in the queue of the next one.
  datatype Task = Task(stripes: seq<nat>, write: bool, acquired: nat, waiting: Option<nat>)

  datatype State = State(tasks: map<Id, Task>, nextPlace: nat)

  datatype Action =
    | Call(t: Id, stripes: seq<nat>, write: bool)
    | Enqueue(t: Id)
    | Grant(t: Id)
    | Release(t: Id)
    | Cancel(t: Id)

  ghost predicate Ascending(stripes: seq<nat>) {
    forall i, j | 0 <= i < j < |stripes| :: stripes[i] < stripes[j]
  }

  // The order in which a write call takes its stripes: sorted, each once.
  method WriteOrder(hashes: seq<string>, stripe: string -> nat) returns (stripes: seq<nat>)
    ensures Ascending(stripes)
    ensures forall x :: x in stripes <==> exists i :: 0 <= i < |hashes| && stripe(hashes[i]) == x
  {
    stripes := [];
    for i := 0 to |hashes|
      invariant Ascending(stripes)
      invariant forall x :: x in stripes <==> exists j :: 0 <= j < i && stripe(hashes[j]) == x
    {
      ghost var before := stripes;
      stripes := InsertStripe(stripes, stripe(hashes[i]));
      forall x ensures x in stripes <==> exists j :: 0 <= j < i + 1 && stripe(hashes[j]) == x {
        assert x in before <==> exists j :: 0 <= j < i && stripe(hashes[j]) == x;
        assert x == stripe(hashes[i]) ==> x in stripes;
      }
    }
  }

  method InsertStripe(stripes: seq<nat>, x: nat) returns (r: seq<nat>)
    requires Ascending(stripes)
    ensures Ascending(r) && forall y :: y in r <==> y in stripes || y == x
  {
    var at := 0;
    while at < |stripes| && stripes[at] < x
      invariant 0 <= at <= |stripes| && forall j | 0 <= j < at :: stripes[j] < x
    {
      at := at + 1;
    }
    if at < |stripes| && stripes[at] == x {
      return stripes;
    }
    r := stripes[..at] + [x] + stripes[at..];
  }

  predicate Holds(task: Task, stripe: nat) {
    task.acquired <= |task.stripes| && stripe in task.stripes[..task.acquired]
  }

  predicate Awaits(task: Task, stripe: nat) {
    task.waiting.Some? && task.acquired < |task.stripes| && task.stripes[task.acquired] == stripe
  }

  // First in its queue, and compatible with everyone who holds the stripe.
  ghost predicate Grantable(s: State, t: Id) {
    && t in s.tasks && s.tasks[t].waiting.Some? && s.tasks[t].acquired < |s.tasks[t].stripes|
    && var stripe := s.tasks[t].stripes[s.tasks[t].acquired];
       && (forall u | u in s.tasks && u != t && Awaits(s.tasks[u], stripe) ::
             s.tasks[t].waiting.value < s.tasks[u].waiting.value)
       && (forall u | u in s.tasks && u != t && Holds(s.tasks[u], stripe) ::
             !s.tasks[t].write && !s.tasks[u].write)
  }

  // A disabled action leaves the state as it is.
  ghost function Step(s: State, a: Action): State {
    match a
    case Call(t, stripes, write) =>
      if t in s.tasks || !Ascending(stripes) || (!write && |stripes| != 1) then s
      else s.(tasks := s.tasks[t := Task(stripes, write, 0, None)])
    case Enqueue(t) =>
      if t in s.tasks && s.tasks[t].waiting.None? && s.tasks[t].acquired < |s.tasks[t].stripes|
      then State(s.tasks[t := s.tasks[t].(waiting := Some(s.nextPlace))], s.nextPlace + 1)
      else s
    case Grant(t) =>
      if Grantable(s, t)
      then s.(tasks := s.tasks[t := s.tasks[t].(acquired := s.tasks[t].acquired + 1, waiting := None)])
      else s
    case Release(t) =>
      if t in s.tasks && s.tasks[t].acquired == |s.tasks[t].stripes| then s.(tasks := s.tasks - {t}) else s
    case Cancel(t) => s.(tasks := s.tasks - {t})
  }

  ghost function After(s: State, actions: seq<Action>): State {
    if actions == [] then s else Step(After(s, actions[..|actions| - 1]), actions[|actions| - 1])
  }

  // ----- The invariant -----

  ghost predicate TaskOk(s: State, task: Task) {
    && Ascending(task.stripes) && task.acquired <= |task.stripes|
    && (task.waiting.Some? ==> task.acquired < |task.stripes| && task.waiting.value < s.nextPlace)
  }

  ghost predicate Exclusive(a: Task, b: Task) {
    forall stripe | Holds(a, stripe) && Holds(b, stripe) :: !a.write && !b.write
  }

  ghost predicate Inv(s: State) {
    && (forall t | t in s.tasks :: TaskOk(s, s.tasks[t]))
    && (forall t, u | t in s.tasks && u in s.tasks && t != u :: Exclusive(s.tasks[t], s.tasks[u]))
    && (forall t, u | t in s.tasks && u in s.tasks && t != u && s.tasks[t].waiting.Some? && s.tasks[u].waiting.Some? ::
          s.tasks[t].waiting.value != s.tasks[u].waiting.value)
  }

  // Before anyone asks for a stripe.
  lemma StartKeepsInv()
    ensures Inv(State(map[], 0))
  {
  }

  // A granted stripe is the only one a task newly holds.
  lemma GrantAdds(task: Task, stripe: nat)
    requires task.acquired < |task.stripes|
    ensures Holds(task.(acquired := task.acquired + 1, waiting := None), stripe)
       <==> Holds(task, stripe) || stripe == task.stripes[task.acquired]
  {
    assert task.stripes[..task.acquired + 1] == task.stripes[..task.acquired] + [task.stripes[task.acquired]];
  }

  lemma GrantKeepsInv(s: State, t: Id)
    requires Inv(s) && Grantable(s, t)
    ensures Inv(Step(s, Grant(t)))
  {
    var s' := Step(s, Grant(t));
    var granted := s.tasks[t].stripes[s.tasks[t].acquired];
    forall u | u in s.tasks && u != t ensures Exclusive(s'.tasks[t], s'.tasks[u]) && Exclusive(s'.tasks[u], s'.tasks[t]) {
      assert Exclusive(s.tasks[t], s.tasks[u]);
      forall stripe | Holds(s'.tasks[t], stripe) && Holds(s.tasks[u], stripe)
        ensures !s.tasks[t].write && !s.tasks[u].write
      {
        GrantAdds(s.tasks[t], stripe);
      }
    }
  }

  lemma StepKeepsInv(s: State, a: Action)
    requires Inv(s)
    ensures Inv(Step(s, a))
  {
    if a.Grant? && Grantable(s, a.t) {
      GrantKeepsInv(s, a.t);
    }
  }

  // In every reachable state no two tasks hold a stripe with one of them writing.
  lemma {:induction false} EveryRunIsExclusive(s: State, actions: seq<Action>)
    requires Inv(s)
    ensures Inv(After(s, actions))
  {
    if actions != [] {
      EveryRunIsExclusive(s, actions[..|actions| - 1]);
      StepKeepsInv(After(s, actions[..|actions| - 1]), actions[|actions| - 1]);
    }
  }

  // ----- No cycle of waiting tasks -----

  // `a` cannot be granted before `b` gets out of its way.
  ghost predicate WaitsFor(s: State, a: Id, b: Id) {
    && a in s.tasks && b in s.tasks && a != b
    && exists stripe | Awaits(s.tasks[a], stripe) ::
         || (Holds(s.tasks[b], stripe) && (s.tasks[a].write || s.tasks[b].write))
         || (Awaits(s.tasks[b], stripe) && s.tasks[b].waiting.value < s.tasks[a].waiting.value)
  }

  function Awaited(task: Task): int {
    if task.acquired < |task.stripes| then task.stripes[task.acquired] else -1
  }

  function Place(task: Task): nat {
    if task.waiting.Some? then task.waiting.value else 0
  }

  // Closer to being served: waiting for a higher stripe, or further ahead in the same queue.
  predicate Ahead(b: Task, a: Task) {
    Awaited(b) > Awaited(a) || (Awaited(b) == Awaited(a) && Place(b) < Place(a))
  }

  lemma WaitingGoesUp(s: State, a: Id, b: Id)
    requires Inv(s) && WaitsFor(s, a, b) && s.tasks[b].waiting.Some?
    ensures s.tasks[a].waiting.Some? && Ahead(s.tasks[b], s.tasks[a])
  {
  }

  lemma {:induction false} WaitChainGoesUp(s: State, chain: seq<Id>)
    requires Inv(s) && |chain| >= 2
    requires forall i | 0 <= i < |chain| - 1 :: WaitsFor(s, chain[i], chain[i + 1])
    requires chain[|chain| - 1] in s.tasks && s.tasks[chain[|chain| - 1]].waiting.Some?
    ensures chain[0] in s.tasks && Ahead(s.tasks[chain[|chain| - 1]], s.tasks[chain[0]])
  {
    var last := |chain| - 1;
    assert WaitsFor(s, chain[last - 1], chain[last]);
    WaitingGoesUp(s, chain[last - 1], chain[last]);
    if last > 1 {
      WaitChainGoesUp(s, chain[..last]);
    }
  }

  // No chain of waiting tasks closes into a cycle.
  lemma NoWaitCycle(s: State, chain: seq<Id>)
    requires Inv(s) && |chain| >= 2
    requires forall i | 0 <= i < |chain| - 1 :: WaitsFor(s, chain[i], chain[i + 1])
    ensures chain[0] != chain[|chain| - 1]
  {
    assert WaitsFor(s, chain[0], chain[1]);
    if chain[0] == chain[|chain| - 1] {
      WaitChainGoesUp(s, chain);
    }
  }

  // ----- Progress -----

  ghost predicate IsFront(tasks: map<Id, Task>, ids: set<Id>, t: Id)
    requires ids <= tasks.Keys
  {
    t in ids && forall u | u in ids && u != t :: Ahead(tasks[t], tasks[u])
  }

  lemma {:induction false} FrontExists(tasks: map<Id, Task>, ids: set<Id>) returns (t: Id)
    requires ids != {} && ids <= tasks.Keys
    requires forall t, u | t in ids && u in ids && t != u :: Place(tasks[t]) != Place(tasks[u])
    ensures IsFront(tasks, ids, t)
    decreases ids
  {
    t :| t in ids;
    var rest := ids - {t};
    if rest == {} {
      assert ids == {t};
      return;
    }
    var u := FrontExists(tasks, rest);
    if Ahead(tasks[u], tasks[t]) {
      t := u;
    } else {
      forall v | v in ids && v != t ensures Ahead(tasks[t], tasks[v]) {
        assert v in rest;
      }
    }
  }

  // Some task can always step: finish, join a queue, or be granted its next stripe.
  lemma SomeTaskCanStep(s: State) returns (a: Action)
    requires Inv(s) && s.tasks != map[]
    ensures a.Enqueue? || a.Grant? || a.Release?
    ensures a.t in s.tasks
    ensures a.Enqueue? ==> s.tasks[a.t].waiting.None? && s.tasks[a.t].acquired < |s.tasks[a.t].stripes|
    ensures a.Grant? ==> Grantable(s, a.t)
    ensures a.Release? ==> s.tasks[a.t].acquired == |s.tasks[a.t].stripes|
  {
    if t :| t in s.tasks && s.tasks[t].acquired == |s.tasks[t].stripes| {
      return Release(t);
    }
    if t :| t in s.tasks && s.tasks[t].waiting.None? {
      assert TaskOk(s, s.tasks[t]);
      return Enqueue(t);
    }
    assert s.tasks.Keys != {};
    var t := FrontExists(s.tasks, s.tasks.Keys);
    var stripe := s.tasks[t].stripes[s.tasks[t].acquired];
    forall u | u in s.tasks && u != t ensures !Holds(s.tasks[u], stripe) {
      assert Ahead(s.tasks[t], s.tasks[u]) && TaskOk(s, s.tasks[u]);
    }
    a := Grant(t);
  }

  // ----- Everyone gets served -----

  function Remaining(task: Task): nat {
    var left := if task.acquired <= |task.stripes| then |task.stripes| - task.acquired else 0;
    1 + 2 * left - if task.waiting.Some? && left > 0 then 1 else 0
  }

  ghost function Work(tasks: map<Id, Task>): nat {
    if tasks == map[] then 0
    else
      var t :| t in tasks;
      Remaining(tasks[t]) + Work(tasks - {t})
  }

  lemma {:induction false} WorkWithout(tasks: map<Id, Task>, t: Id)
    requires t in tasks
    ensures Work(tasks) == Remaining(tasks[t]) + Work(tasks - {t})
    decreases tasks.Keys
  {
    var first :| first in tasks && Work(tasks) == Remaining(tasks[first]) + Work(tasks - {first});
    if first != t {
      WorkWithout(tasks - {first}, t);
      WorkWithout(tasks - {t}, first);
      assert tasks - {first} - {t} == tasks - {t} - {first};
    }
  }

  // Every step of a task uses up one unit of the work that was left.
  lemma StepUsesWork(s: State, a: Action)
    requires Inv(s) && a.t in s.tasks
    requires || (a.Enqueue? && s.tasks[a.t].waiting.None? && s.tasks[a.t].acquired < |s.tasks[a.t].stripes|)
             || (a.Grant? && Grantable(s, a.t))
             || (a.Release? && s.tasks[a.t].acquired == |s.tasks[a.t].stripes|)
    ensures Work(Step(s, a).tasks) == Work(s.tasks) - 1
  {
    var tasks, tasks' := s.tasks, Step(s, a).tasks;
    WorkWithout(tasks, a.t);
    if !a.Release? {
      WorkWithout(tasks', a.t);
      assert tasks' - {a.t} == tasks - {a.t};
    }
  }

  // From every reachable state, letting enabled tasks step serves them all, in exactly as many
  // steps as there is work left.
  lemma {:induction false} AllServed(s: State) returns (actions: seq<Action>)
    requires Inv(s)
    ensures |actions| == Work(s.tasks)
    ensures After(s, actions).tasks == map[]
    decreases Work(s.tasks)
  {
    if s.tasks == map[] {
      return [];
    }
    var a := SomeTaskCanStep(s);
    StepUsesWork(s, a);
    StepKeepsInv(s, a);
    var rest := AllServed(Step(s, a));
    actions := [a] + rest;
    AfterCons(s, a, rest);
  }

  lemma {:induction false} AfterCons(s: State, a: Action, rest: seq<Action>)
    ensures After(s, [a] + rest) == After(Step(s, a), rest)
    decreases |rest|
  {
    if rest == [] {
      assert [a] + rest == [a] && [a][..0] == [];
    } else {
      var shorter := rest[..|rest| - 1];
      AfterCons(s, a, shorter);
      assert ([a] + rest)[..|rest|] == [a] + shorter;
    }
  }
}
