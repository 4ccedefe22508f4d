/**
 What the snapshot bus reports as changed since a version, with each mark taken as one step.
 */
module SnapshotBus {
  import Strings

  datatype Module = Status | Counters | Traffic | PeerHealth | Upstreams | Cache

  // One mark: the modules it touches and the named targets it touches within them.
  datatype Mark = Mark(modules: set<Module>, targets: set<(Module, string)>)

  datatype Bus = Bus(version: nat, components: map<Module, nat>, targets: map<(Module, string), nat>)

  const INITIAL := Bus(0, map[], map[])

  function ApplyMark(b: Bus, mark: Mark): Bus {
    var version := b.version + 1;
    Bus(version,
        b.components + map m | m in mark.modules :: version,
        b.targets + map t | t in mark.targets :: version)
  }

  function AfterMarks(marks: seq<Mark>): Bus {
    if marks == [] then INITIAL else ApplyMark(AfterMarks(marks[..|marks| - 1]), marks[|marks| - 1])
  }

  predicate ModuleChanged(b: Bus, m: Module, since: nat) {
    (if m in b.components then b.components[m] else 0) > since
  }

  predicate TargetChanged(b: Bus, t: (Module, string), since: nat) {
    t in b.targets && b.targets[t] > since
  }

  lemma {:induction false} VersionCountsMarks(marks: seq<Mark>)
    ensures AfterMarks(marks).version == |marks|
  {
    if marks != [] {
      VersionCountsMarks(marks[..|marks| - 1]);
    }
  }

  lemma {:induction false} ModuleDelta(marks: seq<Mark>, since: nat, m: Module)
    ensures ModuleChanged(AfterMarks(marks), m, since) <==>
            exists i :: since <= i < |marks| && m in marks[i].modules
    ensures m in AfterMarks(marks).components ==> AfterMarks(marks).components[m] <= |marks|
  {
    if marks != [] {
      var shorter := marks[..|marks| - 1];
      ModuleDelta(shorter, since, m);
      VersionCountsMarks(shorter);
      assert forall i | 0 <= i < |shorter| :: shorter[i] == marks[i];
    }
  }

  lemma {:induction false} TargetDelta(marks: seq<Mark>, since: nat, t: (Module, string))
    ensures TargetChanged(AfterMarks(marks), t, since) <==>
            exists i :: since <= i < |marks| && t in marks[i].targets
    ensures t in AfterMarks(marks).targets ==> AfterMarks(marks).targets[t] <= |marks|
  {
    if marks != [] {
      var shorter := marks[..|marks| - 1];
      TargetDelta(shorter, since, t);
      VersionCountsMarks(shorter);
      assert forall i | 0 <= i < |shorter| :: shorter[i] == marks[i];
    }
  }

  // A delta since version `since` reports a module or a target exactly when
  // some mark after that version touched it.
  lemma DeltaIsExact(marks: seq<Mark>, since: nat)
    ensures AfterMarks(marks).version == |marks|
    ensures forall m :: ModuleChanged(AfterMarks(marks), m, since) <==>
                        exists i :: since <= i < |marks| && m in marks[i].modules
    ensures forall t :: TargetChanged(AfterMarks(marks), t, since) <==>
                        exists i :: since <= i < |marks| && t in marks[i].targets
  {
    VersionCountsMarks(marks);
    forall m ensures ModuleChanged(AfterMarks(marks), m, since) <==>
                     exists i :: since <= i < |marks| && m in marks[i].modules {
      ModuleDelta(marks, since, m);
    }
    forall t ensures TargetChanged(AfterMarks(marks), t, since) <==>
                     exists i :: since <= i < |marks| && t in marks[i].targets {
      TargetDelta(marks, since, t);
    }
  }

  ghost predicate Sorted(names: seq<string>) {
    forall i, j | 0 <= i < j < |names| :: Strings.Less(names[i], names[j])
  }

  // The names whose version lies after `since`, in order and without repeats.
  method ChangedTargetsSince(versions: map<string, nat>, since: nat) returns (changed: seq<string>)
    ensures Sorted(changed)
    ensures forall name :: name in changed <==> name in versions && versions[name] > since
  {
    changed := [];
    var pending := versions.Keys;
    while pending != {}
      invariant pending <= versions.Keys && Sorted(changed)
      invariant forall name :: name in changed <==> name in versions && name !in pending && versions[name] > since
      decreases pending
    {
      var name :| name in pending;
      pending := pending - {name};
      if versions[name] > since {
        changed := InsertSorted(changed, name);
      }
    }
  }

  method InsertSorted(names: seq<string>, name: string) returns (r: seq<string>)
    requires Sorted(names) && name !in names
    ensures Sorted(r) && forall n :: n in r <==> n in names || n == name
  {
    var at := 0;
    while at < |names| && Strings.Less(names[at], name)
      invariant 0 <= at <= |names|
      invariant forall i | 0 <= i < at :: Strings.Less(names[i], name)
    {
      at := at + 1;
    }
    forall i | at <= i < |names| ensures Strings.Less(name, names[i]) {
      Strings.LessTotal(names[at], name);
      if at < i {
        Strings.LessTransitive(name, names[at], names[i]);
      }
    }
    r := names[..at] + [name] + names[at..];
  }
}
