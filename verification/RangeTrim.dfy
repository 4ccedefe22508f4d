/**
 Cutting the requested bytes out of a streamed slice. The body arrives in chunks of any
 size, with pauses in between; what leaves is the requested window, whatever the chunking.
 */
module RangeTrim {
  import opened Wrappers
  import RangeSlice

  type Byte = b: int | 0 <= b < 256

  // What the inner body answers to one poll after another. When none is left, it has ended.
  datatype Event = Wait | Data(bytes: seq<Byte>) | Trailers | Failure

  datatype Output = Pending | Chunk(bytes: seq<Byte>) | TrailerFrame | End | Truncated | Failed

  datatype State = State(inner: seq<Event>, skip: nat, emit: nat, done: bool)

  // ----- What the stream holds -----

  function Payload(inner: seq<Event>): seq<Byte> {
    if inner == [] then []
    else match inner[0]
      case Wait => Payload(inner[1..])
      case Data(bytes) => bytes + Payload(inner[1..])
      case _ => []
  }

  // How a stream that is too short ends.
  function Shortfall(inner: seq<Event>): Output {
    if inner == [] then Truncated
    else match inner[0]
      case Trailers => Truncated
      case Failure => Failed
      case _ => Shortfall(inner[1..])
  }

  // ----- What is still owed to the client -----

  function Min(a: nat, b: nat): nat {
    if a <= b then a else b
  }

  function Window(bytes: seq<Byte>, skip: nat, emit: nat): seq<Byte> {
    bytes[Min(skip, |bytes|)..Min(skip + emit, |bytes|)]
  }

  ghost function Owed(s: State): seq<Byte> {
    if s.done then [] else Window(Payload(s.inner), s.skip, s.emit)
  }

  ghost function Verdict(s: State): Output {
    if s.done || s.emit == 0 || s.skip + s.emit <= |Payload(s.inner)| then End else Shortfall(s.inner)
  }

  ghost predicate SameDebt(s: State, t: State) {
    Owed(t) == Owed(s) && Verdict(t) == Verdict(s)
  }

  // One poll: it pays off a part of what is owed, waits, or closes the account.
  ghost predicate Step(s: State, output: Output, t: State) {
    match output
    case Pending => SameDebt(s, t) && |t.inner| < |s.inner|
    case Chunk(bytes) =>
      bytes != [] && Owed(s) == bytes + Owed(t) && Verdict(t) == Verdict(s) && |t.inner| < |s.inner|
    case TrailerFrame => false
    case _ => Owed(s) == [] && output == Verdict(s) && t.done
  }

  lemma SkipChunk(bytes: seq<Byte>, rest: seq<Byte>, skip: nat, emit: nat)
    requires |bytes| <= skip
    ensures Window(bytes + rest, skip, emit) == Window(rest, skip - |bytes|, emit)
  {
  }

  lemma CutChunk(bytes: seq<Byte>, rest: seq<Byte>, skip: nat, emit: nat)
    requires skip < |bytes|
    ensures var chunk := bytes[skip..Min(skip + emit, |bytes|)];
            |chunk| <= emit && Window(bytes + rest, skip, emit) == chunk + Window(rest, 0, emit - |chunk|)
  {
  }

  lemma DataFirst(inner: seq<Event>, bytes: seq<Byte>)
    requires inner != [] && inner[0] == Data(bytes)
    ensures Payload(inner) == bytes + Payload(inner[1..])
    ensures Shortfall(inner) == Shortfall(inner[1..])
  {
  }

  lemma WaitStep(s: State)
    requires s.inner != [] && s.inner[0] == Wait
    ensures SameDebt(s, s.(inner := s.inner[1..]))
  {
  }

  lemma SkipStep(s: State, bytes: seq<Byte>)
    requires s.inner != [] && s.inner[0] == Data(bytes) && |bytes| <= s.skip
    ensures SameDebt(s, s.(inner := s.inner[1..], skip := s.skip - |bytes|))
  {
    DataFirst(s.inner, bytes);
    SkipChunk(bytes, Payload(s.inner[1..]), s.skip, s.emit);
  }

  lemma CutStep(s: State, bytes: seq<Byte>)
    requires s.inner != [] && s.inner[0] == Data(bytes) && s.skip < |bytes| && s.emit > 0 && !s.done
    ensures var chunk := bytes[s.skip..Min(s.skip + s.emit, |bytes|)];
            |chunk| <= s.emit
            && Step(s, Chunk(chunk), State(s.inner[1..], 0, s.emit - |chunk|, |chunk| == s.emit))
  {
    var chunk := bytes[s.skip..Min(s.skip + s.emit, |bytes|)];
    var rest := Payload(s.inner[1..]);
    DataFirst(s.inner, bytes);
    CutChunk(bytes, rest, s.skip, s.emit);
    if |chunk| == s.emit {
      assert Window(rest, 0, 0) == [];
    }
  }

  lemma CloseStep(s: State, t: State)
    requires !s.done && s.emit > 0 && t.done
    requires s.inner == [] || s.inner[0] == Trailers || s.inner[0] == Failure
    ensures Step(s, Shortfall(s.inner), t)
  {
    assert Payload(s.inner) == [];
  }

  lemma StepAfterSameDebt(s: State, t: State, output: Output, u: State)
    requires SameDebt(s, t) && |t.inner| <= |s.inner| && Step(t, output, u)
    ensures Step(s, output, u)
  {
  }

  // One poll: chunks that lie before the window are passed over.
  function Poll(s: State): (Output, State)
    decreases |s.inner|
  {
    if s.done then (End, s)
    else if s.emit == 0 then (End, s.(done := true))
    else if s.inner == [] then (Truncated, s.(done := true))
    else
      var rest := s.inner[1..];
      match s.inner[0]
      case Wait => (Pending, s.(inner := rest))
      case Trailers => (Truncated, s.(inner := rest, done := true))
      case Failure => (Failed, s.(inner := rest, done := true))
      case Data(bytes) =>
        if |bytes| <= s.skip then Poll(s.(inner := rest, skip := s.skip - |bytes|))
        else
          var chunk := bytes[s.skip..Min(s.skip + s.emit, |bytes|)];
          (Chunk(chunk), State(rest, 0, s.emit - |chunk|, |chunk| == s.emit))
  }

  lemma {:induction false} PollSteps(s: State)
    ensures Step(s, Poll(s).0, Poll(s).1)
    decreases |s.inner|
  {
    if s.done || s.emit == 0 {
      assert Window(Payload(s.inner), s.skip, 0) == [];
    } else if s.inner == [] || s.inner[0].Trailers? || s.inner[0].Failure? {
      CloseStep(s, Poll(s).1);
    } else if s.inner[0].Wait? {
      WaitStep(s);
    } else if |s.inner[0].bytes| <= s.skip {
      var t := s.(inner := s.inner[1..], skip := s.skip - |s.inner[0].bytes|);
      SkipStep(s, s.inner[0].bytes);
      PollSteps(t);
      StepAfterSameDebt(s, t, Poll(t).0, Poll(t).1);
    } else {
      CutStep(s, s.inner[0].bytes);
    }
  }

  // ----- The body, polled in place -----

  class TrimBody {
    var inner: seq<Event>
    var skip: nat
    var emit: nat
    var done: bool

    ghost function View(): State
      reads this
    {
      State(inner, skip, emit, done)
    }

    constructor (inner: seq<Event>, skip: nat, emit: nat)
      ensures View() == State(inner, skip, emit, false)
    {
      this.inner := inner;
      this.skip := skip;
      this.emit := emit;
      this.done := false;
    }

    // The wanted part of a chunk.
    method Emit(bytes: seq<Byte>) returns (chunk: seq<Byte>)
      requires skip < |bytes| && emit > 0 && !done
      modifies this
      ensures chunk == bytes[old(skip)..Min(old(skip) + old(emit), |bytes|)]
      ensures |chunk| <= old(emit)
      ensures View() == State(old(inner), 0, old(emit) - |chunk|, |chunk| == old(emit))
    {
      chunk := bytes;
      if skip > 0 {
        chunk := chunk[skip..];
        skip := 0;
      }
      if |chunk| > emit {
        chunk := chunk[..emit];
      }
      emit := emit - |chunk|;
      if emit == 0 {
        done := true;
      }
    }

    // In particular, trailers are never passed on.
    method PollFrame() returns (output: Output)
      modifies this
      ensures (output, View()) == Poll(old(View()))
      ensures Step(old(View()), output, View())
    {
      PollSteps(View());
      if done {
        return End;
      }
      if emit == 0 {
        done := true;
        return End;
      }
      while inner != []
        invariant !done && emit > 0
        invariant Poll(View()) == Poll(old(View()))
        decreases |inner|
      {
        var event := inner[0];
        inner := inner[1..];
        match event {
          case Data(bytes) =>
            if skip >= |bytes| {
              skip := skip - |bytes|;
            } else {
              var chunk := Emit(bytes);
              return Chunk(chunk);
            }
          case Trailers =>
            done := true;
            return if skip > 0 || emit > 0 then Truncated else TrailerFrame;
          case Failure =>
            done := true;
            return Failed;
          case Wait =>
            return Pending;
        }
      }
      done := true;
      return if skip > 0 || emit > 0 then Truncated else End;
    }
  }

  // ----- Whole runs -----

  ghost predicate IsRun(states: seq<State>, outputs: seq<Output>) {
    |states| == |outputs| + 1
    && (outputs == [] || (Step(states[0], outputs[0], states[1]) && IsRun(states[1..], outputs[1..])))
  }

  predicate IsLast(output: Output) {
    output.End? || output.Truncated? || output.Failed?
  }

  ghost predicate IsOpen(outputs: seq<Output>) {
    forall i :: 0 <= i < |outputs| ==> !IsLast(outputs[i])
  }

  function Delivered(outputs: seq<Output>): seq<Byte> {
    if outputs == [] then []
    else BytesOf(outputs[0]) + Delivered(outputs[1..])
  }

  function BytesOf(output: Output): seq<Byte> {
    if output.Chunk? then output.bytes else []
  }

  lemma OpenStep(s: State, output: Output, t: State, rest: seq<Byte>, owed: seq<Byte>)
    requires Step(s, output, t) && !IsLast(output) && Owed(t) == rest + owed
    ensures Owed(s) == BytesOf(output) + rest + owed
    ensures Verdict(t) == Verdict(s) && |t.inner| < |s.inner|
  {
  }

  lemma OpenTail(outputs: seq<Output>)
    requires IsOpen(outputs) && outputs != []
    ensures !IsLast(outputs[0]) && IsOpen(outputs[1..])
  {
    var rest := outputs[1..];
    assert forall i :: 0 <= i < |rest| ==> rest[i] == outputs[i + 1];
  }

  // Before it ends, a run has paid off what it delivered, at one inner poll or more each.
  lemma {:induction false} OpenRun(states: seq<State>, outputs: seq<Output>)
    requires IsRun(states, outputs) && IsOpen(outputs)
    ensures var last := states[|outputs|];
            Owed(states[0]) == Delivered(outputs) + Owed(last)
            && Verdict(last) == Verdict(states[0])
            && |outputs| + |last.inner| <= |states[0].inner|
    decreases |outputs|
  {
    if outputs != [] {
      var later, rest := states[1..], outputs[1..];
      OpenTail(outputs);
      OpenRun(later, rest);
      assert later[|rest|] == states[|outputs|] && later[0] == states[1];
      OpenStep(states[0], outputs[0], states[1], Delivered(rest), Owed(states[|outputs|]));
    }
  }

  /**
   Every finished run, however its polls and chunks fall, delivers exactly the window and ends
   as the stream's length demands: normally if the window lies inside the payload, and
   otherwise with an error.
   */
  lemma FinishedRun(states: seq<State>, outputs: seq<Output>, last: Output, final: State)
    requires IsRun(states, outputs) && IsOpen(outputs)
    requires IsLast(last) && Step(states[|outputs|], last, final)
    ensures Delivered(outputs) == Owed(states[0]) && last == Verdict(states[0])
  {
    OpenRun(states, outputs);
  }

  // The run that polling makes.
  ghost predicate IsPolled(states: seq<State>, outputs: seq<Output>) {
    |states| == |outputs| + 1
    && (outputs == [] || (Poll(states[0]) == (outputs[0], states[1]) && IsPolled(states[1..], outputs[1..])))
  }

  lemma OpenAll(first: Output, rest: seq<Output>)
    requires !IsLast(first) && IsOpen(rest)
    ensures IsOpen([first] + rest)
  {
  }

  // Polling finishes every stream: with at most one poll more than the inner body takes.
  lemma {:induction false} PollingEnds(s: State) returns (states: seq<State>, outputs: seq<Output>, last: Output, final: State)
    ensures IsPolled(states, outputs) && states[0] == s && |outputs| <= |s.inner|
    ensures IsRun(states, outputs) && IsOpen(outputs)
    ensures (last, final) == Poll(states[|outputs|]) && IsLast(last) && Step(states[|outputs|], last, final)
    decreases |s.inner|
  {
    var (output, t) := Poll(s);
    PollSteps(s);
    if IsLast(output) {
      return [s], [], output, t;
    }
    var later, rest;
    later, rest, last, final := PollingEnds(t);
    states, outputs := [s] + later, [output] + rest;
    assert states[1..] == later && outputs[1..] == rest;
    OpenAll(output, rest);
  }

  // Chunking and pauses cannot be seen in the result.
  lemma ChunkingIsInvisible(a: seq<Event>, b: seq<Event>, skip: nat, emit: nat)
    requires Payload(a) == Payload(b) && Shortfall(a) == Shortfall(b)
    ensures SameDebt(State(a, skip, emit, false), State(b, skip, emit, false))
  {
  }

  // A finished run of a body cut at these counters.
  ghost predicate IsFinishedRun(inner: seq<Event>, skip: nat, emit: nat,
                                states: seq<State>, outputs: seq<Output>, last: Output, final: State)
  {
    && IsRun(states, outputs) && states[0] == State(inner, skip, emit, false)
    && IsOpen(outputs) && IsLast(last) && Step(states[|outputs|], last, final)
  }

  // Every finished run ends without error and has delivered exactly these bytes.
  ghost predicate Delivers(inner: seq<Event>, skip: nat, emit: nat, bytes: seq<Byte>) {
    forall states, outputs, last, final | IsFinishedRun(inner, skip, emit, states, outputs, last, final) ::
      last == End && Delivered(outputs) == bytes
  }

  // A window inside the payload is delivered whole.
  lemma WindowIsDelivered(inner: seq<Event>, skip: nat, emit: nat)
    requires skip + emit <= |Payload(inner)|
    ensures Delivers(inner, skip, emit, Payload(inner)[skip..skip + emit])
  {
    forall states, outputs, last, final | IsFinishedRun(inner, skip, emit, states, outputs, last, final)
      ensures last == End && Delivered(outputs) == Payload(inner)[skip..skip + emit]
    {
      FinishedRun(states, outputs, last, final);
    }
  }

  /**
   From request to response: when an accepted response's body is as long as its Content-Range
   announces, every finished run delivers exactly the requested bytes and ends without error.
   */
  lemma ClientGetsRequestedBytes(
      range: RangeSlice.Range, contentRange: string, plan: RangeSlice.Plan, inner: seq<Event>)
    requires RangeSlice.WellFormed(range)
    requires RangeSlice.Announces(range, contentRange, |Payload(inner)|)
    requires RangeSlice.IsCut(range, contentRange, plan)
    ensures plan.skip == range.requestStart - range.cacheStart
    ensures plan.emit == range.requestEnd - range.requestStart + 1
    ensures plan.skip + plan.emit <= |Payload(inner)|
    ensures Delivers(inner, plan.skip, plan.emit, Payload(inner)[plan.skip..plan.skip + plan.emit])
  {
    RangeSlice.CutFitsBody(range, contentRange, plan, |Payload(inner)|);
    WindowIsDelivered(inner, plan.skip, plan.emit);
  }
}
