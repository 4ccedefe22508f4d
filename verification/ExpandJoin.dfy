/**
 The expander on a text put together from two. What is written for a placeholder plays no part
 in this, so it is a parameter here.
 */
module ExpandJoin {
  import opened Wrappers
  import opened Strings
  import opened EnvExpand
  import ConfigPaths

  // What is written for a token.
  type Writer = string -> Result<string>

  function Write(token: string, after: nat, writer: Writer): (r: Result<Advance>)
    ensures r.Ok? ==> r.value.index == after
  {
    var written := writer(token);
    if written.Err? then Err(written.error) else Ok(Advance(after, written.value, Inside))
  }

  function Stepped(mode: Mode, s: string, index: nat, writer: Writer): (r: Result<Advance>)
    requires index < |s|
    ensures r.Ok? ==> index < r.value.index <= |s|
  {
    if mode == Inside && Opens(s, index, '$') then Ok(Advance(index + 2, "$", Inside))
    else if mode == Inside && Opens(s, index, '{') then
      var close := Find(s, index + 2, '}');
      if close.None? then Err(Unterminated) else Write(s[index + 2..close.value], close.value + 1, writer)
    else Ok(Advance(index + 1, [s[index]], Next(mode, s[index])))
  }

  function Written(mode: Mode, s: string, index: nat, writer: Writer): Result<string>
    requires index <= |s|
    decreases |s| - index
  {
    if index == |s| then Ok("")
    else
      var step := Stepped(mode, s, index, writer);
      if step.Err? then Err(step.error)
      else Prepend(step.value.emitted, Written(step.value.mode, s, step.value.index, writer))
  }

  function EndMode(mode: Mode, s: string, index: nat, writer: Writer): Mode
    requires index <= |s|
    decreases |s| - index
  {
    if index == |s| then mode
    else
      var step := Stepped(mode, s, index, writer);
      if step.Err? then mode else EndMode(step.value.mode, s, step.value.index, writer)
  }

  // ----- The expander of the environment is one of these -----

  function FromEnv(env: Env): Writer {
    (token: string) =>
      var value := Resolve(token, env);
      if value.Err? then Err(value.error) else Ok(Escaped(value.value))
  }

  lemma SteppedFromEnv(mode: Mode, s: string, index: nat, env: Env)
    requires index < |s|
    ensures Stepped(mode, s, index, FromEnv(env)) == AdvanceFrom(mode, s, index, env)
  {
  }

  lemma {:induction false} WrittenFromEnv(mode: Mode, s: string, index: nat, env: Env)
    requires index <= |s|
    ensures Written(mode, s, index, FromEnv(env)) == Expanded(mode, s, index, env)
    ensures EndMode(mode, s, index, FromEnv(env)) == FinalMode(mode, s, index, env)
    decreases |s| - index
  {
    if index < |s| {
      SteppedFromEnv(mode, s, index, env);
      var step := AdvanceFrom(mode, s, index, env);
      if step.Ok? {
        WrittenFromEnv(step.value.mode, s, step.value.index, env);
      }
    }
  }

  // ----- In front: what follows a line's newline does not matter to its steps -----

  lemma OpensInFront(a: string, whole: string, index: nat, c: char)
    requires a <= whole && index < |a| && ConfigPaths.EndsLine(a)
    ensures Opens(whole, index, c) <==> Opens(a, index, c)
  {
  }

  lemma SteppedInFront(mode: Mode, a: string, whole: string, index: nat, writer: Writer)
    requires a <= whole && index < |a| && ConfigPaths.EndsLine(a) && Stepped(mode, a, index, writer).Ok?
    ensures Stepped(mode, whole, index, writer) == Stepped(mode, a, index, writer)
  {
    OpensInFront(a, whole, index, '$');
    OpensInFront(a, whole, index, '{');
    if mode == Inside && !Opens(a, index, '$') && Opens(a, index, '{') {
      FindInFront(a, whole, index + 2, '}');
      var close := Find(a, index + 2, '}').value;
      assert whole[index + 2..close] == a[index + 2..close];
    }
  }

  lemma StepOf(mode: Mode, s: string, index: nat, writer: Writer, step: Advance)
    requires index < |s| && Stepped(mode, s, index, writer) == Ok(step)
    ensures Written(mode, s, index, writer) == Prepend(step.emitted, Written(step.mode, s, step.index, writer))
    ensures EndMode(mode, s, index, writer) == EndMode(step.mode, s, step.index, writer)
  {
  }

  lemma {:induction false} WrittenInFront(mode: Mode, a: string, whole: string, index: nat, writer: Writer)
    requires a <= whole && index <= |a| && ConfigPaths.EndsLine(a) && Written(mode, a, index, writer).Ok?
    ensures Written(mode, whole, index, writer)
         == Prepend(Written(mode, a, index, writer).value, Written(EndMode(mode, a, index, writer), whole, |a|, writer))
    decreases |a| - index
  {
    var rest := Written(EndMode(mode, a, index, writer), whole, |a|, writer);
    if index == |a| {
      PrependAll(rest, "", "");
    } else {
      var step := Stepped(mode, a, index, writer).value;
      SteppedInFront(mode, a, whole, index, writer);
      StepOf(mode, a, index, writer, step);
      StepOf(mode, whole, index, writer, step);
      WrittenInFront(step.mode, a, whole, step.index, writer);
      PrependAll(rest, step.emitted, Written(step.mode, a, step.index, writer).value);
    }
  }

  // ----- Behind: the text before it does not matter either -----

  function Shifted(r: Result<Advance>, n: nat): Result<Advance> {
    if r.Err? then r else Ok(r.value.(index := r.value.index + n))
  }

  lemma OpensBehind(whole: string, n: nat, b: string, i: nat, c: char, at: nat)
    requires Behind(whole, n, b) && at == n + i
    ensures Opens(whole, at, c) <==> Opens(b, i, c)
  {
    if i + 1 < |b| {
      BehindAt(whole, n, b, at);
      BehindAt(whole, n, b, at + 1);
    }
  }

  lemma SteppedBehind(mode: Mode, whole: string, n: nat, b: string, i: nat, writer: Writer, at: nat)
    requires Behind(whole, n, b) && i < |b| && at == n + i
    ensures Stepped(mode, whole, at, writer) == Shifted(Stepped(mode, b, i, writer), n)
  {
    OpensBehind(whole, n, b, i, '$', at);
    OpensBehind(whole, n, b, i, '{', at);
    BehindAt(whole, n, b, at);
    if mode == Inside && Opens(b, i, '{') {
      FindBehind(whole, n, b, i + 2, '}', at + 2);
      var close := Find(b, i + 2, '}');
      if close.Some? {
        SliceBehind(whole, n, b, i + 2, close.value, at + 2, n + close.value);
      }
    }
  }

  lemma {:induction false} WrittenBehind(mode: Mode, whole: string, n: nat, b: string, i: nat, writer: Writer, at: nat)
    requires Behind(whole, n, b) && i <= |b| && at == n + i
    ensures Written(mode, whole, at, writer) == Written(mode, b, i, writer)
    decreases |b| - i
  {
    if i < |b| {
      SteppedBehind(mode, whole, n, b, i, writer, at);
      var step := Stepped(mode, b, i, writer);
      if step.Ok? {
        var next := step.value.index + n;
        WrittenBehind(step.value.mode, whole, n, b, step.value.index, writer, next);
        StepOf(mode, b, i, writer, step.value);
        StepOf(mode, whole, at, writer, step.value.(index := next));
      }
    }
  }

  // ----- Both -----

  function Then(a: Result<string>, b: Result<string>): Result<string> {
    if a.Err? then a else Prepend(a.value, b)
  }

  // Whole lines that end outside a string, and what follows them, are expanded separately.
  lemma TwoParts(a: string, b: string, env: Env)
    requires ConfigPaths.EndsLine(a) && Expanded(Outside, a, 0, env).Ok? && FinalMode(Outside, a, 0, env) == Outside
    ensures Expanded(Outside, a + b, 0, env) == Then(Expanded(Outside, a, 0, env), Expanded(Outside, b, 0, env))
  {
    WrittenFromEnv(Outside, a, 0, env);
    WrittenFromEnv(Outside, b, 0, env);
    WrittenFromEnv(Outside, a + b, 0, env);
    WrittenTwoParts(a, b, FromEnv(env));
  }

  lemma WrittenTwoParts(a: string, b: string, writer: Writer)
    requires ConfigPaths.EndsLine(a) && Written(Outside, a, 0, writer).Ok? && EndMode(Outside, a, 0, writer) == Outside
    ensures Written(Outside, a + b, 0, writer) == Then(Written(Outside, a, 0, writer), Written(Outside, b, 0, writer))
  {
    WrittenInFront(Outside, a, a + b, 0, writer);
    assert (a + b)[|a|..] == b;
    WrittenBehind(Outside, a + b, |a|, b, 0, writer, |a|);
  }
}
