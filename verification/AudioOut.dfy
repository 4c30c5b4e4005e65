/** Audio output: the lock and condition-variable protocol between the writers
    (au/au_dev_out.h), the device thread (au/au_dev_pa.c) and the closer (au/au_dev_out.c).

    The device structure is a class whose methods are the critical sections of the code; each
    is proved to do to the device what the step of its name does.
    A run of the whole program is a sequence of those sections in any order that the
    program counters of the thread and of the closer allow; waiting on a condition variable
    ends one section and starts another. */
module AudioOut {

  type Sample = int  // an uninterpreted float

  // What the fields of AU_DevOut stand for: the buffered samples, bufSize frames of ch
  // samples each, the capacity in frames, and the flag AU_DEV_OUT_CLOSING.
  datatype Dev = Dev(ch: nat, content: seq<Sample>, bufSize: nat, bufMax: nat, closing: bool) {
    predicate Valid() {
      ch > 0 && |content| == bufSize * ch && bufSize <= bufMax
    }
  }

  const MIN_BUF: nat := 65536

  // AU_WriteFloat; `grown` says whether the reallocation, if one is needed, succeeds.
  function Written(d: Dev, data: seq<Sample>, frames: nat, grown: bool): Dev {
    if d.bufSize + frames > d.bufMax then
      if grown then d.(content := d.content + data, bufSize := d.bufSize + frames, bufMax := d.bufSize + frames)
      else d
    else d.(content := d.content + data, bufSize := d.bufSize + frames)
  }

  predicate Accepted(d: Dev, frames: nat, grown: bool) {
    d.bufSize + frames <= d.bufMax || grown
  }

  function Drained(d: Dev): Dev {
    d.(content := [], bufSize := 0)
  }

  /** AU_DevOut */
  class AudioDev {
    const ch: nat
    var buf: array<Sample>
    var bufSize: nat
    var bufMax: nat
    var closing: bool

    // The buffer part of AU_OpenOut
    constructor (ch: nat)
      requires ch > 0
      ensures Valid() && Value() == Dev(ch, [], 0, MIN_BUF, false) && fresh(buf)
    {
      this.ch := ch;
      bufSize, bufMax, closing := 0, MIN_BUF, false;
      buf := new Sample[MIN_BUF * ch](_ => 0);
    }

    ghost predicate Valid()
      reads this
    {
      ch > 0 && buf.Length == bufMax * ch && bufSize <= bufMax
    }

    ghost function Value(): (d: Dev)
      reads this, buf
      requires Valid()
      ensures d.Valid()
    {
      Room(bufSize, bufMax, ch);
      Dev(ch, buf[..bufSize * ch], bufSize, bufMax, closing)
    }

    // AU_WriteFloat
    method WriteFloat(data: seq<Sample>, frames: nat, grown: bool) returns (rv: int)
      requires Valid() && |data| == frames * ch
      modifies this, buf
      ensures Valid() && Value() == Written(old(Value()), data, frames, grown)
      ensures rv == if Accepted(old(Value()), frames, grown) then 0 else -1
      ensures rv == if old(bufSize) + frames <= old(bufMax) || grown then 0 else -1
      ensures rv == 0 ==> bufSize == old(bufSize) + frames
      ensures rv == 0 ==> bufMax == if bufSize <= old(bufMax) then old(bufMax) else bufSize
      ensures rv == 0 ==> buf[..bufSize * ch] == old(buf[..bufSize * ch]) + data
      ensures rv != 0 ==> Value() == old(Value()) && bufSize == old(bufSize)
      ensures closing == old(closing) && (buf == old(buf) || fresh(buf))
      ensures forall s: State | s.dev == old(Value()) && Enabled(s, Write(data, frames, grown)) ::
        Next(s, Write(data, frames, grown)).dev == Value() &&
        Next(s, Write(data, frames, grown)).written == s.written + if rv == 0 then data else []
    {
      Room(bufSize, bufMax, ch);
      Room(bufSize, bufSize + frames, ch);
      assert (bufSize + frames) * ch == bufSize * ch + frames * ch;
      if bufSize + frames > bufMax {
        if !grown {
          return -1;
        }
        var bufNew := new Sample[(bufSize + frames) * ch](_ => 0);
        forall i | 0 <= i < bufSize * ch {
          bufNew[i] := buf[i];
        }
        assert bufNew[..bufSize * ch] == buf[..bufSize * ch];
        buf := bufNew;
        bufMax := bufSize + frames;
      }
      Room(bufSize + frames, bufMax, ch);
      ghost var was := buf[..bufSize * ch];
      forall i | 0 <= i < frames * ch {
        buf[bufSize * ch + i] := data[i];
      }
      assert buf[..(bufSize + frames) * ch] == was + data;
      bufSize := bufSize + frames;
      rv := 0;
    }

    // AU_DevPaThread, from the lock to the wait or the return
    method ThreadTop() returns (exits: bool)
      requires Valid()
      modifies this`closing
      ensures Valid() && Value() == old(Value()).(closing := false) && exits == old(closing)
      ensures forall s: State | s.dev == old(Value()) && Enabled(s, Step.ThreadTop) ::
        Next(s, Step.ThreadTop).dev == Value() && (Next(s, Step.ThreadTop).thread == Exited <==> exits)
    {
      exits := closing;
      if closing {
        closing := false;
      }
    }

    // AU_DevPaThread, from the end of the wait to the unlock; `out` goes to the stream.
    method ThreadWake(signaled: bool) returns (out: seq<Sample>)
      requires Valid()
      modifies this`bufSize
      ensures Valid() && Value() == if signaled then Drained(old(Value())) else old(Value())
      ensures out == if signaled then old(Value()).content else []
      ensures signaled ==> out == buf[..old(bufSize) * ch] && bufSize == 0
      ensures forall s: State | s.dev == old(Value()) && Enabled(s, Step.ThreadWake(signaled)) ::
        Next(s, Step.ThreadWake(signaled)).dev == Value() &&
          Next(s, Step.ThreadWake(signaled)).delivered == s.delivered + out
    {
      out := [];
      Room(bufSize, bufMax, ch);
      if signaled {
        out := buf[..bufSize * ch];
        bufSize := 0;
      }
    }

    // AU_CloseOut, its first section and the test of its polling loop
    method CloseStart()
      requires Valid()
      modifies this`closing
      ensures Valid() && Value() == old(Value()).(closing := true)
      ensures forall s: State | s.dev == old(Value()) && Enabled(s, Step.CloseStart) ::
        Next(s, Step.CloseStart).dev == Value()
    {
      closing := true;
    }

    method ClosePoll() returns (done: bool)
      requires Valid()
      ensures done == !Value().closing
      ensures forall s: State | s.dev == Value() && Enabled(s, Step.ClosePoll) ::
        Next(s, Step.ClosePoll).dev == Value() && (Next(s, Step.ClosePoll).closer == Leaving <==> done)
    {
      done := !closing;
    }
  }

  lemma Room(a: nat, b: nat, ch: nat)
    ensures a <= b ==> a * ch <= b * ch
  {
  }

  datatype ThreadPc = AtTop | InWait | Exited
  datatype CloserPc = NotCalled | Polling | Leaving | DriverClosed | Freed

  datatype State = State(
    dev: Dev,
    thread: ThreadPc,
    closer: CloserPc,
    streamOpen: bool,
    written: seq<Sample>,   // all samples accepted by AU_WriteFloat, in lock order
    delivered: seq<Sample>  // all samples given to the stream
  )

  datatype Step =
    | Write(data: seq<Sample>, frames: nat, grown: bool)
    | ThreadTop
    | ThreadWake(signaled: bool)
    | CloseStart
    | ClosePoll
    | CloseDriver
    | Free

  function Start(ch: nat): State {
    State(Dev(ch, [], 0, MIN_BUF, false), AtTop, NotCalled, true, [], [])
  }

  // Which sections can be entered.  Writers must not use the device after it is freed; a
  // device is closed once.
  predicate Enabled(s: State, a: Step) {
    match a
    case Write(data, frames, _) => s.closer != Freed && |data| == frames * s.dev.ch
    case ThreadTop => s.thread == AtTop
    case ThreadWake(_) => s.thread == InWait
    case CloseStart => s.closer == NotCalled
    case ClosePoll => s.closer == Polling
    case CloseDriver => s.closer == Leaving
    case Free => s.closer == DriverClosed
  }

  function Next(s: State, a: Step): State
    requires Enabled(s, a)
  {
    match a
    case Write(data, frames, grown) =>
      s.(dev := Written(s.dev, data, frames, grown),
         written := if Accepted(s.dev, frames, grown) then s.written + data else s.written)
    case ThreadTop =>
      s.(dev := s.dev.(closing := false), thread := if s.dev.closing then Exited else InWait)
    case ThreadWake(signaled) =>
      if signaled then s.(dev := Drained(s.dev), thread := AtTop, delivered := s.delivered + s.dev.content)
      else s.(thread := AtTop)
    case CloseStart => s.(dev := s.dev.(closing := true), closer := Polling)
    case ClosePoll => if s.dev.closing then s else s.(closer := Leaving)
    case CloseDriver => s.(closer := DriverClosed, streamOpen := false)
    case Free => s.(closer := Freed)
  }

  predicate IsRun(s: State, run: seq<Step>)
    decreases |run|
  {
    run == [] || (Enabled(s, run[0]) && IsRun(Next(s, run[0]), run[1..]))
  }

  function After(s: State, run: seq<Step>): State
    requires IsRun(s, run)
    decreases |run|
  {
    if run == [] then s else After(Next(s, run[0]), run[1..])
  }

  ghost predicate Inv(s: State) {
    && s.dev.Valid()
    && s.delivered + s.dev.content == s.written
    && (s.closer == NotCalled ==> !s.dev.closing && s.thread != Exited)
    && (s.closer == Polling ==> s.dev.closing != (s.thread == Exited))
    && (s.closer !in {NotCalled, Polling} ==> s.thread == Exited && !s.dev.closing)
    && (s.streamOpen <==> s.closer !in {DriverClosed, Freed})
  }

  lemma Preserved(s: State, a: Step)
    requires Inv(s) && Enabled(s, a)
    ensures Inv(Next(s, a))
  {
    var d := s.dev;
    match a
    case Write(data, frames, grown) =>
      assert (d.bufSize + frames) * d.ch == d.bufSize * d.ch + frames * d.ch;
      assert s.delivered + (d.content + data) == (s.delivered + d.content) + data;
    case ThreadWake(signaled) =>
      assert (s.delivered + d.content) + [] == s.written;
    case _ =>
  }

  // Under every interleaving: nothing is lost, duplicated or reordered on the way from the
  // writers to the stream; the buffer stays within its capacity; the stream is closed, and
  // the device freed, only after the thread has left; and no write to the stream is
  // possible after it is closed.
  lemma {:induction false} Safety(s: State, run: seq<Step>)
    requires Inv(s) && IsRun(s, run)
    ensures var t := After(s, run);
      && Inv(t)
      && t.delivered + t.dev.content == t.written
      && t.dev.bufSize <= t.dev.bufMax
      && (!t.streamOpen ==> t.thread == Exited)
      && (Enabled(t, ThreadWake(true)) ==> t.streamOpen && t.closer != Freed)
    decreases |run|
  {
    if run != [] {
      Preserved(s, run[0]);
      Safety(Next(s, run[0]), run[1..]);
    }
  }

  lemma SafetyFromStart(ch: nat, run: seq<Step>)
    requires ch > 0 && IsRun(Start(ch), run)
    ensures var t := After(Start(ch), run);
      && t.delivered + t.dev.content == t.written
      && t.dev.bufSize <= t.dev.bufMax
      && (!t.streamOpen ==> t.thread == Exited)
      && (Enabled(t, ThreadWake(true)) ==> t.streamOpen && t.closer != Freed)
  {
    Safety(Start(ch), run);
  }

  // Once the closer is polling, how many more steps the thread can take before it exits.
  function StepsLeft(s: State): nat {
    match s.thread
    case Exited => 0
    case AtTop => 1
    case InWait => 2
  }

  function ThreadSteps(run: seq<Step>): nat {
    if run == [] then 0
    else (if run[0].ThreadTop? || run[0].ThreadWake? then 1 else 0) + ThreadSteps(run[1..])
  }

  predicate ClosingOrGone(s: State) {
    s.closer != NotCalled && (s.thread != Exited ==> s.dev.closing)
  }

  // The handshake ends: after AU_CloseOut has raised the flag the thread takes at most two
  // more steps whatever the writers do, and it always has one to take until it exits.
  lemma {:induction false} CloseTerminates(s: State, run: seq<Step>)
    requires Inv(s) && ClosingOrGone(s) && IsRun(s, run)
    ensures var t := After(s, run);
      && ThreadSteps(run) + StepsLeft(t) <= StepsLeft(s) <= 2
      && ClosingOrGone(t)
      && (t.thread != Exited ==> Enabled(t, if t.thread == AtTop then ThreadTop else ThreadWake(false)))
      && (t.thread == Exited && t.closer == Polling ==> Next(t, ClosePoll).closer == Leaving)
    decreases |run|
  {
    if run != [] {
      Preserved(s, run[0]);
      CloseTerminates(Next(s, run[0]), run[1..]);
    } else {
      assert s.thread == Exited && s.closer == Polling ==> !s.dev.closing;
    }
  }

  // A write that puts nothing into the buffer
  predicate IsQuiet(s: State, a: Step) {
    a.Write? ==> a.data == [] || !Accepted(s.dev, a.frames, a.grown)
  }

  predicate Quiet(s: State, run: seq<Step>)
    requires IsRun(s, run)
    decreases |run|
  {
    run == [] || (IsQuiet(s, run[0]) && Quiet(Next(s, run[0]), run[1..]))
  }

  // Somewhere in the run the thread delivers the buffer, and nothing is put into it afterwards.
  predicate WakesThenQuiet(s: State, run: seq<Step>)
    requires IsRun(s, run)
    decreases |run|
  {
    run != [] && (
      || (run[0] == ThreadWake(true) && Quiet(Next(s, run[0]), run[1..]))
      || WakesThenQuiet(Next(s, run[0]), run[1..]))
  }

  // All that was written is delivered if and only if nothing is put into the buffer after the
  // last delivery, or at all where there is none and the buffer was empty.
  lemma {:induction false} AllDelivered(s: State, run: seq<Step>)
    requires Inv(s) && IsRun(s, run)
    ensures var t := After(s, run);
      t.delivered == t.written <==> (s.dev.content == [] && Quiet(s, run)) || WakesThenQuiet(s, run)
    decreases |run|
  {
    if run != [] {
      Preserved(s, run[0]);
      AllDelivered(Next(s, run[0]), run[1..]);
    }
  }

  // When the closer has raised the flag, only a thread that was waiting delivers once more.
  lemma {:induction false} LastWake(s: State, run: seq<Step>)
    requires Inv(s) && ClosingOrGone(s) && IsRun(s, run) && s.thread != InWait
    ensures ThreadWake(true) !in run
    decreases |run|
  {
    if run != [] {
      Preserved(s, run[0]);
      LastWake(Next(s, run[0]), run[1..]);
    }
  }

  lemma {:induction false} QuietWakes(s: State, run: seq<Step>)
    requires IsRun(s, run)
    ensures WakesThenQuiet(s, run) ==> ThreadWake(true) in run
    ensures Quiet(s, run) ==> (WakesThenQuiet(s, run) <==> ThreadWake(true) in run)
    decreases |run|
  {
    if run != [] { QuietWakes(Next(s, run[0]), run[1..]); }
  }

  // Closing delivers everything, from AU_CloseOut on, if and only if the buffer was empty and
  // nothing is put into it any more, or the thread was waiting and is woken, and nothing is put
  // into it after that: so what is in the buffer of a thread that was not waiting is lost.
  lemma CloseDelivers(s: State, run: seq<Step>)
    requires Inv(s) && s.closer == NotCalled && IsRun(s, run) && run != [] && run[0] == CloseStart
    ensures var t := After(s, run);
      && (t.delivered == t.written <==> (s.dev.content == [] && Quiet(s, run)) || WakesThenQuiet(s, run))
      && (WakesThenQuiet(s, run) ==> s.thread == InWait)
      && (Quiet(s, run) ==> (t.delivered == t.written <==> s.dev.content == [] || ThreadWake(true) in run))
  {
    AllDelivered(s, run);
    QuietWakes(s, run);
    Preserved(s, CloseStart);
    if s.thread != InWait {
      LastWake(Next(s, CloseStart), run[1..]);
    }
  }

  // Once the thread has exited, what is buffered stays undelivered.
  lemma LeavesBuffered(s: State)
    requires s.thread == Exited && s.closer == Polling && !s.dev.closing
    ensures var run := [ClosePoll, CloseDriver, Free];
      IsRun(s, run) && After(s, run).closer == Freed && After(s, run).written == s.written &&
        After(s, run).delivered == s.delivered
  {
    var s1 := Next(s, ClosePoll);
    var s2 := Next(s1, CloseDriver);
    RunStep(s2, Free, []);
    RunStep(s1, CloseDriver, [Free]);
    RunStep(s, ClosePoll, [CloseDriver, Free]);
    assert [ClosePoll] + ([CloseDriver] + ([Free] + [])) == [ClosePoll, CloseDriver, Free];
  }

  // Such a run that loses what was written
  lemma CloseDropsBuffered()
    ensures var run := [Write([7], 1, true), CloseStart, ThreadTop, ClosePoll, CloseDriver, Free];
      && IsRun(Start(1), run) && After(Start(1), run).closer == Freed
      && After(Start(1), run).written == [7] && After(Start(1), run).delivered == []
  {
    var s0 := Start(1);
    var s1 := Next(s0, Write([7], 1, true));
    var s2 := Next(s1, CloseStart);
    var s3 := Next(s2, ThreadTop);
    var run := [ClosePoll, CloseDriver, Free];
    LeavesBuffered(s3);
    RunStep(s2, ThreadTop, run);
    RunStep(s1, CloseStart, [ThreadTop] + run);
    RunStep(s0, Write([7], 1, true), [CloseStart] + ([ThreadTop] + run));
    assert [Write([7], 1, true)] + ([CloseStart] + ([ThreadTop] + run))
        == [Write([7], 1, true), CloseStart, ThreadTop, ClosePoll, CloseDriver, Free];
  }

  lemma RunStep(s: State, a: Step, run: seq<Step>)
    requires Enabled(s, a) && IsRun(Next(s, a), run)
    ensures IsRun(s, [a] + run) && After(s, [a] + run) == After(Next(s, a), run)
  {
    assert ([a] + run)[1..] == run;
  }
}
