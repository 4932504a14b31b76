/**
 What a reset resets. It clears the partials in flight but not the reorder buffer, so a runtime that has been reset
 goes on as a new one exactly when its buffer is as good as new.
 */
module Resetting {
  import opened Common
  import opened Matching
  import opened Engine
  import opened Accounting
  import R = Reorder

  /** Nothing is behind this frontier. */
  predicate Bottom(last: Option<I64>) {
    last.None? || last.value == MIN_I64
  }

  /** A clock this early has a watermark at the least integer. */
  predicate Early(maxSeen: Option<I64>, lateness: I64) {
    maxSeen.None? || maxSeen.value <= SaturatingAdd(MIN_I64, lateness)
  }

  ghost predicate SamePending<E>(a: seq<R.Entry<E>>, b: seq<R.Entry<E>>, shift: int) {
    |a| == |b|
    && forall k :: 0 <= k < |a| ==> a[k].ts == b[k].ts && a[k].record == b[k].record && a[k].order == b[k].order + shift
  }

  /** Two buffers that no input can tell apart: arrival numbers shifted, early clocks and bottom frontiers alike. */
  ghost predicate Alike<E>(a: R.Buffer<E>, b: R.Buffer<E>) {
    && a.lateness == b.lateness >= 0
    && SamePending(a.pending, b.pending, a.nextOrder - b.nextOrder)
    && (a.last == b.last || (Bottom(a.last) && Bottom(b.last)))
    && (|| (a.lateness == 0 && a.pending == [])
        || a.maxSeen == b.maxSeen
        || (Early(a.maxSeen, a.lateness) && Early(b.maxSeen, b.lateness)))
  }

  lemma {:induction false} InsertAlike<E>(a: seq<R.Entry<E>>, b: seq<R.Entry<E>>, e: R.Entry<E>, f: R.Entry<E>)
    requires SamePending(a, b, e.order - f.order) && e.ts == f.ts && e.record == f.record
    ensures SamePending(R.Insert(a, e), R.Insert(b, f), e.order - f.order)
  {
    if a != [] && !R.Before(e, a[0]) { InsertAlike(a[1..], b[1..], e, f); }
  }

  lemma {:induction false} DueAlike<E>(a: seq<R.Entry<E>>, b: seq<R.Entry<E>>, shift: int, watermark: I64)
    requires SamePending(a, b, shift)
    ensures R.DueCount(a, watermark) == R.DueCount(b, watermark)
  {
    if a != [] { DueAlike(a[1..], b[1..], shift, watermark); }
  }

  lemma DrainAlike<E>(a: R.Buffer<E>, b: R.Buffer<E>, n: nat)
    requires Alike(a, b) && n <= |a.pending|
    ensures Alike(R.Drain(a, n).buf, R.Drain(b, n).buf)
    ensures R.Pairs(R.Drain(a, n).released) == R.Pairs(R.Drain(b, n).released)
  {
  }

  lemma OnAlike<E>(a: R.Buffer<E>, b: R.Buffer<E>, input: R.Input<E>)
    requires Alike(a, b)
    ensures Alike(R.On(a, input).buf, R.On(b, input).buf)
    ensures R.Pairs(R.On(a, input).released) == R.Pairs(R.On(b, input).released)
    ensures input.Arrive? ==> (R.Late(a, input.ts) <==> R.Late(b, input.ts))
  {
    match input {
      case Arrive(ts, record) =>
        if !R.Late(a, ts) { ArriveAlike(a, b, ts, record); }
      case Clock(now) =>
        var a1, b1 := a.(maxSeen := Some(R.Seen(a.maxSeen, now))), b.(maxSeen := Some(R.Seen(b.maxSeen, now)));
        var watermark := SaturatingSub(now, a.lateness);
        DueAlike(a.pending, b.pending, a.nextOrder - b.nextOrder, watermark);
        DrainAlike(a1, b1, R.DueCount(a.pending, watermark));
      case EndOfStream => DrainAlike(a, b, |a.pending|);
    }
  }

  lemma ArriveAlike<E>(a: R.Buffer<E>, b: R.Buffer<E>, ts: I64, record: E)
    requires Alike(a, b) && !R.Late(a, ts) && !R.Late(b, ts)
    ensures Alike(R.OnEvent(a, ts, record).buf, R.OnEvent(b, ts, record).buf)
    ensures R.Pairs(R.OnEvent(a, ts, record).released) == R.Pairs(R.OnEvent(b, ts, record).released)
  {
    var a1, b1 := R.Enqueue(a, ts, record), R.Enqueue(b, ts, record);
    InsertAlike(a.pending, b.pending, R.Entry(ts, a.nextOrder, record), R.Entry(ts, b.nextOrder, record));
    var w, w' := SaturatingSub(a1.maxSeen.value, a.lateness), SaturatingSub(b1.maxSeen.value, b.lateness);
    var shift := a1.nextOrder - b1.nextOrder;
    if a.lateness == 0 && a.pending == [] {
      assert a1.pending == [R.Entry(ts, a.nextOrder, record)] && b1.pending == [R.Entry(ts, b.nextOrder, record)];
      assert R.DueCount(a1.pending, w) == 1 == R.DueCount(b1.pending, w');
    } else {
      assert w == w';
      DueAlike(a1.pending, b1.pending, shift, w);
      DrainAlike(a1, b1, R.DueCount(a1.pending, w));
    }
  }

  // ---- Whole runtimes ----

  ghost predicate BuffersAlike<E>(a: Option<R.Buffer<E>>, b: Option<R.Buffer<E>>) {
    if a.None? || b.None? then a.None? && b.None? else Alike(a.value, b.value)
  }

  /** The buffer after a call. */
  function BufferAfter<E>(buf: Option<R.Buffer<E>>, c: Call<E>): Option<R.Buffer<E>> {
    if buf.None? then None
    else match c
      case CallPush(event, ts) => Some(R.OnEvent(buf.value, ts, event).buf.(late := []))
      case CallTick(now) => Some(R.OnClock(buf.value, now).buf)
      case CallFlush => Some(R.OnFlush(buf.value).buf)
      case CallReset => buf
  }

  lemma CalledBuffer<E>(steps: seq<Step<E>>, m: Machine<E>, c: Call<E>)
    requires |steps| > 0 && AllSound(steps, m.inFlight)
    ensures Called(steps, m, c).machine.buf == BufferAfter(m.buf, c)
  {
    hide Exec, R.OnEvent, R.OnClock, R.OnFlush;
  }

  lemma CallAlike<E>(a: Option<R.Buffer<E>>, b: Option<R.Buffer<E>>, c: Call<E>)
    requires BuffersAlike(a, b)
    ensures ActionsOf(a, c) == ActionsOf(b, c) && (Rejected(a, c) <==> Rejected(b, c))
    ensures BuffersAlike(BufferAfter(a, c), BufferAfter(b, c))
  {
    hide Alike, R.OnEvent, R.OnClock, R.OnFlush, R.Pairs, R.Late, PushesOf;
    if a.Some? {
      match c {
        case CallPush(event, ts) =>
          OnAlike(a.value, b.value, R.Arrive(ts, event));
          LateApart(R.OnEvent(a.value, ts, event).buf, R.OnEvent(b.value, ts, event).buf);
        case CallTick(now) => OnAlike(a.value, b.value, R.Clock(now));
        case CallFlush => OnAlike(a.value, b.value, R.EndOfStream);
        case CallReset =>
      }
    }
  }

  lemma LateApart<E>(a: R.Buffer<E>, b: R.Buffer<E>)
    requires Alike(a, b)
    ensures Alike(a.(late := []), b.(late := []))
  {
  }

  /** Machines with buffers alike have the matcher do the same and reject the same, call by call. */
  lemma {:induction false} RunAlike<E>(steps: seq<Step<E>>, m: Machine<E>, f: Machine<E>, calls: seq<Call<E>>, n: nat)
    requires |steps| > 0 && AllSound(steps, m.inFlight) && AllSound(steps, f.inFlight) && n <= |calls|
    requires BuffersAlike(m.buf, f.buf)
    ensures AllActions(steps, m, calls, n) == AllActions(steps, f, calls, n)
    ensures AllRejected(steps, m, calls, n) == AllRejected(steps, f, calls, n)
    ensures BuffersAlike(CallRun(steps, m, calls, n).machine.buf, CallRun(steps, f, calls, n).machine.buf)
  {
    hide Called, ActionsOf, Rejected, BuffersAlike, BufferAfter;
    if n > 0 {
      RunAlike(steps, m, f, calls, n - 1);
      var a, b := CallRun(steps, m, calls, n - 1).machine, CallRun(steps, f, calls, n - 1).machine;
      CalledBuffer(steps, a, calls[n - 1]);
      CalledBuffer(steps, b, calls[n - 1]);
      CallAlike(a.buf, b.buf, calls[n - 1]);
    }
  }

  /** The runtime as constructed, with a new buffer of the same lateness if it has one. */
  function Newborn<E>(m: Machine<E>): Machine<E> {
    Machine([], [], if m.buf.None? then None else Some(R.NewBuffer(m.buf.value.lateness)))
  }

  /** Nothing pending, no frontier that anything could be behind, no clock that could age anything early. */
  predicate GoodAsNew<E>(buf: Option<R.Buffer<E>>) {
    buf.Some? ==>
      && buf.value.pending == [] && Bottom(buf.value.last)
      && (buf.value.lateness == 0 || Early(buf.value.maxSeen, buf.value.lateness))
  }

  /** Whatever is called next, the matcher is made to do the same as in a new runtime, and the same is rejected. */
  ghost predicate GoesOnAsNew<E(!new)>(steps: seq<Step<E>>, m: Machine<E>)
    requires |steps| > 0 && m.inFlight == []
  {
    forall calls: seq<Call<E>>, n: nat :: n <= |calls| ==>
      && AllActions(steps, m, calls, n) == AllActions(steps, Newborn(m), calls, n)
      && AllRejected(steps, m, calls, n) == AllRejected(steps, Newborn(m), calls, n)
  }

  lemma OneCall<E>(steps: seq<Step<E>>, m: Machine<E>, c: Call<E>)
    requires |steps| > 0 && AllSound(steps, m.inFlight)
    ensures AllActions(steps, m, [c], 1) == ActionsOf(m.buf, c)
    ensures AllRejected(steps, m, [c], 1) == if Rejected(m.buf, c) then 1 else 0
  {
    hide ActionsOf, Rejected;
    assert CallRun(steps, m, [c], 0).machine == m;
    assert AllActions(steps, m, [c], 0) == [];
  }

  /** A call that a runtime with such a buffer and a new one answer differently. */
  lemma TellsApart<E>(b: R.Buffer<E>, e: E) returns (c: Call<E>)
    requires 0 <= b.lateness <= R.MAX_LATENESS && !GoodAsNew(Some(b))
    ensures ActionsOf(Some(b), c) != ActionsOf(Some(R.NewBuffer<E>(b.lateness)), c)
         || (Rejected(Some(b), c) && !Rejected(Some(R.NewBuffer<E>(b.lateness)), c))
  {
    var f := R.NewBuffer<E>(b.lateness);
    if b.pending != [] {
      c := CallFlush;
      assert |R.OnFlush(b).released| > 0 && R.OnFlush(f).released == [];
    } else if !Bottom(b.last) {
      c := CallPush(e, MIN_I64);
    } else {
      var ts := MIN_I64 + 1;
      c := CallPush(e, ts);
      var entry, entry' := R.Entry(ts, b.nextOrder, e), R.Entry(ts, 0, e);
      assert R.Enqueue(b, ts, e).pending == [entry] && R.Enqueue(f, ts, e).pending == [entry'];
      assert |R.OnEvent(b, ts, e).released| == 1 && R.OnEvent(f, ts, e).released == [];
    }
  }

  /**
   After a reset the runtime goes on as a new one, call for call, if and only if it has no reorder buffer or that buffer
   holds nothing, has released nothing that anything could be late for, and has seen no clock that could age anything.
   */
  lemma ResetIsNewIff<E(!new)>(steps: seq<Step<E>>, m: Machine<E>, e: E)
    requires |steps| > 0 && AllSound(steps, m.inFlight)
    requires m.buf.Some? ==> 0 <= m.buf.value.lateness <= R.MAX_LATENESS
    ensures var after := OnReset(steps, m).machine;
            after.inFlight == [] && (GoesOnAsNew(steps, after) <==> GoodAsNew(m.buf))
  {
    ResetClears(steps, m);
    var after := OnReset(steps, m).machine;
    var f := Newborn(after);
    hide Feed, OnReset, AllActions, AllRejected;
    if GoodAsNew(m.buf) {
      forall calls: seq<Call<E>>, n: nat | n <= |calls|
        ensures AllActions(steps, after, calls, n) == AllActions(steps, f, calls, n)
        ensures AllRejected(steps, after, calls, n) == AllRejected(steps, f, calls, n)
      {
        NewbornAlike(after);
        RunAlike(steps, after, f, calls, n);
      }
    } else {
      var c := TellsApart(m.buf.value, e);
      OneCall(steps, after, c);
      OneCall(steps, f, c);
    }
  }

  /** And then its emissions, its partials and its further drop notices are those of a new runtime. */
  lemma {:induction false} GoesOnTheSame<E>(steps: seq<Step<E>>, m: Machine<E>, calls: seq<Call<E>>, n: nat)
    requires |steps| > 0 && m.inFlight == [] && LateTaken(m) && GoodAsNew(m.buf) && n <= |calls|
    requires m.buf.Some? ==> 0 <= m.buf.value.lateness <= R.MAX_LATENESS
    ensures var t, f := CallRun(steps, m, calls, n), CallRun(steps, Newborn(m), calls, n);
            && t.emitted == f.emitted && t.machine.inFlight == f.machine.inFlight
            && t.machine.drops == m.drops + f.machine.drops && LateTaken(t.machine) && LateTaken(f.machine)
  {
    hide Called, ActionsOf, Rejected, BuffersAlike, Exec;
    if n == 0 {
      assert m.drops + [] == m.drops;
    } else {
      GoesOnTheSame(steps, m, calls, n - 1);
      NewbornAlike(m);
      RunAlike(steps, m, Newborn(m), calls, n - 1);
      var t, f := CallRun(steps, m, calls, n - 1), CallRun(steps, Newborn(m), calls, n - 1);
      var c := calls[n - 1];
      CallAlike(t.machine.buf, f.machine.buf, c);
      CallIsActions(steps, t.machine, c);
      CallIsActions(steps, f.machine, c);
      var actions := ActionsOf(t.machine.buf, c);
      var late := Repeat(DropReason.Late, if Rejected(t.machine.buf, c) then 1 else 0);
      MoreDrops(m.drops, f.machine.drops, late, Exec(steps, t.machine.inFlight, actions, |actions|).drops);
    }
  }

  lemma NewbornAlike<E>(m: Machine<E>)
    requires GoodAsNew(m.buf) && (m.buf.Some? ==> 0 <= m.buf.value.lateness <= R.MAX_LATENESS)
    ensures BuffersAlike(m.buf, Newborn(m).buf)
  {
  }

  lemma MoreDrops<T>(before: seq<T>, a: seq<T>, b: seq<T>, c: seq<T>)
    ensures (before + a) + b + c == before + (a + b + c)
  {
  }
}
