/** With the reorder buffer in front, out-of-order arrival gives what the plain matcher gives on the sorted stream. */
module ReorderedMatching {
  import opened Common
  import opened Matching
  import opened Engine
  import R = Reorder

  function ArrivalInputs<E>(arrivals: seq<(I64, E)>): (r: seq<R.Input<E>>)
    ensures |r| == |arrivals|
    ensures forall k {:trigger r[k]} :: 0 <= k < |r| ==> r[k] == R.Arrive(arrivals[k].0, arrivals[k].1)
  {
    seq(|arrivals|, k requires 0 <= k < |arrivals| => R.Arrive(arrivals[k].0, arrivals[k].1))
  }

  function Start<E>(lateness: I64): Machine<E> {
    Machine([], [], Some(R.NewBuffer(lateness)))
  }

  /** The runtime after pushing the first `n` arrivals, with everything emitted on the way. */
  function PushAll<E>(steps: seq<Step<E>>, lateness: I64, arrivals: seq<(I64, E)>, n: nat): (t: Turn<E>)
    requires |steps| > 0 && n <= |arrivals|
    ensures AllSound(steps, t.machine.inFlight)
  {
    if n == 0 then Turn(Start(lateness), [])
    else
      var before := PushAll(steps, lateness, arrivals, n - 1);
      var now := OnPush(steps, before.machine, arrivals[n - 1].1, arrivals[n - 1].0);
      Turn(now.machine, before.emitted + now.emitted)
  }

  /** Push every arrival, then flush. */
  function PushAllThenFlush<E>(steps: seq<Step<E>>, lateness: I64, arrivals: seq<(I64, E)>): (t: Turn<E>)
    requires |steps| > 0
  {
    var pushed := PushAll(steps, lateness, arrivals, |arrivals|);
    var end := OnEnd(steps, pushed.machine);
    Turn(end.machine, pushed.emitted + end.emitted)
  }

  /** The plain matcher on a stream, pushed in order and flushed. */
  function PlainRun<E>(steps: seq<Step<E>>, stream: seq<(I64, E)>): Effect<E>
    requires |steps| > 0
  {
    Exec(steps, [], PushesOf(stream) + [Action.Flush], |stream| + 1)
  }

  /** How many of the first `n` arrivals the buffer rejects. */
  function Rejected<E>(lateness: I64, arrivals: seq<(I64, E)>, n: nat): nat
    requires n <= |arrivals|
  {
    |R.Run(R.NewBuffer(lateness), ArrivalInputs(arrivals), n).buf.late|
  }

  lemma LateIrrelevant<E>(b: R.Buffer<E>, late: seq<(I64, E)>, ts: I64, record: E)
    ensures var d, d' := R.OnEvent(b, ts, record), R.OnEvent(b.(late := late), ts, record);
            && d'.released == d.released
            && d'.buf.(late := []) == d.buf.(late := [])
            && |d'.buf.late| - |late| == |d.buf.late| - |b.late|
            && |d.buf.late| >= |b.late|
  {
  }

  lemma {:induction false} PushesConcat<E>(a: seq<(I64, E)>, b: seq<(I64, E)>)
    ensures PushesOf(a + b) == PushesOf(a) + PushesOf(b)
  {
  }

  lemma PairsConcat<E>(a: seq<R.Entry<E>>, b: seq<R.Entry<E>>)
    ensures R.Pairs(a + b) == R.Pairs(a) + R.Pairs(b)
  {
  }

  lemma DropsAdd(all: seq<DropReason>, matcher: seq<DropReason>, m: nat, n: nat, more: seq<DropReason>)
    requires multiset(all) == multiset(matcher) + multiset(Repeat(DropReason.Late, m))
    ensures multiset(all + Repeat(DropReason.Late, n) + more)
         == multiset(matcher + more) + multiset(Repeat(DropReason.Late, m + n))
  {
    assert Repeat(DropReason.Late, m + n) == Repeat(DropReason.Late, m) + Repeat(DropReason.Late, n);
  }

  /** One push, when the matcher's buffer is `b` with its rejected events already taken. */
  lemma PushOnce<E>(steps: seq<Step<E>>, m: Machine<E>, b: R.Buffer<E>, ts: I64, event: E)
    requires |steps| > 0 && AllSound(steps, m.inFlight) && m.buf == Some(b.(late := []))
    ensures var o := R.OnEvent(b, ts, event);
            var e := Exec(steps, m.inFlight, PushesOf(R.Pairs(o.released)), |o.released|);
            && |o.buf.late| >= |b.late|
            && OnPush(steps, m, event, ts)
               == Turn(Machine(e.inFlight, m.drops + Repeat(DropReason.Late, |o.buf.late| - |b.late|) + e.drops,
                               Some(o.buf.(late := []))), e.emitted)
  {
    hide Exec, R.OnEvent, Repeat;
    LateIrrelevant(b, [], ts, event);
  }

  /** After any arrivals: the matcher has seen exactly the releases so far, and the buffer is the buffer's own run. */
  lemma {:induction false} PushedIsReleased<E>(steps: seq<Step<E>>, lateness: I64, arrivals: seq<(I64, E)>, n: nat)
    requires |steps| > 0 && n <= |arrivals|
    ensures var t := PushAll(steps, lateness, arrivals, n);
            var d := R.Run(R.NewBuffer(lateness), ArrivalInputs(arrivals), n);
            var plain := Exec(steps, [], PushesOf(R.Pairs(d.released)), |d.released|);
            && t.machine.buf == Some(d.buf.(late := []))
            && t.machine.inFlight == plain.inFlight && t.emitted == plain.emitted
            && multiset(t.machine.drops) == multiset(plain.drops) + multiset(Repeat(DropReason.Late, |d.buf.late|))
  {
    hide Transition, Exec, R.OnEvent, OnPush;
    var b, inputs := R.NewBuffer<E>(lateness), ArrivalInputs(arrivals);
    if n == 0 {
      ExecNone<E>(steps, [], []);
      assert PushesOf(R.Pairs<E>([])) == [];
      assert Repeat(DropReason.Late, 0) == [];
    } else {
      PushedIsReleased(steps, lateness, arrivals, n - 1);
      var t, d := PushAll(steps, lateness, arrivals, n - 1), R.Run(b, inputs, n - 1);
      var x := arrivals[n - 1];
      var o := R.OnEvent(d.buf, x.0, x.1);
      PushOnce(steps, t.machine, d.buf, x.0, x.1);
      PairsConcat(d.released, o.released);
      PushesConcat(R.Pairs(d.released), R.Pairs(o.released));
      ExecConcat(steps, [], PushesOf(R.Pairs(d.released)), PushesOf(R.Pairs(o.released)), |o.released|);
      hide PushesOf, R.Pairs, Repeat;
      var plain := Exec(steps, [], PushesOf(R.Pairs(d.released)), |d.released|);
      var next := Exec(steps, plain.inFlight, PushesOf(R.Pairs(o.released)), |o.released|);
      DropsAdd(t.machine.drops, plain.drops, |d.buf.late|, |o.buf.late| - |d.buf.late|, next.drops);
    }
  }

  /**
   In general: pushing any arrivals and flushing is the plain matcher on the stable sort of the accepted ones, with
   one late drop for each rejected one.
   */
  lemma ReorderingSortsAccepted<E>(steps: seq<Step<E>>, lateness: I64, arrivals: seq<(I64, E)>)
    requires |steps| > 0
    ensures var b, inputs, n := R.NewBuffer<E>(lateness), ArrivalInputs(arrivals), |arrivals|;
            var t := PushAllThenFlush(steps, lateness, arrivals);
            var plain := PlainRun(steps, R.StableSort(R.Accepted(b, inputs, n)));
            && t.emitted == plain.emitted
            && t.machine.inFlight == plain.inFlight
            && multiset(t.machine.drops) == multiset(plain.drops)
              + multiset(Repeat(DropReason.Late, Rejected(lateness, arrivals, n)))
  {
    hide Transition, Exec, R.Run, R.Accepted, R.StableSort, PushAll;
    var b, inputs, n := R.NewBuffer<E>(lateness), ArrivalInputs(arrivals), |arrivals|;
    PushedIsReleased(steps, lateness, arrivals, n);
    var t, d := PushAll(steps, lateness, arrivals, n), R.Run(b, inputs, n);
    R.RunSortsAccepted(lateness, inputs, n);
    var seen, rest := R.Pairs(d.released), R.Pairs(d.buf.pending);
    PairsConcat(d.released, d.buf.pending);
    PushesConcat(seen, rest);
    var tail := PushesOf(rest) + [Action.Flush];
    assert PushesOf(seen + rest) + [Action.Flush] == PushesOf(seen) + tail;
    ExecConcat(steps, [], PushesOf(seen), tail, |tail|);
    assert d.buf.pending[..|d.buf.pending|] == d.buf.pending;
  }

  /**
   Transparency: arrivals each at most the lateness behind every earlier one behave as the sorted stream, with no late
   drop.
   */
  lemma ReorderingIsTransparent<E>(steps: seq<Step<E>>, lateness: I64, arrivals: seq<(I64, E)>)
    requires |steps| > 0
    requires forall i, j :: 0 <= i < j < |arrivals| ==>
               arrivals[i].0 - arrivals[j].0 <= R.NewBuffer<E>(lateness).lateness
    ensures var t, plain := PushAllThenFlush(steps, lateness, arrivals), PlainRun(steps, R.StableSort(arrivals));
            && t.emitted == plain.emitted && t.machine.inFlight == plain.inFlight
            && multiset(t.machine.drops) == multiset(plain.drops)
  {
    hide Transition, Exec, R.Run, R.Accepted, R.StableSort, PushAll;
    var inputs, n := ArrivalInputs(arrivals), |arrivals|;
    R.NoneLate(lateness, inputs, n);
    R.ArrivalsAre(inputs, n);
    assert R.Arrivals(inputs, n) == arrivals;
    ReorderingSortsAccepted(steps, lateness, arrivals);
    assert Repeat(DropReason.Late, 0) == [];
  }
}
