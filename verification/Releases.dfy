/**
 What every input releases from the reorder buffer, and what it rejects, in terms of the inputs alone: which arrivals
 were accepted and what times were read. Clock advances and flushes included.
 */
module Releases {
  import opened Common
  import opened Reorder

  ghost predicate Accepts<E>(b: Buffer<E>, inputs: seq<Input<E>>, k: nat) {
    k < |inputs| && inputs[k].Arrive? && !Late(Run(b, inputs, k).buf, inputs[k].ts)
  }

  /** Input `k` moves the clock: an accepted arrival or a clock advance. */
  ghost predicate Timed<E>(b: Buffer<E>, inputs: seq<Input<E>>, k: nat) {
    k < |inputs| && (inputs[k].Clock? || Accepts(b, inputs, k))
  }

  function TimeOf<E>(input: Input<E>): I64
    requires !input.EndOfStream?
  {
    match input case Arrive(ts, _) => ts case Clock(now) => now
  }

  /** The latest time read by the first `n` inputs. */
  ghost function Latest<E>(b: Buffer<E>, inputs: seq<Input<E>>, n: nat): (t: Option<I64>)
    requires n <= |inputs|
    ensures forall k :: 0 <= k < n && Timed(b, inputs, k) ==> t.Some? && TimeOf(inputs[k]) <= t.value
    ensures t.Some? ==> exists k :: 0 <= k < n && Timed(b, inputs, k) && TimeOf(inputs[k]) == t.value
  {
    if n == 0 then None
    else
      var earlier := Latest(b, inputs, n - 1);
      if !Timed(b, inputs, n - 1) || (earlier.Some? && TimeOf(inputs[n - 1]) <= earlier.value) then earlier
      else Some(TimeOf(inputs[n - 1]))
  }

  lemma SeenAfter<E>(b: Buffer<E>, input: Input<E>)
    ensures var now := On(b, input).buf;
            && now.lateness == b.lateness
            && now.maxSeen == match input
                              case Arrive(ts, _) => if Late(b, ts) then b.maxSeen else Some(Seen(b.maxSeen, ts))
                              case Clock(time) => Some(Seen(b.maxSeen, time))
                              case EndOfStream => b.maxSeen
  {
  }

  lemma {:induction false} SeenIsLatest<E>(lateness: I64, inputs: seq<Input<E>>, n: nat)
    requires n <= |inputs|
    ensures var b := NewBuffer<E>(lateness);
            var now := Run(b, inputs, n).buf;
            now.maxSeen == Latest(b, inputs, n) && now.lateness == b.lateness
  {
    if n > 0 {
      SeenIsLatest(lateness, inputs, n - 1);
      SeenAfter(Run(NewBuffer<E>(lateness), inputs, n - 1).buf, inputs[n - 1]);
      hide On, Late;
    }
  }

  /** An entry that input `n` finds in the buffer or adds to it. */
  ghost predicate Candidate<E>(b: Buffer<E>, inputs: seq<Input<E>>, n: nat, e: Entry<E>)
    requires n < |inputs|
  {
    var before := Run(b, inputs, n).buf;
    e in before.pending
    || (Accepts(b, inputs, n) && e == Entry(inputs[n].ts, before.nextOrder, inputs[n].record))
  }

  /**
   What input `n` releases, if it is there: an accepted arrival everything the lateness behind the latest time read so
   far, a clock advance everything the lateness behind its own time, the end of the stream everything.
   */
  ghost predicate DueAt<E>(b: Buffer<E>, inputs: seq<Input<E>>, n: nat, e: Entry<E>)
    requires n < |inputs|
  {
    match inputs[n]
    case Arrive(_, _) =>
      Accepts(b, inputs, n) && e.ts <= SaturatingSub(Latest(b, inputs, n + 1).value, b.lateness)
    case Clock(now) => e.ts <= SaturatingSub(now, b.lateness)
    case EndOfStream => true
  }

  lemma DrainedAre<E>(b: Buffer<E>, n: nat, e: Entry<E>)
    requires n <= |b.pending|
    ensures e in b.pending <==> e in Drain(b, n).released || e in Drain(b, n).buf.pending
  {
    assert b.pending == b.pending[..n] + b.pending[n..];
  }

  lemma DrainUntilExactly<E>(b: Buffer<E>, watermark: I64, e: Entry<E>)
    requires Ordered(b.pending)
    ensures var d := DrainUntil(b, watermark);
            && (e in d.released <==> e in b.pending && e.ts <= watermark)
            && (e in d.buf.pending <==> e in b.pending && e.ts > watermark)
  {
    AboveAfterDrain(b, watermark);
    DrainedAre(b, DueCount(b.pending, watermark), e);
  }

  /**
   Exactness: over any run, an input releases exactly the candidates that are due, and exactly the others stay pending.
   A rejected arrival releases nothing.
   */
  lemma ReleasesExactly<E>(lateness: I64, inputs: seq<Input<E>>, n: nat, e: Entry<E>)
    requires n < |inputs|
    ensures var b := NewBuffer<E>(lateness);
            var now := On(Run(b, inputs, n).buf, inputs[n]);
            && (e in now.released <==> Candidate(b, inputs, n, e) && DueAt(b, inputs, n, e))
            && (e in now.buf.pending <==> Candidate(b, inputs, n, e) && !DueAt(b, inputs, n, e))
  {
    var b := NewBuffer<E>(lateness);
    var d, input := Run(b, inputs, n), inputs[n];
    RunInOrder(lateness, inputs, n);
    SeenIsLatest(lateness, inputs, n);
    PendingOrdered(d);
    hide Run, Ordered, InOrder, AboveWatermark, NotBehind, DrainUntil;
    match input {
      case Arrive(ts, record) =>
        if !Late(d.buf, ts) {
          ArrivalExactly(d, ts, record, e);
          hide OnEvent;
          assert Latest(b, inputs, n + 1) == Some(Seen(d.buf.maxSeen, ts));
        }
      case Clock(now) =>
        DrainUntilExactly(d.buf.(maxSeen := Some(Seen(d.buf.maxSeen, now))), SaturatingSub(now, b.lateness), e);
      case EndOfStream => DrainedAre(d.buf, |d.buf.pending|, e);
    }
  }

  lemma ArrivalExactly<E>(d: Drained<E>, ts: I64, record: E, e: Entry<E>)
    requires InOrder(d) && !Late(d.buf, ts)
    ensures var now, w := OnEvent(d.buf, ts, record), SaturatingSub(Seen(d.buf.maxSeen, ts), d.buf.lateness);
            var there := e in d.buf.pending || e == Entry(ts, d.buf.nextOrder, record);
            && (e in now.released <==> there && e.ts <= w) && (e in now.buf.pending <==> there && e.ts > w)
  {
    EnqueueKeepsOrder(d, ts, record);
    var q := Enqueue(d.buf, ts, record);
    PendingOrdered(Drained(q, d.released));
    Inserted(d.buf.pending, Entry(ts, d.buf.nextOrder, record), e);
    DrainUntilExactly(q, SaturatingSub(q.maxSeen.value, d.buf.lateness), e);
  }

  // ---- What is rejected ----

  /** Accepted arrival `p` has left the buffer by input `n`: some time read has aged it, or the stream was flushed. */
  ghost predicate Aged<E>(b: Buffer<E>, inputs: seq<Input<E>>, n: nat, p: nat)
    requires n <= |inputs|
  {
    && p < n && Accepts(b, inputs, p)
    && (|| (exists z :: 0 <= z < n && Timed(b, inputs, z)
                        && inputs[p].ts <= SaturatingSub(TimeOf(inputs[z]), b.lateness))
        || Flushed(inputs, p, n))
  }

  ghost predicate Flushed<E>(inputs: seq<Input<E>>, p: nat, n: nat)
    requires n <= |inputs|
  {
    exists q :: p < q < n && inputs[q].EndOfStream?
  }

  ghost predicate Holds<E>(s: seq<Entry<E>>, ts: I64) {
    exists e :: e in s && e.ts == ts
  }

  /** Everything released had aged, everything pending was accepted, and every accepted arrival is one or the other. */
  ghost predicate Placed<E>(b: Buffer<E>, inputs: seq<Input<E>>, n: nat, d: Drained<E>)
    requires n <= |inputs|
  {
    && (forall e :: e in d.released ==> AgedAt(b, inputs, n, e.ts))
    && (forall e :: e in d.buf.pending ==> AcceptedAt(b, inputs, n, e.ts))
    && (forall p :: 0 <= p < n && Accepts(b, inputs, p) ==>
          Holds(d.released, inputs[p].ts) || (!Flushed(inputs, p, n) && Holds(d.buf.pending, inputs[p].ts)))
  }

  ghost predicate AgedAt<E>(b: Buffer<E>, inputs: seq<Input<E>>, n: nat, ts: I64)
    requires n <= |inputs|
  {
    exists p: nat :: Aged(b, inputs, n, p) && inputs[p].ts == ts
  }

  ghost predicate AcceptedAt<E>(b: Buffer<E>, inputs: seq<Input<E>>, n: nat, ts: I64)
    requires n <= |inputs|
  {
    exists p :: 0 <= p < n && Accepts(b, inputs, p) && inputs[p].ts == ts
  }

  lemma AgedLater<E>(b: Buffer<E>, inputs: seq<Input<E>>, n: nat, ts: I64)
    requires n < |inputs| && AgedAt(b, inputs, n, ts)
    ensures AgedAt(b, inputs, n + 1, ts)
  {
    var p: nat :| Aged(b, inputs, n, p) && inputs[p].ts == ts;
    hide Accepts;
    assert Aged(b, inputs, n + 1, p);
  }

  lemma RunNext<E>(b: Buffer<E>, inputs: seq<Input<E>>, n: nat)
    requires n < |inputs|
    ensures var d, now := Run(b, inputs, n), On(Run(b, inputs, n).buf, inputs[n]);
            Run(b, inputs, n + 1) == Drained(now.buf, d.released + now.released)
  {
  }

  /** A candidate was accepted, earlier or by input `n` itself. */
  lemma CandidateAccepted<E>(b: Buffer<E>, inputs: seq<Input<E>>, n: nat, e: Entry<E>)
    requires n < |inputs| && Placed(b, inputs, n, Run(b, inputs, n)) && Candidate(b, inputs, n, e)
    ensures AcceptedAt(b, inputs, n + 1, e.ts)
  {
    hide Run;
    if e in Run(b, inputs, n).buf.pending {
      var p :| 0 <= p < n && Accepts(b, inputs, p) && inputs[p].ts == e.ts;
    } else {
      assert Accepts(b, inputs, n) && inputs[n].ts == e.ts;
    }
  }

  /** What input `n` releases has aged by then. */
  lemma DueIsAged<E>(b: Buffer<E>, inputs: seq<Input<E>>, n: nat, e: Entry<E>)
    requires n < |inputs| && DueAt(b, inputs, n, e) && AcceptedAt(b, inputs, n + 1, e.ts)
    ensures AgedAt(b, inputs, n + 1, e.ts)
  {
    var p :| 0 <= p < n + 1 && Accepts(b, inputs, p) && inputs[p].ts == e.ts;
    assert inputs[n].EndOfStream? ==> p < n;
    match inputs[n] {
      case Arrive(_, _) =>
        var z :| 0 <= z < n + 1 && Timed(b, inputs, z) && TimeOf(inputs[z]) == Latest(b, inputs, n + 1).value;
        hide Latest, Timed, Accepts;
        assert Aged(b, inputs, n + 1, p);
      case Clock(_) =>
        assert Timed(b, inputs, n);
        hide Timed, Accepts;
        assert Aged(b, inputs, n + 1, p);
      case EndOfStream =>
        hide Timed, Accepts;
        assert Aged(b, inputs, n + 1, p);
    }
  }

  /** An accepted arrival not released before input `n` is there for it. */
  lemma StillThere<E>(b: Buffer<E>, inputs: seq<Input<E>>, n: nat, p: nat) returns (e: Entry<E>)
    requires n < |inputs| && p <= n && Accepts(b, inputs, p) && Placed(b, inputs, n, Run(b, inputs, n))
    requires p < n ==> !Holds(Run(b, inputs, n).released, inputs[p].ts)
    ensures Candidate(b, inputs, n, e) && e.ts == inputs[p].ts && !Flushed(inputs, p, n)
  {
    hide Run;
    e := if p == n then Entry(inputs[n].ts, Run(b, inputs, n).buf.nextOrder, inputs[n].record)
         else PendingAt(Run(b, inputs, n).buf, inputs[p].ts);
  }

  /** ... and is then released by it or still pending. */
  lemma StillPlaced<E>(lateness: I64, inputs: seq<Input<E>>, n: nat, p: nat)
    requires n < |inputs| && p <= n && Accepts(NewBuffer<E>(lateness), inputs, p)
    requires var b := NewBuffer<E>(lateness); Placed(b, inputs, n, Run(b, inputs, n))
    ensures var b := NewBuffer<E>(lateness);
            var d := Run(b, inputs, n + 1);
            Holds(d.released, inputs[p].ts) || (!Flushed(inputs, p, n + 1) && Holds(d.buf.pending, inputs[p].ts))
  {
    var b := NewBuffer<E>(lateness);
    assert inputs[p].Arrive?;
    RunNext(b, inputs, n);
    var before := Run(b, inputs, n);
    var now := On(before.buf, inputs[n]);
    hide Accepts, Run, Placed, Candidate, On, NewBuffer;
    HoldsConcat(before.released, now.released, inputs[p].ts);
    if p == n || !Holds(before.released, inputs[p].ts) {
      var e := StillThere(b, inputs, n, p);
      ReleasesExactly(lateness, inputs, n, e);
      FlushesAll(b, inputs, n, p, e);
    }
  }

  /** An end of stream finds everything due. */
  lemma FlushesAll<E>(b: Buffer<E>, inputs: seq<Input<E>>, n: nat, p: nat, e: Entry<E>)
    requires n < |inputs| && p <= n && !Flushed(inputs, p, n)
    ensures DueAt(b, inputs, n, e) || !Flushed(inputs, p, n + 1)
  {
    hide Latest, Accepts;
  }

  lemma HoldsConcat<E>(a: seq<Entry<E>>, b: seq<Entry<E>>, ts: I64)
    ensures Holds(a + b, ts) <==> Holds(a, ts) || Holds(b, ts)
  {
    if e :| e in a && e.ts == ts { assert e in a + b; }
    if e :| e in b && e.ts == ts { assert e in a + b; }
  }

  ghost function PendingAt<E>(b: Buffer<E>, ts: I64): (e: Entry<E>)
    requires Holds(b.pending, ts)
    ensures e in b.pending && e.ts == ts
  {
    var e :| e in b.pending && e.ts == ts;
    e
  }

  lemma {:induction false} RunPlaces<E>(lateness: I64, inputs: seq<Input<E>>, n: nat)
    requires n <= |inputs|
    ensures var b := NewBuffer<E>(lateness); Placed(b, inputs, n, Run(b, inputs, n))
  {
    if n == 0 { return; }
    var b, m := NewBuffer<E>(lateness), n - 1;
    var before, after, now := Run(b, inputs, m), Run(b, inputs, n), On(Run(b, inputs, m).buf, inputs[m]);
    RunPlaces(lateness, inputs, m);
    RunNext(b, inputs, m);
    hide Run, On, Accepts, Candidate, DueAt, AgedAt, AcceptedAt;
    forall e | e in after.released ensures AgedAt(b, inputs, n, e.ts) {
      if e in before.released {
        AgedLater(b, inputs, m, e.ts);
      } else {
        ReleasesExactly(lateness, inputs, m, e);
        CandidateAccepted(b, inputs, m, e);
        DueIsAged(b, inputs, m, e);
      }
    }
    forall e | e in after.buf.pending ensures AcceptedAt(b, inputs, n, e.ts) {
      ReleasesExactly(lateness, inputs, m, e);
      CandidateAccepted(b, inputs, m, e);
    }
    forall p | 0 <= p < n && Accepts(b, inputs, p)
      ensures Holds(after.released, inputs[p].ts)
              || (!Flushed(inputs, p, n) && Holds(after.buf.pending, inputs[p].ts))
    {
      StillPlaced(lateness, inputs, m, p);
    }
  }

  /** Everything released is at or below the frontier, which is one of them. */
  lemma FrontierIs<E>(d: Drained<E>)
    requires InOrder(d)
    ensures d.buf.last.Some? ==> exists e :: e in d.released && e.ts == d.buf.last.value
    ensures forall e :: e in d.released ==> d.buf.last.Some? && e.ts <= d.buf.last.value
  {
    var all, z := d.released + d.buf.pending, |d.released| - 1;
    forall e | e in d.released ensures d.buf.last.Some? && e.ts <= d.buf.last.value {
      var k :| 0 <= k < |d.released| && d.released[k] == e;
      assert k < z ==> Before(all[k], all[z]);
    }
    if d.buf.last.Some? { assert d.released[z] in d.released; }
  }

  /** An accepted arrival that has aged is not pending. */
  lemma AgedIsNotPending<E>(lateness: I64, inputs: seq<Input<E>>, n: nat, p: nat)
    requires n <= |inputs| && Aged(NewBuffer<E>(lateness), inputs, n, p)
    ensures var d := Run(NewBuffer<E>(lateness), inputs, n);
            Flushed(inputs, p, n) || forall e :: e in d.buf.pending ==> e.ts != inputs[p].ts
  {
    var b := NewBuffer<E>(lateness);
    RunInOrder(lateness, inputs, n);
    SeenIsLatest(lateness, inputs, n);
    hide Run, InOrder, Accepts, NotBehind;
    if !Flushed(inputs, p, n) {
      var z :| 0 <= z < n && Timed(b, inputs, z) && inputs[p].ts <= SaturatingSub(TimeOf(inputs[z]), b.lateness);
      assert TimeOf(inputs[z]) <= Latest(b, inputs, n).value;
    }
  }

  /**
   When an arrival is rejected, over any mix of arrivals, clock advances and flushes: exactly when an accepted arrival
   with a later timestamp has aged past the lateness of some time read, or been flushed.
   */
  lemma RejectedExactly<E>(lateness: I64, inputs: seq<Input<E>>, n: nat, ts: I64)
    requires n <= |inputs|
    ensures var b := NewBuffer<E>(lateness);
            Late(Run(b, inputs, n).buf, ts) <==> exists p: nat :: Aged(b, inputs, n, p) && ts < inputs[p].ts
  {
    var b := NewBuffer<E>(lateness);
    var d := Run(b, inputs, n);
    RunInOrder(lateness, inputs, n);
    FrontierIs(d);
    RunPlaces(lateness, inputs, n);
    hide Run, InOrder, AboveWatermark, NotBehind, Aged, Accepts;
    if Late(d.buf, ts) {
      var e :| e in d.released && e.ts == d.buf.last.value;
      assert AgedAt(b, inputs, n, e.ts);
    }
    if p: nat :| Aged(b, inputs, n, p) && ts < inputs[p].ts {
      AgedIsNotPending(lateness, inputs, n, p);
      AgedAccepted(b, inputs, n, p);
      var e :| e in d.released && e.ts == inputs[p].ts;
    }
  }

  lemma AgedAccepted<E>(b: Buffer<E>, inputs: seq<Input<E>>, n: nat, p: nat)
    requires n <= |inputs| && Aged(b, inputs, n, p)
    ensures p < n && Accepts(b, inputs, p)
  {
  }
}
