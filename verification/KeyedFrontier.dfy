/**
 The released frontier of a keyed state: which runs of calls keep it from moving back. An explicit watermark advance
 moves the frontier without releasing anything, so it can pass records that are still pending.
 */
module KeyedFrontier {
  import opened Common
  import opened Keyed
  import R = Reorder

  datatype KeyCall<Rec> = CallRecord(rec: Rec, ts: I64) | CallWatermark(to: I64) | CallFlush

  function Called<G, Rec, K, O>(g: Graph<G, Rec, K, O>, p: Policy, s: State<G, Rec>, c: KeyCall<Rec>,
        key: K): Stepped<G, Rec, K, O> {
    match c
    case CallRecord(rec, ts) => OnRecord(g, p, s, rec, ts, key)
    case CallWatermark(to) => OnWatermark(g, s, to, key)
    case CallFlush => OnFlush(g, s, key)
  }

  /** The state after the first `n` calls, whatever they returned. */
  function CallRun<G, Rec, K, O>(g: Graph<G, Rec, K, O>, p: Policy, s: State<G, Rec>, calls: seq<KeyCall<Rec>>, key: K,
        n: nat): State<G, Rec>
    requires n <= |calls|
  {
    if n == 0 then s else Called(g, p, CallRun(g, p, s, calls, key, n - 1), calls[n - 1], key).state
  }

  predicate NotBack(before: Option<I64>, after: Option<I64>) {
    before.Some? ==> after.Some? && before.value <= after.value
  }

  ghost predicate Sorted<Rec>(pending: seq<R.Entry<Rec>>) {
    forall i, j :: 0 <= i < j < |pending| ==> pending[i].ts <= pending[j].ts
  }

  /** No pending record is below `frontier`. */
  ghost predicate NoneBelow<Rec>(pending: seq<R.Entry<Rec>>, frontier: Option<I64>) {
    frontier.Some? ==> forall k :: 0 <= k < |pending| ==> frontier.value <= pending[k].ts
  }

  /** What every state has until an advance passes a pending record. */
  ghost predicate Tidy<G, Rec>(s: State<G, Rec>) {
    Sorted(s.pending) && NoneBelow(s.pending, s.last)
  }

  lemma {:induction false} InsertSorted<Rec>(s: seq<R.Entry<Rec>>, e: R.Entry<Rec>)
    requires Sorted(s)
    ensures Sorted(R.Insert(s, e))
  {
    var r := R.Insert(s, e);
    if s == [] || R.Before(e, s[0]) {
      assert r == [e] + s;
    } else {
      InsertSorted(s[1..], e);
      var rest := R.Insert(s[1..], e);
      assert r == [s[0]] + rest && s == [s[0]] + s[1..];
      forall k | 0 <= k < |rest| ensures s[0].ts <= rest[k].ts {
        R.Inserted(s[1..], e, rest[k]);
      }
    }
  }

  /** Draining keeps a tidy state tidy and never moves its frontier back, even when the graph fails. */
  lemma {:induction false} ReleaseTidy<G, Rec, K, O>(g: Graph<G, Rec, K, O>, s: State<G, Rec>, n: nat, key: K)
    requires Tidy(s) && n <= |s.pending|
    ensures var after := Release(g, s, n, key).state; Tidy(after) && NotBack(s.last, after.last)
    decreases n
  {
    hide RunOne;
    if n > 0 {
      var e := s.pending[0];
      var gs := RunOne(g, s.graph, e.record, e.ts, key).0;
      ReleaseTidy(g, s.(graph := gs, pending := s.pending[1..], last := Some(e.ts)), n - 1, key);
    }
  }

  /** A call that is not an accepted advance past a pending record. */
  ghost predicate PassesNothing<G, Rec>(s: State<G, Rec>, c: KeyCall<Rec>) {
    c.CallWatermark? && !Behind(s, c.to) ==> NoneBelow(s.pending, Some(c.to))
  }

  ghost predicate NeverPasses<G, Rec, K, O>(g: Graph<G, Rec, K, O>, p: Policy, calls: seq<KeyCall<Rec>>, key: K, n: nat)
    requires n <= |calls|
  {
    forall k :: 0 <= k < n ==> PassesNothing(CallRun(g, p, Fresh(g), calls, key, k), calls[k])
  }

  lemma RecordTidy<G, Rec, K, O>(g: Graph<G, Rec, K, O>, p: Policy, s: State<G, Rec>, rec: Rec, ts: I64, key: K)
    requires Tidy(s) && (p.BufferUpTo? || s.pending == [])
    ensures var after := OnRecord(g, p, s, rec, ts, key).state;
            Tidy(after) && NotBack(s.last, after.last) && (p.BufferUpTo? || after.pending == [])
  {
    hide RunOne, Release;
    if p.BufferUpTo? && 0 <= p.maxLateness <= R.MAX_LATENESS && !Behind(s, ts) {
      var q := Enqueued(s, ts, rec);
      InsertSorted(s.pending, R.Entry(ts, s.nextOrder, rec));
      forall k | 0 <= k < |q.pending| ensures s.last.Some? ==> s.last.value <= q.pending[k].ts {
        R.Inserted(s.pending, R.Entry(ts, s.nextOrder, rec), q.pending[k]);
      }
      ReleaseTidy(g, q, R.DueCount(q.pending, SaturatingSub(q.maxSeen.value, p.maxLateness)), key);
    }
  }

  lemma CallTidy<G, Rec, K, O>(g: Graph<G, Rec, K, O>, p: Policy, s: State<G, Rec>, c: KeyCall<Rec>, key: K)
    requires Tidy(s) && (p.BufferUpTo? || s.pending == [])
    ensures var after := Called(g, p, s, c, key).state;
            && NotBack(s.last, after.last) && Sorted(after.pending) && (p.BufferUpTo? || after.pending == [])
            && (Tidy(after) <==> PassesNothing(s, c))
  {
    match c {
      case CallRecord(rec, ts) => RecordTidy(g, p, s, rec, ts, key);
      case CallWatermark(to) =>
      case CallFlush =>
        hide RunOne, Release;
        ReleaseTidy(g, s, |s.pending|, key);
        var drained := Release(g, s, |s.pending|, key).state;
        var fired := g.drainTimers(drained.graph).1;
        AdvanceIsLatest(drained.last, fired, |fired|);
    }
  }

  /**
   Over any run, through any graph and under any policy, failing records included: the frontier never moves back as
   long as no explicit advance passes a pending record.
   */
  lemma {:induction false} FrontierNeverBack<G, Rec, K, O>(g: Graph<G, Rec, K, O>, p: Policy, calls: seq<KeyCall<Rec>>,
        key: K, m: nat, n: nat)
    requires m <= n <= |calls| && NeverPasses(g, p, calls, key, n)
    ensures var s := CallRun(g, p, Fresh(g), calls, key, n);
            && Tidy(s) && (p.BufferUpTo? || s.pending == [])
            && NotBack(CallRun(g, p, Fresh(g), calls, key, m).last, s.last)
  {
    if n == 0 { return; }
    var s, before := CallRun(g, p, Fresh(g), calls, key, n), CallRun(g, p, Fresh(g), calls, key, n - 1);
    assert s == Called(g, p, before, calls[n - 1], key).state;
    assert NeverPasses(g, p, calls, key, n - 1) && PassesNothing(before, calls[n - 1]);
    hide CallRun, Called, PassesNothing, NeverPasses, Tidy;
    FrontierNeverBack(g, p, calls, key, if m == n then m - 1 else m, n - 1);
    CallTidy(g, p, before, calls[n - 1], key);
  }

  /** No next call, whatever its graph does, moves the frontier back. */
  ghost predicate KeepsFrontier<G(!new), Rec(!new), K(!new), O(!new)>(p: Policy, s: State<G, Rec>, key: K) {
    forall g: Graph<G, Rec, K, O>, c: KeyCall<Rec> :: NotBack(s.last, Called(g, p, s, c, key).state.last)
  }

  /** A graph that fails on every record and has no timers. */
  function Failing<G, Rec, K, O>(init: G): Graph<G, Rec, K, O> {
    Graph(init, (gs: G, _: I64) => (gs, []), (gs: G, _: Rec, _: I64, _: K) => (gs, Failed(GraphError(0))),
          (gs: G) => (gs, []))
  }

  lemma FailingFlushGoesBack<G, Rec, K, O>(s: State<G, Rec>, key: K)
    requires s.last.Some? && s.pending != [] && s.pending[0].ts < s.last.value
    ensures OnFlush(Failing<G, Rec, K, O>(s.graph), s, key).state.last == Some(s.pending[0].ts)
  {
  }

  /**
   Whether an explicit advance is safe: afterwards no call can move the frontier back, whatever the graph does, if and
   only if no pending record is below it.
   */
  lemma AdvanceIsSafeIff<G(!new), Rec(!new), K(!new), O(!new)>(g: Graph<G, Rec, K, O>, p: Policy, s: State<G, Rec>,
        to: I64, key: K)
    requires Tidy(s) && (p.BufferUpTo? || s.pending == []) && !Behind(s, to)
    ensures var after := OnWatermark(g, s, to, key).state;
            KeepsFrontier<G, Rec, K, O>(p, after, key) <==> NoneBelow(s.pending, Some(to))
  {
    var after := OnWatermark(g, s, to, key).state;
    CallTidy(g, p, s, CallWatermark(to), key);
    if NoneBelow(s.pending, Some(to)) {
      hide Called, Tidy;
      forall g2: Graph<G, Rec, K, O>, c: KeyCall<Rec>
        ensures NotBack(after.last, Called(g2, p, after, c, key).state.last)
      {
        CallTidy(g2, p, after, c, key);
      }
    } else {
      FailingFlushGoesBack<G, Rec, K, O>(after, key);
      assert !NotBack(after.last, Called(Failing<G, Rec, K, O>(after.graph), p, after, CallFlush, key).state.last);
    }
  }

  /** A flush through a graph that never fails and has no timers left moves the frontier to the last pending record. */
  lemma FlushGoesBackIff<G(!new), Rec(!new), K(!new), O>(g: Graph<G, Rec, K, O>, s: State<G, Rec>, key: K)
    requires NeverFails(g) && (forall gs :: g.drainTimers(gs).1 == []) && Sorted(s.pending)
    ensures var after := OnFlush(g, s, key).state;
            && after.last == (if s.pending == [] then s.last else Some(s.pending[|s.pending| - 1].ts))
            && (NotBack(s.last, after.last)
                <==> s.pending == [] || s.last.None? || s.last.value <= s.pending[|s.pending| - 1].ts)
  {
    hide RunOne, Fed, Release;
    ReleaseFeeds(g, s, |s.pending|, key);
  }

  /** A record, an advance past it while it is pending, and the end of the stream: the frontier ends where it was. */
  lemma AdvanceThenFlushGoesBack<G(!new), Rec(!new), K(!new), O>(g: Graph<G, Rec, K, O>, lateness: I64, rec: Rec,
        ts: I64, to: I64, key: K)
    requires NeverFails(g) && forall gs :: g.drainTimers(gs).1 == []
    requires 0 < lateness <= R.MAX_LATENESS && MIN_I64 < ts < to
    ensures var calls := [CallRecord(rec, ts), CallWatermark(to), CallFlush];
            var p := BufferUpTo(lateness);
            && CallRun(g, p, Fresh(g), calls, key, 2).last == Some(to)
            && CallRun(g, p, Fresh(g), calls, key, 3).last == Some(ts)
  {
    var calls, p := [CallRecord(rec, ts), CallWatermark(to), CallFlush], BufferUpTo(lateness);
    var s0, s1 := CallRun(g, p, Fresh(g), calls, key, 0), CallRun(g, p, Fresh(g), calls, key, 1);
    assert s0 == Fresh(g) && s1 == Called(g, p, s0, calls[0], key).state;
    assert s1.pending == [R.Entry(ts, 0, rec)] && s1.last == None;
    var s2 := CallRun(g, p, Fresh(g), calls, key, 2);
    assert s2 == Called(g, p, s1, calls[1], key).state;
    FlushGoesBackIff(g, s2, key);
    assert CallRun(g, p, Fresh(g), calls, key, 3) == Called(g, p, s2, calls[2], key).state;
  }

  // ---- What an accepted record releases, advances included ----

  /** Call `k` moves the keyed clock: an accepted record or an accepted advance. */
  ghost predicate Moves<G, Rec, K, O>(g: Graph<G, Rec, K, O>, p: Policy, calls: seq<KeyCall<Rec>>, key: K, k: nat) {
    k < |calls| && !calls[k].CallFlush? && !Behind(CallRun(g, p, Fresh(g), calls, key, k), TimeOf(calls[k]))
  }

  function TimeOf<Rec>(c: KeyCall<Rec>): I64
    requires !c.CallFlush?
  {
    match c case CallRecord(_, ts) => ts case CallWatermark(to) => to
  }

  /** The latest time among the first `n` calls that were accepted. */
  ghost predicate IsLatest<G, Rec, K, O>(g: Graph<G, Rec, K, O>, p: Policy, calls: seq<KeyCall<Rec>>, key: K, n: nat,
        t: Option<I64>)
    requires n <= |calls|
  {
    && (forall k :: 0 <= k < n && Moves(g, p, calls, key, k) ==> t.Some? && TimeOf(calls[k]) <= t.value)
    && (t.Some? ==> exists k :: 0 <= k < n && Moves(g, p, calls, key, k) && TimeOf(calls[k]) == t.value)
  }

  /** Draining leaves the clock alone. */
  lemma {:induction false} ReleaseKeepsSeen<G, Rec, K, O>(g: Graph<G, Rec, K, O>, s: State<G, Rec>, n: nat, key: K)
    requires n <= |s.pending|
    ensures Release(g, s, n, key).state.maxSeen == s.maxSeen
    decreases n
  {
    hide RunOne;
    if n > 0 {
      var e := s.pending[0];
      var gs := RunOne(g, s.graph, e.record, e.ts, key).0;
      ReleaseKeepsSeen(g, s.(graph := gs, pending := s.pending[1..], last := Some(e.ts)), n - 1, key);
    }
  }

  lemma CallSeen<G, Rec, K, O>(g: Graph<G, Rec, K, O>, lateness: I64, s: State<G, Rec>, c: KeyCall<Rec>, key: K)
    requires 0 <= lateness <= R.MAX_LATENESS
    ensures Called(g, BufferUpTo(lateness), s, c, key).state.maxSeen
         == if c.CallFlush? || Behind(s, TimeOf(c)) then s.maxSeen
            else if s.maxSeen.Some? && TimeOf(c) < s.maxSeen.value then s.maxSeen else Some(TimeOf(c))
  {
    hide RunOne, Release;
    match c {
      case CallRecord(rec, ts) =>
        if !Behind(s, ts) {
          var q := Enqueued(s, ts, rec);
          ReleaseKeepsSeen(g, q, R.DueCount(q.pending, SaturatingSub(q.maxSeen.value, lateness)), key);
        }
      case CallWatermark(to) =>
      case CallFlush => ReleaseKeepsSeen(g, s, |s.pending|, key);
    }
  }

  /** Over any run the keyed clock is the latest accepted time, of records and of advances. */
  lemma {:induction false} SeenIsLatest<G, Rec, K, O>(g: Graph<G, Rec, K, O>, lateness: I64, calls: seq<KeyCall<Rec>>,
        key: K, n: nat)
    requires 0 <= lateness <= R.MAX_LATENESS && n <= |calls|
    ensures var p := BufferUpTo(lateness);
            IsLatest(g, p, calls, key, n, CallRun(g, p, Fresh(g), calls, key, n).maxSeen)
  {
    var p := BufferUpTo(lateness);
    hide Called;
    if n > 0 {
      SeenIsLatest(g, lateness, calls, key, n - 1);
      CallSeen(g, lateness, CallRun(g, p, Fresh(g), calls, key, n - 1), calls[n - 1], key);
    }
  }

  lemma DueIs<Rec>(pending: seq<R.Entry<Rec>>, watermark: I64, e: R.Entry<Rec>)
    requires Sorted(pending)
    ensures var n := R.DueCount(pending, watermark); e in pending[n..] <==> e in pending && e.ts > watermark
  {
    var n := R.DueCount(pending, watermark);
    assert pending == pending[..n] + pending[n..];
    forall k | n <= k < |pending| ensures pending[k].ts > watermark { assert pending[n].ts <= pending[k].ts; }
  }

  /**
   An accepted record, none of the released ones failing: what stays pending is exactly what is above the latest
   accepted time minus the lateness, the record itself included.
   */
  lemma RecordDrains<G, Rec, K, O>(g: Graph<G, Rec, K, O>, lateness: I64, s: State<G, Rec>, rec: Rec, ts: I64, key: K,
        e: R.Entry<Rec>)
    requires 0 <= lateness <= R.MAX_LATENESS && Sorted(s.pending) && !Behind(s, ts)
    ensures var r := OnRecord(g, BufferUpTo(lateness), s, rec, ts, key);
            var latest := if s.maxSeen.Some? && ts < s.maxSeen.value then s.maxSeen.value else ts;
            r.out.Ok? ==>
              (e in r.state.pending <==>
                 (e in s.pending || e == R.Entry(ts, s.nextOrder, rec)) && e.ts > SaturatingSub(latest, lateness))
  {
    var q := Enqueued(s, ts, rec);
    var watermark := SaturatingSub(q.maxSeen.value, lateness);
    var n := R.DueCount(q.pending, watermark);
    InsertSorted(s.pending, R.Entry(ts, s.nextOrder, rec));
    R.Inserted(s.pending, R.Entry(ts, s.nextOrder, rec), e);
    DueIs(q.pending, watermark, e);
    ReleaseLeaves(g, q, n, key);
  }

  lemma {:induction false} ReleaseLeaves<G, Rec, K, O>(g: Graph<G, Rec, K, O>, s: State<G, Rec>, n: nat, key: K)
    requires n <= |s.pending|
    ensures var r := Release(g, s, n, key); r.out.Ok? ==> r.state.pending == s.pending[n..]
    decreases n
  {
    hide RunOne;
    if n > 0 {
      var e := s.pending[0];
      var gs := RunOne(g, s.graph, e.record, e.ts, key).0;
      ReleaseLeaves(g, s.(graph := gs, pending := s.pending[1..], last := Some(e.ts)), n - 1, key);
    }
  }

  /** The frontier that a flush's timer fires leave: the latest of the frontier before them and their times. */
  lemma {:induction false} AdvanceIsLatest<O>(last: Option<I64>, fired: seq<(I64, O)>, n: nat)
    requires n <= |fired|
    ensures var after := Advance(last, fired, n);
            && (after == last || exists k :: 0 <= k < n && after == Some(fired[k].0))
            && (last.Some? ==> after.Some? && last.value <= after.value)
            && (forall k :: 0 <= k < n ==> after.Some? && fired[k].0 <= after.value)
  {
    if n > 0 { AdvanceIsLatest(last, fired, n - 1); }
  }
}
