/**
 What each out-of-order policy accepts and rejects, over whole runs of one key and for any graph, failing ones included;
 and what a failing record does to a drain.
 */
module KeyedPolicies {
  import opened Common
  import opened Keyed
  import R = Reorder

  /** The state after the first `n` records, whatever they returned. */
  function StateAfter<G, Rec, K, O>(g: Graph<G, Rec, K, O>, p: Policy, records: seq<(I64, Rec)>, key: K,
        n: nat): State<G, Rec>
    requires n <= |records|
  {
    if n == 0 then Fresh(g)
    else OnRecord(g, p, StateAfter(g, p, records, key, n - 1), records[n - 1].1, records[n - 1].0, key).state
  }

  /** Record `n` comes after an accepted one with a later timestamp. */
  ghost predicate Rejects<Rec>(records: seq<(I64, Rec)>, n: nat)
    requires n < |records|
    decreases n
  {
    exists m :: 0 <= m < n && !Rejects(records, m) && records[m].0 > records[n].0
  }

  /** The graph fed the accepted ones of the first `n` records, each after its due timers. */
  ghost function FedAccepted<G, Rec, K, O>(g: Graph<G, Rec, K, O>, records: seq<(I64, Rec)>, key: K, n: nat): G
    requires n <= |records|
  {
    if n == 0 then g.init
    else
      var before := FedAccepted(g, records, key, n - 1);
      if Rejects(records, n - 1) then before
      else g.evaluate(g.fireDue(before, records[n - 1].0).0, records[n - 1].1, records[n - 1].0, key).0
  }

  ghost function Rejected<Rec>(records: seq<(I64, Rec)>, n: nat): seq<(I64, Rec)>
    requires n <= |records|
  {
    if n == 0 then []
    else Rejected(records, n - 1) + (if Rejects(records, n - 1) then [records[n - 1]] else [])
  }

  /** The frontier is the latest accepted timestamp. */
  ghost predicate FrontierIs<Rec>(records: seq<(I64, Rec)>, n: nat, last: Option<I64>)
    requires n <= |records|
  {
    && (forall m :: 0 <= m < n && !Rejects(records, m) ==> last.Some? && records[m].0 <= last.value)
    && (last.Some? ==> exists m :: 0 <= m < n && !Rejects(records, m) && records[m].0 == last.value)
  }

  lemma BehindIsRejected<G, Rec>(records: seq<(I64, Rec)>, n: nat, s: State<G, Rec>)
    requires n < |records| && FrontierIs(records, n, s.last)
    ensures Behind(s, records[n].0) <==> Rejects(records, n)
  {
  }

  lemma FrontierNext<Rec>(records: seq<(I64, Rec)>, n: nat, last: Option<I64>)
    requires n < |records| && FrontierIs(records, n, last)
    ensures FrontierIs(records, n + 1, if Rejects(records, n) then last else Some(records[n].0))
  {
    RejectsNot(records, n);
    hide Rejects;
    if Rejects(records, n) {
      assert FrontierIs(records, n + 1, last);
    } else {
      assert FrontierIs(records, n + 1, Some(records[n].0));
    }
  }

  lemma RejectsNot<Rec>(records: seq<(I64, Rec)>, n: nat)
    requires n < |records|
    ensures !Rejects(records, n) ==> forall m :: 0 <= m < n && !Rejects(records, m) ==> records[m].0 <= records[n].0
  {
  }

  /** The decision on one record, when the state's frontier is the latest accepted timestamp. */
  ghost predicate Decides<G, Rec, K, O>(g: Graph<G, Rec, K, O>, p: Policy, records: seq<(I64, Rec)>, key: K, n: nat,
        s: State<G, Rec>)
    requires n < |records|
  {
    var x := records[n];
    var r := OnRecord(g, p, s, x.1, x.0, key);
    if !Rejects(records, n) then
      && Ran(g, s.graph, x.1, x.0, key, r.state.graph, r.out)
      && r.state == s.(graph := r.state.graph, last := Some(x.0))
    else if p.ErrorOut? then r.state == s && r.out == Err(InvalidInput("out-of-order timestamp"))
    else r.state == s.(late := s.late + [x]) && r.out == Ok([])
  }

  lemma DecidesOne<G, Rec, K, O>(g: Graph<G, Rec, K, O>, p: Policy, records: seq<(I64, Rec)>, key: K, n: nat,
        s: State<G, Rec>)
    requires !p.BufferUpTo? && n < |records| && FrontierIs(records, n, s.last)
    ensures Decides(g, p, records, key, n, s)
  {
    BehindIsRejected(records, n, s);
    RunOneRan(g, s.graph, records[n].1, records[n].0, key);
    hide RunOne, Ran, Rejects, FrontierIs;
  }

  /**
   The policies without a buffer, over any run: the state is the graph fed exactly the accepted records in order, with
   the rejected ones on the late list under `DropLate` and nowhere under `ErrorOut`.
   */
  lemma {:induction false} RunUnbuffered<G, Rec, K, O>(g: Graph<G, Rec, K, O>, p: Policy, records: seq<(I64, Rec)>,
        key: K, n: nat)
    requires !p.BufferUpTo? && n <= |records|
    ensures var s := StateAfter(g, p, records, key, n);
            && s.graph == FedAccepted(g, records, key, n) && s.pending == [] && FrontierIs(records, n, s.last)
            && s.late == if p.DropLate? then Rejected(records, n) else []
  {
    if n == 0 { return; }
    hide FrontierIs, Rejects, OnRecord, Decides;
    var s := StateAfter(g, p, records, key, n - 1);
    RunUnbuffered(g, p, records, key, n - 1);
    FrontierNext(records, n - 1, s.last);
    DecidesOne(g, p, records, key, n - 1, s);
    DecidedState(g, p, records, key, n - 1, s);
  }

  lemma DecidedState<G, Rec, K, O>(g: Graph<G, Rec, K, O>, p: Policy, records: seq<(I64, Rec)>, key: K, n: nat,
        s: State<G, Rec>)
    requires !p.BufferUpTo? && n < |records| && Decides(g, p, records, key, n, s)
    ensures var x, rejected := records[n], Rejects(records, n);
            OnRecord(g, p, s, x.1, x.0, key).state
            == s.(graph := if rejected then s.graph else g.evaluate(g.fireDue(s.graph, x.0).0, x.1, x.0, key).0,
                  last := if rejected then s.last else Some(x.0),
                  late := if rejected && p.DropLate? then s.late + [x] else s.late)
  {
    hide OnRecord, Rejects, IsFires;
  }

  /**
   The decision on record `n`: rejected if and only if an earlier accepted record has a larger timestamp. A rejection
   changes nothing but the late list of `DropLate`, and is an error under `ErrorOut` only; an accepted record's outputs
   are its due timers' and its own.
   */
  lemma UnbufferedDecides<G, Rec, K, O>(g: Graph<G, Rec, K, O>, p: Policy, records: seq<(I64, Rec)>, key: K, n: nat)
    requires !p.BufferUpTo? && n < |records|
    ensures Decides(g, p, records, key, n, StateAfter(g, p, records, key, n))
  {
    RunUnbuffered(g, p, records, key, n);
    DecidesOne(g, p, records, key, n, StateAfter(g, p, records, key, n));
  }

  /** A lateness out of range is an error on every record, and changes nothing. */
  lemma {:induction false} BadLatenessRejects<G, Rec, K, O>(g: Graph<G, Rec, K, O>, lateness: I64,
        records: seq<(I64, Rec)>, key: K, n: nat)
    requires !(0 <= lateness <= 24 * 60 * 60 * 1000) && n < |records|
    ensures var s := StateAfter(g, BufferUpTo(lateness), records, key, n);
            s == Fresh(g)
            && OnRecord(g, BufferUpTo(lateness), s, records[n].1, records[n].0, key)
               == Stepped(s, Err(InvalidInput(LATENESS_OUT_OF_RANGE)))
  {
    if n > 0 { BadLatenessRejects(g, lateness, records, key, n - 1); }
  }

  // ---- Failing records in a drain ----

  /** The graph after the first `n` entries, whatever they returned. */
  function GraphAfter<G, Rec, K, O>(g: Graph<G, Rec, K, O>, gs: G, entries: seq<R.Entry<Rec>>, key: K, n: nat): G
    requires n <= |entries|
    decreases n
  {
    if n == 0 then gs
    else
      var before := GraphAfter(g, gs, entries, key, n - 1);
      g.evaluate(g.fireDue(before, entries[n - 1].ts).0, entries[n - 1].record, entries[n - 1].ts, key).0
  }

  /** What entry `k` returns in its turn. */
  function ResultAt<G, Rec, K, O>(g: Graph<G, Rec, K, O>, gs: G, entries: seq<R.Entry<Rec>>, key: K,
        k: nat): StepResult<K, O>
    requires k < |entries|
  {
    var before := GraphAfter(g, gs, entries, key, k);
    g.evaluate(g.fireDue(before, entries[k].ts).0, entries[k].record, entries[k].ts, key).1
  }

  lemma {:induction false} GraphAfterFirst<G, Rec, K, O>(g: Graph<G, Rec, K, O>, gs: G, entries: seq<R.Entry<Rec>>,
        key: K, n: nat)
    requires 0 < n <= |entries|
    ensures var e := entries[0];
            GraphAfter(g, gs, entries, key, n)
            == GraphAfter(g, g.evaluate(g.fireDue(gs, e.ts).0, e.record, e.ts, key).0, entries[1..], key, n - 1)
  {
    if n > 1 {
      GraphAfterFirst(g, gs, entries, key, n - 1);
      assert entries[1..][n - 2] == entries[n - 1];
    } else {
      assert GraphAfter(g, gs, entries, key, 0) == gs;
    }
  }

  ghost predicate NoneFails<G, Rec, K, O>(g: Graph<G, Rec, K, O>, gs: G, entries: seq<R.Entry<Rec>>, key: K, n: nat)
    requires n <= |entries|
  {
    forall k :: 0 <= k < n ==> !ResultAt(g, gs, entries, key, k).Failed?
  }

  lemma NoneFailsRest<G, Rec, K, O>(g: Graph<G, Rec, K, O>, gs: G, entries: seq<R.Entry<Rec>>, key: K, n: nat)
    requires 0 < n <= |entries| && NoneFails(g, gs, entries, key, n)
    ensures var e := entries[0];
            var after := g.evaluate(g.fireDue(gs, e.ts).0, e.record, e.ts, key).0;
            NoneFails(g, after, entries[1..], key, n - 1)
  {
    var e := entries[0];
    var after := g.evaluate(g.fireDue(gs, e.ts).0, e.record, e.ts, key).0;
    forall k | 0 <= k < n - 1 ensures !ResultAt(g, after, entries[1..], key, k).Failed? {
      GraphAfterFirst(g, gs, entries, key, k + 1);
      assert ResultAt(g, after, entries[1..], key, k) == ResultAt(g, gs, entries, key, k + 1);
    }
  }

  /** A drain none of whose records fails leaves exactly the rest pending. */
  lemma {:induction false} DrainRuns<G, Rec, K, O>(g: Graph<G, Rec, K, O>, s: State<G, Rec>, n: nat, key: K)
    requires n <= |s.pending| && NoneFails(g, s.graph, s.pending, key, n)
    ensures var r := Release(g, s, n, key);
            && r.out.Ok?
            && r.state == s.(graph := GraphAfter(g, s.graph, s.pending, key, n), pending := s.pending[n..],
                             last := if n == 0 then s.last else Some(s.pending[n - 1].ts))
    decreases n
  {
    if n > 0 {
      var e := s.pending[0];
      var gs := RunOne(g, s.graph, e.record, e.ts, key).0;
      assert !ResultAt(g, s.graph, s.pending, key, 0).Failed?;
      NoneFailsRest(g, s.graph, s.pending, key, n);
      GraphAfterFirst(g, s.graph, s.pending, key, n);
      hide NoneFails;
      DrainRuns(g, s.(graph := gs, pending := s.pending[1..], last := Some(e.ts)), n - 1, key);
    }
  }

  /**
   The first record to fail ends the drain with its error: it is gone, the frontier is at it, the records after it are
   still pending, and what the earlier ones returned is lost.
   */
  lemma {:induction false} DrainStops<G, Rec, K, O>(g: Graph<G, Rec, K, O>, s: State<G, Rec>, n: nat, key: K, j: nat)
    requires j < n <= |s.pending| && NoneFails(g, s.graph, s.pending, key, j)
    requires ResultAt(g, s.graph, s.pending, key, j).Failed?
    ensures Release(g, s, n, key)
         == Stepped(s.(graph := GraphAfter(g, s.graph, s.pending, key, j + 1), pending := s.pending[j + 1..],
                       last := Some(s.pending[j].ts)),
                    Err(ResultAt(g, s.graph, s.pending, key, j).error))
    decreases n
  {
    var e := s.pending[0];
    var gs := RunOne(g, s.graph, e.record, e.ts, key).0;
    GraphAfterFirst(g, s.graph, s.pending, key, j + 1);
    assert GraphAfter(g, s.graph, s.pending, key, 0) == s.graph;
    if j > 0 {
      assert !ResultAt(g, s.graph, s.pending, key, 0).Failed?;
      NoneFailsRest(g, s.graph, s.pending, key, j);
      GraphAfterFirst(g, s.graph, s.pending, key, j);
      hide NoneFails;
      assert ResultAt(g, gs, s.pending[1..], key, j - 1) == ResultAt(g, s.graph, s.pending, key, j);
      DrainStops(g, s.(graph := gs, pending := s.pending[1..], last := Some(e.ts)), n - 1, key, j - 1);
    }
  }

  /**
   The end of the stream when record `j` is the first to fail: its error alone, nothing left pending, no timer fired.
   */
  lemma FlushStops<G, Rec, K, O>(g: Graph<G, Rec, K, O>, s: State<G, Rec>, key: K, j: nat)
    requires j < |s.pending| && NoneFails(g, s.graph, s.pending, key, j)
    requires ResultAt(g, s.graph, s.pending, key, j).Failed?
    ensures OnFlush(g, s, key)
         == Stepped(s.(graph := GraphAfter(g, s.graph, s.pending, key, j + 1), pending := [],
                       last := Some(s.pending[j].ts)),
                    Err(ResultAt(g, s.graph, s.pending, key, j).error))
  {
    DrainStops(g, s, |s.pending|, key, j);
    hide Release, GraphAfter, ResultAt;
  }

  /** ... and when none fails: everything released, then one item per remaining timer. */
  lemma FlushRuns<G, Rec, K, O>(g: Graph<G, Rec, K, O>, s: State<G, Rec>, key: K)
    requires NoneFails(g, s.graph, s.pending, key, |s.pending|)
    ensures var r, n := OnFlush(g, s, key), |s.pending|;
            var (gs, fired) := g.drainTimers(GraphAfter(g, s.graph, s.pending, key, n));
            && r.state.graph == gs && r.state.pending == [] && r.state.late == s.late
            && r.out.Ok? && |r.out.value| >= |fired|
            && IsFires(r.out.value[|r.out.value| - |fired|..], fired, key)
  {
    DrainRuns(g, s, |s.pending|, key);
    var (gs, fired) := g.drainTimers(GraphAfter(g, s.graph, s.pending, key, |s.pending|));
    var items := Release(g, s, |s.pending|, key).out.value;
    hide Release, GraphAfter;
    assert (items + Fires(fired, key))[|items|..] == Fires(fired, key);
  }
}
