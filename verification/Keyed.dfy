/**
 Keyed execution: one graph per key behind an out-of-order policy, and the iterator that routes records to them.
 The computation graph, its timers included, is an abstract transition (`Graph`).
 */
module Keyed {
  import opened Common
  import R = Reorder

  datatype ComputeError =
    | InvalidInput(reason: string)
    | NonMonotonicWatermark(last: I64, attempted: I64)
    | GraphError(code: int)

  const LATENESS_OUT_OF_RANGE := "max_lateness_ms must be in [0, 24h]; use OutOfOrderPolicy::Drop for looser semantics"

  datatype Policy = ErrorOut | DropLate | BufferUpTo(maxLateness: I64)

  datatype Item<K, O> = Item(ts: I64, key: K, value: O)

  datatype StepResult<K, O> = Ready(item: Item<K, O>) | WarmingUp | Failed(error: ComputeError)

  /** The graph: firing due timers, evaluating one record, and firing every remaining timer. */
  datatype Graph<!G, !Rec, !K, O> = Graph(
    init: G,
    fireDue: (G, I64) -> (G, seq<(I64, O)>),
    evaluate: (G, Rec, I64, K) -> (G, StepResult<K, O>),
    drainTimers: G -> (G, seq<(I64, O)>))

  type Outputs<K, O> = Result<seq<Item<K, O>>, ComputeError>

  datatype State<G, Rec> = State(
    graph: G,
    last: Option<I64>,
    pending: seq<R.Entry<Rec>>,
    nextOrder: nat,
    maxSeen: Option<I64>,
    late: seq<(I64, Rec)>)

  datatype Stepped<G, Rec, K, O> = Stepped(state: State<G, Rec>, out: Outputs<K, O>)

  function Fresh<G, Rec, K, O>(g: Graph<G, Rec, K, O>): State<G, Rec> {
    State(g.init, None, [], 0, None, [])
  }

  function Fires<K, O>(due: seq<(I64, O)>, key: K): (r: seq<Item<K, O>>)
    ensures IsFires(r, due, key)
  {
    seq(|due|, k requires 0 <= k < |due| => Item(due[k].0, key, due[k].1))
  }

  /** One item per fired timer, with its own time and value. */
  ghost predicate IsFires<K, O>(items: seq<Item<K, O>>, due: seq<(I64, O)>, key: K) {
    |items| == |due|
    && forall k :: 0 <= k < |due| ==> items[k].ts == due[k].0 && items[k].value == due[k].1 && items[k].key == key
  }

  /** Due timers first, then the record; a failing record discards the timers' outputs. */
  function RunOne<G, Rec, K, O>(g: Graph<G, Rec, K, O>, gs: G, rec: Rec, ts: I64, key: K): (G, Outputs<K, O>) {
    var (gs1, due) := g.fireDue(gs, ts);
    var (gs2, result) := g.evaluate(gs1, rec, ts, key);
    match result
    case Ready(item) => (gs2, Ok(Fires(due, key) + [item]))
    case WarmingUp => (gs2, Ok(Fires(due, key)))
    case Failed(e) => (gs2, Err(e))
  }

  /**
   The due timers' items, each with its own time, and only then the record's; nothing but the error when the record
   fails. The record is evaluated on the graph the timers leave.
   */
  ghost predicate Ran<G, Rec, K, O>(g: Graph<G, Rec, K, O>, gs: G, rec: Rec, ts: I64, key: K, after: G,
        out: Outputs<K, O>) {
    var (fired, due) := g.fireDue(gs, ts);
    var (evaluated, result) := g.evaluate(fired, rec, ts, key);
    && after == evaluated
    && match result
       case Failed(e) => out == Err(e)
       case WarmingUp => out.Ok? && IsFires(out.value, due, key)
       case Ready(item) =>
         out.Ok? && |out.value| == |due| + 1 && IsFires(out.value[..|due|], due, key) && out.value[|due|] == item
  }

  lemma RunOneRan<G, Rec, K, O>(g: Graph<G, Rec, K, O>, gs: G, rec: Rec, ts: I64, key: K)
    ensures var (after, out) := RunOne(g, gs, rec, ts, key); Ran(g, gs, rec, ts, key, after, out)
  {
    var (fired, due) := g.fireDue(gs, ts);
    var (_, result) := g.evaluate(fired, rec, ts, key);
    if result.Ready? { assert (Fires(due, key) + [result.item])[..|due|] == Fires(due, key); }
  }

  function Prepend<K, O>(first: seq<Item<K, O>>, rest: Outputs<K, O>): Outputs<K, O> {
    match rest case Ok(items) => Ok(first + items) case Err(e) => Err(e)
  }

  /**
   Release the first `n` pending records in order; the first failure stops the drain and loses what it had released.
   */
  function Release<G, Rec, K, O>(g: Graph<G, Rec, K, O>, s: State<G, Rec>, n: nat, key: K): Stepped<G, Rec, K, O>
    requires n <= |s.pending|
    decreases n
  {
    if n == 0 then Stepped(s, Ok([]))
    else
      var e := s.pending[0];
      var (gs, out) := RunOne(g, s.graph, e.record, e.ts, key);
      var s1 := s.(graph := gs, pending := s.pending[1..], last := Some(e.ts));
      match out
      case Err(error) => Stepped(s1, Err(error))
      case Ok(items) => var rest := Release(g, s1, n - 1, key); Stepped(rest.state, Prepend(items, rest.out))
  }

  lemma ReleaseNothing<G, Rec, K, O>(g: Graph<G, Rec, K, O>, s: State<G, Rec>, watermark: I64, key: K)
    requires s.pending == [] || s.pending[0].ts > watermark
    ensures Release(g, s, R.DueCount(s.pending, watermark), key) == Stepped(s, Ok([]))
  {
  }

  lemma ReleaseNext<G, Rec, K, O>(g: Graph<G, Rec, K, O>, s: State<G, Rec>, watermark: I64, key: K)
    requires s.pending != [] && s.pending[0].ts <= watermark
    ensures var e := s.pending[0];
            var (gs, out) := RunOne(g, s.graph, e.record, e.ts, key);
            var s1 := s.(graph := gs, pending := s.pending[1..], last := Some(e.ts));
            var rest := Release(g, s1, R.DueCount(s1.pending, watermark), key);
            Release(g, s, R.DueCount(s.pending, watermark), key)
            == match out
               case Err(error) => Stepped(s1, Err(error))
               case Ok(items) => Stepped(rest.state, Prepend(items, rest.out))
  {
    hide RunOne;
  }

  predicate Behind<G, Rec>(s: State<G, Rec>, ts: I64) {
    s.last.Some? && ts < s.last.value
  }

  function Enqueued<G, Rec>(s: State<G, Rec>, ts: I64, rec: Rec): State<G, Rec> {
    s.(pending := R.Insert(s.pending, R.Entry(ts, s.nextOrder, rec)),
       nextOrder := s.nextOrder + 1,
       maxSeen := Some(R.Seen(s.maxSeen, ts)))
  }

  function OnRecord<G, Rec, K, O>(g: Graph<G, Rec, K, O>, p: Policy, s: State<G, Rec>, rec: Rec, ts: I64,
        key: K): Stepped<G, Rec, K, O> {
    match p
    case ErrorOut =>
      if Behind(s, ts) then Stepped(s, Err(InvalidInput("out-of-order timestamp")))
      else var (gs, out) := RunOne(g, s.graph, rec, ts, key); Stepped(s.(graph := gs, last := Some(ts)), out)
    case DropLate =>
      if Behind(s, ts) then Stepped(s.(late := s.late + [(ts, rec)]), Ok([]))
      else var (gs, out) := RunOne(g, s.graph, rec, ts, key); Stepped(s.(graph := gs, last := Some(ts)), out)
    case BufferUpTo(maxLateness) =>
      if !(0 <= maxLateness <= R.MAX_LATENESS) then
        Stepped(s, Err(InvalidInput(LATENESS_OUT_OF_RANGE)))
      else if Behind(s, ts) then Stepped(s.(late := s.late + [(ts, rec)]), Ok([]))
      else
        var q := Enqueued(s, ts, rec);
        Release(g, q, R.DueCount(q.pending, SaturatingSub(q.maxSeen.value, maxLateness)), key)
  }

  /** The frontier after timer fires: never moved back. */
  function Advance<O>(last: Option<I64>, fired: seq<(I64, O)>, n: nat): Option<I64>
    requires n <= |fired|
  {
    if n == 0 then last else Some(R.Seen(Advance(last, fired, n - 1), fired[n - 1].0))
  }

  /** End of stream: every pending record, then every remaining timer. A failing record loses the rest of the buffer. */
  function OnFlush<G, Rec, K, O>(g: Graph<G, Rec, K, O>, s: State<G, Rec>, key: K): Stepped<G, Rec, K, O> {
    var released := Release(g, s, |s.pending|, key);
    var drained := released.state.(pending := []);
    match released.out
    case Err(e) => Stepped(drained, Err(e))
    case Ok(items) =>
      var (gs, fired) := g.drainTimers(drained.graph);
      Stepped(drained.(graph := gs, last := Advance(drained.last, fired, |fired|)), Ok(items + Fires(fired, key)))
  }

  function OnWatermark<G, Rec, K, O>(g: Graph<G, Rec, K, O>, s: State<G, Rec>, ts: I64, key: K): Stepped<G, Rec, K, O> {
    if Behind(s, ts) then Stepped(s, Err(NonMonotonicWatermark(s.last.value, ts)))
    else
      var (gs, due) := g.fireDue(s.graph, ts);
      Stepped(s.(graph := gs, last := Some(ts), maxSeen := Some(R.Seen(s.maxSeen, ts))), Ok(Fires(due, key)))
  }

  class KeyedGraphState<G, Rec, K, O> {
    const g: Graph<G, Rec, K, O>
    const policy: Policy
    var graph: G
    var last: Option<I64>
    var pending: seq<R.Entry<Rec>>
    var nextOrder: nat
    var maxSeen: Option<I64>
    var lateRecords: seq<(I64, Rec)>

    ghost function View(): State<G, Rec>
      reads this
    {
      State(graph, last, pending, nextOrder, maxSeen, lateRecords)
    }

    constructor (g: Graph<G, Rec, K, O>, policy: Policy)
      ensures this.g == g && this.policy == policy && View() == Fresh(g)
    {
      this.g, this.policy := g, policy;
      graph, last, pending, nextOrder, maxSeen, lateRecords := g.init, None, [], 0, None, [];
    }

    method TakeLateRecords() returns (r: seq<(I64, Rec)>)
      modifies this`lateRecords
      ensures r == old(lateRecords) && lateRecords == []
    {
      r := lateRecords;
      lateRecords := [];
    }

    method RunRecord(rec: Rec, ts: I64, key: K) returns (out: Outputs<K, O>)
      modifies this`graph
      ensures (graph, out) == RunOne(g, old(graph), rec, ts, key)
      ensures Ran(g, old(graph), rec, ts, key, graph, out)
    {
      var (gs1, due) := g.fireDue(graph, ts);
      var (gs2, result) := g.evaluate(gs1, rec, ts, key);
      graph := gs2;
      match result {
        case Ready(item) => out := Ok(Fires(due, key) + [item]);
        case WarmingUp => out := Ok(Fires(due, key));
        case Failed(e) => out := Err(e);
      }
      RunOneRan(g, old(graph), rec, ts, key);
    }

    method DrainUntil(watermark: I64, key: K) returns (out: Outputs<K, O>)
      modifies this`graph, this`pending, this`last
      ensures Stepped(View(), out) == Release(g, old(View()), R.DueCount(old(pending), watermark), key)
    {
      var released: seq<Item<K, O>> := [];
      ghost var goal := Release(g, View(), R.DueCount(pending, watermark), key);
      PrependNothing(goal.out);
      hide Release, R.DueCount, RunOne;
      while pending != [] && pending[0].ts <= watermark
        invariant var rest := Release(g, View(), R.DueCount(pending, watermark), key);
                  goal == Stepped(rest.state, Prepend(released, rest.out))
        decreases |pending|
      {
        var entry := pending[0];
        ReleaseNext(g, View(), watermark, key);
        pending := pending[1..];
        last := Some(entry.ts);
        var one := RunRecord(entry.record, entry.ts, key);
        if one.Err? { return one; }
        ghost var rest := Release(g, View(), R.DueCount(pending, watermark), key);
        PrependTwice(released, one.value, rest.out);
        released := released + one.value;
      }
      ReleaseNothing(g, View(), watermark, key);
      assert released + [] == released;
      return Ok(released);
    }

    method Step(rec: Rec, ts: I64, key: K) returns (out: Outputs<K, O>)
      modifies this
      ensures Stepped(View(), out) == OnRecord(g, policy, old(View()), rec, ts, key)
    {
      hide Release, R.Insert, R.DueCount, R.Seen;
      match policy {
        case ErrorOut =>
          if last.Some? && ts < last.value {
            return Err(InvalidInput("out-of-order timestamp"));
          }
          last := Some(ts);
          out := RunRecord(rec, ts, key);
        case DropLate =>
          if last.Some? && ts < last.value {
            lateRecords := lateRecords + [(ts, rec)];
            return Ok([]);
          }
          last := Some(ts);
          out := RunRecord(rec, ts, key);
        case BufferUpTo(maxLateness) =>
          if !(0 <= maxLateness <= R.MAX_LATENESS) {
            return Err(InvalidInput(LATENESS_OUT_OF_RANGE));
          }
          if last.Some? && ts < last.value {
            lateRecords := lateRecords + [(ts, rec)];
            return Ok([]);
          }
          pending := R.Insert(pending, R.Entry(ts, nextOrder, rec));
          nextOrder := nextOrder + 1;
          maxSeen := Some(R.Seen(maxSeen, ts));
          out := DrainUntil(SaturatingSub(maxSeen.value, maxLateness), key);
      }
    }

    method Flush(key: K) returns (out: Outputs<K, O>)
      modifies this
      ensures Stepped(View(), out) == OnFlush(g, old(View()), key)
    {
      var released: seq<Item<K, O>> := [];
      var entries := pending;
      pending := [];
      ghost var before := old(View());
      ghost var goal := Release(g, before, |entries|, key);
      PrependNothing(goal.out);
      for i := 0 to |entries|
        invariant pending == [] && unchanged(`nextOrder, `maxSeen, `lateRecords)
        invariant var here := View().(pending := entries[i..]);
                  var rest := Release(g, here, |entries| - i, key);
                  goal == Stepped(rest.state, Prepend(released, rest.out))
      {
        var entry := entries[i];
        assert entries[i..][0] == entry && entries[i..][1..] == entries[i + 1..];
        last := Some(entry.ts);
        var one := RunRecord(entry.record, entry.ts, key);
        if one.Err? { return one; }
        ghost var rest := Release(g, View().(pending := entries[i + 1..]), |entries| - i - 1, key);
        PrependTwice(released, one.value, rest.out);
        released := released + one.value;
      }
      assert released + [] == released;
      var (gs, fired) := g.drainTimers(graph);
      graph := gs;
      ghost var frontier := last;
      for i := 0 to |fired|
        invariant last == Advance(frontier, fired, i)
        invariant pending == [] && graph == gs && unchanged(`nextOrder, `maxSeen, `lateRecords)
      {
        last := Some(R.Seen(last, fired[i].0));
      }
      return Ok(released + Fires(fired, key));
    }

    method AdvanceEventTimeWatermark(ts: I64, key: K) returns (out: Outputs<K, O>)
      modifies this
      ensures Stepped(View(), out) == OnWatermark(g, old(View()), ts, key)
      ensures if old(last).Some? && ts < old(last).value then
                View() == old(View()) && out == Err(NonMonotonicWatermark(old(last).value, ts))
              else
                var (gs, due) := g.fireDue(old(graph), ts);
                && out.Ok? && IsFires(out.value, due, key)
                && graph == gs && last == Some(ts) && pending == old(pending) && lateRecords == old(lateRecords)
                && maxSeen.Some? && ts <= maxSeen.value && (maxSeen.value == ts || maxSeen == old(maxSeen))
                && (old(maxSeen).Some? ==> old(maxSeen).value <= maxSeen.value)
    {
      if last.Some? && ts < last.value {
        return Err(NonMonotonicWatermark(last.value, ts));
      }
      last := Some(ts);
      maxSeen := Some(R.Seen(maxSeen, ts));
      var (gs, due) := g.fireDue(graph, ts);
      graph := gs;
      return Ok(Fires(due, key));
    }
  }

  lemma PrependNothing<K, O>(out: Outputs<K, O>)
    ensures Prepend([], out) == out
  {
    if out.Ok? { assert [] + out.value == out.value; }
  }

  lemma PrependTwice<K, O>(a: seq<Item<K, O>>, b: seq<Item<K, O>>, rest: Outputs<K, O>)
    ensures Prepend(a, Prepend(b, rest)) == Prepend(a + b, rest)
  {
    if rest.Ok? { assert a + (b + rest.value) == a + b + rest.value; }
  }

  // ---- The two reorder implementations agree ----

  ghost predicate NeverFails<G(!new), Rec(!new), K(!new), O>(g: Graph<G, Rec, K, O>) {
    forall gs: G, rec: Rec, ts: I64, key: K :: !g.evaluate(gs, rec, ts, key).1.Failed?
  }

  /** A graph fed a released sequence, one record after the other. */
  function Fed<G, Rec, K, O>(g: Graph<G, Rec, K, O>, gs: G, released: seq<R.Entry<Rec>>, key: K): (G, Outputs<K, O>)
    decreases |released|
  {
    if released == [] then (gs, Ok([]))
    else
      var last := released[|released| - 1];
      var (before, out) := Fed(g, gs, released[..|released| - 1], key);
      var (after, one) := RunOne(g, before, last.record, last.ts, key);
      (after, match out
              case Err(e) => Err(e)
              case Ok(items) => Prepend(items, one))
  }

  /** The keyed state after the first `n` records of one key, with all their outputs. */
  function KeyRun<G, Rec, K, O>(g: Graph<G, Rec, K, O>, p: Policy, records: seq<(I64, Rec)>, key: K,
        n: nat): Stepped<G, Rec, K, O>
    requires n <= |records|
  {
    if n == 0 then Stepped(Fresh(g), Ok([]))
    else
      var before := KeyRun(g, p, records, key, n - 1);
      var now := OnRecord(g, p, before.state, records[n - 1].1, records[n - 1].0, key);
      Stepped(now.state, match before.out case Err(e) => Err(e) case Ok(items) => Prepend(items, now.out))
  }

  ghost predicate SameBuffer<G, Rec>(s: State<G, Rec>, b: R.Buffer<Rec>) {
    && s.pending == b.pending && s.nextOrder == b.nextOrder
    && s.last == b.last && s.maxSeen == b.maxSeen && s.late == b.late
  }

  lemma NeverErr<G(!new), Rec(!new), K(!new), O>(g: Graph<G, Rec, K, O>, gs: G, rec: Rec, ts: I64, key: K)
    requires NeverFails(g)
    ensures RunOne(g, gs, rec, ts, key).1.Ok?
  {
    var (gs1, _) := g.fireDue(gs, ts);
    assert !g.evaluate(gs1, rec, ts, key).1.Failed?;
  }

  lemma {:induction false} FedCons<G(!new), Rec(!new), K(!new), O>(g: Graph<G, Rec, K, O>, gs: G, e: R.Entry<Rec>,
        rest: seq<R.Entry<Rec>>, key: K)
    requires NeverFails(g)
    ensures var (gs1, one) := RunOne(g, gs, e.record, e.ts, key);
            var (gs2, more) := Fed(g, gs1, rest, key);
            one.Ok? && more.Ok? && Fed(g, gs, [e] + rest, key) == (gs2, Ok(one.value + more.value))
    decreases |rest|
  {
    hide RunOne;
    NeverErr(g, gs, e.record, e.ts, key);
    var all := [e] + rest;
    if rest == [] {
      assert all[..|all| - 1] == [];
      assert Fed(g, gs, [], key) == (gs, Ok([]));
      var one := RunOne(g, gs, e.record, e.ts, key).1;
      PrependNothing(one);
      assert one.value + [] == one.value;
      assert Fed(g, RunOne(g, gs, e.record, e.ts, key).0, [], key).1 == Ok([]);
    } else {
      var front, last := rest[..|rest| - 1], rest[|rest| - 1];
      FedCons(g, gs, e, front, key);
      assert all[..|all| - 1] == [e] + front;
      NeverErr(g, Fed(g, gs, [e] + front, key).0, last.record, last.ts, key);
      var gs1 := RunOne(g, gs, e.record, e.ts, key).0;
      var one, more := RunOne(g, gs, e.record, e.ts, key).1.value, Fed(g, gs1, front, key).1.value;
      PrependTwice(one, more, RunOne(g, Fed(g, gs1, front, key).0, last.record, last.ts, key).1);
    }
  }

  lemma {:induction false} FedConcat<G(!new), Rec(!new), K(!new), O>(g: Graph<G, Rec, K, O>, gs: G,
        a: seq<R.Entry<Rec>>, b: seq<R.Entry<Rec>>, key: K)
    requires NeverFails(g)
    ensures Fed(g, gs, a, key).1.Ok? && Fed(g, Fed(g, gs, a, key).0, b, key).1.Ok?
    ensures Fed(g, gs, a + b, key)
         == (Fed(g, Fed(g, gs, a, key).0, b, key).0,
             Prepend(Fed(g, gs, a, key).1.value, Fed(g, Fed(g, gs, a, key).0, b, key).1))
    decreases |a|
  {
    hide RunOne;
    if a == [] {
      assert a + b == b;
      FedNeverErr(g, gs, b, key);
      PrependNothing(Fed(g, gs, b, key).1);
    } else {
      var e, rest := a[0], a[1..];
      assert a == [e] + rest && a + b == [e] + (rest + b);
      var gs1 := RunOne(g, gs, e.record, e.ts, key).0;
      FedCons(g, gs, e, rest, key);
      FedCons(g, gs, e, rest + b, key);
      FedConcat(g, gs1, rest, b, key);
      var one, more := RunOne(g, gs, e.record, e.ts, key).1.value, Fed(g, gs1, rest, key);
      PrependTwice(one, more.1.value, Fed(g, more.0, b, key).1);
    }
  }

  lemma {:induction false} FedNeverErr<G(!new), Rec(!new), K(!new), O>(g: Graph<G, Rec, K, O>, gs: G,
        b: seq<R.Entry<Rec>>, key: K)
    requires NeverFails(g)
    ensures Fed(g, gs, b, key).1.Ok?
    decreases |b|
  {
    hide RunOne;
    if b != [] {
      var front, last := b[..|b| - 1], b[|b| - 1];
      FedNeverErr(g, gs, front, key);
      NeverErr(g, Fed(g, gs, front, key).0, last.record, last.ts, key);
    }
  }

  /** Releasing through a graph that never fails is feeding it the released prefix. */
  lemma {:induction false} ReleaseFeeds<G(!new), Rec(!new), K(!new), O>(g: Graph<G, Rec, K, O>, s: State<G, Rec>,
        n: nat, key: K)
    requires NeverFails(g) && n <= |s.pending|
    ensures var r, fed := Release(g, s, n, key), Fed(g, s.graph, s.pending[..n], key);
            && r.out == fed.1 && r.out.Ok?
            && var last := if n == 0 then s.last else Some(s.pending[n - 1].ts);
               r.state == s.(graph := fed.0, pending := s.pending[n..], last := last)
    decreases n
  {
    hide RunOne, Fed;
    if n == 0 {
      FedNone(g, s.graph, key);
      assert s.pending[..0] == [] && s.pending[0..] == s.pending;
    } else {
      var e := s.pending[0];
      NeverErr(g, s.graph, e.record, e.ts, key);
      var s1 := s.(graph := RunOne(g, s.graph, e.record, e.ts, key).0, pending := s.pending[1..], last := Some(e.ts));
      ReleaseFeeds(g, s1, n - 1, key);
      assert s.pending[..n] == [e] + s1.pending[..n - 1];
      FedCons(g, s.graph, e, s1.pending[..n - 1], key);
    }
  }

  lemma FedNone<G, Rec, K, O>(g: Graph<G, Rec, K, O>, gs: G, key: K)
    ensures Fed(g, gs, [], key) == (gs, Ok([]))
  {
  }

  /** One record, when the two buffers hold the same. */
  lemma RecordAgrees<G(!new), Rec(!new), K(!new), O>(g: Graph<G, Rec, K, O>, s: State<G, Rec>, b: R.Buffer<Rec>,
        rec: Rec, ts: I64, key: K)
    requires NeverFails(g) && 0 <= b.lateness <= R.MAX_LATENESS && SameBuffer(s, b)
    ensures var step, o := OnRecord(g, BufferUpTo(b.lateness), s, rec, ts, key), R.OnEvent(b, ts, rec);
            && SameBuffer(step.state, o.buf) && o.buf.lateness == b.lateness
            && (step.state.graph, step.out) == Fed(g, s.graph, o.released, key) && step.out.Ok?
  {
    hide RunOne, Fed, Release;
    if Behind(s, ts) {
      FedNone(g, s.graph, key);
    } else {
      var q := Enqueued(s, ts, rec);
      ReleaseFeeds(g, q, R.DueCount(q.pending, SaturatingSub(q.maxSeen.value, b.lateness)), key);
    }
  }

  /**
   Agreement: for a lateness in [0, 24h] and a graph that never fails, the keyed buffer holds, accepts and rejects
   exactly what the stand-alone reorder buffer does, and has fed its graph exactly that buffer's releases.
   */
  lemma {:induction false} BuffersAgree<G(!new), Rec(!new), K(!new), O>(g: Graph<G, Rec, K, O>, lateness: I64,
        inputs: seq<R.Input<Rec>>, records: seq<(I64, Rec)>, key: K, n: nat)
    requires NeverFails(g) && 0 <= lateness <= R.MAX_LATENESS && n <= |inputs| == |records|
    requires forall k {:trigger inputs[k]} :: 0 <= k < |inputs| ==> inputs[k] == R.Arrive(records[k].0, records[k].1)
    ensures var k, d := KeyRun(g, BufferUpTo(lateness), records, key, n), R.Run(R.NewBuffer(lateness), inputs, n);
            && SameBuffer(k.state, d.buf) && d.buf.lateness == lateness
            && (k.state.graph, k.out) == Fed(g, g.init, d.released, key) && k.out.Ok?
  {
    hide OnRecord, Fed, R.OnEvent;
    if n == 0 {
      FedNone(g, g.init, key);
    } else {
      BuffersAgree(g, lateness, inputs, records, key, n - 1);
      var k, d := KeyRun(g, BufferUpTo(lateness), records, key, n - 1), R.Run(R.NewBuffer(lateness), inputs, n - 1);
      var ts, rec := records[n - 1].0, records[n - 1].1;
      RecordAgrees(g, k.state, d.buf, rec, ts, key);
      FedConcat(g, g.init, d.released, R.OnEvent(d.buf, ts, rec).released, key);
    }
  }

  lemma FlushReleasesAll<Rec>(b: R.Buffer<Rec>)
    ensures R.OnFlush(b).released == b.pending && R.OnFlush(b).buf.late == b.late
  {
  }

  /** The flush of one state whose graph never fails. */
  lemma FlushFeeds<G(!new), Rec(!new), K(!new), O>(g: Graph<G, Rec, K, O>, s: State<G, Rec>, key: K)
    requires NeverFails(g)
    ensures var end, fed := OnFlush(g, s, key), Fed(g, s.graph, s.pending, key);
            var (gs, fired) := g.drainTimers(fed.0);
            && fed.1.Ok? && end.state.graph == gs && end.state.late == s.late && end.state.pending == []
            && end.out == Ok(fed.1.value + Fires(fired, key))
  {
    hide RunOne, Fed, Release, Advance;
    ReleaseFeeds(g, s, |s.pending|, key);
    assert s.pending[..|s.pending|] == s.pending;
  }

  /** ... and at the final flush too: the records are fed in the other buffer's flush order before the timers fire. */
  lemma {:induction false} FlushesAgree<G(!new), Rec(!new), K(!new), O>(g: Graph<G, Rec, K, O>, lateness: I64,
        inputs: seq<R.Input<Rec>>, records: seq<(I64, Rec)>, key: K)
    requires NeverFails(g) && 0 <= lateness <= R.MAX_LATENESS && |inputs| == |records|
    requires forall k {:trigger inputs[k]} :: 0 <= k < |inputs| ==> inputs[k] == R.Arrive(records[k].0, records[k].1)
    ensures var k := KeyRun(g, BufferUpTo(lateness), records, key, |records|);
            var d := R.Run(R.NewBuffer(lateness), inputs, |inputs|);
            var end, rest := OnFlush(g, k.state, key), R.OnFlush(d.buf);
            var fed := Fed(g, g.init, d.released + rest.released, key);
            var (gs, fired) := g.drainTimers(fed.0);
            && k.out.Ok? && fed.1.Ok?
            && end.state.graph == gs && end.state.late == rest.buf.late && end.state.pending == []
            && end.out.Ok? && k.out.value + end.out.value == fed.1.value + Fires(fired, key)
  {
    hide Fed, OnFlush, KeyRun, R.Run, R.OnFlush, Fires;
    BuffersAgree(g, lateness, inputs, records, key, |records|);
    var k := KeyRun(g, BufferUpTo(lateness), records, key, |records|);
    var d := R.Run(R.NewBuffer(lateness), inputs, |inputs|);
    FlushFeeds(g, k.state, key);
    FedConcat(g, g.init, d.released, d.buf.pending, key);
    var fed := Fed(g, k.state.graph, k.state.pending, key);
    var fires := Fires(g.drainTimers(fed.0).1, key);
    FlushReleasesAll(d.buf);
    assert k.out.value + (fed.1.value + fires) == k.out.value + fed.1.value + fires;
  }
}
