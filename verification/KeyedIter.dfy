/**
 The keyed iterator: records are routed to one `KeyedGraphState` per key, and at end of input every key is flushed,
 in whatever order the map yields them. A key's outputs never depend on the other keys' records.
 */
module KeyedIter {
  import opened Common
  import opened Keyed

  /** One yielded result with the key it came from; the tag is for the specification only. */
  datatype Tagged<K, O> = Tagged(key: K, result: Result<Item<K, O>, ComputeError>)

  datatype Config<!G, !Rec, !K, O> = Config(
    graph: Graph<G, Rec, K, O>,
    policy: Policy,
    timestampFn: Rec -> I64,
    keyFn: Rec -> K)

  /** What a step or flush of one key contributes to the ready queue. */
  function Tag<K, O>(key: K, out: Outputs<K, O>): seq<Tagged<K, O>> {
    match out
    case Ok(items) => seq(|items|, k requires 0 <= k < |items| => Tagged(key, Ok(items[k])))
    case Err(e) => [Tagged(key, Err(e))]
  }

  datatype World<G, Rec, K, O> = World(states: map<K, State<G, Rec>>, out: seq<Tagged<K, O>>)

  function StateOf<G, Rec, K(==), O>(c: Config<G, Rec, K, O>, states: map<K, State<G, Rec>>, key: K): State<G, Rec> {
    if key in states then states[key] else Fresh(c.graph)
  }

  /** All keys' states, and the tagged results, after the first `n` records. */
  function Route<G, Rec, K(==), O>(c: Config<G, Rec, K, O>, recs: seq<Rec>, n: nat): World<G, Rec, K, O>
    requires n <= |recs|
  {
    if n == 0 then World(map[], [])
    else
      var w, rec := Route(c, recs, n - 1), recs[n - 1];
      var key := c.keyFn(rec);
      var s := OnRecord(c.graph, c.policy, StateOf(c, w.states, key), rec, c.timestampFn(rec), key);
      World(w.states[key := s.state], w.out + Tag(key, s.out))
  }

  /** Flushing the keys in `order`. */
  function FlushAll<G, Rec, K(==), O>(c: Config<G, Rec, K, O>, states: map<K, State<G, Rec>>,
        order: seq<K>): seq<Tagged<K, O>> {
    if order == [] then []
    else
      var key := order[|order| - 1];
      FlushAll(c, states, order[..|order| - 1]) + Tag(key, OnFlush(c.graph, StateOf(c, states, key), key).out)
  }

  ghost function Members<K>(order: seq<K>): set<K> {
    set k | k in order
  }

  ghost predicate Distinct<K>(order: seq<K>)
    decreases |order|
  {
    order == [] || (order[|order| - 1] !in order[..|order| - 1] && Distinct(order[..|order| - 1]))
  }

  class Iter<G, Rec, K(==), O> {
    const c: Config<G, Rec, K, O>
    var input: seq<Rec>
    var graphs: map<K, KeyedGraphState<G, Rec, K, O>>
    var readyQueue: seq<Tagged<K, O>>
    var flushed: bool
    /** Records taken from the input, results yielded, and the order in which keys were flushed. */
    ghost var pulled: seq<Rec>
    ghost var yielded: seq<Tagged<K, O>>
    ghost var order: seq<K>

    ghost predicate Separate()
      reads this`graphs
    {
      forall k, l :: k in graphs && l in graphs && k != l ==> graphs[k] != graphs[l]
    }

    ghost predicate Configured()
      reads this`graphs, graphs.Values
    {
      forall k :: k in graphs ==> graphs[k].g == c.graph && graphs[k].policy == c.policy
    }

    ghost function States(): map<K, State<G, Rec>>
      reads this`graphs, graphs.Values
    {
      map k | k in graphs :: graphs[k].View()
    }

    ghost predicate Valid()
      reads this, graphs.Values
    {
      && Separate() && Configured()
      && var w := Route(c, pulled, |pulled|);
         graphs.Keys == w.states.Keys
         && if !flushed then
              States() == w.states && order == [] && yielded + readyQueue == w.out
            else
              && input == [] && Distinct(order) && Members(order) == w.states.Keys
              && yielded + readyQueue == w.out + FlushAll(c, w.states, order)
    }

    constructor (c: Config<G, Rec, K, O>, input: seq<Rec>)
      ensures Valid() && this.c == c && this.input == input && pulled == [] && yielded == [] && graphs == map[]
    {
      this.c, this.input := c, input;
      graphs, readyQueue, flushed, pulled, yielded, order := map[], [], false, [], [], [];
    }

    /** The next result, or none once the input is exhausted, every key flushed and the queue empty. */
    method NextResult() returns (r: Option<Result<Item<K, O>, ComputeError>>)
      requires Valid()
      modifies this, graphs.Values
      ensures Valid() && fresh(graphs.Values - old(graphs.Values))
      ensures pulled + input == old(pulled + input)
      ensures r.Some? ==> exists key :: yielded == old(yielded) + [Tagged(key, r.value)]
      ensures r.None? ==> yielded == old(yielded) && flushed && readyQueue == []
      ensures old(flushed) ==> flushed
      ensures r.Some? ==>
                || |input| < old(|input|)
                || (|input| == old(|input|) && ((flushed && !old(flushed)) || |readyQueue| < old(|readyQueue|)))
    {
      hide Valid;
      while true
        invariant Valid() && fresh(graphs.Values - old(graphs.Values))
        invariant pulled + input == old(pulled + input) && yielded == old(yielded) && (old(flushed) ==> flushed)
        invariant || |input| < old(|input|)
                  || (|input| == old(|input|)
                      && ((flushed && !old(flushed)) || (readyQueue == old(readyQueue) && flushed == old(flushed))))
        decreases |input|, !flushed, |readyQueue|
      {
        if readyQueue != [] {
          var first := PopReady();
          return Some(first.result);
        }
        if input == [] {
          if flushed { return None; }
          FlushKeys();
          continue;
        }
        RouteOne();
      }
    }

    method PopReady() returns (first: Tagged<K, O>)
      requires Valid() && readyQueue != []
      modifies this`readyQueue, this`yielded
      ensures Valid() && first == old(readyQueue)[0] && readyQueue == old(readyQueue)[1..]
      ensures yielded == old(yielded) + [first]
    {
      hide Route, FlushAll;
      first := readyQueue[0];
      readyQueue := readyQueue[1..];
      yielded := yielded + [first];
      assert yielded + readyQueue == old(yielded + readyQueue);
    }

    /** One record to its key's state, created on first sight. */
    method RouteOne()
      requires Valid() && input != [] && readyQueue == []
      modifies this, graphs.Values
      ensures Valid() && fresh(graphs.Values - old(graphs.Values)) && !flushed && !old(flushed)
      ensures input == old(input)[1..] && pulled == old(pulled) + [old(input)[0]] && yielded == old(yielded)
    {
      hide OnRecord, Route, FlushAll, Tag, Separate, Configured, States, StateOf, Distinct, Members;
      var rec := input[0];
      input := input[1..];
      var ts, key := c.timestampFn(rec), c.keyFn(rec);
      ghost var w := Route(c, pulled, |pulled|);
      RouteSnoc(c, pulled, rec);
      var out := StepKey(rec, ts, key);
      readyQueue := readyQueue + Tag(key, out);
      pulled := pulled + [rec];
      assert Route(c, pulled, |pulled|) == World(States(), w.out + Tag(key, out));
      assert yielded + readyQueue == w.out + Tag(key, out);
    }

    method StepKey(rec: Rec, ts: I64, key: K) returns (out: Outputs<K, O>)
      requires Separate() && Configured()
      modifies this`graphs, graphs.Values
      ensures Separate() && Configured() && fresh(graphs.Values - old(graphs.Values))
      ensures graphs.Keys == old(graphs.Keys) + {key}
      ensures var s := OnRecord(c.graph, c.policy, StateOf(c, old(States()), key), rec, ts, key);
              States() == old(States())[key := s.state] && out == s.out
    {
      hide OnRecord;
      ghost var before := States();
      var state := Obtain(key);
      label Obtained:
      assert States()[key] == state.View();
      out := state.Step(rec, ts, key);
      assert forall k :: k in graphs && k != key ==> graphs[k].View() == old@Obtained(graphs[k].View());
      assert States() == before[key := state.View()];
    }

    /** The key's state, created on first sight. */
    method Obtain(key: K) returns (state: KeyedGraphState<G, Rec, K, O>)
      requires Separate() && Configured()
      modifies this`graphs
      ensures Separate() && Configured() && key in graphs && graphs[key] == state
      ensures graphs.Values <= old(graphs.Values) + {state} && (state in old(graphs.Values) || fresh(state))
      ensures graphs.Keys == old(graphs.Keys) + {key}
      ensures States() == old(States())[key := StateOf(c, old(States()), key)]
    {
      if key !in graphs {
        var s := new KeyedGraphState(c.graph, c.policy);
        graphs := graphs[key := s];
      }
      state := graphs[key];
    }

    /** End of input: every key is flushed, once. */
    method FlushKeys()
      requires Valid() && input == [] && readyQueue == [] && !flushed
      modifies this, graphs.Values
      ensures Valid() && graphs == old(graphs) && flushed
      ensures input == [] && pulled == old(pulled) && yielded == old(yielded)
    {
      hide Route, FlushAll, Distinct;
      flushed := true;
      FlushEach(Route(c, pulled, |pulled|).states);
    }

    /** The next key of the map, `rest` being those still to be flushed. */
    method FlushOne(key: K, ghost states: map<K, State<G, Rec>>, ghost rest: set<K>)
      requires Separate() && Configured() && key in rest && rest <= graphs.Keys == states.Keys
      requires forall k :: k in rest ==> graphs[k].View() == states[k]
      requires Distinct(order) && Members(order) == graphs.Keys - rest && readyQueue == FlushAll(c, states, order)
      modifies this`readyQueue, this`order, graphs[key]
      ensures Configured()
      ensures forall k :: k in rest - {key} ==> graphs[k].View() == states[k]
      ensures Distinct(order) && Members(order) == graphs.Keys - (rest - {key})
      ensures readyQueue == FlushAll(c, states, order)
    {
      hide OnFlush, Tag, FlushAll, Distinct, Members;
      FlushSnoc(c, states, order, key);
      var state := graphs[key];
      var out := state.Flush(key);
      readyQueue := readyQueue + Tag(key, out);
      order := order + [key];
    }

    /** Every key once, in the map's own order. */
    method FlushEach(ghost states: map<K, State<G, Rec>>)
      requires Separate() && Configured() && States() == states && order == [] && readyQueue == []
      modifies this`readyQueue, this`order, graphs.Values
      ensures Configured() && Distinct(order) && Members(order) == graphs.Keys
      ensures readyQueue == FlushAll(c, states, order)
    {
      var rest := graphs.Keys;
      assert Distinct(order) && Members(order) == {} && FlushAll(c, states, order) == [];
      assert states.Keys == rest && forall k :: k in rest ==> graphs[k].View() == states[k];
      hide Separate, Configured, States, FlushAll, Distinct, Members;
      while rest != {}
        invariant rest <= graphs.Keys && Configured()
        invariant forall k :: k in rest ==> graphs[k].View() == states[k]
        invariant Distinct(order) && Members(order) == graphs.Keys - rest
        invariant readyQueue == FlushAll(c, states, order)
        decreases rest
      {
        var key :| key in rest;
        FlushOne(key, states, rest);
        rest := rest - {key};
      }
    }

    /** Run the iterator to its end: per key, the results are those of that key's records alone. */
    method Collect() returns (results: seq<Result<Item<K, O>, ComputeError>>)
      requires Valid() && yielded == []
      modifies this, graphs.Values
      ensures Valid() && pulled == old(pulled + input)
      ensures |results| == |yielded| && forall i :: 0 <= i < |results| ==> results[i] == yielded[i].result
      ensures forall key :: ResultsOf(yielded, key) == AloneThenFlushed(c, key, RecordsOf(c, pulled, key, |pulled|))
    {
      results := [];
      while true
        invariant Valid() && fresh(graphs.Values - old(graphs.Values))
        invariant pulled + input == old(pulled + input)
        invariant |results| == |yielded| && forall i :: 0 <= i < |results| ==> results[i] == yielded[i].result
        decreases |input|, !flushed, |readyQueue|
      {
        var r := NextResult();
        if r.None? { break; }
        results := results + [r.value];
      }
      assert pulled + input == pulled && yielded + [] == yielded;
      forall key ensures ResultsOf(yielded, key) == AloneThenFlushed(c, key, RecordsOf(c, pulled, key, |pulled|)) {
        KeysAreIsolated(c, pulled, order, key);
      }
    }
  }

  lemma RouteSnoc<G, Rec, K, O>(c: Config<G, Rec, K, O>, recs: seq<Rec>, rec: Rec)
    ensures var w, key := Route(c, recs, |recs|), c.keyFn(rec);
            var s := OnRecord(c.graph, c.policy, StateOf(c, w.states, key), rec, c.timestampFn(rec), key);
            Route(c, recs + [rec], |recs| + 1) == World(w.states[key := s.state], w.out + Tag(key, s.out))
  {
    RoutePrefix(c, recs, [rec], |recs|);
  }

  lemma {:induction false} RoutePrefix<G, Rec, K, O>(c: Config<G, Rec, K, O>, a: seq<Rec>, b: seq<Rec>, n: nat)
    requires n <= |a|
    ensures Route(c, a + b, n) == Route(c, a, n)
  {
    hide OnRecord;
    if n > 0 { RoutePrefix(c, a, b, n - 1); }
  }

  lemma FlushSnoc<G, Rec, K, O>(c: Config<G, Rec, K, O>, states: map<K, State<G, Rec>>, order: seq<K>, key: K)
    requires Distinct(order) && key !in Members(order)
    ensures FlushAll(c, states, order + [key])
         == FlushAll(c, states, order) + Tag(key, OnFlush(c.graph, StateOf(c, states, key), key).out)
    ensures Distinct(order + [key])
    ensures Members(order + [key]) == Members(order) + {key}
  {
    hide OnFlush, Tag;
    assert (order + [key])[..|order|] == order;
  }

  // ---- Isolation ----

  /** The records of one key among the first `n`, in order. */
  function RecordsOf<G, Rec, K(==), O>(c: Config<G, Rec, K, O>, recs: seq<Rec>, key: K, n: nat): seq<Rec>
    requires n <= |recs|
  {
    if n == 0 then []
    else RecordsOf(c, recs, key, n - 1) + (if c.keyFn(recs[n - 1]) == key then [recs[n - 1]] else [])
  }

  function ResultsOf<K(==), O>(out: seq<Tagged<K, O>>, key: K): seq<Result<Item<K, O>, ComputeError>> {
    if out == [] then []
    else ResultsOf(out[..|out| - 1], key) + (if out[|out| - 1].key == key then [out[|out| - 1].result] else [])
  }

  function Results<K, O>(out: Outputs<K, O>): seq<Result<Item<K, O>, ComputeError>> {
    match out
    case Ok(items) => seq(|items|, k requires 0 <= k < |items| => Ok(items[k]))
    case Err(e) => [Err(e)]
  }

  /** One state fed all of `recs`, with its results in order. */
  function Alone<G, Rec, K, O>(c: Config<G, Rec, K, O>, key: K, recs: seq<Rec>): (State<G, Rec>, seq<Result<Item<K,
        O>, ComputeError>>) {
    if recs == [] then (Fresh(c.graph), [])
    else
      var rec := recs[|recs| - 1];
      var (state, out) := Alone(c, key, recs[..|recs| - 1]);
      var s := OnRecord(c.graph, c.policy, state, rec, c.timestampFn(rec), key);
      (s.state, out + Results(s.out))
  }

  /** ... and then flushed; a key that never had a record has no state to flush. */
  function AloneThenFlushed<G, Rec, K, O>(c: Config<G, Rec, K, O>, key: K, recs: seq<Rec>): seq<Result<Item<K, O>,
        ComputeError>> {
    if recs == [] then []
    else
      var (state, out) := Alone(c, key, recs);
      out + Results(OnFlush(c.graph, state, key).out)
  }

  lemma {:induction false} ResultsConcat<K, O>(a: seq<Tagged<K, O>>, b: seq<Tagged<K, O>>, key: K)
    ensures ResultsOf(a + b, key) == ResultsOf(a, key) + ResultsOf(b, key)
    decreases |b|
  {
    if b == [] {
      assert a + b == a;
    } else {
      assert (a + b)[..|a + b| - 1] == a + b[..|b| - 1];
      ResultsConcat(a, b[..|b| - 1], key);
    }
  }

  lemma TaggedResults<K, O>(key: K, out: Outputs<K, O>, other: K)
    ensures ResultsOf(Tag(key, out), other) == if key == other then Results(out) else []
  {
    match out
    case Ok(items) => TaggedItems(key, items, other);
    case Err(e) =>
      var t: seq<Tagged<K, O>> := [Tagged(key, Err(e))];
      assert t[..0] == [];
  }

  lemma {:induction false} TaggedItems<K, O>(key: K, items: seq<Item<K, O>>, other: K)
    ensures ResultsOf(Tag(key, Ok(items)), other) == if key == other then Results(Ok(items)) else []
    decreases |items|
  {
    if items != [] {
      var front := items[..|items| - 1];
      TaggedItems(key, front, other);
      assert Tag(key, Ok(items))[..|items| - 1] == Tag(key, Ok(front));
      assert Results<K, O>(Ok(items)) == Results(Ok(front)) + [Ok(items[|items| - 1])];
    }
  }

  /** While records are routed, each key's state and results are those of the key's records alone. */
  lemma {:induction false} RoutedAlone<G, Rec, K, O>(c: Config<G, Rec, K, O>, recs: seq<Rec>, n: nat, key: K)
    requires n <= |recs|
    ensures var w, own := Route(c, recs, n), RecordsOf(c, recs, key, n);
            && (key in w.states <==> own != [])
            && (StateOf(c, w.states, key), ResultsOf(w.out, key)) == Alone(c, key, own)
  {
    hide OnRecord, Tag, ResultsOf, Results;
    if n == 0 {
      NoResults<K, O>(key);
    } else {
      RoutedAlone(c, recs, n - 1, key);
      var w, rec := Route(c, recs, n - 1), recs[n - 1];
      var k := c.keyFn(rec);
      var s := OnRecord(c.graph, c.policy, StateOf(c, w.states, k), rec, c.timestampFn(rec), k);
      ResultsConcat(w.out, Tag(k, s.out), key);
      TaggedResults(k, s.out, key);
      if k == key {
        AloneSnoc(c, key, RecordsOf(c, recs, key, n - 1), rec);
      } else {
        assert RecordsOf(c, recs, key, n) == RecordsOf(c, recs, key, n - 1);
        assert ResultsOf(w.out, key) + [] == ResultsOf(w.out, key);
      }
    }
  }

  lemma NoResults<K, O>(key: K)
    ensures ResultsOf<K, O>([], key) == []
  {
  }

  lemma AloneSnoc<G, Rec, K, O>(c: Config<G, Rec, K, O>, key: K, recs: seq<Rec>, rec: Rec)
    ensures var (state, out) := Alone(c, key, recs);
            var s := OnRecord(c.graph, c.policy, state, rec, c.timestampFn(rec), key);
            Alone(c, key, recs + [rec]) == (s.state, out + Results(s.out))
  {
    hide OnRecord;
    assert (recs + [rec])[..|recs|] == recs;
  }

  /** Flushing other keys, before or after, leaves one key's flush alone. */
  lemma {:induction false} FlushedAlone<G, Rec, K, O>(c: Config<G, Rec, K, O>, states: map<K, State<G, Rec>>,
        order: seq<K>, key: K)
    requires Distinct(order)
    ensures ResultsOf(FlushAll(c, states, order), key)
         == if key in order then Results(OnFlush(c.graph, StateOf(c, states, key), key).out) else []
    decreases |order|
  {
    hide OnFlush, Tag, Results, ResultsOf, StateOf;
    if order == [] {
      NoResults<K, O>(key);
    } else {
      var front, last := order[..|order| - 1], order[|order| - 1];
      FlushedAlone(c, states, front, key);
      var out := OnFlush(c.graph, StateOf(c, states, last), last).out;
      ResultsConcat(FlushAll(c, states, front), Tag(last, out), key);
      TaggedResults(last, out, key);
      assert key in order <==> key in front || key == last;
      assert Results(out) == [] + Results(out) && Results(out) + [] == Results(out);
    }
  }

  /**
   Isolation: for any interleaving of records over any keys and any flush order, one key's results, in order, are
   those of a single state run on that key's records only and then flushed.
   */
  lemma KeysAreIsolated<G, Rec, K, O>(c: Config<G, Rec, K, O>, recs: seq<Rec>, order: seq<K>, key: K)
    requires Distinct(order) && Members(order) == Route(c, recs, |recs|).states.Keys
    ensures var w := Route(c, recs, |recs|);
            ResultsOf(w.out + FlushAll(c, w.states, order), key)
              == AloneThenFlushed(c, key, RecordsOf(c, recs, key, |recs|))
  {
    hide OnFlush, OnRecord, Route;
    var w := Route(c, recs, |recs|);
    RoutedAlone(c, recs, |recs|, key);
    FlushedAlone(c, w.states, order, key);
    ResultsConcat(w.out, FlushAll(c, w.states, order), key);
    assert key in order <==> key in Members(order);
  }
}
