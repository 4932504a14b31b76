/** The k-way merge by any totally ordered key: a heap of source heads, popped in any order among equal keys. */
module Merges {
  import opened Common

  datatype HeapEntry<T, K> = HeapEntry(key: K, value: T, source: nat)

  /** How many items have been taken from each source, the heap of taken heads, and everything output, by source. */
  datatype Progress<T, K> = Progress(taken: seq<nat>, heap: seq<HeapEntry<T, K>>, out: seq<(nat, T)>)

  /** What ordering the keys demands. */
  ghost predicate TotalOrder<K(!new)>(leq: (K, K) -> bool) {
    && (forall a, b :: leq(a, b) || leq(b, a))
    && (forall a, b, c :: leq(a, b) && leq(b, c) ==> leq(a, c))
  }

  /** The values of source `s` among the outputs, in order. */
  function From<T>(out: seq<(nat, T)>, s: nat): seq<T> {
    if out == [] then []
    else From(out[..|out| - 1], s) + (if out[|out| - 1].0 == s then [out[|out| - 1].1] else [])
  }

  lemma FromSnoc<T>(out: seq<(nat, T)>, s: nat, x: (nat, T))
    ensures From(out + [x], s) == From(out, s) + (if x.0 == s then [x.1] else [])
  {
    assert (out + [x])[..|out|] == out;
  }

  ghost predicate SortedBy<T, K>(s: seq<T>, key: T -> K, leq: (K, K) -> bool) {
    forall i, j :: 0 <= i < j < |s| ==> leq(key(s[i]), key(s[j]))
  }

  ghost predicate Held<T, K>(heap: seq<HeapEntry<T, K>>, s: nat) {
    exists k :: 0 <= k < |heap| && heap[k].source == s
  }

  /** The head the heap holds for a source is the last item taken from it, with its key. */
  ghost predicate EntryOk<T, K>(sources: seq<seq<T>>, keyFn: T -> K, taken: seq<nat>, e: HeapEntry<T, K>) {
    && e.source < |sources| == |taken| && 0 < taken[e.source] <= |sources[e.source]|
    && e.value == sources[e.source][taken[e.source] - 1] && e.key == keyFn(e.value)
  }

  /**
   Source `s`: outputs, then the held head if any, are what was taken; no head held means all was taken and output.
   */
  ghost predicate SourceOk<T, K>(sources: seq<seq<T>>, p: Progress<T, K>, s: nat) {
    && s < |sources| == |p.taken| && p.taken[s] <= |sources[s]|
    && if Held(p.heap, s) then p.taken[s] > 0 && From(p.out, s) == sources[s][..p.taken[s] - 1]
       else p.taken[s] == |sources[s]| && From(p.out, s) == sources[s]
  }

  ghost predicate OneEach<T, K>(heap: seq<HeapEntry<T, K>>) {
    forall j, k :: 0 <= j < k < |heap| ==> heap[j].source != heap[k].source
  }

  /** The heap holds exactly the current head of each unexhausted source. */
  ghost predicate Sound<T, K>(sources: seq<seq<T>>, keyFn: T -> K, p: Progress<T, K>) {
    && |p.taken| == |sources| && OneEach(p.heap)
    && (forall i :: 0 <= i < |p.out| ==> p.out[i].0 < |sources|)
    && (forall k :: 0 <= k < |p.heap| ==> EntryOk(sources, keyFn, p.taken, p.heap[k]))
    && (forall s :: 0 <= s < |sources| ==> SourceOk(sources, p, s))
  }

  /** Outputs sorted, none above a head still held. */
  ghost predicate SortedSoFar<T, K>(keyFn: T -> K, leq: (K, K) -> bool, p: Progress<T, K>) {
    && (forall i, j :: 0 <= i < j < |p.out| ==> leq(keyFn(p.out[i].1), keyFn(p.out[j].1)))
    && (forall i, k :: 0 <= i < |p.out| && 0 <= k < |p.heap| ==> leq(keyFn(p.out[i].1), p.heap[k].key))
  }

  ghost predicate AllSorted<T, K>(sources: seq<seq<T>>, keyFn: T -> K, leq: (K, K) -> bool) {
    forall s :: 0 <= s < |sources| ==> SortedBy(sources[s], keyFn, leq)
  }

  predicate IsLeast<T, K>(heap: seq<HeapEntry<T, K>>, leq: (K, K) -> bool, k: nat) {
    k < |heap| && forall j :: 0 <= j < |heap| ==> leq(heap[k].key, heap[j].key)
  }

  function Without<T, K>(heap: seq<HeapEntry<T, K>>, k: nat): seq<HeapEntry<T, K>>
    requires k < |heap|
  {
    heap[..k] + heap[k + 1..]
  }

  /** Pop entry `k`, output it, and refill from its own source. */
  function Pop<T, K>(sources: seq<seq<T>>, keyFn: T -> K, p: Progress<T, K>, k: nat): Progress<T, K>
    requires k < |p.heap| && p.heap[k].source < |sources| == |p.taken|
  {
    var e, rest := p.heap[k], Without(p.heap, k);
    var out := p.out + [(e.source, e.value)];
    var n := p.taken[e.source];
    if n < |sources[e.source]| then
      var value := sources[e.source][n];
      Progress(p.taken[e.source := n + 1], rest + [HeapEntry(keyFn(value), value, e.source)], out)
    else Progress(p.taken, rest, out)
  }

  /** Items the sources have yet to give, among the first `n`. */
  function Untaken<T>(sources: seq<seq<T>>, taken: seq<nat>, n: nat): int
    requires n <= |sources| == |taken|
  {
    if n == 0 then 0 else Untaken(sources, taken, n - 1) + |sources[n - 1]| - taken[n - 1]
  }

  /** Items not output yet: those still in the sources and the heads held. */
  ghost function Remaining<T, K>(sources: seq<seq<T>>, p: Progress<T, K>): int {
    if |p.taken| == |sources| then Untaken(sources, p.taken, |sources|) + |p.heap| else 0
  }

  /** Every output is some source's, and each source's outputs are that source, whole and in order. */
  ghost predicate Interleaves<T>(sources: seq<seq<T>>, out: seq<(nat, T)>) {
    && (forall i :: 0 <= i < |out| ==> out[i].0 < |sources|)
    && (forall s :: 0 <= s < |sources| ==> From(out, s) == sources[s])
  }

  class MergeByKey<T, K(!new)> {
    const sources: seq<seq<T>>
    const keyFn: T -> K
    const leq: (K, K) -> bool
    var taken: seq<nat>
    var heap: seq<HeapEntry<T, K>>
    ghost var out: seq<(nat, T)>

    ghost function State(): Progress<T, K>
      reads this
    {
      Progress(taken, heap, out)
    }

    ghost predicate Valid()
      reads this
    {
      TotalOrder(leq) && Sound(sources, keyFn, State())
    }

    constructor (sources: seq<seq<T>>, keyFn: T -> K, leq: (K, K) -> bool)
      requires TotalOrder(leq)
      ensures Valid() && this.sources == sources && this.keyFn == keyFn && this.leq == leq && out == []
    {
      this.sources, this.keyFn, this.leq := sources, keyFn, leq;
      taken, heap, out := [], [], [];
      new;
      for idx := 0 to |sources|
        invariant out == [] && |taken| == idx && OneEach(heap)
        invariant forall k :: 0 <= k < |heap| ==> heap[k].source < idx && EntryOk(sources[..idx], keyFn, taken, heap[k])
        invariant forall s :: 0 <= s < idx ==> SourceOk(sources[..idx], Progress(taken, heap, []), s)
      {
        ghost var heapBefore, takenBefore := heap, taken;
        if sources[idx] != [] {
          var value := sources[idx][0];
          heap := heap + [HeapEntry(keyFn(value), value, idx)];
          taken := taken + [1];
        } else {
          taken := taken + [0];
        }
        Started(sources, keyFn, idx, idx + 1, heapBefore, takenBefore, heap, taken);
      }
      assert sources[..|sources|] == sources && State() == Progress(taken, heap, []);
    }

    /** A head of least key, refilled from its own source; none exactly when every source has been output whole. */
    method NextItem() returns (r: Option<T>)
      requires Valid()
      modifies this
      ensures Valid()
      ensures r.Some? ==> 0 <= Remaining(sources, State()) == Remaining(sources, old(State())) - 1
      ensures r.None? ==> out == old(out) && forall s :: 0 <= s < |sources| ==> From(out, s) == sources[s]
      ensures forall i :: 0 <= i < |out| ==> out[i].0 < |sources|
      ensures r.Some? ==> exists s :: out == old(out) + [(s, r.value)]
      ensures r.Some? ==> forall k :: 0 <= k < |old(heap)| ==> leq(keyFn(r.value), old(heap)[k].key)
      ensures AllSorted(sources, keyFn, leq) && SortedSoFar(keyFn, leq, old(State())) ==>
                SortedSoFar(keyFn, leq, State())
    {
      ghost var before := State();
      hide SortedSoFar, From, SourceOk, EntryOk, OneEach, TotalOrder;
      if heap == [] {
        NothingHeld(sources, keyFn, before);
        return None;
      }
      LeastExists(heap, leq);
      var k :| 0 <= k < |heap| && IsLeast(heap, leq, k);
      var entry := heap[k];
      HeadIsReal(sources, keyFn, before, k);
      var s := entry.source;
      heap := Without(heap, k);
      out := out + [(s, entry.value)];
      if taken[s] < |sources[s]| {
        var value := sources[s][taken[s]];
        heap := heap + [HeapEntry(keyFn(value), value, s)];
        taken := taken[s := taken[s] + 1];
      }
      assert State() == Pop(sources, keyFn, before, k);
      PopShrinks(sources, keyFn, before, k);
      PopKeepsOk(sources, keyFn, before, k);
      if AllSorted(sources, keyFn, leq)
          && SortedSoFar(keyFn, leq, before) { PopKeepsSorted(sources, keyFn, leq, before, k); }
      return Some(entry.value);
    }

    /** Run to the end: an interleaving of all the sources, sorted when they are. */
    method Collect() returns (items: seq<T>)
      requires Valid() && out == []
      modifies this
      ensures |items| == |out| && forall i :: 0 <= i < |items| ==> items[i] == out[i].1
      ensures Interleaves(sources, out)
      ensures AllSorted(sources, keyFn, leq) ==> SortedBy(items, keyFn, leq)
    {
      items := [];
      while true
        invariant Valid()
        invariant |items| == |out| && forall i :: 0 <= i < |items| ==> items[i] == out[i].1
        invariant AllSorted(sources, keyFn, leq) ==> SortedSoFar(keyFn, leq, State())
        decreases Remaining(sources, State())
      {
        var r := NextItem();
        if r.None? { break; }
        items := items + [r.value];
      }
    }
  }

  lemma NothingHeld<T, K>(sources: seq<seq<T>>, keyFn: T -> K, p: Progress<T, K>)
    requires Sound(sources, keyFn, p) && p.heap == []
    ensures forall s :: 0 <= s < |sources| ==> From(p.out, s) == sources[s]
  {
    hide From;
    forall s | 0 <= s < |sources| ensures From(p.out, s) == sources[s] { assert SourceOk(sources, p, s); }
  }

  lemma HeadIsReal<T, K>(sources: seq<seq<T>>, keyFn: T -> K, p: Progress<T, K>, k: nat)
    requires Sound(sources, keyFn, p) && k < |p.heap|
    ensures EntryOk(sources, keyFn, p.taken, p.heap[k]) && Held(p.heap, p.heap[k].source)
  {
  }

  /** One more source put on the heap when merging starts. */
  lemma Started<T, K>(sources: seq<seq<T>>, keyFn: T -> K, idx: nat, next: nat, heap: seq<HeapEntry<T, K>>,
        taken: seq<nat>, heap': seq<HeapEntry<T, K>>, taken': seq<nat>)
    requires next == idx + 1 && idx < |sources| && |taken| == idx && |taken'| == next
    requires OneEach(heap) && taken <= taken'
    requires if sources[idx] == [] then heap' == heap && taken'[idx] == 0
             else heap' == heap + [HeapEntry(keyFn(sources[idx][0]), sources[idx][0], idx)] && taken'[idx] == 1
    requires forall k :: 0 <= k < |heap| ==> heap[k].source < idx && EntryOk(sources[..idx], keyFn, taken, heap[k])
    requires forall s :: 0 <= s < idx ==> SourceOk(sources[..idx], Progress(taken, heap, []), s)
    ensures OneEach(heap')
    ensures forall k :: 0 <= k < |heap'| ==> heap'[k].source < next && EntryOk(sources[..next], keyFn, taken', heap'[k])
    ensures forall s :: 0 <= s < next ==> SourceOk(sources[..next], Progress(taken', heap', []), s)
  {
    forall k | 0 <= k < |heap'| ensures heap'[k].source < next && EntryOk(sources[..next], keyFn, taken', heap'[k]) {
      if k < |heap| { assert EntryOk(sources[..idx], keyFn, taken, heap[k]); }
    }
    forall s | 0 <= s < next ensures SourceOk(sources[..next], Progress(taken', heap', []), s) {
      if s < idx {
        assert SourceOk(sources[..idx], Progress(taken, heap, []), s);
        if Held(heap, s) {
          var k :| 0 <= k < |heap| && heap[k].source == s;
          assert heap'[k].source == s;
        }
      } else if sources[idx] != [] {
        assert heap'[|heap|].source == idx;
      }
    }
  }

  lemma OtherHeads<T, K>(heap: seq<HeapEntry<T, K>>, k: nat, j: nat) returns (i: nat)
    requires k < |heap| && OneEach(heap) && j < |Without(heap, k)|
    ensures i < |heap| && i != k && Without(heap, k)[j] == heap[i] && heap[i].source != heap[k].source
  {
    i := if j < k then j else j + 1;
  }

  lemma StillHeld<T, K>(heap: seq<HeapEntry<T, K>>, k: nat, s: nat)
    requires k < |heap| && OneEach(heap)
    ensures Held(Without(heap, k), s) <==> Held(heap, s) && s != heap[k].source
  {
    if Held(heap, s) && s != heap[k].source {
      var i :| 0 <= i < |heap| && heap[i].source == s;
      assert Without(heap, k)[if i < k then i else i - 1] == heap[i];
    }
    if Held(Without(heap, k), s) {
      var j :| 0 <= j < |Without(heap, k)| && Without(heap, k)[j].source == s;
      var i := OtherHeads(heap, k, j);
    }
  }

  lemma HeldSnoc<T, K>(heap: seq<HeapEntry<T, K>>, e: HeapEntry<T, K>, s: nat)
    ensures Held(heap + [e], s) <==> Held(heap, s) || e.source == s
  {
    assert (heap + [e])[|heap|] == e;
    if Held(heap, s) {
      var k :| 0 <= k < |heap| && heap[k].source == s;
      assert (heap + [e])[k] == heap[k];
    }
  }

  lemma PopHeads<T, K>(sources: seq<seq<T>>, keyFn: T -> K, p: Progress<T, K>, k: nat)
    requires Sound(sources, keyFn, p) && k < |p.heap|
    requires p.heap[k].source < |sources| == |p.taken|
    ensures var q := Pop(sources, keyFn, p, k);
            OneEach(q.heap) && forall j :: 0 <= j < |q.heap| ==> EntryOk(sources, keyFn, q.taken, q.heap[j])
  {
    hide From, SourceOk;
    assert EntryOk(sources, keyFn, p.taken, p.heap[k]);
    var q, rest := Pop(sources, keyFn, p, k), Without(p.heap, k);
    forall j | 0 <= j < |rest| ensures EntryOk(sources, keyFn, q.taken, rest[j]) && rest[j].source != p.heap[k].source {
      var i := OtherHeads(p.heap, k, j);
      assert EntryOk(sources, keyFn, p.taken, p.heap[i]);
    }
    forall i, j | 0 <= i < j < |rest| ensures rest[i].source != rest[j].source {
      var a := OtherHeads(p.heap, k, i);
      var b := OtherHeads(p.heap, k, j);
      assert p.heap[if i < k then i else i + 1].source != p.heap[if j < k then j else j + 1].source;
    }
  }

  lemma PopSource<T, K>(sources: seq<seq<T>>, keyFn: T -> K, p: Progress<T, K>, k: nat, s: nat)
    requires Sound(sources, keyFn, p) && k < |p.heap| && s < |sources|
    requires p.heap[k].source < |sources| == |p.taken|
    ensures SourceOk(sources, Pop(sources, keyFn, p, k), s)
  {
    hide From, Held;
    var e, q, rest := p.heap[k], Pop(sources, keyFn, p, k), Without(p.heap, k);
    assert EntryOk(sources, keyFn, p.taken, e) && SourceOk(sources, p, s);
    HeadIsReal(sources, keyFn, p, k);
    FromSnoc(p.out, s, (e.source, e.value));
    StillHeld(p.heap, k, s);
    if p.taken[e.source] < |sources[e.source]| {
      HeldSnoc(rest, q.heap[|rest|], s);
    }
    if s == e.source {
      var n := p.taken[s];
      assert sources[s][..n] == sources[s][..n - 1] + [e.value];
      assert n == |sources[s]| ==> sources[s][..n] == sources[s];
    }
  }

  /** A pop keeps the heap exact and every source's outputs a prefix of it, in order, nothing lost or repeated. */
  lemma PopKeepsOk<T, K>(sources: seq<seq<T>>, keyFn: T -> K, p: Progress<T, K>, k: nat)
    requires Sound(sources, keyFn, p) && k < |p.heap| && p.heap[k].source < |sources| == |p.taken|
    ensures Sound(sources, keyFn, Pop(sources, keyFn, p, k))
  {
    hide From, Held, Without;
    PopHeads(sources, keyFn, p, k);
    forall s | 0 <= s < |sources| ensures SourceOk(sources, Pop(sources, keyFn, p, k), s) {
      PopSource(sources, keyFn, p, k, s);
    }
  }

  /** With sorted sources, popping a least head keeps the output sorted and below every head. */
  lemma PopKeepsSorted<T, K(!new)>(sources: seq<seq<T>>, keyFn: T -> K, leq: (K, K) -> bool, p: Progress<T, K>, k: nat)
    requires TotalOrder(leq) && Sound(sources, keyFn, p) && k < |p.heap| && p.heap[k].source < |sources| == |p.taken|
    requires AllSorted(sources, keyFn, leq) && SortedSoFar(keyFn, leq, p) && IsLeast(p.heap, leq, k)
    ensures SortedSoFar(keyFn, leq, Pop(sources, keyFn, p, k))
  {
    hide From, SourceOk;
    var e, q, rest := p.heap[k], Pop(sources, keyFn, p, k), Without(p.heap, k);
    assert EntryOk(sources, keyFn, p.taken, e) && SortedBy(sources[e.source], keyFn, leq);
    forall j | 0 <= j < |q.heap| ensures leq(e.key, q.heap[j].key) {
      if j < |rest| { var i := OtherHeads(p.heap, k, j); }
    }
    forall i | 0 <= i < |q.out| ensures leq(keyFn(q.out[i].1), e.key) {}
  }

  lemma {:induction false} LeastExists<T, K(!new)>(heap: seq<HeapEntry<T, K>>, leq: (K, K) -> bool)
    requires heap != [] && TotalOrder(leq)
    ensures exists k :: 0 <= k < |heap| && IsLeast(heap, leq, k)
  {
    var last := |heap| - 1;
    if last == 0 {
      assert IsLeast(heap, leq, 0);
    } else {
      LeastExists(heap[..last], leq);
      var k :| 0 <= k < last && IsLeast(heap[..last], leq, k);
      forall j | 0 <= j < last ensures leq(heap[k].key, heap[j].key) {
        assert leq(heap[..last][k].key, heap[..last][j].key);
      }
      assert IsLeast(heap, leq, if leq(heap[k].key, heap[last].key) then k else last);
    }
  }

  lemma {:induction false} UntakenStep<T>(sources: seq<seq<T>>, taken: seq<nat>, s: nat, n: nat)
    requires n <= |sources| == |taken| && s < |sources|
    ensures Untaken(sources, taken[s := taken[s] + 1], n) == Untaken(sources, taken, n) - (if s < n then 1 else 0)
  {
    if n > 0 { UntakenStep(sources, taken, s, n - 1); }
  }

  lemma {:induction false} UntakenIsLeft<T>(sources: seq<seq<T>>, taken: seq<nat>, n: nat)
    requires n <= |sources| == |taken| && forall s :: 0 <= s < |sources| ==> taken[s] <= |sources[s]|
    ensures Untaken(sources, taken, n) >= 0
  {
    if n > 0 { UntakenIsLeft(sources, taken, n - 1); }
  }

  lemma PopShrinks<T, K>(sources: seq<seq<T>>, keyFn: T -> K, p: Progress<T, K>, k: nat)
    requires Sound(sources, keyFn, p) && k < |p.heap| && p.heap[k].source < |sources| == |p.taken|
    ensures Remaining(sources, Pop(sources, keyFn, p, k)) == Remaining(sources, p) - 1
    ensures Remaining(sources, p) > 0
  {
    hide From;
    forall s | 0 <= s < |sources| ensures p.taken[s] <= |sources[s]| { assert SourceOk(sources, p, s); }
    UntakenIsLeft(sources, p.taken, |sources|);
    UntakenStep(sources, p.taken, p.heap[k].source, |sources|);
  }
}
