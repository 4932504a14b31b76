/**
 The event-time timer service: a heap with tombstones, specified by the set of live timers. The heap is a bag of
 entries; the order of its backing storage, which only `Delete` can observe, is left to the heap.
 */
module Timers {
  import opened Common

  datatype TimerEntry = TimerEntry(fireTs: I64, nodeId: nat, seqNo: nat, deleted: bool)

  predicate Earlier(a: TimerEntry, b: TimerEntry) {
    a.fireTs < b.fireTs || (a.fireTs == b.fireTs && (a.seqNo < b.seqNo || (a.seqNo == b.seqNo && a.nodeId < b.nodeId)))
  }

  ghost predicate Unique(s: set<TimerEntry>) {
    forall a, b :: a in s && b in s && a.seqNo == b.seqNo ==> a == b
  }

  ghost predicate IsLeast(e: TimerEntry, s: set<TimerEntry>) {
    e in s && forall f :: f in s && f != e ==> Earlier(e, f)
  }

  lemma {:induction false} LeastExists(s: set<TimerEntry>)
    requires s != {} && Unique(s)
    ensures exists e :: IsLeast(e, s)
  {
    var e :| e in s;
    if s == {e} {
      assert IsLeast(e, s);
    } else {
      LeastExists(s - {e});
      var f :| IsLeast(f, s - {e});
      assert forall x :: x in s ==> x == e || x in s - {e};
      assert IsLeast(if Earlier(f, e) then f else e, s);
    }
  }

  ghost function Support(heap: multiset<TimerEntry>): set<TimerEntry> {
    set e | e in heap
  }

  ghost function Live(heap: multiset<TimerEntry>): set<TimerEntry> {
    set e | e in heap && !e.deleted
  }

  ghost predicate StrictlySorted(s: seq<TimerEntry>) {
    forall i, j :: 0 <= i < j < |s| ==> Earlier(s[i], s[j])
  }

  ghost function Elements(s: seq<TimerEntry>): set<TimerEntry> {
    set e | e in s
  }

  /** The timers of `s` in firing order. */
  ghost function InOrder(s: set<TimerEntry>): (r: seq<TimerEntry>)
    requires Unique(s)
    ensures StrictlySorted(r) && Elements(r) == s
  {
    if s == {} then []
    else
      LeastExists(s);
      var e :| IsLeast(e, s);
      assert Elements([e] + InOrder(s - {e})) == {e} + Elements(InOrder(s - {e}));
      assert forall f :: f in InOrder(s - {e}) ==> f in Elements(InOrder(s - {e}));
      [e] + InOrder(s - {e})
  }

  lemma {:induction false} ListingLength(r: seq<TimerEntry>)
    requires StrictlySorted(r)
    ensures |Elements(r)| == |r|
  {
    if r != [] {
      ListingLength(r[1..]);
      assert r == [r[0]] + r[1..];
      assert Elements(r) == {r[0]} + Elements(r[1..]);
    }
  }

  lemma ElementsEmpty(s: seq<TimerEntry>)
    ensures Elements(s) == {} <==> s == []
  {
    if s != [] { assert s[0] in Elements(s); }
  }

  /** A strictly sorted listing of a set is the only one. */
  lemma {:induction false} ListingUnique(a: seq<TimerEntry>, b: seq<TimerEntry>)
    requires StrictlySorted(a) && StrictlySorted(b) && Elements(a) == Elements(b)
    ensures a == b
  {
    if a == [] {
      ElementsEmpty(a);
      ElementsEmpty(b);
    } else {
      assert a[0] in Elements(a);
      assert a[0] in b;
      assert b[0] in Elements(b);
      assert a[0] == b[0] by {
        var i :| 0 <= i < |b| && b[i] == a[0];
        var j :| 0 <= j < |a| && a[j] == b[0];
      }
      forall e ensures e in Elements(a[1..]) <==> e in Elements(b[1..]) {
        if e in Elements(a[1..]) {
          var i :| 0 <= i < |a| - 1 && a[1..][i] == e;
          assert a[i + 1] == e && e in Elements(b);
          var j :| 0 <= j < |b| && b[j] == e;
          assert b[1..][j - 1] == e;
        }
        if e in Elements(b[1..]) {
          var i :| 0 <= i < |b| - 1 && b[1..][i] == e;
          assert b[i + 1] == e && e in Elements(a);
          var j :| 0 <= j < |a| && a[j] == e;
          assert a[1..][j - 1] == e;
        }
      }
      ListingUnique(a[1..], b[1..]);
    }
  }

  datatype Snapshot = Snapshot(entries: seq<TimerEntry>, nextSeq: nat)

  predicate Wanted(e: TimerEntry, fireTs: I64, nodeId: nat) {
    !e.deleted && e.fireTs == fireTs && e.nodeId == nodeId
  }

  /** No entry twice, and sequence numbers unique and below the counter. */
  ghost predicate Numbered(heap: multiset<TimerEntry>, nextSeq: nat) {
    Unique(Support(heap)) && forall e :: e in heap ==> heap[e] == 1 && e.seqNo < nextSeq
  }

  predicate LeastIn(heap: multiset<TimerEntry>, e: TimerEntry) {
    e in heap && forall f :: f in heap && f != e ==> Earlier(e, f)
  }

  lemma LeastInExists(heap: multiset<TimerEntry>, nextSeq: nat)
    requires heap != multiset{} && Numbered(heap, nextSeq)
    ensures exists e :: e in heap && LeastIn(heap, e)
  {
    var some :| some in heap;
    assert some in Support(heap);
    LeastExists(Support(heap));
    var e :| IsLeast(e, Support(heap));
    forall f | f in heap && f != e ensures Earlier(e, f) { assert f in Support(heap); }
  }

  /** Popping the least entry. */
  lemma WithoutLeast(heap: multiset<TimerEntry>, nextSeq: nat, e: TimerEntry)
    requires Numbered(heap, nextSeq) && LeastIn(heap, e)
    ensures var rest := heap - multiset{e};
            && |rest| < |heap| && Numbered(rest, nextSeq)
            && Live(rest) == (if e.deleted then Live(heap) else Live(heap) - {e})
            && (forall f :: f in rest ==> f in heap && Earlier(e, f))
    ensures !e.deleted ==> IsLeast(e, Live(heap))
    ensures forall f :: f in Live(heap) ==> f == e || Earlier(e, f)
  {
    var rest := heap - multiset{e};
    forall f ensures f in rest <==> f in heap && f != e {}
  }

  /** Marking a live entry deleted. */
  lemma Tombstoned(heap: multiset<TimerEntry>, nextSeq: nat, e: TimerEntry)
    requires Numbered(heap, nextSeq) && e in heap && !e.deleted
    ensures var marked := heap - multiset{e} + multiset{e.(deleted := true)};
            Numbered(marked, nextSeq) && Live(marked) == Live(heap) - {e}
  {
    var dead := e.(deleted := true);
    var marked := heap - multiset{e} + multiset{dead};
    assert e in Support(heap) && (dead in heap <==> dead in Support(heap));
    forall f ensures f in marked <==> f == dead || (f in heap && f != e) {}
  }

  /** What registrations and pops depend on: the live timers and the counter. */
  datatype Service = Service(live: set<TimerEntry>, nextSeq: nat)

  datatype Op = Registering(fireTs: I64, nodeId: nat) | Popping(watermark: I64)

  /** What one operation may do and return. */
  ghost predicate Serves(s: Service, op: Op, s': Service, out: Option<TimerEntry>) {
    match op
    case Registering(fireTs, nodeId) =>
      out.None? && s' == Service(s.live + {TimerEntry(fireTs, nodeId, s.nextSeq, false)}, s.nextSeq + 1)
    case Popping(watermark) =>
      if out.Some? then
        IsLeast(out.value, s.live) && out.value.fireTs <= watermark && s' == s.(live := s.live - {out.value})
      else
        s' == s && forall e :: e in s.live ==> e.fireTs > watermark
  }

  class TimerService {
    var heap: multiset<TimerEntry>
    var nextSeq: nat

    ghost function Serving(): Service
      reads this
    {
      Service(Live(heap), nextSeq)
    }

    ghost predicate Valid()
      reads this
    {
      Numbered(heap, nextSeq)
    }

    constructor ()
      ensures Valid() && heap == multiset{} && nextSeq == 0
    {
      heap, nextSeq := multiset{}, 0;
    }

    method Register(fireTs: I64, nodeId: nat)
      requires Valid()
      modifies this
      ensures Valid() && Serves(old(Serving()), Registering(fireTs, nodeId), Serving(), None)
    {
      heap := heap + multiset{TimerEntry(fireTs, nodeId, nextSeq, false)};
      nextSeq := nextSeq + 1;
    }

    /**
     Removes exactly one live timer with that node and time, if there is one; which one is up to the storage order.
     */
    method Delete(fireTs: I64, nodeId: nat)
      requires Valid()
      modifies this`heap
      ensures Valid()
      ensures if exists e :: e in old(heap) && Wanted(e, fireTs, nodeId) then
                exists e :: e in Live(old(heap)) && Wanted(e, fireTs, nodeId) && Live(heap) == Live(old(heap)) - {e}
              else heap == old(heap)
    {
      hide Numbered;
      var rest := heap;
      while rest != multiset{}
        invariant heap == old(heap)
        invariant forall e :: e in heap && Wanted(e, fireTs, nodeId) ==> e in rest
        invariant forall e :: e in rest ==> e in heap
        decreases |rest|
      {
        var e :| e in rest;
        if Wanted(e, fireTs, nodeId) {
          Tombstoned(heap, nextSeq, e);
          heap := heap - multiset{e} + multiset{e.(deleted := true)};
          return;
        }
        rest := rest - multiset{e};
      }
    }

    /** The least live timer at or below the watermark, and none exactly when there is none. */
    method PopDue(watermark: I64) returns (r: Option<TimerEntry>)
      requires Valid()
      modifies this`heap
      ensures Valid() && Serves(old(Serving()), Popping(watermark), Serving(), r)
    {
      while heap != multiset{}
        invariant Valid() && Live(heap) == Live(old(heap))
        decreases |heap|
      {
        LeastInExists(heap, nextSeq);
        var entry :| entry in heap && LeastIn(heap, entry);
        WithoutLeast(heap, nextSeq, entry);
        if entry.fireTs > watermark {
          return None;
        }
        heap := heap - multiset{entry};
        if !entry.deleted {
          return Some(entry);
        }
      }
      return None;
    }

    /** Everything live, in firing order, leaving nothing. */
    method DrainAll() returns (out: seq<TimerEntry>)
      requires Valid()
      modifies this`heap
      ensures Valid() && heap == multiset{}
      ensures StrictlySorted(out) && Elements(out) == Live(old(heap))
    {
      hide Numbered, LeastIn;
      out := [];
      while heap != multiset{}
        invariant Valid() && StrictlySorted(out)
        invariant forall e, f :: e in out && f in heap ==> Earlier(e, f)
        invariant Elements(out) + Live(heap) == Live(old(heap))
        decreases |heap|
      {
        LeastInExists(heap, nextSeq);
        var entry :| entry in heap && LeastIn(heap, entry);
        WithoutLeast(heap, nextSeq, entry);
        heap := heap - multiset{entry};
        if !entry.deleted {
          assert Elements(out + [entry]) == Elements(out) + {entry};
          out := out + [entry];
        }
      }
    }

    method TakeSnapshot() returns (snap: Snapshot)
      requires Valid()
      ensures StrictlySorted(snap.entries) && Elements(snap.entries) == Live(heap) && snap.nextSeq == nextSeq
    {
      var rest := set e | e in heap && !e.deleted;
      var entries: seq<TimerEntry> := [];
      while rest != {}
        invariant rest <= Live(heap) && StrictlySorted(entries) && Elements(entries) == Live(heap) - rest
        invariant forall e, f :: e in entries && f in rest ==> Earlier(e, f)
        decreases rest
      {
        LeastExists(rest);
        var entry :| entry in rest && forall f :: f in rest && f != entry ==> Earlier(entry, f);
        rest := rest - {entry};
        assert Elements(entries + [entry]) == Elements(entries) + {entry};
        entries := entries + [entry];
      }
      return Snapshot(entries, nextSeq);
    }

    /** Restoring forgets whatever was there and takes any snapshot as it is. */
    method Restore(snap: Snapshot)
      modifies this
      ensures heap == multiset(snap.entries) && nextSeq == snap.nextSeq
      ensures Valid() <==> Numbered(multiset(snap.entries), snap.nextSeq)
    {
      heap := multiset{};
      for i := 0 to |snap.entries|
        invariant heap == multiset(snap.entries[..i])
      {
        assert snap.entries[..i + 1] == snap.entries[..i] + [snap.entries[i]];
        heap := heap + multiset{snap.entries[i]};
      }
      assert snap.entries[..|snap.entries|] == snap.entries;
      nextSeq := snap.nextSeq;
    }
  }

  /** Restoring a service's own snapshot: the same live timers, the same counter, no tombstones, and a valid service. */
  lemma SnapshotRestores(heap: multiset<TimerEntry>, snap: Snapshot)
    requires Numbered(heap, snap.nextSeq) && StrictlySorted(snap.entries) && Elements(snap.entries) == Live(heap)
    ensures Numbered(multiset(snap.entries), snap.nextSeq)
    ensures Support(multiset(snap.entries)) == Live(multiset(snap.entries)) == Live(heap)
  {
    var entries := snap.entries;
    forall e ensures e in multiset(entries) <==> e in Live(heap) { assert e in entries <==> e in Elements(entries); }
    forall e | e in multiset(entries) ensures multiset(entries)[e] == 1 { OnceEach(entries, e); }
  }

  lemma {:induction false} OnceEach(s: seq<TimerEntry>, e: TimerEntry)
    requires StrictlySorted(s)
    ensures multiset(s)[e] <= 1
  {
    if s != [] {
      OnceEach(s[1..], e);
      assert s == [s[0]] + s[1..];
      if e == s[0] { assert e !in s[1..]; }
    }
  }

  // ---- Runs of pops ----

  ghost function DueAt(live: set<TimerEntry>, watermark: I64): set<TimerEntry> {
    set e | e in live && e.fireTs <= watermark
  }

  /** What popping until nothing is due yields: `pops[k]` is what `PopDue` allows on what the first `k` pops left. */
  ghost predicate PopsUntilDry(live: set<TimerEntry>, watermark: I64, pops: seq<TimerEntry>) {
    && (forall k :: 0 <= k < |pops| ==> IsLeast(pops[k], live - Elements(pops[..k])) && pops[k].fireTs <= watermark)
    && (forall e :: e in live - Elements(pops) ==> e.fireTs > watermark)
  }

  /** Repeated pops come out in firing order and are exactly the due timers, whatever the heap's history. */
  lemma PopsAreSorted(live: set<TimerEntry>, watermark: I64, pops: seq<TimerEntry>)
    requires Unique(live) && PopsUntilDry(live, watermark, pops)
    ensures pops == InOrder(DueAt(live, watermark))
  {
    forall i, j | 0 <= i < j < |pops| ensures Earlier(pops[i], pops[j]) {
      assert pops[i] in pops[..j];
      assert forall m :: 0 <= m < i ==> pops[..i][m] in pops[..j];
      assert pops[j] in live - Elements(pops[..i]);
      assert pops[i] != pops[j];
    }
    forall e ensures e in Elements(pops) <==> e in DueAt(live, watermark) {
      if e in Elements(pops) { var k :| 0 <= k < |pops| && pops[k] == e; }
    }
    ListingUnique(pops, InOrder(DueAt(live, watermark)));
  }

  /** A run of registrations and pops, with whatever watermarks: the states it went through and what it returned. */
  ghost predicate History(ops: seq<Op>, states: seq<Service>, outs: seq<Option<TimerEntry>>) {
    && |states| == |ops| + 1 && |outs| == |ops|
    && forall k :: 0 <= k < |ops| ==> Serves(states[k], ops[k], states[k + 1], outs[k])
  }

  lemma ServesOneWay(s: Service, op: Op, s1: Service, out1: Option<TimerEntry>, s2: Service, out2: Option<TimerEntry>)
    requires Serves(s, op, s1, out1) && Serves(s, op, s2, out2)
    ensures s1 == s2 && out1 == out2
  {
  }

  lemma {:induction false} SameHistory(ops: seq<Op>, states: seq<Service>, outs: seq<Option<TimerEntry>>,
        states': seq<Service>, outs': seq<Option<TimerEntry>>, n: nat)
    requires History(ops, states, outs) && History(ops, states', outs') && states[0] == states'[0] && n <= |ops|
    ensures states[..n + 1] == states'[..n + 1] && outs[..n] == outs'[..n]
  {
    hide Serves;
    if n > 0 {
      SameHistory(ops, states, outs, states', outs', n - 1);
      assert states[n - 1] == states[..n][n - 1] && states'[n - 1] == states'[..n][n - 1];
      ServesOneWay(states[n - 1], ops[n - 1], states[n], outs[n - 1], states'[n], outs'[n - 1]);
      assert states[..n + 1] == states[..n] + [states[n]] && states'[..n + 1] == states'[..n] + [states'[n]];
      assert outs[..n] == outs[..n - 1] + [outs[n - 1]] && outs'[..n] == outs'[..n - 1] + [outs'[n - 1]];
    }
  }

  /**
   Services with the same live timers and counter return the same, whatever is registered and popped, at whatever
   watermarks, and whatever tombstones either still holds.
   */
  lemma SameLiveSamePops(ops: seq<Op>, states: seq<Service>, outs: seq<Option<TimerEntry>>, states': seq<Service>,
        outs': seq<Option<TimerEntry>>)
    requires History(ops, states, outs) && History(ops, states', outs') && states[0] == states'[0]
    ensures outs == outs' && states == states'
  {
    SameHistory(ops, states, outs, states', outs', |ops|);
    assert states[..|ops| + 1] == states && states'[..|ops| + 1] == states';
    assert outs[..|ops|] == outs && outs'[..|ops|] == outs';
  }

  /**
   Restoring a service's own snapshot is indistinguishable: whatever is registered and popped afterwards, at whatever
   watermarks, the restored service returns what the original would have.
   */
  lemma RestoredServesAlike(heap: multiset<TimerEntry>, snap: Snapshot, ops: seq<Op>, states: seq<Service>,
        outs: seq<Option<TimerEntry>>, states': seq<Service>, outs': seq<Option<TimerEntry>>)
    requires Numbered(heap, snap.nextSeq) && StrictlySorted(snap.entries) && Elements(snap.entries) == Live(heap)
    requires History(ops, states, outs) && states[0] == Service(Live(heap), snap.nextSeq)
    requires History(ops, states', outs') && states'[0] == Service(Live(multiset(snap.entries)), snap.nextSeq)
    ensures outs == outs' && states == states'
  {
    SnapshotRestores(heap, snap);
    SameLiveSamePops(ops, states, outs, states', outs');
  }

  // ---- Which timer a deletion takes ----

  /** The first match in storage order, as the deletion's scan finds it. */
  function FirstWanted(storage: seq<TimerEntry>, fireTs: I64, nodeId: nat): (r: Option<TimerEntry>)
    ensures r.Some? ==> r.value in storage && Wanted(r.value, fireTs, nodeId)
    ensures r.None? ==> forall e :: e in storage ==> !Wanted(e, fireTs, nodeId)
  {
    if storage == [] then None
    else if Wanted(storage[0], fireTs, nodeId) then Some(storage[0])
    else FirstWanted(storage[1..], fireTs, nodeId)
  }

  function ParentOf(k: nat): (p: nat)
    requires k > 0
    ensures p < k
  {
    (k - 1) / 2
  }

  /** A binary heap in its storage: distinct sequence numbers, no entry earlier than its parent. */
  ghost predicate HeapOrdered(storage: seq<TimerEntry>) {
    && (forall j, k :: 0 <= j < k < |storage| ==> storage[j].seqNo != storage[k].seqNo)
    && (forall k {:trigger storage[k]} :: 0 < k < |storage| ==> !Earlier(storage[k], storage[ParentOf(k)]))
  }

  /** The entry at `k` moved up while it is earlier than its parent. */
  function SiftUp(storage: seq<TimerEntry>, k: nat): (r: seq<TimerEntry>)
    requires k < |storage|
    ensures |r| == |storage|
    decreases k
  {
    if k == 0 || !Earlier(storage[k], storage[ParentOf(k)]) then storage
    else SiftUp(storage[k := storage[ParentOf(k)]][ParentOf(k) := storage[k]], ParentOf(k))
  }

  function Pushed(storage: seq<TimerEntry>, e: TimerEntry): seq<TimerEntry> {
    SiftUp(storage + [e], |storage|)
  }

  /**
   The documentation promises that a deletion takes the lowest sequence number. It does not: three registrations,
   each pushed on a binary heap, leave a storage that lists a later match first.
   */
  lemma DeleteNeedNotTakeEarliest()
    ensures var first, second := TimerEntry(5, 7, 0, false), TimerEntry(5, 7, 1, false);
            var storage := Pushed(Pushed(Pushed([], first), second), TimerEntry(1, 7, 2, false));
            && HeapOrdered(storage) && first in storage && Earlier(first, second)
            && FirstWanted(storage, 5, 7) == Some(second)
  {
    var first, second, third := TimerEntry(5, 7, 0, false), TimerEntry(5, 7, 1, false), TimerEntry(1, 7, 2, false);
    assert Pushed([], first) == [first];
    assert Pushed([first], second) == [first, second];
    var storage := Pushed([first, second], third);
    assert [first, second] + [third] == [first, second, third];
    assert storage == [third, second, first];
    assert FirstWanted(storage, 5, 7) == FirstWanted(storage[1..], 5, 7);
  }

  /** With this storage order, what a deletion takes has no earlier match. */
  ghost predicate TakesEarliest(storage: seq<TimerEntry>, fireTs: I64, nodeId: nat) {
    var taken := FirstWanted(storage, fireTs, nodeId);
    taken.Some? ==> forall e :: e in storage && Wanted(e, fireTs, nodeId) ==> !Earlier(e, taken.value)
  }

  /** A heap whose live timers with this node and time are `wanted`. */
  ghost predicate HeapWith(storage: seq<TimerEntry>, wanted: set<TimerEntry>, fireTs: I64, nodeId: nat) {
    HeapOrdered(storage) && forall e :: e in wanted <==> e in storage && Wanted(e, fireTs, nodeId)
  }

  ghost predicate AtMostOne(s: set<TimerEntry>) {
    forall a, b :: a in s && b in s ==> a == b
  }

  /** The very first timer there can be: nothing else in a heap can be earlier. */
  predicate First(e: TimerEntry) {
    e.fireTs == MIN_I64 && e.seqNo == 0
  }

  lemma {:induction false} RootIsLeast(storage: seq<TimerEntry>, k: nat)
    requires HeapOrdered(storage) && k < |storage|
    ensures !Earlier(storage[k], storage[0])
  {
    if k > 0 { RootIsLeast(storage, ParentOf(k)); }
  }

  lemma FirstIsTaken(storage: seq<TimerEntry>, e: TimerEntry, fireTs: I64, nodeId: nat)
    requires HeapOrdered(storage) && e in storage && First(e) && Wanted(e, fireTs, nodeId)
    ensures TakesEarliest(storage, fireTs, nodeId)
  {
    var k :| 0 <= k < |storage| && storage[k] == e;
    RootIsLeast(storage, k);
    assert storage[0] == e;
  }

  /** A timer earlier than all of `wanted` and not one of them. */
  lemma AnEarlierTimer(wanted: set<TimerEntry>, fireTs: I64, nodeId: nat) returns (m: TimerEntry)
    requires forall e :: e in wanted ==> Wanted(e, fireTs, nodeId) && !First(e)
    ensures !Wanted(m, fireTs, nodeId) && forall e :: e in wanted ==> Earlier(m, e) && m.seqNo != e.seqNo
  {
    if fireTs == MIN_I64 {
      m := TimerEntry(fireTs, nodeId + 1, 0, false);
    } else {
      var above := SeqBound(wanted);
      m := TimerEntry(fireTs - 1, nodeId, above, false);
    }
  }

  lemma {:induction false} SeqBound(s: set<TimerEntry>) returns (bound: nat)
    ensures forall e :: e in s ==> e.seqNo < bound
  {
    bound := 0;
    if s != {} {
      var e :| e in s;
      var rest := SeqBound(s - {e});
      bound := if rest <= e.seqNo then e.seqNo + 1 else rest;
      assert forall f :: f in s ==> f == e || f in s - {e};
    }
  }

  /** `list` with its first two entries swapped below the root `m`. */
  function Swapped(m: TimerEntry, list: seq<TimerEntry>): (r: seq<TimerEntry>)
    requires |list| >= 2
    ensures |r| == |list| + 1 && r[0] == m && r[1] == list[1] && r[2] == list[0]
    ensures forall k :: 3 <= k < |r| ==> r[k] == list[k - 1]
  {
    [m, list[1], list[0]] + list[2..]
  }

  lemma SwappedIsHeap(m: TimerEntry, list: seq<TimerEntry>)
    requires StrictlySorted(list) && Unique(Elements(list)) && |list| >= 2
    requires forall k :: 0 <= k < |list| ==> Earlier(m, list[k]) && m.seqNo != list[k].seqNo
    ensures HeapOrdered(Swapped(m, list))
  {
    forall j, k | 0 <= j < k < |list| ensures list[j].seqNo != list[k].seqNo {
      assert list[j] in Elements(list) && list[k] in Elements(list);
    }
    hide Swapped, Elements, Unique;
    var r := Swapped(m, list);
    forall k | 0 < k < |r| ensures !Earlier(r[k], r[ParentOf(k)]) {
      if k >= 3 && ParentOf(k) >= 3 { assert Earlier(list[ParentOf(k) - 1], list[k - 1]); }
    }
  }

  lemma SwappedHas(m: TimerEntry, list: seq<TimerEntry>, e: TimerEntry)
    requires |list| >= 2
    ensures e in Swapped(m, list) <==> e == m || e in list
  {
    assert list == [list[0], list[1]] + list[2..];
  }

  /** Below an earlier root, the second match can be stored before the first. */
  lemma LaterFirst(m: TimerEntry, list: seq<TimerEntry>, fireTs: I64, nodeId: nat)
    requires StrictlySorted(list) && Unique(Elements(list)) && |list| >= 2
    requires forall e :: e in list ==> Wanted(e, fireTs, nodeId) && Earlier(m, e) && m.seqNo != e.seqNo
    requires !Wanted(m, fireTs, nodeId)
    ensures var storage := Swapped(m, list);
            HeapWith(storage, Elements(list), fireTs, nodeId) && !TakesEarliest(storage, fireTs, nodeId)
  {
    var storage := Swapped(m, list);
    SwappedIsHeap(m, list);
    assert Earlier(list[0], list[1]) && Wanted(list[0], fireTs, nodeId) && Wanted(list[1], fireTs, nodeId);
    assert FirstWanted(storage, fireTs, nodeId) == FirstWanted(storage[1..], fireTs, nodeId) == Some(list[1]);
    assert storage[2] == list[0];
    hide StrictlySorted, HeapOrdered, FirstWanted, Swapped;
    forall e ensures e in Elements(list) <==> e in storage && Wanted(e, fireTs, nodeId) {
      SwappedHas(m, list, e);
    }
  }

  lemma SomeHeapTakesLater(wanted: set<TimerEntry>, fireTs: I64, nodeId: nat) returns (storage: seq<TimerEntry>)
    requires Unique(wanted) && !AtMostOne(wanted) && forall e :: e in wanted ==> Wanted(e, fireTs, nodeId) && !First(e)
    ensures HeapWith(storage, wanted, fireTs, nodeId) && !TakesEarliest(storage, fireTs, nodeId)
  {
    var m := AnEarlierTimer(wanted, fireTs, nodeId);
    var list := InOrder(wanted);
    TwoListed(list);
    assert forall e :: e in list ==> e in Elements(list);
    hide HeapWith, TakesEarliest, AtMostOne, StrictlySorted, InOrder;
    LaterFirst(m, list, fireTs, nodeId);
    storage := Swapped(m, list);
  }

  lemma TwoListed(list: seq<TimerEntry>)
    requires !AtMostOne(Elements(list))
    ensures |list| >= 2
  {
    var a, b :| a in Elements(list) && b in Elements(list) && a != b;
    assert a in list && b in list;
  }

  lemma OneIsTaken(storage: seq<TimerEntry>, wanted: set<TimerEntry>, fireTs: I64, nodeId: nat)
    requires HeapWith(storage, wanted, fireTs, nodeId) && AtMostOne(wanted)
    ensures TakesEarliest(storage, fireTs, nodeId)
  {
    hide HeapOrdered;
  }

  /**
   Whatever else is registered and however the heap has stored it, a deletion takes the lowest sequence number if and
   only if at most one live timer has the node and time, or one of those is the very first timer there can be.
   */
  lemma DeleteTakesEarliestIff(wanted: set<TimerEntry>, fireTs: I64, nodeId: nat)
    requires Unique(wanted) && forall e :: e in wanted ==> Wanted(e, fireTs, nodeId)
    ensures (forall storage: seq<TimerEntry> ::
               HeapWith(storage, wanted, fireTs, nodeId) ==> TakesEarliest(storage, fireTs, nodeId))
        <==> AtMostOne(wanted) || exists e :: e in wanted && First(e)
  {
    hide TakesEarliest, AtMostOne, HeapOrdered, Unique;
    if AtMostOne(wanted) || exists e :: e in wanted && First(e) {
      forall storage: seq<TimerEntry> | HeapWith(storage, wanted, fireTs, nodeId)
        ensures TakesEarliest(storage, fireTs, nodeId)
      {
        if AtMostOne(wanted) {
          OneIsTaken(storage, wanted, fireTs, nodeId);
        } else {
          var e :| e in wanted && First(e);
          FirstIsTaken(storage, e, fireTs, nodeId);
        }
      }
    } else {
      var storage := SomeHeapTakesLater(wanted, fireTs, nodeId);
    }
  }

  // ---- Deletions across a restore ----

  /** The storage of a restored heap: the entries pushed one after the other. */
  function PushedAll(entries: seq<TimerEntry>): seq<TimerEntry> {
    if entries == [] then [] else Pushed(PushedAll(entries[..|entries| - 1]), entries[|entries| - 1])
  }

  /** Entries pushed in firing order stay where they are pushed. */
  lemma {:induction false} SortedStays(entries: seq<TimerEntry>)
    requires StrictlySorted(entries)
    ensures PushedAll(entries) == entries
  {
    if entries != [] {
      var n := |entries| - 1;
      SortedStays(entries[..n]);
      assert entries[..n] + [entries[n]] == entries;
      assert n > 0 ==> Earlier(entries[ParentOf(n)], entries[n]);
    }
  }

  lemma {:induction false} SortedTakesEarliest(entries: seq<TimerEntry>, fireTs: I64, nodeId: nat)
    requires StrictlySorted(entries)
    ensures TakesEarliest(entries, fireTs, nodeId)
  {
    if entries != [] && !Wanted(entries[0], fireTs, nodeId) {
      SortedTakesEarliest(entries[1..], fireTs, nodeId);
      assert entries == [entries[0]] + entries[1..];
    }
  }

  /**
   Deletions do notice a restore: a deletion takes the same timer before and after it if and only if before it takes the
   lowest sequence number. After a restore it always does.
   */
  lemma DeleteSameAfterRestoreIff(storage: seq<TimerEntry>, entries: seq<TimerEntry>, fireTs: I64, nodeId: nat)
    requires HeapOrdered(storage) && StrictlySorted(entries) && Elements(entries) == Live(multiset(storage))
    ensures TakesEarliest(PushedAll(entries), fireTs, nodeId)
    ensures FirstWanted(PushedAll(entries), fireTs, nodeId) == FirstWanted(storage, fireTs, nodeId)
       <==> TakesEarliest(storage, fireTs, nodeId)
  {
    SortedStays(entries);
    SortedTakesEarliest(entries, fireTs, nodeId);
    var before, after := FirstWanted(storage, fireTs, nodeId), FirstWanted(entries, fireTs, nodeId);
    forall e ensures e in entries <==> e in storage && !e.deleted {
      assert e in entries <==> e in Elements(entries);
      assert e in storage <==> e in multiset(storage);
    }
    if TakesEarliest(storage, fireTs, nodeId) && before.Some? {
      assert after.Some? && !Earlier(before.value, after.value) && !Earlier(after.value, before.value);
    }
  }
}
