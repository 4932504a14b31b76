/** The buffered window join, exactly when it is the nested-loop join, and that it is on time-sorted inputs. */
module WindowJoins {
  import opened Common

  /** The items a..b of `right` that pass the test, in order. */
  function Select<R>(right: seq<R>, test: R -> bool, a: nat, b: nat): seq<R>
    requires a <= b <= |right|
    decreases b - a
  {
    if a == b then [] else Select(right, test, a, b - 1) + (if test(right[b - 1]) then [right[b - 1]] else [])
  }

  /** Within the window on either side, by true distance. */
  function Near<R>(key: R -> I64, ts: I64, window: I64): R -> bool {
    r => ts - window <= key(r) <= ts + window
  }

  /** The join's own test, with saturating window ends. */
  function InWindow<R>(key: R -> I64, ts: I64, window: I64): R -> bool {
    r => SaturatingSub(ts, window) <= key(r) <= SaturatingAdd(ts, window)
  }

  /** The reference: every left item with every right item near it. */
  function NestedLoops<L, R>(lefts: seq<L>, rights: seq<R>, leftKey: L -> I64, rightKey: R -> I64,
        window: I64): (r: seq<(L, seq<R>)>)
    ensures |r| == |lefts|
  {
    seq(|lefts|, l requires 0 <= l < |lefts| =>
      (lefts[l], Select(rights, Near(rightKey, leftKey(lefts[l]), window), 0, |rights|)))
  }

  // ---- What the buffer does ----

  /** The buffer holds the right items evicted..read. */
  datatype Cursor = Cursor(evicted: nat, read: nat)

  /** Reading stops at an item beyond the window end, or at the end of the stream; an empty buffer always reads. */
  function ReadTo<R>(right: seq<R>, key: R -> I64, evicted: nat, read: nat, end: I64): (r: nat)
    requires evicted <= read <= |right|
    ensures read <= r <= |right|
    decreases |right| - read
  {
    if read == |right| || (evicted < read && key(right[read - 1]) > end) then read
    else ReadTo(right, key, evicted, read + 1, end)
  }

  function EvictTo<R>(right: seq<R>, key: R -> I64, evicted: nat, read: nat, start: I64): (r: nat)
    requires evicted <= read <= |right|
    ensures evicted <= r <= read
    decreases read - evicted
  {
    if evicted < read && key(right[evicted]) < start then EvictTo(right, key, evicted + 1, read, start) else evicted
  }

  /** The buffer once `n` left items have been joined. */
  function After<L, R>(lefts: seq<L>, rights: seq<R>, leftKey: L -> I64, rightKey: R -> I64, window: I64,
        n: nat): (c: Cursor)
    requires n <= |lefts|
    ensures c.evicted <= c.read <= |rights|
  {
    if n == 0 then Cursor(0, 0)
    else
      var before, ts := After(lefts, rights, leftKey, rightKey, window, n - 1), leftKey(lefts[n - 1]);
      var read := ReadTo(rights, rightKey, before.evicted, before.read, SaturatingAdd(ts, window));
      Cursor(EvictTo(rights, rightKey, before.evicted, read, SaturatingSub(ts, window)), read)
  }

  function Joined<L, R>(lefts: seq<L>, rights: seq<R>, leftKey: L -> I64, rightKey: R -> I64,
        window: I64): (r: seq<(L, seq<R>)>)
    ensures |r| == |lefts|
  {
    seq(|lefts|, l requires 0 <= l < |lefts| =>
      var c := After(lefts, rights, leftKey, rightKey, window, l + 1);
      (lefts[l], Select(rights, InWindow(rightKey, leftKey(lefts[l]), window), c.evicted, c.read)))
  }

  function Keyed<R>(s: seq<R>, key: R -> I64): (r: seq<(I64, R)>)
    ensures |r| == |s|
    ensures forall k {:trigger r[k]} :: 0 <= k < |r| ==> r[k] == (key(s[k]), s[k])
  {
    seq(|s|, k requires 0 <= k < |s| => (key(s[k]), s[k]))
  }

  class WindowJoin<L, R> {
    const lefts: seq<L>
    const rights: seq<R>
    const leftKey: L -> I64
    const rightKey: R -> I64
    const window: I64
    /** Items read so far from each source. */
    var leftRead: nat
    var rightRead: nat
    var rightBuffer: seq<(I64, R)>
    var rightExhausted: bool
    /** Right items evicted so far. */
    ghost var evicted: nat

    /** The buffer is the right items between the two cursors. */
    ghost predicate Buffered()
      reads this
    {
      && leftRead <= |lefts| && evicted <= rightRead <= |rights|
      && rightBuffer == Keyed(rights[evicted..rightRead], rightKey)
      && (rightExhausted ==> rightRead == |rights|)
    }

    ghost predicate Valid()
      reads this
    {
      Buffered() && Cursor(evicted, rightRead) == After(lefts, rights, leftKey, rightKey, window, leftRead)
    }

    constructor (lefts: seq<L>, rights: seq<R>, leftKey: L -> I64, rightKey: R -> I64, window: I64)
      ensures Valid() && leftRead == 0
      ensures this.lefts == lefts && this.rights == rights
      ensures this.leftKey == leftKey && this.rightKey == rightKey && this.window == window
    {
      this.lefts, this.rights, this.leftKey, this.rightKey, this.window := lefts, rights, leftKey, rightKey, window;
      leftRead, rightRead, rightBuffer, rightExhausted, evicted := 0, 0, [], false, 0;
    }

    /** The next left item with the buffered right items in its window, in right-stream order. */
    method NextPair() returns (r: Option<(L, seq<R>)>)
      requires Valid()
      modifies this
      ensures Valid()
      ensures r.None? <==> old(leftRead) == |lefts|
      ensures r.None? ==> leftRead == old(leftRead)
      ensures r.Some? ==> leftRead == old(leftRead) + 1
                          && r.value == Joined(lefts, rights, leftKey, rightKey, window)[old(leftRead)]
    {
      if leftRead == |lefts| { return None; }
      var leftItem := lefts[leftRead];
      var leftTs := leftKey(leftItem);
      leftRead := leftRead + 1;
      var windowEnd := SaturatingAdd(leftTs, window);
      FillTo(windowEnd);
      var windowStart := SaturatingSub(leftTs, window);
      EvictBefore(windowStart);
      var matches: seq<R> := [];
      hide After, ReadTo, EvictTo, Joined;
      for i := 0 to |rightBuffer|
        invariant matches == Select(rights, InWindow(rightKey, leftTs, window), evicted, evicted + i)
      {
        assert rightBuffer[i] == (rightKey(rights[evicted + i]), rights[evicted + i]);
        if rightBuffer[i].0 >= windowStart && rightBuffer[i].0 <= windowEnd {
          matches := matches + [rightBuffer[i].1];
        }
      }
      return Some((leftItem, matches));
    }

    /** Read right items until one lies beyond the window end, or there are no more. */
    method FillTo(windowEnd: I64)
      requires Buffered()
      modifies this`rightRead, this`rightBuffer, this`rightExhausted
      ensures Buffered()
      ensures rightRead == ReadTo(rights, rightKey, evicted, old(rightRead), windowEnd)
    {
      while !rightExhausted
        invariant Buffered()
        invariant ReadTo(rights, rightKey, evicted, rightRead, windowEnd)
               == ReadTo(rights, rightKey, evicted, old(rightRead), windowEnd)
        decreases |rights| - rightRead, !rightExhausted
      {
        if rightBuffer != [] && rightBuffer[|rightBuffer| - 1].0 > windowEnd {
          assert rightBuffer[|rightBuffer| - 1].0 == rightKey(rights[rightRead - 1]);
          break;
        }
        if rightRead < |rights| {
          assert rightBuffer != [] ==> rightBuffer[|rightBuffer| - 1].0 == rightKey(rights[rightRead - 1]);
          var item := rights[rightRead];
          rightBuffer := rightBuffer + [(rightKey(item), item)];
          rightRead := rightRead + 1;
          assert rights[evicted..rightRead] == rights[evicted..rightRead - 1] + [item];
        } else {
          rightExhausted := true;
        }
      }
    }

    /** Drop buffered items from the front while they lie before the window start. */
    method EvictBefore(windowStart: I64)
      requires Buffered()
      modifies this`rightBuffer, this`evicted
      ensures Buffered()
      ensures evicted == EvictTo(rights, rightKey, old(evicted), rightRead, windowStart)
    {
      while rightBuffer != [] && rightBuffer[0].0 < windowStart
        invariant Buffered()
        invariant EvictTo(rights, rightKey, evicted, rightRead, windowStart)
               == EvictTo(rights, rightKey, old(evicted), rightRead, windowStart)
        decreases |rightBuffer|
      {
        assert rightBuffer[0] == (rightKey(rights[evicted]), rights[evicted]);
        rightBuffer := rightBuffer[1..];
        evicted := evicted + 1;
      }
      if rightBuffer != [] { assert rightBuffer[0] == (rightKey(rights[evicted]), rights[evicted]); }
    }

    /** Run to the end. */
    method Collect() returns (out: seq<(L, seq<R>)>)
      requires Valid() && leftRead == 0
      modifies this
      ensures out == Joined(lefts, rights, leftKey, rightKey, window)
    {
      out := [];
      ghost var goal := Joined(lefts, rights, leftKey, rightKey, window);
      while true
        invariant Valid() && out == goal[..leftRead]
        decreases |lefts| - leftRead
      {
        var r := NextPair();
        if r.None? { break; }
        out := out + [r.value];
      }
    }
  }

  // ---- When that is the nested-loop join ----

  lemma {:induction false} SelectSplit<R>(right: seq<R>, test: R -> bool, a: nat, m: nat, b: nat)
    requires a <= m <= b <= |right|
    ensures Select(right, test, a, b) == Select(right, test, a, m) + Select(right, test, m, b)
    decreases b - m
  {
    if m < b { SelectSplit(right, test, a, m, b - 1); }
  }

  lemma {:induction false} SelectNone<R>(right: seq<R>, test: R -> bool, a: nat, b: nat)
    requires a <= b <= |right|
    ensures Select(right, test, a, b) == [] <==> forall k :: a <= k < b ==> !test(right[k])
    decreases b - a
  {
    if a < b { SelectNone(right, test, a, b - 1); }
  }

  /** Saturating the window ends selects by true distance. */
  lemma {:induction false} SelectNear<R>(right: seq<R>, key: R -> I64, ts: I64, window: I64, a: nat, b: nat)
    requires a <= b <= |right| && window >= 0
    ensures Select(right, InWindow(key, ts, window), a, b) == Select(right, Near(key, ts, window), a, b)
    decreases b - a
  {
    if a < b { SelectNear(right, key, ts, window, a, b - 1); }
  }

  /** Right item `k` is outside the buffer although it is near left item `l`, which is then joined without it. */
  ghost predicate Missed<L, R>(lefts: seq<L>, rights: seq<R>, leftKey: L -> I64, rightKey: R -> I64, window: I64,
        l: nat, k: nat)
    requires l < |lefts| && k < |rights|
  {
    var c := After(lefts, rights, leftKey, rightKey, window, l + 1);
    !(c.evicted <= k < c.read) && Near(rightKey, leftKey(lefts[l]), window)(rights[k])
  }

  ghost predicate MissesNothing<L, R>(lefts: seq<L>, rights: seq<R>, leftKey: L -> I64, rightKey: R -> I64,
        window: I64, l: nat)
    requires l < |lefts|
  {
    forall k :: 0 <= k < |rights| ==> !Missed(lefts, rights, leftKey, rightKey, window, l, k)
  }

  /** One left item gets all it should exactly when it misses nothing. */
  lemma OneJoined<L, R>(lefts: seq<L>, rights: seq<R>, leftKey: L -> I64, rightKey: R -> I64, window: I64, l: nat)
    requires l < |lefts| && window >= 0
    ensures Joined(lefts, rights, leftKey, rightKey, window)[l]
        == NestedLoops(lefts, rights, leftKey, rightKey, window)[l]
       <==> MissesNothing(lefts, rights, leftKey, rightKey, window, l)
  {
    var c, ts, n := After(lefts, rights, leftKey, rightKey, window, l + 1), leftKey(lefts[l]), |rights|;
    var test := Near(rightKey, ts, window);
    var before, beyond := Select(rights, test, 0, c.evicted), Select(rights, test, c.read, n);
    var held := Select(rights, test, c.evicted, c.read);
    SelectNear(rights, rightKey, ts, window, c.evicted, c.read);
    assert Joined(lefts, rights, leftKey, rightKey, window)[l] == (lefts[l], held);
    SelectSplit(rights, test, 0, c.evicted, n);
    SelectSplit(rights, test, c.evicted, c.read, n);
    assert NestedLoops(lefts, rights, leftKey, rightKey, window)[l] == (lefts[l], before + (held + beyond));
    SelectNone(rights, test, 0, c.evicted);
    SelectNone(rights, test, c.read, n);
    forall k | 0 <= k < n
      ensures Missed(lefts, rights, leftKey, rightKey, window, l, k) <==> !(c.evicted <= k < c.read) && test(rights[k])
    {
    }
    hide After, Select, Joined, NestedLoops, Near, Missed;
    assert before == [] && beyond == [] <==> forall k :: 0 <= k < n && !(c.evicted <= k < c.read) ==> !test(rights[k]);
    Padded(before, held, beyond);
  }

  lemma Padded<T>(before: seq<T>, held: seq<T>, beyond: seq<T>)
    ensures held == before + (held + beyond) <==> before == [] && beyond == []
  {
    assert |before + (held + beyond)| == |before| + |held| + |beyond|;
    assert [] + (held + []) == held;
  }

  /** For any inputs, in terms of the buffer: the two joins agree exactly when every left item misses nothing. */
  lemma AgreesWhenNothingMissed<L, R>(lefts: seq<L>, rights: seq<R>, leftKey: L -> I64, rightKey: R -> I64, window: I64)
    requires window >= 0
    ensures Joined(lefts, rights, leftKey, rightKey, window) == NestedLoops(lefts, rights, leftKey, rightKey, window)
       <==> forall l :: 0 <= l < |lefts| ==> MissesNothing(lefts, rights, leftKey, rightKey, window, l)
  {
    hide Joined, NestedLoops, MissesNothing;
    var joined := Joined(lefts, rights, leftKey, rightKey, window);
    var nested := NestedLoops(lefts, rights, leftKey, rightKey, window);
    forall l | 0 <= l < |lefts|
      ensures joined[l] == nested[l] <==> MissesNothing(lefts, rights, leftKey, rightKey, window, l)
    {
      OneJoined(lefts, rights, leftKey, rightKey, window, l);
    }
    assert joined == nested <==> forall l :: 0 <= l < |lefts| ==> joined[l] == nested[l];
  }

  ghost predicate SortedBy<T>(s: seq<T>, key: T -> I64) {
    forall i, j :: 0 <= i < j < |s| ==> key(s[i]) <= key(s[j])
  }

  lemma {:induction false} ReadEnough<R>(right: seq<R>, key: R -> I64, evicted: nat, read: nat, end: I64)
    requires evicted <= read <= |right| && SortedBy(right, key)
    ensures forall k :: ReadTo(right, key, evicted, read, end) <= k < |right| ==> key(right[k]) > end
    decreases |right| - read
  {
    if !(read == |right| || (evicted < read && key(right[read - 1]) > end)) {
      ReadEnough(right, key, evicted, read + 1, end);
    }
  }

  lemma {:induction false} EvictedOld<R>(right: seq<R>, key: R -> I64, evicted: nat, read: nat, start: I64)
    requires evicted <= read <= |right| && forall k :: 0 <= k < evicted ==> key(right[k]) < start
    ensures forall k :: 0 <= k < EvictTo(right, key, evicted, read, start) ==> key(right[k]) < start
    decreases read - evicted
  {
    if evicted < read && key(right[evicted]) < start { EvictedOld(right, key, evicted + 1, read, start); }
  }

  lemma {:induction false} SortedEvictions<L, R>(lefts: seq<L>, rights: seq<R>, leftKey: L -> I64,
        rightKey: R -> I64, window: I64, n: nat)
    requires 0 < n <= |lefts| && SortedBy(lefts, leftKey)
    ensures var c := After(lefts, rights, leftKey, rightKey, window, n);
            forall k :: 0 <= k < c.evicted ==> rightKey(rights[k]) < SaturatingSub(leftKey(lefts[n - 1]), window)
  {
    var before, ts := After(lefts, rights, leftKey, rightKey, window, n - 1), leftKey(lefts[n - 1]);
    if n > 1 {
      SortedEvictions(lefts, rights, leftKey, rightKey, window, n - 1);
      assert leftKey(lefts[n - 2]) <= ts;
    }
    var read := ReadTo(rights, rightKey, before.evicted, before.read, SaturatingAdd(ts, window));
    EvictedOld(rights, rightKey, before.evicted, read, SaturatingSub(ts, window));
  }

  // ---- Sorted left items, right items in any order ----

  /** Where reading stops. */
  lemma {:induction false} ReadStops<R>(right: seq<R>, key: R -> I64, evicted: nat, read: nat, end: I64)
    requires evicted <= read <= |right|
    ensures var q := ReadTo(right, key, evicted, read, end);
            q == |right| || (evicted < q && key(right[q - 1]) > end)
    decreases |right| - read
  {
    if !(read == |right| || (evicted < read && key(right[read - 1]) > end)) {
      ReadStops(right, key, evicted, read + 1, end);
    }
  }

  /** An item beyond the window end that is still ahead of the eviction is not read past. */
  lemma {:induction false} ReadBlocked<R>(right: seq<R>, key: R -> I64, evicted: nat, read: nat, end: I64, p: nat)
    requires evicted <= p < |right| && evicted <= read <= p + 1 && key(right[p]) > end
    ensures ReadTo(right, key, evicted, read, end) <= p + 1
    decreases |right| - read
  {
    if read <= p { ReadBlocked(right, key, evicted, read + 1, end, p); }
  }

  lemma {:induction false} EvictBlocked<R>(right: seq<R>, key: R -> I64, evicted: nat, read: nat, start: I64, p: nat)
    requires evicted <= p < |right| && evicted <= read <= |right| && key(right[p]) >= start
    ensures EvictTo(right, key, evicted, read, start) <= p
    decreases read - evicted
  {
    if evicted < p && evicted < read && key(right[evicted]) < start {
      EvictBlocked(right, key, evicted + 1, read, start, p);
    }
  }

  /** A right item beyond the window of a left item has stopped the buffer for that one and all before it. */
  lemma {:induction false} Blocked<L, R>(lefts: seq<L>, rights: seq<R>, leftKey: L -> I64, rightKey: R -> I64,
        window: I64, n: nat, p: nat)
    requires 0 < n <= |lefts| && SortedBy(lefts, leftKey) && window >= 0
    requires p < |rights| && rightKey(rights[p]) > SaturatingAdd(leftKey(lefts[n - 1]), window)
    ensures var c := After(lefts, rights, leftKey, rightKey, window, n);
            c.read <= p + 1 && c.evicted <= p
  {
    var before, ts := After(lefts, rights, leftKey, rightKey, window, n - 1), leftKey(lefts[n - 1]);
    if n > 1 {
      assert leftKey(lefts[n - 2]) <= ts;
      Blocked(lefts, rights, leftKey, rightKey, window, n - 1, p);
    }
    ReadBlocked(rights, rightKey, before.evicted, before.read, SaturatingAdd(ts, window), p);
    var read := ReadTo(rights, rightKey, before.evicted, before.read, SaturatingAdd(ts, window));
    EvictBlocked(rights, rightKey, before.evicted, read, SaturatingSub(ts, window), p);
  }

  /** Right item `k`, near `ts`, comes after one that lies beyond the window end. */
  ghost predicate HiddenBy<R>(rights: seq<R>, key: R -> I64, ts: I64, window: I64, p: nat, k: nat) {
    p < k < |rights| && key(rights[p]) > SaturatingAdd(ts, window) && Near(key, ts, window)(rights[k])
  }

  ghost predicate Hidden<R>(rights: seq<R>, key: R -> I64, ts: I64, window: I64) {
    exists p, k :: HiddenBy(rights, key, ts, window, p, k)
  }

  lemma HiddenIsMissed<L, R>(lefts: seq<L>, rights: seq<R>, leftKey: L -> I64, rightKey: R -> I64, window: I64, l: nat)
    requires l < |lefts| && SortedBy(lefts, leftKey) && window >= 0
    ensures MissesNothing(lefts, rights, leftKey, rightKey, window, l)
        <==> !Hidden(rights, rightKey, leftKey(lefts[l]), window)
  {
    var before, ts := After(lefts, rights, leftKey, rightKey, window, l), leftKey(lefts[l]);
    var c := After(lefts, rights, leftKey, rightKey, window, l + 1);
    SortedEvictions(lefts, rights, leftKey, rightKey, window, l + 1);
    ReadStops(rights, rightKey, before.evicted, before.read, SaturatingAdd(ts, window));
    if p, k :| HiddenBy(rights, rightKey, ts, window, p, k) {
      Blocked(lefts, rights, leftKey, rightKey, window, l + 1, p);
      assert Missed(lefts, rights, leftKey, rightKey, window, l, k);
    }
    if k :| 0 <= k < |rights| && Missed(lefts, rights, leftKey, rightKey, window, l, k) {
      assert HiddenBy(rights, rightKey, ts, window, c.read - 1, k);
    }
  }

  /**
   With the left items sorted and the right ones in any order, the join is the nested-loop join if and only if no
   left item has a near right item behind one that lies beyond its window.
   */
  lemma JoinIsNestedLoopsIff<L, R>(lefts: seq<L>, rights: seq<R>, leftKey: L -> I64, rightKey: R -> I64, window: I64)
    requires SortedBy(lefts, leftKey) && window >= 0
    ensures Joined(lefts, rights, leftKey, rightKey, window) == NestedLoops(lefts, rights, leftKey, rightKey, window)
       <==> forall l :: 0 <= l < |lefts| ==> !Hidden(rights, rightKey, leftKey(lefts[l]), window)
  {
    hide Joined, NestedLoops, MissesNothing, Hidden;
    forall l | 0 <= l < |lefts|
      ensures MissesNothing(lefts, rights, leftKey, rightKey, window, l)
         <==> !Hidden(rights, rightKey, leftKey(lefts[l]), window)
    {
      HiddenIsMissed(lefts, rights, leftKey, rightKey, window, l);
    }
    AgreesWhenNothingMissed(lefts, rights, leftKey, rightKey, window);
  }

  /** On time-sorted inputs nothing is hidden, whatever saturates: the join is the nested-loop join. */
  lemma SortedJoinIsNestedLoops<L, R>(lefts: seq<L>, rights: seq<R>, leftKey: L -> I64, rightKey: R -> I64, window: I64)
    requires SortedBy(lefts, leftKey) && SortedBy(rights, rightKey) && window >= 0
    ensures Joined(lefts, rights, leftKey, rightKey, window) == NestedLoops(lefts, rights, leftKey, rightKey, window)
  {
    hide Joined, NestedLoops;
    JoinIsNestedLoopsIff(lefts, rights, leftKey, rightKey, window);
  }

  // ---- Sorted right items, left items in any order ----

  lemma {:induction false} EvictStops<R>(right: seq<R>, key: R -> I64, evicted: nat, read: nat, start: I64)
    requires evicted <= read <= |right|
    ensures var q := EvictTo(right, key, evicted, read, start);
            && (q == read || key(right[q]) >= start)
            && forall k :: evicted <= k < q ==> key(right[k]) < start
    decreases read - evicted
  {
    if evicted < read && key(right[evicted]) < start { EvictStops(right, key, evicted + 1, read, start); }
  }

  /** Right item `k` lies before the window start of one of the first `n` left items. */
  ghost predicate Passed<L, R>(lefts: seq<L>, rights: seq<R>, leftKey: L -> I64, rightKey: R -> I64, window: I64,
        n: nat, k: nat)
    requires n <= |lefts| && k < |rights|
  {
    exists a :: 0 <= a < n && rightKey(rights[k]) < SaturatingSub(leftKey(lefts[a]), window)
  }

  lemma PassedMore<L, R>(lefts: seq<L>, rights: seq<R>, leftKey: L -> I64, rightKey: R -> I64, window: I64,
        n: nat, k: nat)
    requires n < |lefts| && k < |rights|
    ensures Passed(lefts, rights, leftKey, rightKey, window, n + 1, k)
       <==> Passed(lefts, rights, leftKey, rightKey, window, n, k)
            || rightKey(rights[k]) < SaturatingSub(leftKey(lefts[n]), window)
  {
  }

  /** On sorted right items, exactly the passed ones have been evicted. */
  lemma {:induction false} EvictedIsPassed<L, R>(lefts: seq<L>, rights: seq<R>, leftKey: L -> I64,
        rightKey: R -> I64, window: I64, n: nat)
    requires n <= |lefts| && SortedBy(rights, rightKey) && window >= 0
    ensures forall k :: 0 <= k < |rights| ==>
              (k < After(lefts, rights, leftKey, rightKey, window, n).evicted
               <==> Passed(lefts, rights, leftKey, rightKey, window, n, k))
  {
    if n > 0 {
      var before, ts := After(lefts, rights, leftKey, rightKey, window, n - 1), leftKey(lefts[n - 1]);
      EvictedIsPassed(lefts, rights, leftKey, rightKey, window, n - 1);
      ReadEnough(rights, rightKey, before.evicted, before.read, SaturatingAdd(ts, window));
      var read := ReadTo(rights, rightKey, before.evicted, before.read, SaturatingAdd(ts, window));
      EvictStops(rights, rightKey, before.evicted, read, SaturatingSub(ts, window));
      var c := After(lefts, rights, leftKey, rightKey, window, n);
      forall k | 0 <= k < |rights|
        ensures k < c.evicted <==> Passed(lefts, rights, leftKey, rightKey, window, n, k)
      {
        PassedMore(lefts, rights, leftKey, rightKey, window, n - 1, k);
        hide Passed, After, ReadTo, EvictTo;
        if c.evicted < read { assert c.evicted <= k ==> rightKey(rights[c.evicted]) <= rightKey(rights[k]); }
      }
    }
  }

  /** A right item near left item `b` lies before the window start of an earlier left item. */
  ghost predicate Overtaken<L, R>(lefts: seq<L>, rights: seq<R>, leftKey: L -> I64, rightKey: R -> I64, window: I64,
        b: nat)
    requires b < |lefts|
  {
    exists k :: 0 <= k < |rights| && Passed(lefts, rights, leftKey, rightKey, window, b, k)
                && Near(rightKey, leftKey(lefts[b]), window)(rights[k])
  }

  lemma OvertakenIsMissed<L, R>(lefts: seq<L>, rights: seq<R>, leftKey: L -> I64, rightKey: R -> I64, window: I64,
        b: nat)
    requires b < |lefts| && SortedBy(rights, rightKey) && window >= 0
    ensures MissesNothing(lefts, rights, leftKey, rightKey, window, b)
       <==> !Overtaken(lefts, rights, leftKey, rightKey, window, b)
  {
    var before, ts := After(lefts, rights, leftKey, rightKey, window, b), leftKey(lefts[b]);
    EvictedIsPassed(lefts, rights, leftKey, rightKey, window, b + 1);
    ReadEnough(rights, rightKey, before.evicted, before.read, SaturatingAdd(ts, window));
    var c := After(lefts, rights, leftKey, rightKey, window, b + 1);
    forall k | 0 <= k < |rights| && Near(rightKey, ts, window)(rights[k])
      ensures Missed(lefts, rights, leftKey, rightKey, window, b, k)
         <==> Passed(lefts, rights, leftKey, rightKey, window, b, k)
    {
      PassedMore(lefts, rights, leftKey, rightKey, window, b, k);
    }
  }

  /**
   With the right items sorted and the left ones in any order, the join is the nested-loop join if and only if no
   right item near a left item lies before the window of an earlier left item.
   */
  lemma SortedRightsJoinIff<L, R>(lefts: seq<L>, rights: seq<R>, leftKey: L -> I64, rightKey: R -> I64, window: I64)
    requires SortedBy(rights, rightKey) && window >= 0
    ensures Joined(lefts, rights, leftKey, rightKey, window) == NestedLoops(lefts, rights, leftKey, rightKey, window)
       <==> forall b :: 0 <= b < |lefts| ==> !Overtaken(lefts, rights, leftKey, rightKey, window, b)
  {
    hide Joined, NestedLoops, MissesNothing, Overtaken;
    forall b | 0 <= b < |lefts|
      ensures MissesNothing(lefts, rights, leftKey, rightKey, window, b)
         <==> !Overtaken(lefts, rights, leftKey, rightKey, window, b)
    {
      OvertakenIsMissed(lefts, rights, leftKey, rightKey, window, b);
    }
    AgreesWhenNothingMissed(lefts, rights, leftKey, rightKey, window);
  }

  /** Unsorted right items can be missed: reading stops at the first one beyond the window. */
  lemma UnsortedCanMiss<L, R>(x: L, far: R, near: R, leftKey: L -> I64, rightKey: R -> I64, window: I64)
    requires window >= 0 && Near(rightKey, leftKey(x), window)(near)
    requires rightKey(far) > SaturatingAdd(leftKey(x), window)
    ensures Joined([x], [far, near], leftKey, rightKey, window) == [(x, [])]
    ensures NestedLoops([x], [far, near], leftKey, rightKey, window) == [(x, [near])]
  {
    var rights, ts := [far, near], leftKey(x);
    var test, near' := InWindow(rightKey, ts, window), Near(rightKey, ts, window);
    var end, start := SaturatingAdd(ts, window), SaturatingSub(ts, window);
    assert ReadTo(rights, rightKey, 0, 0, end) == ReadTo(rights, rightKey, 0, 1, end) == 1;
    assert EvictTo(rights, rightKey, 0, 1, start) == 0;
    assert After([x], rights, leftKey, rightKey, window, 0) == Cursor(0, 0);
    assert After([x], rights, leftKey, rightKey, window, 1) == Cursor(0, 1);
    assert Select(rights, test, 0, 0) == [] && Select(rights, test, 0, 1) == [];
    assert Select(rights, near', 0, 0) == [] && Select(rights, near', 0, 1) == [];
    assert Select(rights, near', 0, 2) == [near];
  }
}
