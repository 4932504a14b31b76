/** The greedy rate limiter, and why greed is optimal on a time-sorted stream. */
module RateLimits {
  import opened Common

  /** May an item at `ts` be output after one at `last`? */
  predicate Allowed(last: Option<I64>, ts: I64, interval: I64) {
    last.None? || SaturatingSub(ts, last.value) >= interval
  }

  /** The positions the limiter outputs, from position `from` on. */
  function Greedy(ts: seq<I64>, interval: I64, last: Option<I64>, from: nat): seq<nat>
    requires from <= |ts|
    decreases |ts| - from
  {
    if from == |ts| then []
    else if Allowed(last, ts[from], interval) then [from] + Greedy(ts, interval, Some(ts[from]), from + 1)
    else Greedy(ts, interval, last, from + 1)
  }

  function Times<T>(items: seq<T>, tsFn: T -> I64): (r: seq<I64>)
    ensures |r| == |items|
    ensures forall k {:trigger r[k]} :: 0 <= k < |r| ==> r[k] == tsFn(items[k])
  {
    seq(|items|, k requires 0 <= k < |items| => tsFn(items[k]))
  }

  class RateLimit<T> {
    const items: seq<T>
    const tsFn: T -> I64
    const interval: I64
    /** How many items have been read from the source. */
    var read: nat
    var lastOutput: Option<I64>
    /** Positions output so far. */
    ghost var picks: seq<nat>

    ghost predicate Valid()
      reads this
    {
      && read <= |items|
      && Greedy(Times(items, tsFn), interval, None, 0) == picks + Greedy(Times(items, tsFn), interval, lastOutput, read)
    }

    constructor (items: seq<T>, tsFn: T -> I64, interval: I64)
      ensures Valid() && this.items == items && this.tsFn == tsFn && this.interval == interval && picks == []
    {
      this.items, this.tsFn, this.interval := items, tsFn, interval;
      read, lastOutput, picks := 0, None, [];
    }

    method NextItem() returns (r: Option<T>)
      requires Valid()
      modifies this
      ensures Valid()
      ensures r.Some? ==> |picks| == |old(picks)| + 1 && picks[..|old(picks)|] == old(picks)
      ensures r.Some? ==> picks[|old(picks)|] < |items| && r.value == items[picks[|old(picks)|]] && read > old(read)
      ensures r.None? ==> picks == old(picks) && picks == Greedy(Times(items, tsFn), interval, None, 0)
    {
      ghost var times := Times(items, tsFn);
      while read < |items|
        invariant Valid() && picks == old(picks) && read >= old(read)
        decreases |items| - read
      {
        var item := items[read];
        var ts := tsFn(item);
        assert times[read] == ts;
        if lastOutput.None? || SaturatingSub(ts, lastOutput.value) >= interval {
          lastOutput := Some(ts);
          picks := picks + [read];
          read := read + 1;
          assert picks + Greedy(times, interval, lastOutput, read)
              == old(picks) + ([read - 1] + Greedy(times, interval, lastOutput, read));
          return Some(item);
        }
        read := read + 1;
      }
      assert picks + [] == picks;
      return None;
    }
  }

  /** The last position output before position `n`; `picks` lists positions in increasing order. */
  function LastBefore(picks: seq<nat>, n: nat): (r: Option<nat>)
    ensures r.Some? ==> r.value in picks && r.value < n
  {
    if picks == [] || picks[0] >= n then None
    else
      var later := LastBefore(picks[1..], n);
      if later.Some? then later else Some(picks[0])
  }

  /**
   Which items are output, sorted input or not: exactly those whose timestamp is at least the interval after that of the
   last one output before it, and the first.
   */
  lemma {:induction false} GreedyExactly(ts: seq<I64>, interval: I64, last: Option<I64>, from: nat, n: nat)
    requires from <= n < |ts| && interval >= 0
    ensures var picks := Greedy(ts, interval, last, from);
            var previous := LastBefore(picks, n);
            && (forall k :: k in picks ==> from <= k < |ts|)
            && (n in picks
                <==> if previous.Some? then ts[n] - ts[previous.value] >= interval
                     else last.None? || ts[n] - last.value >= interval)
    decreases |ts| - from
  {
    var picks := Greedy(ts, interval, last, from);
    GreedyFrom(ts, interval, last, from);
    GreedyFrom(ts, interval, last, from + 1);
    GreedyFrom(ts, interval, Some(ts[from]), from + 1);
    if n > from {
      if Allowed(last, ts[from], interval) {
        GreedyExactly(ts, interval, Some(ts[from]), from + 1, n);
        assert picks[1..] == Greedy(ts, interval, Some(ts[from]), from + 1);
      } else {
        GreedyExactly(ts, interval, last, from + 1, n);
      }
    } else if picks != [] {
      assert picks[0] in picks;
    }
  }

  lemma {:induction false} GreedyFrom(ts: seq<I64>, interval: I64, last: Option<I64>, from: nat)
    requires from <= |ts|
    ensures forall k :: k in Greedy(ts, interval, last, from) ==> from <= k < |ts|
    decreases |ts| - from
  {
    if from < |ts| {
      GreedyFrom(ts, interval, last, from + 1);
      GreedyFrom(ts, interval, Some(ts[from]), from + 1);
    }
  }

  ghost predicate Sorted(ts: seq<I64>) {
    forall i, j :: 0 <= i < j < |ts| ==> ts[i] <= ts[j]
  }

  /** Increasing positions with every consecutive gap at least the interval. */
  ghost predicate Spaced(ts: seq<I64>, interval: I64, picks: seq<nat>) {
    && (forall k :: 0 <= k < |picks| ==> picks[k] < |ts|)
    && (forall k :: 0 <= k < |picks| - 1 ==> picks[k] < picks[k + 1] && ts[picks[k + 1]] - ts[picks[k]] >= interval)
  }

  ghost predicate StartsAfter(ts: seq<I64>, interval: I64, last: Option<I64>, from: nat, picks: seq<nat>)
    requires Spaced(ts, interval, picks)
  {
    picks != [] ==> from <= picks[0] && (last.Some? ==> ts[picks[0]] - last.value >= interval)
  }

  lemma {:induction false} GreedyIsSpaced(ts: seq<I64>, interval: I64, last: Option<I64>, from: nat)
    requires from <= |ts| && interval >= 0
    ensures Spaced(ts, interval, Greedy(ts, interval, last, from))
    ensures StartsAfter(ts, interval, last, from, Greedy(ts, interval, last, from))
    decreases |ts| - from
  {
    if from < |ts| {
      if Allowed(last, ts[from], interval) {
        var rest := Greedy(ts, interval, Some(ts[from]), from + 1);
        GreedyIsSpaced(ts, interval, Some(ts[from]), from + 1);
        var picks := [from] + rest;
        forall k | 0 <= k < |picks| - 1 ensures picks[k] < picks[k + 1] && ts[picks[k + 1]] - ts[picks[k]] >= interval {
          if k > 0 { assert picks[k] == rest[k - 1] && picks[k + 1] == rest[k]; }
        }
      } else {
        GreedyIsSpaced(ts, interval, last, from + 1);
      }
    }
  }

  /** Optimality: on a sorted stream no spaced selection is longer than the greedy one. */
  lemma {:induction false} GreedyIsLongest(ts: seq<I64>, interval: I64, last: Option<I64>, from: nat, picks: seq<nat>)
    requires from <= |ts| && interval >= 0 && Sorted(ts) && Spaced(ts, interval, picks)
    requires StartsAfter(ts, interval, last, from, picks)
    ensures |picks| <= |Greedy(ts, interval, last, from)|
    decreases |ts| - from
  {
    if from < |ts| && picks != [] {
      if Allowed(last, ts[from], interval) {
        var rest := picks[1..];
        forall k | 0 <= k < |rest| - 1 ensures rest[k] < rest[k + 1] && ts[rest[k + 1]] - ts[rest[k]] >= interval {
          assert rest[k] == picks[k + 1] && rest[k + 1] == picks[k + 2];
        }
        GreedyIsLongest(ts, interval, Some(ts[from]), from + 1, rest);
      } else {
        GreedyIsLongest(ts, interval, last, from + 1, picks);
      }
    }
  }

  // ---- Items that go back in time ----

  /** The gap test if an out-of-order gap counted as 0. */
  predicate AllowedClamped(last: I64, ts: I64, interval: I64) {
    (if ts < last then 0 else SaturatingSub(ts, last)) >= interval
  }

  /**
   The source remarks that an out-of-order gap clamps at 0. The subtraction is signed, so the test decides as that
   clamping would exactly when the item is in order, the interval is positive, or the interval is at most the
   (negative) gap.
   */
  lemma ClampingDecidesAlikeIff(last: I64, ts: I64, interval: I64)
    ensures (Allowed(Some(last), ts, interval) <==> AllowedClamped(last, ts, interval))
       <==> (ts >= last || interval > 0 || SaturatingSub(ts, last) >= interval)
  {
  }

  /** With no minimum interval every out-of-order item is dropped, which clamping would output. */
  lemma {:induction false} NoIntervalStillDrops(ts: seq<I64>, last: I64)
    requires |ts| > 0 && ts[0] < last
    ensures AllowedClamped(last, ts[0], 0)
    ensures Greedy(ts, 0, Some(last), 0) == Greedy(ts, 0, Some(last), 1)
    ensures 0 !in Greedy(ts, 0, Some(last), 0)
  {
    GreedyIsSpaced(ts, 0, Some(last), 1);
    var rest := Greedy(ts, 0, Some(last), 1);
    forall k | 0 <= k < |rest| ensures rest[k] > 0 {
      SpacedIncreases(ts, 0, rest, k);
    }
  }

  lemma {:induction false} SpacedIncreases(ts: seq<I64>, interval: I64, picks: seq<nat>, k: nat)
    requires Spaced(ts, interval, picks) && k < |picks|
    ensures picks[0] <= picks[k]
  {
    if k > 0 { SpacedIncreases(ts, interval, picks, k - 1); }
  }
}
