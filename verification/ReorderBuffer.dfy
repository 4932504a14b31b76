/**
 The event-time reorder buffer. `Buffer` is its value, `OnEvent`, `OnClock` and `OnFlush` its three
 transitions; the class is proved to perform exactly these, and the lemmas are about whole runs of them.
 */
module Reorder {
  import opened Common

  const MAX_LATENESS: I64 := 24 * 60 * 60 * 1000

  datatype Entry<E> = Entry(ts: I64, order: nat, record: E)

  datatype Buffer<E> = Buffer(
    pending: seq<Entry<E>>,
    nextOrder: nat,
    last: Option<I64>,
    maxSeen: Option<I64>,
    lateness: I64,
    late: seq<(I64, E)>)

  datatype Drained<E> = Drained(buf: Buffer<E>, released: seq<Entry<E>>)

  predicate Before<E>(a: Entry<E>, b: Entry<E>) {
    a.ts < b.ts || (a.ts == b.ts && a.order < b.order)
  }

  ghost predicate Ordered<E>(s: seq<Entry<E>>) {
    forall i, j :: 0 <= i < j < |s| ==> Before(s[i], s[j])
  }

  /** The heap's push: `pending` is the heap, written in pop order. */
  function Insert<E>(s: seq<Entry<E>>, e: Entry<E>): seq<Entry<E>> {
    if s == [] || Before(e, s[0]) then [e] + s else [s[0]] + Insert(s[1..], e)
  }

  function DueCount<E>(s: seq<Entry<E>>, watermark: I64): (n: nat)
    ensures n <= |s|
    ensures forall k :: 0 <= k < n ==> s[k].ts <= watermark
    ensures n < |s| ==> s[n].ts > watermark
  {
    if s == [] || s[0].ts > watermark then 0 else 1 + DueCount(s[1..], watermark)
  }

  function Drain<E>(b: Buffer<E>, n: nat): Drained<E>
    requires n <= |b.pending|
  {
    Drained(b.(pending := b.pending[n..], last := if n == 0 then b.last else Some(b.pending[n - 1].ts)),
            b.pending[..n])
  }

  function DrainUntil<E>(b: Buffer<E>, watermark: I64): Drained<E> {
    Drain(b, DueCount(b.pending, watermark))
  }

  predicate Late<E>(b: Buffer<E>, ts: I64) {
    b.last.Some? && ts < b.last.value
  }

  function Seen(seen: Option<I64>, ts: I64): I64 {
    match seen case None => ts case Some(m) => Max(m, ts)
  }

  function Enqueue<E>(b: Buffer<E>, ts: I64, record: E): Buffer<E> {
    b.(pending := Insert(b.pending, Entry(ts, b.nextOrder, record)),
       nextOrder := b.nextOrder + 1,
       maxSeen := Some(Seen(b.maxSeen, ts)))
  }

  function OnEvent<E>(b: Buffer<E>, ts: I64, record: E): Drained<E> {
    if Late(b, ts) then Drained(b.(late := b.late + [(ts, record)]), [])
    else DrainUntil(Enqueue(b, ts, record), SaturatingSub(Seen(b.maxSeen, ts), b.lateness))
  }

  function OnClock<E>(b: Buffer<E>, now: I64): Drained<E> {
    DrainUntil(b.(maxSeen := Some(Seen(b.maxSeen, now))), SaturatingSub(now, b.lateness))
  }

  function OnFlush<E>(b: Buffer<E>): Drained<E> {
    Drain(b, |b.pending|)
  }

  function Pairs<E>(s: seq<Entry<E>>): (r: seq<(I64, E)>)
    ensures |r| == |s|
    ensures forall k :: 0 <= k < |s| ==> r[k] == (s[k].ts, s[k].record)
  {
    seq(|s|, k requires 0 <= k < |s| => (s[k].ts, s[k].record))
  }

  function NewBuffer<E>(lateness: I64): Buffer<E> {
    var clamped := if lateness < 0 then 0 else if lateness > MAX_LATENESS then MAX_LATENESS else lateness;
    Buffer([], 0, None, None, clamped, [])
  }

  /** The clock time at which the earliest buffered event is scheduled to be released. */
  function ReleaseClock<E>(b: Buffer<E>): Option<I64> {
    if b.pending == [] then None else Some(SaturatingAdd(b.pending[0].ts, b.lateness))
  }

  /** Neither adding the lateness to the head's timestamp nor taking it from the clock just below that sum saturates. */
  predicate ClockFits<E>(b: Buffer<E>) {
    b.pending != [] ==>
      b.pending[0].ts + b.lateness <= MAX_I64 && (b.lateness == 0 || b.pending[0].ts > MIN_I64)
  }

  lemma ReleasesIff<E>(b: Buffer<E>, now: I64)
    ensures OnClock(b, now).released != []
       <==> b.pending != [] && b.pending[0].ts <= SaturatingSub(now, b.lateness)
  {
    var q := b.(maxSeen := Some(Seen(b.maxSeen, now)));
    assert OnClock(b, now).released == q.pending[..DueCount(q.pending, SaturatingSub(now, b.lateness))];
  }

  /** When the arithmetic fits, exactly the clock times from the release clock on release something. */
  lemma ReleasesFromClock<E>(b: Buffer<E>)
    ensures 0 <= b.lateness && ClockFits(b) && ReleaseClock(b).Some? ==>
              forall now: I64 :: OnClock(b, now).released != [] <==> now >= ReleaseClock(b).value
  {
    hide OnClock;
    forall now: I64 ensures OnClock(b, now).released != []
                       <==> b.pending != [] && b.pending[0].ts <= SaturatingSub(now, b.lateness) {
      ReleasesIff(b, now);
    }
  }

  class ReorderBuffer<E> {
    var pending: seq<Entry<E>>
    var nextOrder: nat
    var last: Option<I64>
    var maxSeen: Option<I64>
    const lateness: I64
    var late: seq<(I64, E)>

    ghost function State(): Buffer<E>
      reads this
    {
      Buffer(pending, nextOrder, last, maxSeen, lateness, late)
    }

    constructor (maxLatenessMs: I64)
      ensures State() == NewBuffer(maxLatenessMs)
      ensures pending == [] && late == [] && last.None? && maxSeen.None?
      ensures 0 <= lateness <= 24 * 60 * 60 * 1000
      ensures maxLatenessMs <= 0 ==> lateness == 0
      ensures 0 <= maxLatenessMs <= 24 * 60 * 60 * 1000 ==> lateness == maxLatenessMs
      ensures maxLatenessMs > 24 * 60 * 60 * 1000 ==> lateness == 24 * 60 * 60 * 1000
    {
      pending, nextOrder, last, maxSeen, late := [], 0, None, None, [];
      lateness := if maxLatenessMs < 0 then 0 else if maxLatenessMs > MAX_LATENESS then MAX_LATENESS else maxLatenessMs;
    }

    method Step(ts: I64, record: E) returns (released: seq<(I64, E)>)
      modifies this
      ensures State() == OnEvent(old(State()), ts, record).buf
      ensures released == Pairs(OnEvent(old(State()), ts, record).released)
    {
      if last.Some? && ts < last.value {
        late := late + [(ts, record)];
        return [];
      }
      var order := nextOrder;
      nextOrder := nextOrder + 1;
      pending := Insert(pending, Entry(ts, order, record));
      maxSeen := Some(Seen(maxSeen, ts));
      released := DrainDue(SaturatingSub(maxSeen.value, lateness));
    }

    method AdvanceWatermark(now: I64) returns (released: seq<(I64, E)>)
      modifies this
      ensures State() == OnClock(old(State()), now).buf
      ensures released == Pairs(OnClock(old(State()), now).released)
    {
      maxSeen := Some(Seen(maxSeen, now));
      released := DrainDue(SaturatingSub(now, lateness));
    }

    method Flush() returns (out: seq<(I64, E)>)
      modifies this
      ensures State() == OnFlush(old(State())).buf
      ensures out == Pairs(OnFlush(old(State())).released)
    {
      out := [];
      ghost var n := 0;
      while pending != []
        invariant n <= |old(pending)| && Drain(old(State()), n).buf == State()
        invariant out == Pairs(old(pending)[..n])
        decreases |pending|
      {
        var entry := pending[0];
        pending := pending[1..];
        last := Some(entry.ts);
        out := out + [(entry.ts, entry.record)];
        n := n + 1;
        assert old(pending)[..n] == old(pending)[..n - 1] + [entry];
      }
    }

    method TakeLate() returns (r: seq<(I64, E)>)
      modifies this`late
      ensures r == old(late) && State() == old(State()).(late := [])
    {
      r := late;
      late := [];
    }

    /** The clock time from which a tick releases something. */
    function NextReleaseClock(): (r: Option<I64>)
      reads this
      ensures r == ReleaseClock(State()) && (r.None? <==> pending == [])
      ensures r.Some? && 0 <= lateness && ClockFits(State()) ==>
                forall now: I64 :: OnClock(State(), now).released != [] <==> now >= r.value
    {
      ReleasesFromClock(State());
      if pending == [] then None else Some(SaturatingAdd(pending[0].ts, lateness))
    }

    method DrainDue(watermark: I64) returns (released: seq<(I64, E)>)
      modifies this
      ensures State() == DrainUntil(old(State()), watermark).buf
      ensures released == Pairs(DrainUntil(old(State()), watermark).released)
    {
      released := [];
      ghost var n := 0;
      while pending != [] && pending[0].ts <= watermark
        invariant n <= |old(pending)| && Drain(old(State()), n).buf == State()
        invariant forall k :: 0 <= k < n ==> old(pending)[k].ts <= watermark
        invariant released == Pairs(old(pending)[..n])
        decreases |pending|
      {
        var entry := pending[0];
        pending := pending[1..];
        last := Some(entry.ts);
        released := released + [(entry.ts, entry.record)];
        n := n + 1;
        assert old(pending)[..n] == old(pending)[..n - 1] + [entry];
      }
    }
  }

  // ---- Runs ----

  datatype Input<E> = Arrive(ts: I64, record: E) | Clock(now: I64) | EndOfStream

  function On<E>(b: Buffer<E>, input: Input<E>): Drained<E> {
    match input
    case Arrive(ts, record) => OnEvent(b, ts, record)
    case Clock(now) => OnClock(b, now)
    case EndOfStream => OnFlush(b)
  }

  /** The state after the first `n` inputs, with everything released so far. */
  function Run<E>(b: Buffer<E>, inputs: seq<Input<E>>, n: nat): Drained<E>
    requires n <= |inputs|
  {
    if n == 0 then Drained(b, [])
    else
      var before := Run(b, inputs, n - 1);
      var now := On(before.buf, inputs[n - 1]);
      Drained(now.buf, before.released + now.released)
  }

  /** The accepted arrivals among the first `n` inputs, in arrival order. */
  function Accepted<E>(b: Buffer<E>, inputs: seq<Input<E>>, n: nat): seq<(I64, E)>
    requires n <= |inputs|
  {
    if n == 0 then []
    else
      var earlier := Accepted(b, inputs, n - 1);
      var input := inputs[n - 1];
      if input.Arrive? && !Late(Run(b, inputs, n - 1).buf, input.ts)
      then earlier + [(input.ts, input.record)]
      else earlier
  }

  function Arrivals<E>(inputs: seq<Input<E>>, n: nat): seq<(I64, E)>
    requires n <= |inputs|
  {
    if n == 0 then []
    else
      var earlier, input := Arrivals(inputs, n - 1), inputs[n - 1];
      if input.Arrive? then earlier + [(input.ts, input.record)] else earlier
  }

  /** Stable sort by timestamp: each item goes after every item not later than it. */
  function StableInsert<E>(s: seq<(I64, E)>, x: (I64, E)): seq<(I64, E)> {
    if s == [] || x.0 < s[0].0 then [x] + s else [s[0]] + StableInsert(s[1..], x)
  }

  function StableSort<E>(s: seq<(I64, E)>): seq<(I64, E)> {
    if s == [] then [] else StableInsert(StableSort(s[..|s| - 1]), s[|s| - 1])
  }

  ghost predicate SortedByTime<E>(s: seq<(I64, E)>) {
    forall i, j :: 0 <= i < j < |s| ==> s[i].0 <= s[j].0
  }

  function AtTime<E>(s: seq<(I64, E)>, t: I64): seq<(I64, E)> {
    if s == [] then [] else (if s[0].0 == t then [s[0]] else []) + AtTime(s[1..], t)
  }

  lemma {:induction false} AtTimeConcat<E>(a: seq<(I64, E)>, b: seq<(I64, E)>, t: I64)
    ensures AtTime(a + b, t) == AtTime(a, t) + AtTime(b, t)
  {
    if a == [] {
      assert a + b == b;
    } else {
      var both, first := a + b, if a[0].0 == t then [a[0]] else [];
      assert both[0] == a[0] && both[1..] == a[1..] + b;
      AtTimeConcat(a[1..], b, t);
      assert AtTime(both, t) == first + AtTime(both[1..], t);
      assert first + (AtTime(a[1..], t) + AtTime(b, t)) == (first + AtTime(a[1..], t)) + AtTime(b, t);
    }
  }

  lemma {:induction false} StableInsertAdds<E>(s: seq<(I64, E)>, x: (I64, E))
    ensures multiset(StableInsert(s, x)) == multiset(s) + multiset{x}
  {
    if s != [] && x.0 >= s[0].0 {
      StableInsertAdds(s[1..], x);
      assert s == [s[0]] + s[1..];
    }
  }

  lemma ConsSorts<E>(first: (I64, E), rest: seq<(I64, E)>)
    requires SortedByTime(rest) && forall j :: 0 <= j < |rest| ==> first.0 <= rest[j].0
    ensures SortedByTime([first] + rest)
  {
  }

  lemma {:induction false} StableInsertSorts<E>(s: seq<(I64, E)>, x: (I64, E))
    requires SortedByTime(s)
    ensures SortedByTime(StableInsert(s, x))
  {
    if s == [] || x.0 < s[0].0 {
      ConsSorts(x, s);
    } else {
      var rest := StableInsert(s[1..], x);
      StableInsertSorts(s[1..], x);
      StableInsertAdds(s[1..], x);
      forall j | 0 <= j < |rest| ensures s[0].0 <= rest[j].0 {
        assert rest[j] in multiset(rest);
        assert rest[j] in s[1..] || rest[j] == x;
      }
      ConsSorts(s[0], rest);
    }
  }

  lemma {:induction false} StableInsertKeepsTies<E>(s: seq<(I64, E)>, x: (I64, E), t: I64)
    requires SortedByTime(s)
    ensures AtTime(StableInsert(s, x), t) == AtTime(s, t) + AtTime([x], t)
  {
    if s == [] || x.0 < s[0].0 {
      AtTimeConcat([x], s, t);
      if x.0 == t {
        NoneAtTime(s, t);
      }
    } else {
      StableInsertKeepsTies(s[1..], x, t);
      AtTimeConcat([s[0]], StableInsert(s[1..], x), t);
      AtTimeConcat([s[0]], s[1..], t);
      assert s == [s[0]] + s[1..];
    }
  }

  lemma {:induction false} NoneAtTime<E>(s: seq<(I64, E)>, t: I64)
    requires forall k :: 0 <= k < |s| ==> s[k].0 != t
    ensures AtTime(s, t) == []
  {
    if s != [] { NoneAtTime(s[1..], t); }
  }

  ghost predicate StablySorts<E>(r: seq<(I64, E)>, s: seq<(I64, E)>, t: I64) {
    SortedByTime(r) && multiset(r) == multiset(s) && AtTime(r, t) == AtTime(s, t)
  }

  lemma StablySortsMore<E>(r: seq<(I64, E)>, s: seq<(I64, E)>, x: (I64, E), t: I64)
    requires StablySorts(r, s, t)
    ensures StablySorts(StableInsert(r, x), s + [x], t)
  {
    hide AtTime, SortedByTime, StableInsert;
    StableInsertSorts(r, x);
    StableInsertAdds(r, x);
    StableInsertKeepsTies(r, x, t);
    AtTimeConcat(s, [x], t);
  }

  /** What makes `StableSort` the stable sort: sorted, a permutation, and simultaneous items keep their order. */
  lemma {:induction false} StableSortIsStable<E>(s: seq<(I64, E)>, t: I64)
    ensures SortedByTime(StableSort(s))
    ensures multiset(StableSort(s)) == multiset(s)
    ensures AtTime(StableSort(s), t) == AtTime(s, t)
  {
    if s != [] {
      var front, x := s[..|s| - 1], s[|s| - 1];
      StableSortIsStable(front, t);
      StablySortsMore(StableSort(front), front, x, t);
      assert s == front + [x];
    }
  }

  // ---- The invariant of a run ----

  /** Everything released so far, then everything still pending, is one strictly ordered sequence. */
  ghost predicate InOrder<E>(d: Drained<E>) {
    && Ordered(d.released + d.buf.pending)
    && (forall k :: 0 <= k < |d.released| ==> d.released[k].order < d.buf.nextOrder)
    && (forall k :: 0 <= k < |d.buf.pending| ==> d.buf.pending[k].order < d.buf.nextOrder)
    && d.buf.last == (if d.released == [] then None else Some(d.released[|d.released| - 1].ts))
  }

  lemma {:induction false} InsertOrdered<E>(s: seq<Entry<E>>, e: Entry<E>)
    requires Ordered(s) && forall k :: 0 <= k < |s| ==> s[k].order < e.order
    ensures Ordered(Insert(s, e))
  {
    if s != [] && !Before(e, s[0]) {
      var rest := Insert(s[1..], e);
      InsertOrdered(s[1..], e);
      forall j | 0 <= j < |rest| ensures Before(s[0], rest[j]) {
        assert rest[j] in rest;
        Inserted(s[1..], e, rest[j]);
      }
    }
  }

  lemma {:induction false} InsertIsStable<E>(s: seq<Entry<E>>, e: Entry<E>)
    requires forall k :: 0 <= k < |s| ==> s[k].order < e.order
    ensures Pairs(Insert(s, e)) == StableInsert(Pairs(s), (e.ts, e.record))
  {
    if s == [] || Before(e, s[0]) {
      assert Pairs([e] + s) == [(e.ts, e.record)] + Pairs(s);
    } else {
      InsertIsStable(s[1..], e);
      assert Pairs(s)[1..] == Pairs(s[1..]);
      assert Pairs([s[0]] + Insert(s[1..], e)) == [(s[0].ts, s[0].record)] + Pairs(Insert(s[1..], e));
    }
  }

  lemma {:induction false} InsertBehind<E>(r: seq<Entry<E>>, s: seq<Entry<E>>, e: Entry<E>)
    requires forall k :: 0 <= k < |r| ==> !Before(e, r[k])
    ensures Insert(r + s, e) == r + Insert(s, e)
  {
    if r == [] {
      assert r + s == s;
    } else {
      assert (r + s)[0] == r[0] && (r + s)[1..] == r[1..] + s;
      InsertBehind(r[1..], s, e);
      assert [r[0]] + (r[1..] + Insert(s, e)) == r + Insert(s, e);
    }
  }

  lemma NotBeforeReleased<E>(d: Drained<E>, e: Entry<E>)
    requires InOrder(d) && !Late(d.buf, e.ts) && e.order == d.buf.nextOrder
    ensures forall k :: 0 <= k < |d.released| ==> !Before(e, d.released[k])
  {
    var all, z := d.released + d.buf.pending, |d.released| - 1;
    forall k | 0 <= k < |d.released| ensures !Before(e, d.released[k]) {
      assert all[k] == d.released[k] && all[z] == d.released[z];
      assert k < z ==> Before(all[k], all[z]);
    }
  }

  lemma EnqueueKeepsOrder<E>(d: Drained<E>, ts: I64, record: E)
    requires InOrder(d) && !Late(d.buf, ts)
    ensures var b := Enqueue(d.buf, ts, record);
            && InOrder(Drained(b, d.released))
            && Pairs(d.released + b.pending) == StableInsert(Pairs(d.released + d.buf.pending), (ts, record))
  {
    var e, all := Entry(ts, d.buf.nextOrder, record), d.released + d.buf.pending;
    NotBeforeReleased(d, e);
    InsertBehind(d.released, d.buf.pending, e);
    forall k | 0 <= k < |all| ensures all[k].order < e.order {}
    InsertOrdered(all, e);
    InsertIsStable(all, e);
    var pending := Insert(d.buf.pending, e);
    forall k | 0 <= k < |pending| ensures pending[k].order < d.buf.nextOrder + 1 {
      assert pending[k] in pending;
      Inserted(d.buf.pending, e, pending[k]);
    }
  }

  lemma InOrderAfter<E>(d: Drained<E>, input: Input<E>)
    requires InOrder(d)
    ensures var o := On(d.buf, input);
            var all := d.released + d.buf.pending;
            && InOrder(Drained(o.buf, d.released + o.released))
            && (if input.Arrive? && !Late(d.buf, input.ts)
                then Pairs(d.released + o.released + o.buf.pending)
                  == StableInsert(Pairs(all), (input.ts, input.record))
                else d.released + o.released + o.buf.pending == all)
  {
    var o := On(d.buf, input);
    if input.Arrive? && Late(d.buf, input.ts) {
      assert d.released + [] == d.released;
    } else if input.Arrive? {
      EnqueueKeepsOrder(d, input.ts, input.record);
      DrainKeepsOrder(Drained(Enqueue(d.buf, input.ts, input.record), d.released), |o.released|);
    } else if input.Clock? {
      DrainKeepsOrder(Drained(d.buf.(maxSeen := Some(Seen(d.buf.maxSeen, input.now))), d.released), |o.released|);
    } else {
      DrainKeepsOrder(d, |o.released|);
    }
  }

  lemma {:induction false} Inserted<E>(s: seq<Entry<E>>, e: Entry<E>, x: Entry<E>)
    ensures x in Insert(s, e) <==> x in s || x == e
  {
    if s != [] && !Before(e, s[0]) {
      Inserted(s[1..], e, x);
      assert s == [s[0]] + s[1..];
    }
  }

  lemma DrainKeepsOrder<E>(d: Drained<E>, n: nat)
    requires InOrder(d) && n <= |d.buf.pending|
    ensures var o := Drain(d.buf, n);
            && InOrder(Drained(o.buf, d.released + o.released))
            && d.released + o.released + o.buf.pending == d.released + d.buf.pending
  {
    var o := Drain(d.buf, n);
    assert d.released + o.released + o.buf.pending == d.released + d.buf.pending;
  }

  ghost predicate AboveWatermark<E>(b: Buffer<E>) {
    && 0 <= b.lateness
    && (b.pending != [] ==> b.maxSeen.Some?)
    && (forall k :: 0 <= k < |b.pending| ==> b.pending[k].ts > SaturatingSub(b.maxSeen.value, b.lateness))
  }

  /**
   Over any mix of arrivals, clock advances and flushes: all releases, then all pending events, are strictly
   increasing in (timestamp, arrival number), and what is pending is above the watermark and not behind the frontier.
   */
  lemma {:induction false} RunInOrder<E>(lateness: I64, inputs: seq<Input<E>>, n: nat)
    requires n <= |inputs|
    ensures var d := Run(NewBuffer(lateness), inputs, n);
            InOrder(d) && AboveWatermark(d.buf) && NotBehind(d.buf)
  {
    var d := Run(NewBuffer<E>(lateness), inputs, n);
    if n > 0 {
      var before, input := Run(NewBuffer<E>(lateness), inputs, n - 1), inputs[n - 1];
      RunInOrder(lateness, inputs, n - 1);
      StaysInOrder(before, input);
    }
    FrontierFirst(d);
  }

  ghost predicate NotBehind<E>(b: Buffer<E>) {
    forall k :: 0 <= k < |b.pending| ==> !Late(b, b.pending[k].ts)
  }

  lemma StaysInOrder<E>(d: Drained<E>, input: Input<E>)
    requires InOrder(d) && AboveWatermark(d.buf)
    ensures var o := On(d.buf, input);
            InOrder(Drained(o.buf, d.released + o.released)) && AboveWatermark(o.buf)
  {
    InOrderAfter(d, input);
    if input.Arrive? && !Late(d.buf, input.ts) {
      EnqueueKeepsOrder(d, input.ts, input.record);
      PendingOrdered(Drained(Enqueue(d.buf, input.ts, input.record), d.released));
    }
    PendingOrdered(d);
    StaysAboveWatermark(d.buf, input);
  }

  lemma FrontierFirst<E>(d: Drained<E>)
    requires InOrder(d)
    ensures NotBehind(d.buf)
  {
    var all, z := d.released + d.buf.pending, |d.released| - 1;
    forall k | 0 <= k < |d.buf.pending| ensures !Late(d.buf, d.buf.pending[k].ts) {
      assert z >= 0 ==> Before(all[z], all[z + 1 + k]);
    }
  }

  lemma PendingOrdered<E>(d: Drained<E>)
    requires InOrder(d)
    ensures Ordered(d.buf.pending)
  {
    var all, m := d.released + d.buf.pending, |d.released|;
    forall i, j | 0 <= i < j < |d.buf.pending| ensures Before(d.buf.pending[i], d.buf.pending[j]) {
      assert Before(all[m + i], all[m + j]);
    }
  }

  /** What has been released, then what is pending, is the stable sort of the accepted arrivals. */
  lemma {:induction false} RunSortsAccepted<E>(lateness: I64, inputs: seq<Input<E>>, n: nat)
    requires n <= |inputs|
    ensures var b := NewBuffer<E>(lateness);
            var d := Run(b, inputs, n);
            Pairs(d.released + d.buf.pending) == StableSort(Accepted(b, inputs, n))
  {
    var b := NewBuffer<E>(lateness);
    hide InOrder, On, Late, StableInsert, Ordered;
    if n > 0 {
      RunSortsAccepted(lateness, inputs, n - 1);
      RunInOrder(lateness, inputs, n - 1);
      var d, input := Run(b, inputs, n - 1), inputs[n - 1];
      InOrderAfter(d, input);
      if input.Arrive? && !Late(d.buf, input.ts) {
        var now := Accepted(b, inputs, n);
        assert now[..|now| - 1] == Accepted(b, inputs, n - 1);
      }
    }
  }

  /** Conservation: every arrival is released, pending or recorded late, exactly once. */
  lemma {:induction false} RunConserves<E>(lateness: I64, inputs: seq<Input<E>>, n: nat)
    requires n <= |inputs|
    ensures var b := NewBuffer<E>(lateness);
            var d := Run(b, inputs, n);
            && multiset(Arrivals(inputs, n)) == multiset(Accepted(b, inputs, n)) + multiset(d.buf.late)
            && multiset(Arrivals(inputs, n)) == multiset(Pairs(d.released)) + multiset(Pairs(d.buf.pending))
              + multiset(d.buf.late)
  {
    var b := NewBuffer<E>(lateness);
    RunAccounts(b, inputs, n);
    RunSortsAccepted(lateness, inputs, n);
    var d, accepted := Run(b, inputs, n), Accepted(b, inputs, n);
    if accepted != [] { StableSortIsStable(accepted, accepted[0].0); }
    hide Run, Accepted, Arrivals, StableSort, AtTime, SortedByTime;
    assert Pairs(d.released + d.buf.pending) == Pairs(d.released) + Pairs(d.buf.pending);
  }

  lemma {:induction false} RunAccounts<E>(b: Buffer<E>, inputs: seq<Input<E>>, n: nat)
    requires n <= |inputs| && b.late == []
    ensures multiset(Arrivals(inputs, n)) == multiset(Accepted(b, inputs, n)) + multiset(Run(b, inputs, n).buf.late)
  {
    hide On, Late;
    if n > 0 {
      var before, input := Run(b, inputs, n - 1).buf, inputs[n - 1];
      RunAccounts(b, inputs, n - 1);
      LateAfter(before, input);
      if input.Arrive? {
        OneMore(Arrivals(inputs, n - 1), Accepted(b, inputs, n - 1), before.late, (input.ts, input.record));
      }
    }
  }

  lemma OneMore<T>(all: seq<T>, kept: seq<T>, dropped: seq<T>, x: T)
    requires multiset(all) == multiset(kept) + multiset(dropped)
    ensures multiset(all + [x]) == multiset(kept + [x]) + multiset(dropped)
    ensures multiset(all + [x]) == multiset(kept) + multiset(dropped + [x])
  {
  }

  lemma LateAfter<E>(b: Buffer<E>, input: Input<E>)
    ensures On(b, input).buf.late
         == b.late + (if input.Arrive? && Late(b, input.ts) then [(input.ts, input.record)] else [])
    ensures On(b, input).buf.lateness == b.lateness
    ensures input.Arrive? ==> On(b, input).buf.maxSeen == if Late(b, input.ts) then b.maxSeen
        else Some(Seen(b.maxSeen, input.ts))
  {
  }

  lemma StaysAboveWatermark<E>(b: Buffer<E>, input: Input<E>)
    requires AboveWatermark(b) && Ordered(b.pending)
    requires input.Arrive? ==> Ordered(Enqueue(b, input.ts, input.record).pending) || Late(b, input.ts)
    ensures AboveWatermark(On(b, input).buf)
  {
    if input.Arrive? && !Late(b, input.ts) {
      var q := Enqueue(b, input.ts, input.record);
      AboveAfterDrain(q, SaturatingSub(q.maxSeen.value, b.lateness));
    } else if input.Clock? {
      AboveAfterDrain(b, SaturatingSub(input.now, b.lateness));
    }
  }

  lemma AboveAfterDrain<E>(b: Buffer<E>, watermark: I64)
    requires Ordered(b.pending)
    ensures var o := DrainUntil(b, watermark);
            && (forall k :: 0 <= k < |o.buf.pending| ==>
                  o.buf.pending[k].ts > watermark && o.buf.pending[k] in b.pending)
            && (forall k :: 0 <= k < |o.released| ==> o.released[k].ts <= watermark)
  {
    var n := DueCount(b.pending, watermark);
    forall k | n <= k < |b.pending| ensures b.pending[k].ts > watermark {
      assert n < k ==> Before(b.pending[n], b.pending[k]);
    }
  }

  ghost predicate OnlyArrivals<E>(inputs: seq<Input<E>>) {
    forall k :: 0 <= k < |inputs| ==> inputs[k].Arrive?
  }

  ghost predicate IsMaxOf<E>(seen: Option<I64>, accepted: seq<(I64, E)>) {
    && (seen.None? <==> accepted == [])
    && (forall k :: 0 <= k < |accepted| && seen.Some? ==> accepted[k].0 <= seen.value)
    && (seen.Some? ==> exists k :: 0 <= k < |accepted| && accepted[k].0 == seen.value)
  }

  lemma IsMaxOfMore<E>(seen: Option<I64>, accepted: seq<(I64, E)>, x: (I64, E))
    requires IsMaxOf(seen, accepted)
    ensures IsMaxOf(Some(Seen(seen, x.0)), accepted + [x])
  {
    var more := accepted + [x];
    if seen.Some? && seen.value >= x.0 {
      var k :| 0 <= k < |accepted| && accepted[k].0 == seen.value;
      assert more[k].0 == Seen(seen, x.0);
    } else {
      assert more[|accepted|].0 == Seen(seen, x.0);
    }
  }

  /** On arrivals alone the clock is the largest accepted timestamp. */
  lemma {:induction false} SeenIsMax<E>(b: Buffer<E>, inputs: seq<Input<E>>, n: nat)
    requires n <= |inputs| && OnlyArrivals(inputs) && b.maxSeen == None
    ensures IsMaxOf(Run(b, inputs, n).buf.maxSeen, Accepted(b, inputs, n))
  {
    if n > 0 {
      SeenIsMax(b, inputs, n - 1);
      var before, input := Run(b, inputs, n - 1).buf, inputs[n - 1];
      LateAfter(before, input);
      IsMaxOfMore(before.maxSeen, Accepted(b, inputs, n - 1), (input.ts, input.record));
    }
  }

  ghost predicate AllDue<E>(released: seq<Entry<E>>, b: Buffer<E>) {
    forall e :: e in released ==> b.maxSeen.Some? && e.ts <= SaturatingSub(b.maxSeen.value, b.lateness)
  }

  lemma AllDueNone<E>(b: Buffer<E>)
    ensures AllDue([], b)
  {
  }

  lemma AllDueConcat<E>(a: seq<Entry<E>>, c: seq<Entry<E>>, b: Buffer<E>)
    requires AllDue(a, b) && AllDue(c, b)
    ensures AllDue(a + c, b)
  {
  }

  lemma {:induction false} ReleasedAreDue<E>(b: Buffer<E>, inputs: seq<Input<E>>, n: nat)
    requires n <= |inputs| && OnlyArrivals(inputs)
    ensures AllDue(Run(b, inputs, n).released, Run(b, inputs, n).buf)
  {
    hide On, AllDue;
    if n == 0 {
      AllDueNone(b);
    } else {
      var before, input := Run(b, inputs, n - 1), inputs[n - 1];
      ReleasedAreDue(b, inputs, n - 1);
      LateAfter(before.buf, input);
      NewlyDue(before.buf, input);
      var now := On(before.buf, input);
      AllDueLater(before.released, before.buf, now.buf);
      AllDueConcat(before.released, now.released, now.buf);
    }
  }

  lemma NewlyDue<E>(b: Buffer<E>, input: Input<E>)
    requires input.Arrive?
    ensures AllDue(On(b, input).released, On(b, input).buf)
  {
  }

  lemma AllDueLater<E>(released: seq<Entry<E>>, b: Buffer<E>, later: Buffer<E>)
    requires AllDue(released, b) && later.lateness == b.lateness
    requires b.maxSeen.Some? ==> later.maxSeen.Some? && b.maxSeen.value <= later.maxSeen.value
    ensures AllDue(released, later)
  {
  }

  /** Two accepted events, `x` already aged past the window of `y`. */
  ghost predicate Aged<E>(accepted: seq<(I64, E)>, x: nat, y: nat, lateness: I64)
    requires x < |accepted| && y < |accepted|
  {
    accepted[x].0 <= SaturatingSub(accepted[y].0, lateness)
  }

  lemma AcceptedIndex<E>(lateness: I64, inputs: seq<Input<E>>, n: nat, k: nat) returns (x: nat)
    requires n <= |inputs| && k < |Run(NewBuffer<E>(lateness), inputs, n).released|
    ensures var b := NewBuffer<E>(lateness);
            x < |Accepted(b, inputs, n)| && Accepted(b, inputs, n)[x].0 == Run(b, inputs, n).released[k].ts
  {
    var b := NewBuffer<E>(lateness);
    var d, accepted := Run(b, inputs, n), Accepted(b, inputs, n);
    RunSortsAccepted(lateness, inputs, n);
    StableSortIsStable(accepted, 0);
    var item := Pairs(d.released + d.buf.pending)[k];
    assert item in multiset(accepted);
    x :| 0 <= x < |accepted| && accepted[x] == item;
  }

  lemma PlaceOf<E>(lateness: I64, inputs: seq<Input<E>>, n: nat, x: nat) returns (k: nat)
    requires n <= |inputs| && x < |Accepted(NewBuffer<E>(lateness), inputs, n)|
    ensures var b := NewBuffer<E>(lateness);
            var all := Run(b, inputs, n).released + Run(b, inputs, n).buf.pending;
            k < |all| && all[k].ts == Accepted(b, inputs, n)[x].0
  {
    var b := NewBuffer<E>(lateness);
    var d, accepted := Run(b, inputs, n), Accepted(b, inputs, n);
    RunSortsAccepted(lateness, inputs, n);
    StableSortIsStable(accepted, 0);
    var all := Pairs(d.released + d.buf.pending);
    assert accepted[x] in multiset(all);
    k :| 0 <= k < |all| && all[k] == accepted[x];
  }

  lemma BehindFrontier<E>(d: Drained<E>, k: nat, seen: I64)
    requires InOrder(d) && AboveWatermark(d.buf) && d.buf.maxSeen.Some? && seen <= d.buf.maxSeen.value
    requires k < |d.released + d.buf.pending|
    requires (d.released + d.buf.pending)[k].ts <= SaturatingSub(seen, d.buf.lateness)
    ensures d.buf.last.Some? && (d.released + d.buf.pending)[k].ts <= d.buf.last.value
  {
    var all, z := d.released + d.buf.pending, |d.released| - 1;
    if k > z { assert false; }
    assert k < z ==> Before(all[k], all[z]);
    assert all[z] == d.released[z];
  }

  lemma LateMeansAged<E>(lateness: I64, inputs: seq<Input<E>>, n: nat, ts: I64) returns (x: nat, y: nat)
    requires n <= |inputs| && OnlyArrivals(inputs) && Late(Run(NewBuffer<E>(lateness), inputs, n).buf, ts)
    ensures var b := NewBuffer<E>(lateness);
            var accepted := Accepted(b, inputs, n);
            x < |accepted| && y < |accepted| && Aged(accepted, x, y, b.lateness) && ts < accepted[x].0
  {
    var b := NewBuffer<E>(lateness);
    var d, accepted := Run(b, inputs, n), Accepted(b, inputs, n);
    RunInOrder(lateness, inputs, n);
    SeenIsMax(b, inputs, n);
    ReleasedAreDue(b, inputs, n);
    LatenessKept(b, inputs, n);
    hide Run, Accepted, Ordered;
    x := AcceptedIndex(lateness, inputs, n, |d.released| - 1);
    y :| 0 <= y < |accepted| && accepted[y].0 == d.buf.maxSeen.value;
  }

  lemma AgedMeansLate<E>(lateness: I64, inputs: seq<Input<E>>, n: nat, ts: I64, x: nat, y: nat)
    requires n <= |inputs| && OnlyArrivals(inputs)
    requires var b := NewBuffer<E>(lateness);
             var accepted := Accepted(b, inputs, n);
             x < |accepted| && y < |accepted| && Aged(accepted, x, y, b.lateness) && ts < accepted[x].0
    ensures Late(Run(NewBuffer<E>(lateness), inputs, n).buf, ts)
  {
    var b := NewBuffer<E>(lateness);
    var d, accepted := Run(b, inputs, n), Accepted(b, inputs, n);
    RunInOrder(lateness, inputs, n);
    SeenIsMax(b, inputs, n);
    LatenessKept(b, inputs, n);
    hide Run, Accepted, Ordered;
    var k := PlaceOf(lateness, inputs, n, x);
    BehindFrontier(d, k, accepted[y].0);
  }

  /**
   When an arrival is rejected, in terms of the arrivals alone: exactly when an earlier accepted event with a later
   timestamp had already aged past the lateness window of another accepted event.
   */
  lemma LateExactly<E>(lateness: I64, inputs: seq<Input<E>>, n: nat, ts: I64)
    requires n <= |inputs| && OnlyArrivals(inputs)
    ensures var b := NewBuffer<E>(lateness);
            var accepted := Accepted(b, inputs, n);
            Late(Run(b, inputs, n).buf, ts) <==>
            exists x, y :: 0 <= x < |accepted| && 0 <= y < |accepted|
                           && Aged(accepted, x, y, b.lateness) && ts < accepted[x].0
  {
    hide Run, Accepted, Late, Aged;
    var b := NewBuffer<E>(lateness);
    if Late(Run(b, inputs, n).buf, ts) {
      var x, y := LateMeansAged(lateness, inputs, n, ts);
    }
    var accepted := Accepted(b, inputs, n);
    if x, y :| 0 <= x < |accepted| && 0 <= y < |accepted| && Aged(accepted, x, y, b.lateness) && ts < accepted[x].0 {
      AgedMeansLate(lateness, inputs, n, ts, x, y);
    }
  }

  lemma {:induction false} LatenessKept<E>(b: Buffer<E>, inputs: seq<Input<E>>, n: nat)
    requires n <= |inputs|
    ensures Run(b, inputs, n).buf.lateness == b.lateness
  {
    if n > 0 { LatenessKept(b, inputs, n - 1); }
  }

  /** Each event is at most the lateness behind every event that arrived before it. */
  ghost predicate WithinLateness<E>(inputs: seq<Input<E>>, lateness: I64)
    requires OnlyArrivals(inputs)
  {
    forall i, j :: 0 <= i < j < |inputs| ==> inputs[i].ts - inputs[j].ts <= lateness
  }

  /** Arrivals within the lateness window are all accepted. */
  lemma {:induction false} NoneLate<E>(lateness: I64, inputs: seq<Input<E>>, n: nat)
    requires n <= |inputs| && OnlyArrivals(inputs)
    requires WithinLateness(inputs, NewBuffer<E>(lateness).lateness)
    ensures Accepted(NewBuffer<E>(lateness), inputs, n) == Arrivals(inputs, n)
    ensures Run(NewBuffer<E>(lateness), inputs, n).buf.late == []
  {
    hide On, Late, WithinLateness;
    if n > 0 {
      NoneLate(lateness, inputs, n - 1);
      NextAccepted(lateness, inputs, n - 1);
    }
  }

  lemma NextAccepted<E>(lateness: I64, inputs: seq<Input<E>>, n: nat)
    requires n < |inputs| && OnlyArrivals(inputs)
    requires WithinLateness(inputs, NewBuffer<E>(lateness).lateness)
    requires Accepted(NewBuffer<E>(lateness), inputs, n) == Arrivals(inputs, n)
    ensures var before := Run(NewBuffer<E>(lateness), inputs, n).buf;
            !Late(before, inputs[n].ts) && On(before, inputs[n]).buf.late == before.late
  {
    NextFits(inputs, n, NewBuffer<E>(lateness).lateness);
    LateExactly(lateness, inputs, n, inputs[n].ts);
    LateAfter(Run(NewBuffer<E>(lateness), inputs, n).buf, inputs[n]);
  }

  lemma NextFits<E>(inputs: seq<Input<E>>, n: nat, lateness: I64)
    requires n < |inputs| && OnlyArrivals(inputs) && WithinLateness(inputs, lateness)
    ensures var earlier := Arrivals(inputs, n);
            forall x, y :: 0 <= x < |earlier| && 0 <= y < |earlier| && Aged(earlier, x, y, lateness) ==>
                             earlier[x].0 <= inputs[n].ts
  {
    ArrivalsAre(inputs, n);
  }

  lemma {:induction false} ArrivalsAre<E>(inputs: seq<Input<E>>, n: nat)
    requires n <= |inputs| && OnlyArrivals(inputs)
    ensures |Arrivals(inputs, n)| == n
    ensures forall k :: 0 <= k < n ==> Arrivals(inputs, n)[k] == (inputs[k].ts, inputs[k].record)
  {
    if n > 0 { ArrivalsAre(inputs, n - 1); }
  }

  /**
   The clock times that release something are exactly those from the release clock on if and only if adding the
   lateness to the head's timestamp does not overflow and, with a positive lateness, that timestamp is not the least
   integer.
   */
  lemma ReleaseClockIsExact<E>(b: Buffer<E>)
    requires ReleaseClock(b).Some? && 0 <= b.lateness
    ensures (forall now: I64 :: OnClock(b, now).released != [] <==> now >= ReleaseClock(b).value) <==> ClockFits(b)
  {
    ReleasesFromClock(b);
    var clock := ReleaseClock(b).value;
    if b.pending[0].ts + b.lateness > MAX_I64 {
      ReleasesIff(b, clock);
      assert !(OnClock(b, clock).released != []);
    } else if b.lateness > 0 && b.pending[0].ts == MIN_I64 {
      ReleasesIff(b, clock - 1);
      assert OnClock(b, clock - 1).released != [];
    }
  }
}
