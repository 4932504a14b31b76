/**
 The checkpointer: snapshot first, cursor second, each under a deadline, behind a consecutive-failure breaker.
 A snapshot is represented by the stream position it captures. How a write ends, and whether a failed write
 reached the store, is the environment's choice.
 */
module Checkpoints {
  import opened Common

  const MAX_U32: nat := 0xFFFF_FFFF

  /** A refused or timed-out write may or may not have landed, but never lands after the call returns. */
  datatype Write = Acked | Refused(landed: bool) | TimedOut(landed: bool) {
    predicate Landed() { match this case Acked => true case Refused(l) => l case TimedOut(l) => l }
  }

  datatype Stage = StateSave | CursorSave

  datatype CheckpointError =
    | Timeout(stage: Stage)
    | StateStoreError
    | CursorStoreError
    | CircuitOpen(consecutiveFailures: nat)

  datatype Durable<Key> = Durable(snapshots: map<Key, nat>, cursors: map<Key, nat>)

  datatype Counters = Counters(consecutive: nat, commits: nat, failures: nat, timeouts: nat)

  datatype Committed<Key> = Committed(counters: Counters, durable: Durable<Key>, result: Result<(), CheckpointError>)

  function Failed(c: Counters, w: Write): Counters {
    Counters(c.consecutive + 1, c.commits, c.failures + 1, if w.TimedOut? then c.timeouts + 1 else c.timeouts)
  }

  function Saved<Key>(d: Durable<Key>, key: Key, pos: nat, w: Write): Durable<Key> {
    if w.Landed() then d.(snapshots := d.snapshots[key := pos]) else d
  }

  function Moved<Key>(d: Durable<Key>, key: Key, pos: nat, w: Write): Durable<Key> {
    if w.Landed() then d.(cursors := d.cursors[key := pos]) else d
  }

  /** One commit, given how its two writes go (the second matters only after the first is acknowledged). */
  function Commit<Key>(threshold: nat, c: Counters, d: Durable<Key>, key: Key, pos: nat, save: Write,
        move: Write): Committed<Key> {
    if c.consecutive >= threshold then Committed(c, d, Err(CircuitOpen(c.consecutive)))
    else if !save.Acked? then
      Committed(Failed(c, save), Saved(d, key, pos, save),
                Err(if save.TimedOut? then Timeout(StateSave) else StateStoreError))
    else if !move.Acked? then
      Committed(Failed(c, move), Moved(Saved(d, key, pos, save), key, pos, move),
                Err(if move.TimedOut? then Timeout(CursorSave) else CursorStoreError))
    else
      Committed(Counters(0, c.commits + 1, c.failures, c.timeouts),
                Moved(Saved(d, key, pos, save), key, pos, move), Ok(()))
  }

  /** Everything a commit may do to the stores: a write is issued after a closed breaker and the stage before it. */
  ghost predicate Writes<Key>(closed: bool, before: Durable<Key>, after: Durable<Key>, key: Key, pos: nat, save: Write,
        move: Write) {
    && before.snapshots - {key} == after.snapshots - {key} && before.cursors - {key} == after.cursors - {key}
    && (if closed && save.Landed() then key in after.snapshots && after.snapshots[key] == pos
        else SameAt(before.snapshots, after.snapshots, key))
    && (if closed && save.Acked? && move.Landed() then key in after.cursors && after.cursors[key] == pos
        else SameAt(before.cursors, after.cursors, key))
  }

  ghost predicate SameAt<Key>(a: map<Key, nat>, b: map<Key, nat>, key: Key) {
    (key in a <==> key in b) && (key in a && key in b ==> a[key] == b[key])
  }

  /** Success is both writes acknowledged behind a closed breaker; otherwise the error names what failed. */
  ghost predicate Answers(closed: bool, failures: nat, save: Write, move: Write, r: Result<(), CheckpointError>) {
    && (r.Ok? <==> closed && save.Acked? && move.Acked?)
    && (!closed ==> r == Err(CircuitOpen(failures)))
    && (closed && save.TimedOut? ==> r == Err(Timeout(StateSave)))
    && (closed && save.Refused? ==> r == Err(StateStoreError))
    && (closed && save.Acked? && move.TimedOut? ==> r == Err(Timeout(CursorSave)))
    && (closed && save.Acked? && move.Refused? ==> r == Err(CursorStoreError))
  }

  class Checkpointer<Key(==)> {
    const threshold: nat
    var consecutiveFailures: nat
    var commitsTotal: nat
    var failuresTotal: nat
    var timeoutsTotal: nat
    /** What the two stores hold. */
    var snapshots: map<Key, nat>
    var cursors: map<Key, nat>

    ghost function Tally(): Counters
      reads this
    {
      Counters(consecutiveFailures, commitsTotal, failuresTotal, timeoutsTotal)
    }

    ghost function Stores(): Durable<Key>
      reads this
    {
      Durable(snapshots, cursors)
    }

    /** The counters fit their 32-bit cell: the breaker opens before the failure count can wrap. */
    ghost predicate Valid()
      reads this
    {
      threshold <= MAX_U32 && consecutiveFailures <= threshold
    }

    constructor (threshold: nat, snapshots: map<Key, nat>, cursors: map<Key, nat>)
      requires threshold <= MAX_U32
      ensures Valid() && this.threshold == threshold
      ensures Tally() == Counters(0, 0, 0, 0) && Stores() == Durable(snapshots, cursors)
    {
      this.threshold := threshold;
      consecutiveFailures, commitsTotal, failuresTotal, timeoutsTotal := 0, 0, 0, 0;
      this.snapshots, this.cursors := snapshots, cursors;
    }

    method ResetCircuit()
      requires Valid()
      modifies this`consecutiveFailures
      ensures Valid() && Tally() == old(Tally()).(consecutive := 0)
    {
      consecutiveFailures := 0;
    }

    method CommitOnce(key: Key, pos: nat, save: Write, move: Write) returns (r: Result<(), CheckpointError>)
      requires Valid()
      modifies this
      ensures Valid()
      ensures Committed(Tally(), Stores(), r) == Commit(threshold, old(Tally()), old(Stores()), key, pos, save, move)
      ensures var closed := old(consecutiveFailures) < threshold;
              && Writes(closed, old(Stores()), Stores(), key, pos, save, move)
              && Answers(closed, old(consecutiveFailures), save, move, r)
    {
      CommitIs(threshold, Tally(), Stores(), key, pos, save, move);
      hide Writes, Answers;
      var consecutive := consecutiveFailures;
      if consecutive >= threshold {
        return Err(CircuitOpen(consecutive));
      }
      if save.Landed() { snapshots := snapshots[key := pos]; }
      var first := WithDeadline(StateSave, save);
      if first.Err? { return Err(first.error); }
      if !first.value {
        RecordFailure();
        return Err(StateStoreError);
      }
      if move.Landed() { cursors := cursors[key := pos]; }
      var second := WithDeadline(CursorSave, move);
      if second.Err? { return Err(second.error); }
      if !second.value {
        RecordFailure();
        return Err(CursorStoreError);
      }
      consecutiveFailures := 0;
      commitsTotal := commitsTotal + 1;
      return Ok(());
    }

    /** Whether the write was acknowledged, or the deadline's own error with its failure already recorded. */
    method WithDeadline(stage: Stage, w: Write) returns (r: Result<bool, CheckpointError>)
      modifies this`timeoutsTotal, this`consecutiveFailures, this`failuresTotal
      ensures r == if w.TimedOut? then Err(Timeout(stage)) else Ok(w.Acked?)
      ensures Tally() == if w.TimedOut? then Failed(old(Tally()), w) else old(Tally())
    {
      match w {
        case TimedOut(_) =>
          timeoutsTotal := timeoutsTotal + 1;
          RecordFailure();
          r := Err(Timeout(stage));
        case _ => r := Ok(w.Acked?);
      }
    }

    method RecordFailure()
      modifies this`consecutiveFailures, this`failuresTotal
      ensures consecutiveFailures == old(consecutiveFailures) + 1 && failuresTotal == old(failuresTotal) + 1
    {
      consecutiveFailures := consecutiveFailures + 1;
      failuresTotal := failuresTotal + 1;
    }
  }

  /** What a commit does, from its two writes and the breaker alone. */
  lemma CommitIs<Key>(threshold: nat, c: Counters, d: Durable<Key>, key: Key, pos: nat, save: Write, move: Write)
    ensures var r, closed := Commit(threshold, c, d, key, pos, save, move), c.consecutive < threshold;
            && Writes(closed, d, r.durable, key, pos, save, move)
            && Answers(closed, c.consecutive, save, move, r.result)
  {
  }

  // ---- Runs with crashes ----

  /**
   `Crash` is a process death, possibly inside a commit: `save` says whether its snapshot write landed and, if that
   was acknowledged, `move` whether its cursor write landed. The next process starts with fresh counters.
   */
  datatype Event<Key> =
    | Attempt(key: Key, pos: nat, save: Write, move: Write)
    | Crash(key: Key, pos: nat, save: Write, move: Write)
    | ResetBreaker

  datatype World<Key> = World(counters: Counters, durable: Durable<Key>)

  function Happen<Key>(threshold: nat, w: World<Key>, e: Event<Key>): World<Key> {
    match e
    case Attempt(key, pos, save, move) =>
      var r := Commit(threshold, w.counters, w.durable, key, pos, save, move);
      World(r.counters, r.durable)
    case Crash(key, pos, save, move) =>
      World(Counters(0, 0, 0, 0), Commit(threshold, w.counters, w.durable, key, pos, save, move).durable)
    case ResetBreaker => World(w.counters.(consecutive := 0), w.durable)
  }

  function History<Key>(threshold: nat, start: Durable<Key>, events: seq<Event<Key>>, n: nat): World<Key>
    requires n <= |events|
  {
    if n == 0 then World(Counters(0, 0, 0, 0), start)
    else Happen(threshold, History(threshold, start, events, n - 1), events[n - 1])
  }

  /** The durable cursor never passes the durable snapshot. */
  ghost predicate Safe<Key>(d: Durable<Key>) {
    forall key :: key in d.cursors ==> key in d.snapshots && d.cursors[key] <= d.snapshots[key]
  }

  /** A position the stream can be at: not below the durable cursor it resumed from. */
  predicate NotBelowCursor<Key(==)>(d: Durable<Key>, key: Key, pos: nat) {
    key in d.cursors ==> d.cursors[key] <= pos
  }

  ghost predicate Replays<Key>(threshold: nat, start: Durable<Key>, events: seq<Event<Key>>) {
    forall n :: 0 <= n < |events| && !events[n].ResetBreaker? ==>
      NotBelowCursor(History(threshold, start, events, n).durable, events[n].key, events[n].pos)
  }

  lemma CommitKeepsSafe<Key>(threshold: nat, c: Counters, d: Durable<Key>, key: Key, pos: nat, save: Write, move: Write)
    requires Safe(d) && NotBelowCursor(d, key, pos)
    ensures Safe(Commit(threshold, c, d, key, pos, save, move).durable)
  {
  }

  /** Crash safety: whatever fails, times out or crashes, after every event the cursor is at most the snapshot. */
  lemma {:induction false} CrashSafe<Key>(threshold: nat, start: Durable<Key>, events: seq<Event<Key>>, n: nat)
    requires Safe(start) && Replays(threshold, start, events) && n <= |events|
    ensures Safe(History(threshold, start, events, n).durable)
  {
    hide Safe, Commit;
    if n > 0 {
      CrashSafe(threshold, start, events, n - 1);
      var w, e := History(threshold, start, events, n - 1), events[n - 1];
      if !e.ResetBreaker? {
        CommitKeepsSafe(threshold, w.counters, w.durable, e.key, e.pos, e.save, e.move);
      }
    }
  }

  /** The demand on positions is exact: with a closed breaker, some outcome of a commit below the cursor is unsafe. */
  lemma PositionsMustNotRegress<Key(!new)>(threshold: nat, c: Counters, d: Durable<Key>, key: Key, pos: nat)
    requires Safe(d)
    ensures (forall save: Write, move: Write :: Safe(Commit(threshold, c, d, key, pos, save, move).durable))
        <==> c.consecutive >= threshold || NotBelowCursor(d, key, pos)
  {
    if c.consecutive < threshold && !NotBelowCursor(d, key, pos) {
      var after := Commit(threshold, c, d, key, pos, Acked, Refused(false)).durable;
      assert after.snapshots[key] == pos < after.cursors[key];
    } else {
      forall save: Write, move: Write ensures Safe(Commit(threshold, c, d, key, pos, save, move).durable) {
        if c.consecutive < threshold { CommitKeepsSafe(threshold, c, d, key, pos, save, move); }
      }
    }
  }

  // ---- What is durable ----

  /** Event `k` wrote this key's snapshot, or its cursor: the breaker was closed and the write was issued and landed. */
  ghost predicate Wrote<Key>(threshold: nat, start: Durable<Key>, events: seq<Event<Key>>, k: nat, key: Key,
        cursor: bool) {
    && k < |events| && !events[k].ResetBreaker? && events[k].key == key
    && History(threshold, start, events, k).counters.consecutive < threshold
    && if cursor then events[k].save.Acked? && events[k].move.Landed() else events[k].save.Landed()
  }

  /** The value under `key` is the position of the last event that wrote it, or the initial one when none did. */
  ghost predicate LastWritten<Key>(threshold: nat, start: Durable<Key>, events: seq<Event<Key>>, n: nat, key: Key,
        cursor: bool, initial: map<Key, nat>, now: map<Key, nat>)
    requires n <= |events|
  {
    || ((forall k :: 0 <= k < n ==> !Wrote(threshold, start, events, k, key, cursor)) && SameAt(initial, now, key))
    || (exists k :: 0 <= k < n && Wrote(threshold, start, events, k, key, cursor)
                    && key in now && now[key] == events[k].pos
                    && forall j :: k < j < n ==> !Wrote(threshold, start, events, j, key, cursor))
  }

  /** One event writes a key's snapshot or cursor exactly when it issues the write and that lands. */
  lemma HappensWriting<Key>(threshold: nat, w: World<Key>, e: Event<Key>, key: Key)
    ensures var d, d' := w.durable, Happen(threshold, w, e).durable;
            var issued := !e.ResetBreaker? && e.key == key && w.counters.consecutive < threshold;
            && (if issued && e.save.Landed() then key in d'.snapshots && d'.snapshots[key] == e.pos
                else SameAt(d.snapshots, d'.snapshots, key))
            && (if issued && e.save.Acked? && e.move.Landed() then key in d'.cursors && d'.cursors[key] == e.pos
                else SameAt(d.cursors, d'.cursors, key))
  {
  }

  lemma WrittenNext<Key>(threshold: nat, start: Durable<Key>, events: seq<Event<Key>>, n: nat, key: Key, cursor: bool,
        initial: map<Key, nat>, now: map<Key, nat>, next: map<Key, nat>)
    requires n < |events| && LastWritten(threshold, start, events, n, key, cursor, initial, now)
    requires if Wrote(threshold, start, events, n, key, cursor) then key in next && next[key] == events[n].pos
             else SameAt(now, next, key)
    ensures LastWritten(threshold, start, events, n + 1, key, cursor, initial, next)
  {
    hide Wrote;
  }

  /**
   Durability over any run of commits, crashes and resets: what a store holds for a key is the position of the last of
   its writes that was issued and landed.
   */
  lemma {:induction false} StoresHoldLastWritten<Key>(threshold: nat, start: Durable<Key>, events: seq<Event<Key>>,
        n: nat, key: Key)
    requires n <= |events|
    ensures var d := History(threshold, start, events, n).durable;
            && LastWritten(threshold, start, events, n, key, false, start.snapshots, d.snapshots)
            && LastWritten(threshold, start, events, n, key, true, start.cursors, d.cursors)
  {
    if n == 0 { return; }
    StoresHoldLastWritten(threshold, start, events, n - 1, key);
    var w, d := History(threshold, start, events, n - 1), History(threshold, start, events, n).durable;
    HappensWriting(threshold, w, events[n - 1], key);
    assert d == Happen(threshold, w, events[n - 1]).durable;
    hide Happen, History, LastWritten;
    WrittenNext(threshold, start, events, n - 1, key, false, start.snapshots, w.durable.snapshots, d.snapshots);
    WrittenNext(threshold, start, events, n - 1, key, true, start.cursors, w.durable.cursors, d.cursors);
  }

  // ---- The breaker and the counters ----

  /** How an event ended, when it is a commit that ran to completion and was not rejected by the breaker. */
  function EndOf<Key>(threshold: nat, w: World<Key>, e: Event<Key>): Option<bool> {
    if !e.Attempt? || w.counters.consecutive >= threshold then None
    else Some(e.save.Acked? && e.move.Acked?)
  }

  function FailuresSince<Key>(threshold: nat, start: Durable<Key>, events: seq<Event<Key>>, n: nat): nat
    requires n <= |events|
  {
    if n == 0 || !events[n - 1].Attempt? then 0
    else
      match EndOf(threshold, History(threshold, start, events, n - 1), events[n - 1])
      case Some(true) => 0
      case Some(false) => FailuresSince(threshold, start, events, n - 1) + 1
      case None => FailuresSince(threshold, start, events, n - 1)
  }

  /** Completed commits of the current process that ended this way. */
  function Completed<Key>(threshold: nat, start: Durable<Key>, events: seq<Event<Key>>, n: nat, end: bool): nat
    requires n <= |events|
  {
    if n == 0 || events[n - 1].Crash? then 0
    else Completed(threshold, start, events, n - 1, end)
         + (if EndOf(threshold, History(threshold, start, events, n - 1), events[n - 1]) == Some(end) then 1 else 0)
  }

  /** Commits of the current process that ended in a timeout of either stage. */
  function TimedOutCommits<Key>(threshold: nat, start: Durable<Key>, events: seq<Event<Key>>, n: nat): nat
    requires n <= |events|
  {
    if n == 0 || events[n - 1].Crash? then 0
    else
      var e, w := events[n - 1], History(threshold, start, events, n - 1);
      TimedOutCommits(threshold, start, events, n - 1)
      + (if e.Attempt? && w.counters.consecutive < threshold
            && (e.save.TimedOut? || (e.save.Acked? && e.move.TimedOut?))
         then 1 else 0)
  }

  /**
   The failure counter is the failures since the last success, reset or restart; it never exceeds the threshold; each
   completed commit that was not rejected is counted once, as a commit or as a failure; and each that timed out is
   counted as a timeout, too.
   */
  lemma {:induction false} CountersAreExact<Key>(threshold: nat, start: Durable<Key>, events: seq<Event<Key>>, n: nat)
    requires n <= |events|
    ensures var c := History(threshold, start, events, n).counters;
            && c.consecutive == FailuresSince(threshold, start, events, n) <= threshold
            && c.commits == Completed(threshold, start, events, n, true)
            && c.failures == Completed(threshold, start, events, n, false)
            && c.timeouts == TimedOutCommits(threshold, start, events, n) <= c.failures
  {
    if n > 0 {
      CountersAreExact(threshold, start, events, n - 1);
    }
  }

  /** An open breaker performs no write and stays open through any number of attempts, until a reset or a restart. */
  lemma {:induction false} OpenStaysOpen<Key>(threshold: nat, start: Durable<Key>, events: seq<Event<Key>>, m: nat,
        n: nat)
    requires m <= n <= |events| && History(threshold, start, events, m).counters.consecutive >= threshold
    requires forall k :: m <= k < n ==> events[k].Attempt?
    ensures History(threshold, start, events, n) == History(threshold, start, events, m)
  {
    if m < n { OpenStaysOpen(threshold, start, events, m, n - 1); }
  }

  ghost predicate AllFail<Key>(events: seq<Event<Key>>) {
    forall k :: 0 <= k < |events| ==> events[k].Attempt? && !(events[k].save.Acked? && events[k].move.Acked?)
  }

  /**
   No threshold disables the breaker: under failing attempts it is open exactly from the threshold-th on. The remark
   that the largest 32-bit threshold disables it holds only for shorter runs of failures.
   */
  lemma {:induction false} EveryThresholdOpens<Key>(threshold: nat, start: Durable<Key>, events: seq<Event<Key>>,
        n: nat)
    requires AllFail(events) && n <= |events|
    ensures History(threshold, start, events, n).counters.consecutive == if n < threshold then n else threshold
  {
    if n > 0 { EveryThresholdOpens(threshold, start, events, n - 1); }
  }
}
