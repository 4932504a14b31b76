/** Where every partial goes, what a second flush does, and what holds of every partial in flight. */
module Accounting {
  import opened Common
  import opened Matching
  import opened Engine
  import opened Refinement
  import opened GenuineRuns

  function Opened<E>(steps: seq<Step<E>>, h: seq<Action<E>>, n: nat): nat
    requires |steps| > 0 && n <= |h|
  {
    if n == 0 then 0 else Opened(steps, h, n - 1) + (if Opens(steps, h[n - 1]) then 1 else 0)
  }

  /** Partials cancelled, hit by a guard, broken by strict contiguity, or cleared by a reset. */
  function KilledIn<E>(steps: seq<Step<E>>, h: seq<Action<E>>, n: nat): nat
    requires |steps| > 0 && n <= |h|
  {
    if n == 0 then 0
    else
      var os := Outcomes(steps, InFlight(steps, h, n - 1), h[n - 1]);
      KilledIn(steps, h, n - 1) + Kills(os, 0, |os|)
  }

  function CountOf(drops: seq<DropReason>, reason: DropReason): nat {
    if drops == [] then 0 else CountOf(drops[..|drops| - 1], reason) + (if drops[|drops| - 1] == reason then 1 else 0)
  }

  lemma {:induction false} OutcomesPartition<E>(os: seq<Outcome<E>>, n: nat)
    requires n <= |os|
    ensures n == |Stayers(os, 0, n)| + |Resolutions(os, 0, n)| + |Finishes(os, 0, n)| + Lapses(os, 0, n)
              + Kills(os, 0, n)
  {
    if n > 0 { OutcomesPartition(os, n - 1); }
  }

  lemma {:induction false} CountConcat(a: seq<DropReason>, b: seq<DropReason>, reason: DropReason)
    ensures CountOf(a + b, reason) == CountOf(a, reason) + CountOf(b, reason)
  {
    if b == [] {
      assert a + b == a;
    } else {
      assert (a + b)[..|a + b| - 1] == a + b[..|b| - 1];
      CountConcat(a, b[..|b| - 1], reason);
    }
  }

  lemma {:induction false} CountAll(drops: seq<DropReason>)
    ensures |drops| == CountOf(drops, Deadline) + CountOf(drops, MaxInFlight) + CountOf(drops, DropReason.Late)
  {
    if drops != [] { CountAll(drops[..|drops| - 1]); }
  }

  lemma {:induction false} CountRepeat(reason: DropReason, n: nat, other: DropReason)
    ensures CountOf(Repeat(reason, n), other) == if reason == other then n else 0
  {
    if n > 0 {
      assert Repeat(reason, n)[..n - 1] == Repeat(reason, n - 1);
      CountRepeat(reason, n - 1, other);
    }
  }

  lemma CountOne(reason: DropReason)
    ensures forall other :: CountOf([], other) == 0 && CountOf([reason], other) == if reason == other then 1 else 0
  {
    assert [reason][..0] == [];
  }

  lemma TransitionConserves<E>(steps: seq<Step<E>>, ps: seq<PartialMatch<E>>, a: Action<E>)
    requires |steps| > 0 && AllSound(steps, ps)
    ensures var e, os := Transition(steps, ps, a), Outcomes(steps, ps, a);
            && |ps| + (if Opens(steps, a) then 1 else 0)
               == |e.inFlight| + |e.emitted| + CountOf(e.drops, Deadline) + CountOf(e.drops, MaxInFlight)
                 + Kills(os, 0, |os|)
            && CountOf(e.drops, DropReason.Late) == 0
  {
    hide React;
    var os := Outcomes(steps, ps, a);
    OutcomesPartition(os, |os|);
    ReverseAt(Finishes(os, 0, |os|));
    var lapses := Repeat(Deadline, Lapses(os, 0, |os|));
    var overflow := if |Stayers(os, 0, |os|) + Opening(steps, a)| > MAX_IN_FLIGHT then [MaxInFlight] else [];
    forall reason ensures CountOf(lapses + overflow, reason) == CountOf(lapses, reason) + CountOf(overflow, reason) {
      CountConcat(lapses, overflow, reason);
    }
    CountRepeat(Deadline, Lapses(os, 0, |os|), Deadline);
    CountRepeat(Deadline, Lapses(os, 0, |os|), MaxInFlight);
    CountRepeat(Deadline, Lapses(os, 0, |os|), DropReason.Late);
    CountOne(MaxInFlight);
    hide CountOf, Stayers, Resolutions, Finishes, Lapses, Kills, Repeat, Outcomes;
    assert Transition(steps, ps, a).drops == lapses + overflow;
  }

  /** Over any run from empty, every opened partial is emitted, dropped with a notice, killed, or still in flight. */
  lemma {:induction false} EveryPartialAccountedFor<E>(steps: seq<Step<E>>, h: seq<Action<E>>, n: nat)
    requires |steps| > 0 && n <= |h|
    ensures var e := Exec(steps, [], h, n);
            && Opened(steps, h, n)
               == |e.inFlight| + |e.emitted| + CountOf(e.drops, Deadline) + CountOf(e.drops, MaxInFlight)
                 + KilledIn(steps, h, n)
            && |e.drops| == CountOf(e.drops, Deadline) + CountOf(e.drops, MaxInFlight)
  {
    hide Transition, CountOf, Outcomes, Kills, Opens;
    if n == 0 {
      CountOne(Deadline);
    } else {
      EveryPartialAccountedFor(steps, h, n - 1);
      var before := Exec(steps, [], h, n - 1);
      var step := Transition(steps, before.inFlight, h[n - 1]);
      TransitionConserves(steps, before.inFlight, h[n - 1]);
      CountConcat(before.drops, step.drops, Deadline);
      CountConcat(before.drops, step.drops, MaxInFlight);
      CountAll(step.drops);
    }
  }

  /**
   A push through the reorder buffer adds one late notice per event the buffer has just rejected, before the matcher's
   own.
   */
  lemma PushCountsLate<E>(steps: seq<Step<E>>, m: Machine<E>, event: E, ts: I64)
    requires |steps| > 0 && AllSound(steps, m.inFlight) && (m.buf.Some? ==> m.buf.value.late == [])
    ensures var after := OnPush(steps, m, event, ts).machine;
            && CountOf(after.drops, DropReason.Late)
               == CountOf(m.drops, DropReason.Late) + (if m.buf.Some? && Reorder.Late(m.buf.value, ts) then 1 else 0)
            && (after.buf.Some? ==> after.buf.value.late == [])
  {
    hide Transition, Exec, CountOf;
    var late := if m.buf.None? then 0 else |Reorder.OnEvent(m.buf.value, ts, event).buf.late|;
    var actions := if m.buf.None? then [Push(event, ts)]
        else PushesOf(Reorder.Pairs(Reorder.OnEvent(m.buf.value, ts, event).released));
    var e := Exec(steps, m.inFlight, actions, |actions|);
    NoLateInside(steps, m.inFlight, actions, |actions|);
    assert m.buf.None? ==> m.drops + Repeat(DropReason.Late, 0) == m.drops;
    CountConcat(m.drops, Repeat(DropReason.Late, late), DropReason.Late);
    CountConcat(m.drops + Repeat(DropReason.Late, late), e.drops, DropReason.Late);
    CountRepeat(DropReason.Late, late, DropReason.Late);
  }

  lemma {:induction false} NoLateInside<E>(steps: seq<Step<E>>, ps: seq<PartialMatch<E>>, actions: seq<Action<E>>,
        n: nat)
    requires |steps| > 0 && AllSound(steps, ps) && n <= |actions|
    ensures CountOf(Exec(steps, ps, actions, n).drops, DropReason.Late) == 0
  {
    hide Transition;
    if n > 0 {
      NoLateInside(steps, ps, actions, n - 1);
      var before := Exec(steps, ps, actions, n - 1);
      TransitionConserves(steps, before.inFlight, actions[n - 1]);
      CountConcat(before.drops, Transition(steps, before.inFlight, actions[n - 1]).drops, DropReason.Late);
    }
  }

  // ---- Whole runs of calls, with or without the buffer ----

  datatype Call<E> = CallPush(event: E, ts: I64) | CallTick(now: I64) | CallFlush | CallReset

  function Called<E>(steps: seq<Step<E>>, m: Machine<E>, c: Call<E>): (t: Turn<E>)
    requires |steps| > 0 && AllSound(steps, m.inFlight)
    ensures AllSound(steps, t.machine.inFlight)
  {
    match c
    case CallPush(event, ts) => OnPush(steps, m, event, ts)
    case CallTick(now) => OnTick(steps, m, now)
    case CallFlush => OnEnd(steps, m)
    case CallReset => OnReset(steps, m)
  }

  /** The first `n` calls, emissions concatenated. */
  function CallRun<E>(steps: seq<Step<E>>, m: Machine<E>, calls: seq<Call<E>>, n: nat): (t: Turn<E>)
    requires |steps| > 0 && AllSound(steps, m.inFlight) && n <= |calls|
    ensures AllSound(steps, t.machine.inFlight)
  {
    if n == 0 then Turn(m, [])
    else
      var before := CallRun(steps, m, calls, n - 1);
      var now := Called(steps, before.machine, calls[n - 1]);
      Turn(now.machine, before.emitted + now.emitted)
  }

  /** What a call has the matcher do: the events the buffer lets go, then the call's own sweep, resolution or reset. */
  function ActionsOf<E>(buf: Option<Reorder.Buffer<E>>, c: Call<E>): seq<Action<E>> {
    match c
    case CallPush(event, ts) =>
      if buf.None? then [Push(event, ts)] else PushesOf(Reorder.Pairs(Reorder.OnEvent(buf.value, ts, event).released))
    case CallTick(now) =>
      (if buf.None? then [] else PushesOf(Reorder.Pairs(Reorder.OnClock(buf.value, now).released))) + [Tick(now)]
    case CallFlush =>
      (if buf.None? then [] else PushesOf(Reorder.Pairs(Reorder.OnFlush(buf.value).released))) + [Action.Flush]
    case CallReset => [Action.Reset]
  }

  predicate Rejected<E>(buf: Option<Reorder.Buffer<E>>, c: Call<E>) {
    c.CallPush? && buf.Some? && Reorder.Late(buf.value, c.ts)
  }

  function AllActions<E>(steps: seq<Step<E>>, m: Machine<E>, calls: seq<Call<E>>, n: nat): seq<Action<E>>
    requires |steps| > 0 && AllSound(steps, m.inFlight) && n <= |calls|
  {
    if n == 0 then []
    else AllActions(steps, m, calls, n - 1) + ActionsOf(CallRun(steps, m, calls, n - 1).machine.buf, calls[n - 1])
  }

  function AllRejected<E>(steps: seq<Step<E>>, m: Machine<E>, calls: seq<Call<E>>, n: nat): nat
    requires |steps| > 0 && AllSound(steps, m.inFlight) && n <= |calls|
  {
    if n == 0 then 0
    else
      var buf := CallRun(steps, m, calls, n - 1).machine.buf;
      AllRejected(steps, m, calls, n - 1) + (if Rejected(buf, calls[n - 1]) then 1 else 0)
  }

  ghost predicate LateTaken<E>(m: Machine<E>) {
    m.buf.Some? ==> m.buf.value.late == []
  }

  /** One call: its actions, run by the matcher, and one late notice if the buffer rejected its event. */
  lemma CallIsActions<E>(steps: seq<Step<E>>, m: Machine<E>, c: Call<E>)
    requires |steps| > 0 && AllSound(steps, m.inFlight) && LateTaken(m)
    ensures var t, actions := Called(steps, m, c), ActionsOf(m.buf, c);
            var e := Exec(steps, m.inFlight, actions, |actions|);
            && t.machine.inFlight == e.inFlight && t.emitted == e.emitted && LateTaken(t.machine)
            && t.machine.drops
               == m.drops + Repeat(DropReason.Late, if Rejected(m.buf, c) then 1 else 0) + e.drops
  {
    hide Transition, Exec;
    assert m.drops + Repeat(DropReason.Late, 0) == m.drops;
    match c {
      case CallPush(event, ts) =>
        PushCountsLate(steps, m, event, ts);
      case CallTick(now) =>
        assert [] + [Action<E>.Tick(now)] == [Action.Tick(now)];
      case CallFlush =>
        assert [] + [Action<E>.Flush] == [Action.Flush];
      case CallReset =>
    }
  }

  lemma LateCounted(all: seq<DropReason>, late: bool, more: seq<DropReason>, reason: DropReason)
    ensures var grown := all + Repeat(DropReason.Late, if late then 1 else 0) + more;
            CountOf(grown, reason)
            == CountOf(all, reason) + (if late && reason == DropReason.Late then 1 else 0) + CountOf(more, reason)
  {
    var n := if late then 1 else 0;
    CountConcat(all + Repeat(DropReason.Late, n), more, reason);
    CountConcat(all, Repeat(DropReason.Late, n), reason);
    CountRepeat(DropReason.Late, n, reason);
  }

  /**
   The runtime's run is the matcher's run over everything the calls had it do, with one late notice per rejected push.
   */
  lemma {:induction false} RunIsActions<E>(steps: seq<Step<E>>, m: Machine<E>, calls: seq<Call<E>>, n: nat)
    requires |steps| > 0 && m.inFlight == [] && m.drops == [] && LateTaken(m) && n <= |calls|
    ensures var t, h := CallRun(steps, m, calls, n), AllActions(steps, m, calls, n);
            var e := Exec(steps, [], h, |h|);
            && t.machine.inFlight == e.inFlight && t.emitted == e.emitted && LateTaken(t.machine)
            && CountOf(t.machine.drops, DropReason.Late) == AllRejected(steps, m, calls, n)
            && CountOf(t.machine.drops, Deadline) == CountOf(e.drops, Deadline)
            && CountOf(t.machine.drops, MaxInFlight) == CountOf(e.drops, MaxInFlight)
  {
    hide Exec, Called, ActionsOf, Rejected, CountOf;
    if n == 0 {
      ExecNone<E>(steps, [], []);
      CountOne(Deadline);
    } else {
      RunIsActions(steps, m, calls, n - 1);
      var t, h := CallRun(steps, m, calls, n - 1), AllActions(steps, m, calls, n - 1);
      var c := calls[n - 1];
      var actions := ActionsOf(t.machine.buf, c);
      var e := Exec(steps, [], h, |h|);
      var more := Exec(steps, e.inFlight, actions, |actions|);
      CallIsActions(steps, t.machine, c);
      ExecConcat(steps, [], h, actions, |actions|);
      NoLateInside(steps, e.inFlight, actions, |actions|);
      var late := Rejected(t.machine.buf, c);
      LateCounted(t.machine.drops, late, more.drops, DropReason.Late);
      LateCounted(t.machine.drops, late, more.drops, Deadline);
      LateCounted(t.machine.drops, late, more.drops, MaxInFlight);
      CountConcat(e.drops, more.drops, Deadline);
      CountConcat(e.drops, more.drops, MaxInFlight);
    }
  }

  /**
   Over any run of pushes, ticks, flushes and resets, with or without the reorder buffer: every opened partial is
   emitted, dropped with a notice, killed or still in flight, and the drop notices are the deadline drops, the overflow
   drops and one late drop per rejected push.
   */
  lemma RunConservesPartials<E>(steps: seq<Step<E>>, m: Machine<E>, calls: seq<Call<E>>, n: nat)
    requires |steps| > 0 && m.inFlight == [] && m.drops == [] && LateTaken(m) && n <= |calls|
    ensures var t, h := CallRun(steps, m, calls, n), AllActions(steps, m, calls, n);
            var drops := t.machine.drops;
            && Opened(steps, h, |h|)
               == |t.machine.inFlight| + |t.emitted| + CountOf(drops, Deadline) + CountOf(drops, MaxInFlight)
                 + KilledIn(steps, h, |h|)
            && |drops| == CountOf(drops, Deadline) + CountOf(drops, MaxInFlight) + AllRejected(steps, m, calls, n)
  {
    hide Exec, CallRun, AllActions, CountOf, Opened, KilledIn;
    var h := AllActions(steps, m, calls, n);
    RunIsActions(steps, m, calls, n);
    EveryPartialAccountedFor(steps, h, |h|);
    CountAll(CallRun(steps, m, calls, n).machine.drops);
  }

  // ---- Flushing twice ----

  ghost predicate Settled<E>(steps: seq<Step<E>>, pm: PartialMatch<E>) {
    Sound(steps, pm) && FlushOutcome(steps, pm) == Stay(pm)
  }

  lemma {:induction false} FlushLeavesUnresolved<E>(steps: seq<Step<E>>, ps: seq<PartialMatch<E>>, n: nat)
    requires AllSound(steps, ps) && n <= |ps|
    ensures var os := Outcomes(steps, ps, Action.Flush);
            forall k :: 0 <= k < |Stayers(os, 0, n)| ==> Settled(steps, Stayers(os, 0, n)[k])
  {
    hide OfferOutcome, SweepOutcome, Settled;
    if n > 0 {
      FlushLeavesUnresolved(steps, ps, n - 1);
      StayerSettled(steps, ps[n - 1]);
    }
  }

  lemma StayerSettled<E>(steps: seq<Step<E>>, pm: PartialMatch<E>)
    requires Sound(steps, pm)
    ensures React(steps, pm, Action.Flush).Stay? ==> Settled(steps, React(steps, pm, Action.Flush).pm)
  {
    hide OfferOutcome, SweepOutcome;
  }

  lemma {:induction false} NothingToResolve<E>(steps: seq<Step<E>>, ps: seq<PartialMatch<E>>, n: nat)
    requires AllSound(steps, ps) && n <= |ps|
    requires forall k :: 0 <= k < |ps| ==> Settled(steps, ps[k])
    ensures var os := Outcomes(steps, ps, Action.Flush);
            Stayers(os, 0, n) == ps[..n] && Resolutions(os, 0, n) == []
  {
    hide OfferOutcome, SweepOutcome, FlushOutcome;
    if n > 0 {
      NothingToResolve(steps, ps, n - 1);
      assert ps[..n] == ps[..n - 1] + [ps[n - 1]];
    }
  }

  lemma FlushAgain<E>(steps: seq<Step<E>>, ps: seq<PartialMatch<E>>)
    requires |steps| > 0 && AllSound(steps, ps) && |ps| <= MAX_IN_FLIGHT
    ensures var after := Transition(steps, ps, Action.Flush).inFlight;
            Transition(steps, after, Action.Flush) == Effect(after, [], [])
  {
    hide Transition, React;
    var after := Staying(steps, ps, Action.Flush);
    FlushIsResolve(steps, ps);
    FlushIsResolve(steps, after);
    FlushLeavesUnresolved(steps, ps, |ps|);
    NothingToResolve(steps, after, |after|);
    assert after[..|after|] == after;
  }

  /** A second consecutive flush emits nothing and changes nothing, with or without a reorder buffer. */
  lemma FlushIdempotent<E>(steps: seq<Step<E>>, m: Machine<E>)
    requires |steps| > 0 && AllSound(steps, m.inFlight) && |m.inFlight| <= MAX_IN_FLIGHT
    ensures var once := OnEnd(steps, m).machine;
            OnEnd(steps, once) == Turn(once, [])
  {
    hide Transition, Exec;
    var once := OnEnd(steps, m).machine;
    var pushes: seq<Action<E>> := if m.buf.None? then []
        else PushesOf(Reorder.Pairs(Reorder.OnFlush(m.buf.value).released));
    var first := Exec(steps, m.inFlight, pushes, |pushes|);
    assert m.buf.None? ==> pushes + [Action.Flush] == [Action.Flush];
    ExecSnoc(steps, m.inFlight, pushes, Action.Flush);
    FlushAgain(steps, first.inFlight);
    ExecNone(steps, m.inFlight, pushes);
    ExecOne(steps, once.inFlight, Action.Flush);
    assert once.drops + [] == once.drops;
    if m.buf.Some? {
      assert once.buf.value.pending == [];
      assert PushesOf(Reorder.Pairs<E>([])) + [Action.Flush] == [Action<E>.Flush];
    }
  }

  // ---- What a well-formed pattern guarantees of every partial in flight ----

  ghost predicate SafePartial<E>(steps: seq<Step<E>>, pm: PartialMatch<E>) {
    && 1 <= pm.nextStep < |steps|
    && pm.captures != []
    && (match steps[pm.nextStep].repeat case None => pm.repeatCount == 0 case Some(spec) => pm.repeatCount < spec.max)
  }

  lemma {:induction false} SurvivorSource<E>(steps: seq<Step<E>>, h: seq<Action<E>>, m: nat, n: nat,
        k: nat) returns (i: nat)
    requires |steps| > 0 && m <= n <= |h| && k < |Survivors(steps, h, m, n, n)|
    ensures i < m && Solo(steps, h, i, n).Live? && Solo(steps, h, i, n).pm == Survivors(steps, h, m, n, n)[k]
    decreases m
  {
    hide Solo, Roomy;
    if k < |Survivors(steps, h, m - 1, n, n)| {
      i := SurvivorSource(steps, h, m - 1, n, k);
    } else {
      i := m - 1;
    }
  }

  /** For a pattern the builder accepts, every partial in flight after any run is safe, and there are at most 1024. */
  lemma InFlightIsSafe<E>(steps: seq<Step<E>>, h: seq<Action<E>>, n: nat, k: nat)
    requires WellFormed(steps) && Inputs(h) && n <= |h| && k < |InFlight(steps, h, n)|
    ensures |InFlight(steps, h, n)| <= MAX_IN_FLIGHT && SafePartial(steps, InFlight(steps, h, n)[k])
  {
    hide InFlight;
    MachineIsSolos(steps, h, n);
    var i := SurvivorSource(steps, h, n, n, k);
    var r := LiveIsExplained(steps, h, i, n);
  }

  /** A re-offered event is never re-offered again: a fresh repetition needs at least one match. */
  lemma AtMostTwoRounds<E>(steps: seq<Step<E>>, pm: PartialMatch<E>, event: E, ts: I64)
    requires WellFormed(steps) && Sound(steps, pm)
    ensures Rounds(steps, pm, event, ts) <= 2
  {
    hide Matches, Guarded;
    if pm.nextStep + 1 < |steps| {
      assert StepWellFormed(steps, pm.nextStep + 1);
      assert Rounds(steps, Advanced(steps, pm, ts), event, ts) <= 1;
    }
  }
}
