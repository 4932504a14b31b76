/**
 `Runtime`: the matcher as the engine runs it, editing the in-flight list in place, with the optional
 reorder buffer in front. Every method is proved equal to the transition functions of `Matching` and `Reorder`.
 */
module Engine {
  import opened Common
  import opened Matching
  import opened Reorder

  datatype Disposition = Keep | Remove | Complete

  /** Emissions as the caller sees them: each captured sequence through the emit callback. */
  function EmitAll<E, M>(c: Compiled<E, M>, captures: seq<seq<Capture<E>>>): (r: seq<M>)
    ensures |r| == |captures|
  {
    if captures == [] then []
    else
      var last := |captures| - 1;
      EmitAll(c, captures[..last]) + [c.emit(Match(c.name, captures[last]))]
  }

  /** Every emission is the callback on its own captures under the pattern's name, in order. */
  lemma {:induction false} EmitsInOrder<E, M>(c: Compiled<E, M>, captures: seq<seq<Capture<E>>>, k: nat)
    requires k < |captures|
    ensures EmitAll(c, captures)[k] == c.emit(Match(c.name, captures[k]))
  {
    if k < |captures| - 1 { EmitsInOrder(c, captures[..|captures| - 1], k); }
  }

  function PushesOf<E>(released: seq<(I64, E)>): (r: seq<Action<E>>)
    ensures |r| == |released|
    ensures forall k :: 0 <= k < |r| ==> r[k] == Push(released[k].1, released[k].0)
  {
    seq(|released|, k requires 0 <= k < |released| => Push(released[k].1, released[k].0))
  }

  /** The matcher's state with the reorder buffer, when there is one. `drops` is every drop notice given so far. */
  datatype Machine<E> = Machine(inFlight: seq<PartialMatch<E>>, drops: seq<DropReason>, buf: Option<Buffer<E>>)

  datatype Turn<E> = Turn(machine: Machine<E>, emitted: seq<seq<Capture<E>>>)

  function Feed<E>(steps: seq<Step<E>>, m: Machine<E>, actions: seq<Action<E>>): (t: Turn<E>)
    requires |steps| > 0 && AllSound(steps, m.inFlight)
    ensures AllSound(steps, t.machine.inFlight)
  {
    var effect := Exec(steps, m.inFlight, actions, |actions|);
    Turn(Machine(effect.inFlight, m.drops + effect.drops, m.buf), effect.emitted)
  }

  function OnPush<E>(steps: seq<Step<E>>, m: Machine<E>, event: E, ts: I64): (t: Turn<E>)
    requires |steps| > 0 && AllSound(steps, m.inFlight)
    ensures AllSound(steps, t.machine.inFlight)
  {
    match m.buf
    case None => Feed(steps, m, [Push(event, ts)])
    case Some(b) =>
      var d := OnEvent(b, ts, event);
      Feed(steps,
           Machine(m.inFlight, m.drops + Repeat(DropReason.Late, |d.buf.late|), Some(d.buf.(late := []))),
           PushesOf(Pairs(d.released)))
  }

  function OnTick<E>(steps: seq<Step<E>>, m: Machine<E>, now: I64): (t: Turn<E>)
    requires |steps| > 0 && AllSound(steps, m.inFlight)
    ensures AllSound(steps, t.machine.inFlight)
  {
    match m.buf
    case None => Feed(steps, m, [Tick(now)])
    case Some(b) =>
      var d := OnClock(b, now);
      Feed(steps, m.(buf := Some(d.buf)), PushesOf(Pairs(d.released)) + [Tick(now)])
  }

  function OnEnd<E>(steps: seq<Step<E>>, m: Machine<E>): (t: Turn<E>)
    requires |steps| > 0 && AllSound(steps, m.inFlight)
    ensures AllSound(steps, t.machine.inFlight)
  {
    match m.buf
    case None => Feed(steps, m, [Flush])
    case Some(b) =>
      var d := OnFlush(b);
      Feed(steps, m.(buf := Some(d.buf)), PushesOf(Pairs(d.released)) + [Flush])
  }

  function OnReset<E>(steps: seq<Step<E>>, m: Machine<E>): (t: Turn<E>)
    requires |steps| > 0 && AllSound(steps, m.inFlight)
    ensures AllSound(steps, t.machine.inFlight)
  {
    Feed(steps, m, [Reset])
  }

  /** The lesser of two instants, when there are any. */
  function Sooner(a: Option<I64>, b: Option<I64>): Option<I64> {
    if a.None? || (b.Some? && b.value < a.value) then b else a
  }

  /** The earliest deadline of the first `n` partials. */
  function EarliestDeadline<E>(ps: seq<PartialMatch<E>>, n: nat): Option<I64>
    requires n <= |ps|
  {
    if n == 0 then None else Sooner(EarliestDeadline(ps, n - 1), ps[n - 1].deadline)
  }

  /** The instant a driver is told to schedule its next tick for. */
  function Wake<E>(m: Machine<E>): Option<I64> {
    Sooner(EarliestDeadline(m.inFlight, |m.inFlight|), if m.buf.None? then None else ReleaseClock(m.buf.value))
  }

  class Runtime<E, M> {
    const compiled: Compiled<E, M>
    var inFlight: seq<PartialMatch<E>>
    var dropped: nat
    /** What the drop handler has been told, one notice per call. */
    ghost var dropLog: seq<DropReason>
    var reorder: ReorderBuffer?<E>

    ghost predicate Valid()
      reads this
    {
      && |compiled.steps| > 0
      && AllSound(compiled.steps, inFlight)
      && |inFlight| <= MAX_IN_FLIGHT
      && dropped == |dropLog|
    }

    ghost function Footprint(): set<object>
      reads this
    {
      if reorder == null then {this} else {this, reorder}
    }

    ghost function State(): Machine<E>
      reads this, reorder
    {
      Machine(inFlight, dropLog, if reorder == null then None else Some(reorder.State()))
    }

    constructor (c: Compiled<E, M>)
      requires |c.steps| > 0
      ensures Valid() && compiled == c && State() == Machine([], [], None)
    {
      compiled := c;
      inFlight, dropped, dropLog, reorder := [], 0, [], null;
    }

    method WithReorder(maxLatenessMs: I64)
      requires Valid()
      modifies this`reorder
      ensures Valid() && fresh(reorder) && State() == old(State()).(buf := Some(NewBuffer(maxLatenessMs)))
    {
      reorder := new ReorderBuffer(maxLatenessMs);
    }

    method ResetAll()
      requires Valid()
      modifies this`inFlight
      ensures Valid() && State() == old(State()).(inFlight := [])
      ensures OnReset(compiled.steps, old(State())) == Turn(State(), [])
    {
      ResetClears(compiled.steps, State());
      inFlight := [];
    }

    method NoteDrop(reason: DropReason)
      modifies this`dropped, this`dropLog
      ensures dropped == old(dropped) + 1 && dropLog == old(dropLog) + [reason]
    {
      dropped := dropped + 1;
      dropLog := dropLog + [reason];
    }

    method PushEvent(event: E) returns (out: seq<M>)
      requires Valid()
      modifies Footprint()
      ensures Valid() && reorder == old(reorder)
      ensures var ts := match compiled.timestamp case None => 0 case Some(f) => f(event);
              var t := OnPush(compiled.steps, old(State()), event, ts);
              State() == t.machine && out == EmitAll(compiled, t.emitted)
    {
      var ts := match compiled.timestamp case None => 0 case Some(f) => f(event);
      out := PushAt(event, ts);
    }

    method PushAt(event: E, ts: I64) returns (out: seq<M>)
      requires Valid()
      modifies Footprint()
      ensures Valid() && reorder == old(reorder)
      ensures var t := OnPush(compiled.steps, old(State()), event, ts);
              State() == t.machine && out == EmitAll(compiled, t.emitted)
    {
      if reorder == null {
        out := MatchOne(event, ts);
        ExecOne(compiled.steps, old(inFlight), Push(event, ts));
        return;
      }
      var released := reorder.Step(ts, event);
      var lates := reorder.TakeLate();
      var count := 0;
      while count < |lates|
        modifies this`dropped, this`dropLog
        invariant count <= |lates|
        invariant dropLog == old(dropLog) + Repeat(DropReason.Late, count) && dropped == |dropLog|
      {
        NoteDrop(DropReason.Late);
        count := count + 1;
      }
      out := MatchAll(released);
    }

    /** One event through the matcher: deadlines, then partials, then a possible opening. */
    method MatchOne(event: E, ts: I64) returns (out: seq<M>)
      requires Valid()
      modifies this`inFlight, this`dropped, this`dropLog
      ensures Valid()
      ensures var e := Transition(compiled.steps, old(inFlight), Push(event, ts));
              inFlight == e.inFlight && dropLog == old(dropLog) + e.drops && out == EmitAll(compiled, e.emitted)
    {
      hide Transition, React, Resolutions, Finishes, Stayers, Lapses, Opening, Immediate, Evict, Repeat, EmitAll;
      ghost var steps := compiled.steps;
      var expired := AdvanceDeadlines(ts);
      ghost var swept := inFlight;
      var finished := AdvancePartials(event, ts);
      var immediate := TryOpenNew(event, ts);
      out := expired + finished + immediate;
      PushInPhases(steps, old(inFlight), event, ts);
      ghost var sweepOs, offerOs := Outcomes(steps, old(inFlight), Tick(ts)), Outcomes(steps, swept, Offer(event, ts));
      ghost var resolutions, finishes := Resolutions(sweepOs, 0, |sweepOs|), Reverse(Finishes(offerOs, 0, |offerOs|));
      EmitConcat(compiled, resolutions, finishes);
      EmitConcat(compiled, resolutions + finishes, Immediate(steps, Push(event, ts)));
      assert Staying(steps, old(inFlight), Tick(ts)) == swept;
    }

    method MatchAll(released: seq<(I64, E)>) returns (out: seq<M>)
      requires Valid()
      modifies this`inFlight, this`dropped, this`dropLog
      ensures Valid()
      ensures var e := Exec(compiled.steps, old(inFlight), PushesOf(released), |released|);
              inFlight == e.inFlight && dropLog == old(dropLog) + e.drops && out == EmitAll(compiled, e.emitted)
    {
      out := [];
      ghost var start, pushes := inFlight, PushesOf(released);
      ExecStart(compiled, start, dropLog, pushes);
      hide Transition, Exec, EmitAll, Valid;
      for k := 0 to |released|
        invariant Valid()
        invariant var e := Exec(compiled.steps, start, pushes, k);
                  inFlight == e.inFlight && dropLog == old(dropLog) + e.drops && out == EmitAll(compiled, e.emitted)
      {
        var emitted := MatchOne(released[k].1, released[k].0);
        ExecMore(compiled, start, old(dropLog), pushes, k);
        out := out + emitted;
      }
    }

    method FlushAll() returns (out: seq<M>)
      requires Valid()
      modifies Footprint()
      ensures Valid() && reorder == old(reorder)
      ensures var t := OnEnd(compiled.steps, old(State()));
              State() == t.machine && out == EmitAll(compiled, t.emitted)
    {
      hide Transition, Exec;
      out := [];
      ghost var pushes: seq<Action<E>>, start := [], old(State());
      if reorder != null {
        var released := reorder.Flush();
        pushes, start := PushesOf(released), start.(buf := Some(reorder.State()));
        out := MatchAll(released);
      }
      assert pushes == [] ==> pushes + [Action.Flush] == [Action.Flush];
      assert OnEnd(compiled.steps, old(State())) == Feed(compiled.steps, start, pushes + [Action.Flush]);
      hide OnEnd, Feed, EmitAll;
      if pushes == [] { FeedNone(compiled, start.inFlight, pushes); }
      FeedThen(compiled, start, pushes, Action.Flush);
      var resolved := ResolveAtEnd();
      out := out + resolved;
    }

    method TickTo(now: I64) returns (out: seq<M>)
      requires Valid()
      modifies Footprint()
      ensures Valid() && reorder == old(reorder)
      ensures var t := OnTick(compiled.steps, old(State()), now);
              State() == t.machine && out == EmitAll(compiled, t.emitted)
    {
      hide Transition, Exec;
      out := [];
      ghost var pushes: seq<Action<E>>, start := [], old(State());
      if reorder != null {
        var released := reorder.AdvanceWatermark(now);
        pushes, start := PushesOf(released), start.(buf := Some(reorder.State()));
        out := MatchAll(released);
      }
      assert pushes == [] ==> pushes + [Tick(now)] == [Tick(now)];
      assert OnTick(compiled.steps, old(State()), now) == Feed(compiled.steps, start, pushes + [Tick(now)]);
      hide OnTick, Feed, Outcomes, EmitAll, Stayers, Resolutions, Lapses, Repeat;
      if pushes == [] { FeedNone(compiled, start.inFlight, pushes); }
      FeedThen(compiled, start, pushes, Tick(now));
      TickIsSweep(compiled.steps, inFlight, now);
      var expired := AdvanceDeadlines(now);
      out := out + expired;
    }

    /** The earliest deadline of a partial or release clock of the buffer; what a tick then does is another matter. */
    method NextDeadline() returns (r: Option<I64>)
      requires Valid()
      ensures r == Wake(State())
      ensures r.Some? ==>
                || (exists k :: 0 <= k < |inFlight| && inFlight[k].deadline == r)
                || (reorder != null && reorder.NextReleaseClock() == r)
      ensures forall k :: 0 <= k < |inFlight| && inFlight[k].deadline.Some? ==>
                r.Some? && r.value <= inFlight[k].deadline.value
      ensures reorder != null && reorder.NextReleaseClock().Some? ==>
                r.Some? && r.value <= reorder.NextReleaseClock().value
    {
      r := None;
      for k := 0 to |inFlight|
        invariant r == EarliestDeadline(inFlight, k)
        invariant r.Some? ==> exists j :: 0 <= j < k && inFlight[j].deadline == r
        invariant forall j :: 0 <= j < k && inFlight[j].deadline.Some? ==>
                    r.Some? && r.value <= inFlight[j].deadline.value
      {
        var d := inFlight[k].deadline;
        if d.Some? && (r.None? || d.value < r.value) {
          r := d;
        }
      }
      if reorder != null {
        var release := reorder.NextReleaseClock();
        if release.Some? && (r.None? || release.value < r.value) {
          r := release;
        }
      }
    }

    method AdvanceDeadlines(ts: I64) returns (out: seq<M>)
      requires Valid()
      modifies this`inFlight, this`dropped, this`dropLog
      ensures Valid() && |inFlight| <= |old(inFlight)|
      ensures inFlight == Staying(compiled.steps, old(inFlight), Tick(ts))
      ensures var os := Outcomes(compiled.steps, old(inFlight), Tick(ts));
              out == EmitAll(compiled, Resolutions(os, 0, |os|)) && dropLog == old(dropLog)
                + Repeat(Deadline, Lapses(os, 0, |os|))
    {
      hide React, Transition, Exec, Staying, AllSound;
      out := [];
      var i := 0;
      ghost var all, n := inFlight, 0;
      ghost var os := Outcomes(compiled.steps, all, Tick(ts));
      ghost var kept: seq<PartialMatch<E>>, emitted: seq<seq<Capture<E>>>, lapses := [], [], 0;
      assert out == EmitAll(compiled, emitted) && dropLog == old(dropLog) + Repeat(Deadline, lapses);
      assert kept == Stayers(os, 0, n) && emitted == Resolutions(os, 0, n) && lapses == Lapses(os, 0, n);
      hide EmitAll, Repeat, Stayers, Resolutions, Lapses;
      while i < |inFlight|
        invariant n <= |all| && i == |kept|
        invariant inFlight == kept + all[n..] && kept == Stayers(os, 0, n)
        invariant out == EmitAll(compiled, emitted) && emitted == Resolutions(os, 0, n)
        invariant dropLog == old(dropLog) + Repeat(Deadline, lapses) && dropped == |dropLog| && lapses
            == Lapses(os, 0, n)
        decreases |all| - n
      {
        NextUp(kept, all, n);
        SoundAt(compiled.steps, all, n);
        OneNewer(os, n);
        TickReaction(compiled.steps, all[n], ts);
        n := n + 1;
        if !(inFlight[i].deadline.Some? && ts > inFlight[i].deadline.value) {
          kept := kept + [inFlight[i]];
          i := i + 1;
          continue;
        }
        var gone := RemoveAt(i);
        if compiled.steps[gone.nextStep].isNegative {
          EmitSnoc(compiled, emitted, gone.captures);
          emitted := emitted + [gone.captures];
          out := out + [compiled.emit(Match(compiled.name, gone.captures))];
        } else {
          DropSnoc(old(dropLog), Deadline, lapses);
          lapses := lapses + 1;
          NoteDrop(Deadline);
        }
      }
      assert n == |os| && inFlight == kept;
      StayingIs(compiled.steps, all, Tick(ts));
    }

    method RemoveAt(i: nat) returns (gone: PartialMatch<E>)
      requires i < |inFlight|
      modifies this`inFlight
      ensures gone == old(inFlight)[i] && inFlight == old(inFlight)[..i] + old(inFlight)[i + 1..]
    {
      gone := inFlight[i];
      inFlight := inFlight[..i] + inFlight[i + 1..];
    }

    method ResolveAtEnd() returns (out: seq<M>)
      requires Valid()
      modifies this`inFlight
      ensures Valid()
      ensures var e := Transition(compiled.steps, old(inFlight), Action.Flush);
              inFlight == e.inFlight && e.drops == [] && out == EmitAll(compiled, e.emitted)
    {
      hide Transition, React, Exec, AllSound;
      out := [];
      var i := 0;
      ghost var all, n := inFlight, 0;
      ghost var os := Outcomes(compiled.steps, all, Action.Flush);
      ghost var kept: seq<PartialMatch<E>>, emitted: seq<seq<Capture<E>>> := [], [];
      assert out == EmitAll(compiled, emitted) && kept == Stayers(os, 0, n) && emitted == Resolutions(os, 0, n);
      hide EmitAll, Stayers, Resolutions;
      while i < |inFlight|
        invariant n <= |all| && i == |kept|
        invariant inFlight == kept + all[n..] && kept == Stayers(os, 0, n)
        invariant out == EmitAll(compiled, emitted) && emitted == Resolutions(os, 0, n)
        decreases |all| - n
      {
        NextUp(kept, all, n);
        SoundAt(compiled.steps, all, n);
        OneNewer(os, n);
        FlushReaction(compiled.steps, all[n]);
        n := n + 1;
        var stepIdx := inFlight[i].nextStep;
        var step := compiled.steps[stepIdx];
        var isLast := stepIdx + 1 >= |compiled.steps|;
        var satisfiedRepeat := !step.isNegative && isLast && step.repeat.Some?
            && inFlight[i].repeatCount >= step.repeat.value.min;
        if step.isNegative || satisfiedRepeat {
          var gone := RemoveAt(i);
          EmitSnoc(compiled, emitted, gone.captures);
          emitted := emitted + [gone.captures];
          out := out + [compiled.emit(Match(compiled.name, gone.captures))];
        } else {
          kept := kept + [inFlight[i]];
          i := i + 1;
        }
      }
      assert n == |os| && inFlight == kept;
      FlushIsResolve(compiled.steps, all);
    }

    /** Newest first, so that a removal never shifts an index still to be visited. */
    method AdvancePartials(event: E, ts: I64) returns (out: seq<M>)
      requires Valid()
      modifies this`inFlight
      ensures Valid() && |inFlight| <= |old(inFlight)|
      ensures inFlight == Staying(compiled.steps, old(inFlight), Offer(event, ts))
      ensures var os := Outcomes(compiled.steps, old(inFlight), Offer(event, ts));
              out == EmitAll(compiled, Reverse(Finishes(os, 0, |os|)))
    {
      hide OfferOutcome;
      out := [];
      var idx := |inFlight|;
      ghost var all := inFlight;
      ghost var os := Outcomes(compiled.steps, all, Offer(event, ts));
      ghost var newer: seq<PartialMatch<E>>, emitted: seq<seq<Capture<E>>> := [], [];
      while idx > 0
        invariant 0 <= idx <= |all|
        invariant inFlight == all[..idx] + newer && newer == Stayers(os, idx, |os|)
        invariant out == EmitAll(compiled, emitted) && emitted == Reverse(Finishes(os, idx, |os|))
      {
        idx := idx - 1;
        PreviousUp(all, idx, newer);
        assert os[idx] == OfferOutcome(compiled.steps, all[idx], event, ts);
        OneOlder(os, idx);
        var d, _ := AdvanceOne(idx, event, ts);
        EditedUp(all, idx, newer, inFlight[idx]);
        match d {
          case Keep =>
            newer := [inFlight[idx]] + newer;
          case Remove =>
            var gone := RemoveAt(idx);
          case Complete =>
            var gone := RemoveAt(idx);
            EmitSnoc(compiled, emitted, gone.captures);
            emitted := emitted + [gone.captures];
            out := out + [compiled.emit(Match(compiled.name, gone.captures))];
        }
      }
      assert inFlight == newer;
      assert newer == Staying(compiled.steps, all, Offer(event, ts));
    }

    /**
     One event against the partial at `idx`, edited in place; the loop re-offers an event that ended a satisfied
     repetition.
     */
    method AdvanceOne(idx: nat, event: E, ts: I64) returns (d: Disposition, ghost rounds: nat)
      requires |compiled.steps| > 0 && idx < |inFlight| && Sound(compiled.steps, inFlight[idx])
      modifies this`inFlight
      ensures |inFlight| == |old(inFlight)| && inFlight == old(inFlight)[idx := inFlight[idx]]
      ensures OfferOutcome(compiled.steps, old(inFlight)[idx], event, ts)
           == match d
              case Keep => Stay(inFlight[idx])
              case Remove => Kill
              case Complete => Finish(inFlight[idx].captures)
      ensures rounds == Rounds(compiled.steps, old(inFlight)[idx], event, ts)
    {
      ghost var steps, start := compiled.steps, inFlight[idx];
      rounds := 0;
      while true
        invariant |inFlight| == |old(inFlight)| && inFlight == old(inFlight)[idx := inFlight[idx]]
        invariant Sound(steps, inFlight[idx])
        invariant OfferOutcome(steps, start, event, ts) == OfferOutcome(steps, inFlight[idx], event, ts)
        invariant Rounds(steps, start, event, ts) == rounds + Rounds(steps, inFlight[idx], event, ts)
        decreases |steps| - inFlight[idx].nextStep
      {
        rounds := rounds + 1;
        var stepIdx := inFlight[idx].nextStep;
        var step := compiled.steps[stepIdx];
        var matches := step.test.evaluateInContext(event, inFlight[idx].captures);
        var forbiddenMatches := step.forbidden.Some?
            && step.forbidden.value.evaluateInContext(event, inFlight[idx].captures);
        if step.isNegative {
          d := if matches then Remove else Keep;
          return;
        }
        if !matches && forbiddenMatches {
          d := Remove;
          return;
        }
        match step.repeat {
          case Some(spec) =>
            if matches {
              var pm := inFlight[idx];
              inFlight := inFlight[idx := pm.(captures := pm.captures
                + [Capture(step.name, event)], repeatCount := pm.repeatCount + 1)];
              if inFlight[idx].repeatCount >= spec.max {
                d := AdvanceStep(idx, stepIdx, ts);
                return;
              }
              d := Keep;
              return;
            }
            if inFlight[idx].repeatCount >= spec.min {
              d := AdvanceStep(idx, stepIdx, ts);
              if d == Keep { continue; }
              return;
            }
            d := if step.contiguity == Next then Remove else Keep;
            return;
          case None =>
            if matches {
              var pm := inFlight[idx];
              inFlight := inFlight[idx := pm.(captures := pm.captures + [Capture(step.name, event)])];
              d := AdvanceStep(idx, stepIdx, ts);
              return;
            }
            d := if step.contiguity == Next then Remove else Keep;
            return;
        }
      }
    }

    method AdvanceStep(idx: nat, fromStep: nat, ts: I64) returns (d: Disposition)
      requires idx < |inFlight| && inFlight[idx].nextStep == fromStep
      modifies this`inFlight
      ensures inFlight == old(inFlight)[idx := Advanced(compiled.steps, old(inFlight)[idx], ts)]
      ensures d == if fromStep + 1 >= |compiled.steps| then Complete else Keep
    {
      var newNext := fromStep + 1;
      var newDeadline := DeadlineFor(compiled.steps, newNext, ts);
      inFlight := inFlight[idx := inFlight[idx].(nextStep := newNext, repeatCount := 0, deadline := newDeadline)];
      return if newNext >= |compiled.steps| then Complete else Keep;
    }

    method TryOpenNew(event: E, ts: I64) returns (out: seq<M>)
      requires Valid()
      modifies this`inFlight, this`dropped, this`dropLog
      ensures Valid()
      ensures var grown := old(inFlight) + Opening(compiled.steps, Push(event, ts));
              && inFlight == Evict(grown)
              && dropLog == old(dropLog) + (if |grown| > MAX_IN_FLIGHT then [MaxInFlight] else [])
      ensures out == EmitAll(compiled, Immediate(compiled.steps, Push(event, ts)))
    {
      out := [];
      var whenStep := compiled.steps[0];
      if !whenStep.test.evaluate(event) { return; }
      var pm := PartialMatch([Capture(whenStep.name, event)], 1, DeadlineFor(compiled.steps, 1, ts), 0);
      if |compiled.steps| == 1 {
        out := [compiled.emit(Match(compiled.name, pm.captures))];
      } else {
        inFlight := inFlight + [pm];
        if |inFlight| > MAX_IN_FLIGHT {
          inFlight := inFlight[1..];
          NoteDrop(MaxInFlight);
        }
      }
    }
  }

  // ---- The phases of one action, and lists built one partial at a time ----

  lemma EmitSnoc<E, M>(c: Compiled<E, M>, captures: seq<seq<Capture<E>>>, x: seq<Capture<E>>)
    ensures EmitAll(c, captures + [x]) == EmitAll(c, captures) + [c.emit(Match(c.name, x))]
  {
    assert (captures + [x])[..|captures|] == captures;
  }

  lemma {:induction false} EmitConcat<E, M>(c: Compiled<E, M>, x: seq<seq<Capture<E>>>, y: seq<seq<Capture<E>>>)
    ensures EmitAll(c, x + y) == EmitAll(c, x) + EmitAll(c, y)
  {
    if y == [] {
      assert x + y == x;
    } else {
      var front, last := y[..|y| - 1], y[|y| - 1];
      EmitConcat(c, x, front);
      assert x + y == (x + front) + [last];
      EmitSnoc(c, x + front, last);
    }
  }

  lemma DropSnoc(log: seq<DropReason>, reason: DropReason, n: nat)
    ensures log + Repeat(reason, n + 1) == log + Repeat(reason, n) + [reason]
  {
    assert Repeat(reason, n + 1) == Repeat(reason, n) + [reason];
  }

  lemma SoundAt<E>(steps: seq<Step<E>>, ps: seq<PartialMatch<E>>, k: nat)
    requires AllSound(steps, ps) && k < |ps|
    ensures Sound(steps, ps[k])
  {
  }

  lemma TickReaction<E>(steps: seq<Step<E>>, pm: PartialMatch<E>, now: I64)
    requires Sound(steps, pm)
    ensures React(steps, pm, Tick(now)) == SweepOutcome(steps, pm, now)
  {
  }

  lemma FlushReaction<E>(steps: seq<Step<E>>, pm: PartialMatch<E>)
    requires Sound(steps, pm)
    ensures React(steps, pm, Action.Flush) == FlushOutcome(steps, pm)
  {
  }

  lemma StayingIs<E>(steps: seq<Step<E>>, ps: seq<PartialMatch<E>>, a: Action<E>)
    requires AllSound(steps, ps)
    ensures Staying(steps, ps, a) == Stayers(Outcomes(steps, ps, a), 0, |ps|)
  {
  }

  /** A forward scan at its next element: keeping it, and removing it. */
  lemma NextUp<T>(kept: seq<T>, all: seq<T>, n: nat)
    requires n < |all|
    ensures var s, i := kept + all[n..], |kept|;
            s[i] == all[n] && s == kept + [all[n]] + all[n + 1..] && s[..i] + s[i + 1..] == kept + all[n + 1..]
  {
    assert all[n..] == [all[n]] + all[n + 1..];
  }

  /** A backward scan at its next element. */
  lemma PreviousUp<T>(all: seq<T>, idx: nat, newer: seq<T>)
    requires idx < |all|
    ensures (all[..idx + 1] + newer)[idx] == all[idx]
  {
  }

  /** The same once that element is now `x`: keeping it, and removing it. */
  lemma EditedUp<T>(all: seq<T>, idx: nat, newer: seq<T>, x: T)
    requires idx < |all|
    ensures var s := (all[..idx + 1] + newer)[idx := x];
            s == all[..idx] + ([x] + newer) && s[..idx] + s[idx + 1..] == all[..idx] + newer
  {
  }

  lemma OneNewer<E>(os: seq<Outcome<E>>, n: nat)
    requires n < |os|
    ensures Stayers(os, 0, n + 1) == Stayers(os, 0, n) + (if os[n].Stay? then [os[n].pm] else [])
    ensures Resolutions(os, 0, n + 1) == Resolutions(os, 0, n) + (if os[n].Resolve? then [os[n].resolved] else [])
    ensures Lapses(os, 0, n + 1) == Lapses(os, 0, n) + (if os[n].Lapse? then 1 else 0)
  {
  }

  lemma OneOlder<E>(os: seq<Outcome<E>>, idx: nat)
    requires idx < |os|
    ensures var o, n := os[idx], |os|;
            && Stayers(os, idx, n) == (if o.Stay? then [o.pm] else []) + Stayers(os, idx + 1, n)
            && Reverse(Finishes(os, idx, n)) == Reverse(Finishes(os, idx + 1, n))
              + (if o.Finish? then [o.finished] else [])
  {
    var n := |os|;
    StayersSplit(os, idx, idx + 1, n);
    FinishesSplit(os, idx, idx + 1, n);
    var one, newer := Finishes(os, idx, idx + 1), Finishes(os, idx + 1, n);
    assert Finishes(os, idx, idx) == [] && Stayers(os, idx, idx) == [];
    if one == [] {
      assert one + newer == newer;
    } else {
      assert (one + newer)[1..] == newer;
    }
  }

  /** A push on one partial: the sweep first, and only an unexpired partial sees the event. */
  lemma PushReaction<E>(steps: seq<Step<E>>, pm: PartialMatch<E>, event: E, ts: I64)
    requires Sound(steps, pm)
    ensures var swept, pushed := React(steps, pm, Tick(ts)), React(steps, pm, Push(event, ts));
            if swept.Stay? then
              swept.pm == pm && pushed == React(steps, pm, Offer(event, ts))
                && (pushed.Stay? || pushed.Finish? || pushed.Kill?)
            else pushed == swept && (pushed.Resolve? || pushed.Lapse?)
  {
    hide OfferOutcome;
  }

  lemma StayerAt<E>(os: seq<Outcome<E>>, k: nat)
    requires k < |os|
    ensures |Stayers(os, 0, k)| <= |Stayers(os, 0, |os|)|
    ensures os[k].Stay? ==>
              && |Stayers(os, 0, k + 1)| == |Stayers(os, 0, k)| + 1 <= |Stayers(os, 0, |os|)|
              && Stayers(os, 0, |os|)[|Stayers(os, 0, k)|] == os[k].pm
  {
    StayersSplit(os, 0, k, |os|);
    StayersSplit(os, 0, k + 1, |os|);
  }

  /** A push is a sweep, then the event offered to what the sweep left: the first `n` partials. */
  lemma {:induction false} PushPrefix<E>(steps: seq<Step<E>>, ps: seq<PartialMatch<E>>, event: E, ts: I64, n: nat)
    requires AllSound(steps, ps) && n <= |ps|
    ensures var pushed, swept := Outcomes(steps, ps, Push(event, ts)), Outcomes(steps, ps, Tick(ts));
            var offered, m := Outcomes(steps, Staying(steps, ps, Tick(ts)), Offer(event, ts)), |Stayers(swept, 0, n)|;
            && m <= |offered|
            && Stayers(pushed, 0, n) == Stayers(offered, 0, m)
            && Finishes(pushed, 0, n) == Finishes(offered, 0, m)
  {
    hide React;
    if n > 0 {
      var pushed, swept := Outcomes(steps, ps, Push(event, ts)), Outcomes(steps, ps, Tick(ts));
      var kept, before := Staying(steps, ps, Tick(ts)), |Stayers(swept, 0, n - 1)|;
      var offered := Outcomes(steps, kept, Offer(event, ts));
      PushPrefix(steps, ps, event, ts, n - 1);
      PushReaction(steps, ps[n - 1], event, ts);
      StayerAt(swept, n - 1);
      if swept[n - 1].Stay? {
        assert kept[before] == ps[n - 1];
        assert offered[before] == pushed[n - 1];
      } else {
        assert pushed[n - 1] == swept[n - 1];
      }
    }
  }

  lemma {:induction false} PushSweeps<E>(steps: seq<Step<E>>, ps: seq<PartialMatch<E>>, event: E, ts: I64, n: nat)
    requires AllSound(steps, ps) && n <= |ps|
    ensures var pushed, swept := Outcomes(steps, ps, Push(event, ts)), Outcomes(steps, ps, Tick(ts));
            && Resolutions(pushed, 0, n) == Resolutions(swept, 0, n)
            && Lapses(pushed, 0, n) == Lapses(swept, 0, n)
  {
    hide React;
    if n > 0 {
      PushSweeps(steps, ps, event, ts, n - 1);
      PushReaction(steps, ps[n - 1], event, ts);
      var pushed, swept := Outcomes(steps, ps, Push(event, ts)), Outcomes(steps, ps, Tick(ts));
      assert pushed[n - 1] == React(steps, ps[n - 1], Push(event, ts)) && swept[n - 1]
          == React(steps, ps[n - 1], Tick(ts));
    }
  }

  lemma PushIsSweepThenOffer<E>(steps: seq<Step<E>>, ps: seq<PartialMatch<E>>, event: E, ts: I64)
    requires AllSound(steps, ps)
    ensures var pushed, swept := Outcomes(steps, ps, Push(event, ts)), Outcomes(steps, ps, Tick(ts));
            var offered := Outcomes(steps, Staying(steps, ps, Tick(ts)), Offer(event, ts));
            && Stayers(pushed, 0, |pushed|) == Stayers(offered, 0, |offered|)
            && Finishes(pushed, 0, |pushed|) == Finishes(offered, 0, |offered|)
            && Resolutions(pushed, 0, |pushed|) == Resolutions(swept, 0, |swept|)
            && Lapses(pushed, 0, |pushed|) == Lapses(swept, 0, |swept|)
  {
    PushPrefix(steps, ps, event, ts, |ps|);
    PushSweeps(steps, ps, event, ts, |ps|);
  }

  lemma PushInPhases<E>(steps: seq<Step<E>>, ps: seq<PartialMatch<E>>, event: E, ts: I64)
    requires |steps| > 0 && AllSound(steps, ps)
    ensures var swept := Outcomes(steps, ps, Tick(ts));
            var offered := Outcomes(steps, Staying(steps, ps, Tick(ts)), Offer(event, ts));
            var grown := Stayers(offered, 0, |offered|) + Opening(steps, Push(event, ts));
            var e := Transition(steps, ps, Push(event, ts));
            && e.inFlight == Evict(grown)
            && e.emitted == Resolutions(swept, 0, |swept|) + Reverse(Finishes(offered, 0, |offered|))
              + Immediate(steps, Push(event, ts))
            && e.drops == Repeat(Deadline, Lapses(swept, 0, |swept|))
              + (if |grown| > MAX_IN_FLIGHT then [MaxInFlight] else [])
  {
    PushIsSweepThenOffer(steps, ps, event, ts);
  }

  lemma {:induction false} NoneFinish<E>(os: seq<Outcome<E>>, n: nat)
    requires n <= |os| && forall k :: 0 <= k < |os| ==> !os[k].Finish?
    ensures Finishes(os, 0, n) == []
  {
    if n > 0 { NoneFinish(os, n - 1); }
  }

  lemma {:induction false} NoneLapse<E>(os: seq<Outcome<E>>, n: nat)
    requires n <= |os| && forall k :: 0 <= k < |os| ==> !os[k].Lapse?
    ensures Lapses(os, 0, n) == 0
  {
    if n > 0 { NoneLapse(os, n - 1); }
  }

  lemma TickIsSweep<E>(steps: seq<Step<E>>, ps: seq<PartialMatch<E>>, now: I64)
    requires |steps| > 0 && AllSound(steps, ps) && |ps| <= MAX_IN_FLIGHT
    ensures var os := Outcomes(steps, ps, Tick(now));
            Transition(steps, ps, Tick(now))
              == Effect(Stayers(os, 0, |os|), Resolutions(os, 0, |os|), Repeat(Deadline, Lapses(os, 0, |os|)))
  {
    var os := Outcomes(steps, ps, Tick(now));
    NoneFinish(os, |os|);
    assert Stayers(os, 0, |os|) + [] == Stayers(os, 0, |os|);
    assert Resolutions(os, 0, |os|) + Reverse(Finishes(os, 0, |os|)) + [] == Resolutions(os, 0, |os|);
  }

  lemma FlushIsResolve<E>(steps: seq<Step<E>>, ps: seq<PartialMatch<E>>)
    requires |steps| > 0 && AllSound(steps, ps) && |ps| <= MAX_IN_FLIGHT
    ensures var os := Outcomes(steps, ps, Action.Flush);
            Transition(steps, ps, Action.Flush) == Effect(Stayers(os, 0, |os|), Resolutions(os, 0, |os|), [])
  {
    var os := Outcomes(steps, ps, Action.Flush);
    NoneFinish(os, |os|);
    NoneLapse(os, |os|);
    assert Stayers(os, 0, |os|) + [] == Stayers(os, 0, |os|);
    assert Resolutions(os, 0, |os|) + Reverse(Finishes(os, 0, |os|)) + [] == Resolutions(os, 0, |os|);
  }

  lemma FeedNone<E, M>(c: Compiled<E, M>, ps: seq<PartialMatch<E>>, actions: seq<Action<E>>)
    requires |c.steps| > 0 && AllSound(c.steps, ps) && actions == []
    ensures Exec(c.steps, ps, actions, |actions|) == Effect(ps, [], []) && EmitAll(c, []) == []
  {
  }

  lemma ExecNone<E>(steps: seq<Step<E>>, ps: seq<PartialMatch<E>>, actions: seq<Action<E>>)
    requires |steps| > 0 && AllSound(steps, ps)
    ensures actions == [] ==> Exec(steps, ps, actions, |actions|) == Effect(ps, [], [])
  {
  }

  /** A reset is one action of the machine: everything in flight is dropped without a word. */
  lemma ResetClears<E>(steps: seq<Step<E>>, m: Machine<E>)
    requires |steps| > 0 && AllSound(steps, m.inFlight)
    ensures OnReset(steps, m) == Turn(m.(inFlight := []), [])
  {
    ExecOne(steps, m.inFlight, Reset);
    var os := Outcomes(steps, m.inFlight, Reset);
    AllKilled(os, |os|);
    assert m.drops + [] == m.drops;
  }

  lemma {:induction false} AllKilled<E>(os: seq<Outcome<E>>, n: nat)
    requires n <= |os| && forall k :: 0 <= k < |os| ==> os[k].Kill?
    ensures Stayers(os, 0, n) == [] && Resolutions(os, 0, n) == [] && Finishes(os, 0, n) == [] && Lapses(os, 0, n) == 0
  {
    if n > 0 { AllKilled(os, n - 1); }
  }

  /** A run before its first action, and one action further, as the caller and the drop handler see it. */
  lemma ExecStart<E, M>(c: Compiled<E, M>, ps: seq<PartialMatch<E>>, log: seq<DropReason>, actions: seq<Action<E>>)
    requires |c.steps| > 0 && AllSound(c.steps, ps)
    ensures var e := Exec(c.steps, ps, actions, 0);
            e.inFlight == ps && log + e.drops == log && EmitAll(c, e.emitted) == []
  {
  }

  lemma ExecMore<E, M>(c: Compiled<E, M>, ps: seq<PartialMatch<E>>, log: seq<DropReason>, actions: seq<Action<E>>,
        k: nat)
    requires |c.steps| > 0 && AllSound(c.steps, ps) && k < |actions|
    ensures var e, more := Exec(c.steps, ps, actions, k), Exec(c.steps, ps, actions, k + 1);
            var next := Transition(c.steps, e.inFlight, actions[k]);
            && more.inFlight == next.inFlight && log + more.drops == log + e.drops + next.drops
            && EmitAll(c, more.emitted) == EmitAll(c, e.emitted) + EmitAll(c, next.emitted)
  {
    hide Transition, EmitAll;
    var e := Exec(c.steps, ps, actions, k);
    var next := Transition(c.steps, e.inFlight, actions[k]);
    EmitConcat(c, e.emitted, next.emitted);
    assert log + (e.drops + next.drops) == log + e.drops + next.drops;
  }

  lemma ExecOne<E>(steps: seq<Step<E>>, ps: seq<PartialMatch<E>>, a: Action<E>)
    requires |steps| > 0 && AllSound(steps, ps)
    ensures Exec(steps, ps, [a], 1) == Transition(steps, ps, a)
  {
    hide Transition;
    var e := Transition(steps, ps, a);
    assert Exec(steps, ps, [a], 0) == Effect(ps, [], []);
    assert [] + e.emitted == e.emitted && [] + e.drops == e.drops;
  }

  lemma ExecSnoc<E>(steps: seq<Step<E>>, ps: seq<PartialMatch<E>>, actions: seq<Action<E>>, a: Action<E>)
    requires |steps| > 0 && AllSound(steps, ps)
    ensures var first := Exec(steps, ps, actions, |actions|);
            Exec(steps, ps, actions + [a], |actions| + 1) == Then(first, Transition(steps, first.inFlight, a))
  {
    hide Transition;
    ExecPrefix(steps, ps, actions, [a], |actions|);
  }

  /** Feeding some actions and a last one, as the caller sees it. */
  lemma FeedThen<E, M>(c: Compiled<E, M>, m: Machine<E>, actions: seq<Action<E>>, last: Action<E>)
    requires |c.steps| > 0 && AllSound(c.steps, m.inFlight)
    ensures var first := Exec(c.steps, m.inFlight, actions, |actions|);
            var next := Transition(c.steps, first.inFlight, last);
            var t := Feed(c.steps, m, actions + [last]);
            && t.machine == Machine(next.inFlight, m.drops + first.drops + next.drops, m.buf)
            && EmitAll(c, t.emitted) == EmitAll(c, first.emitted) + EmitAll(c, next.emitted)
  {
    hide Transition, Exec, EmitAll;
    ExecSnoc(c.steps, m.inFlight, actions, last);
    var first := Exec(c.steps, m.inFlight, actions, |actions|);
    var next := Transition(c.steps, first.inFlight, last);
    EmitConcat(c, first.emitted, next.emitted);
    assert m.drops + (first.drops + next.drops) == m.drops + first.drops + next.drops;
  }
}
