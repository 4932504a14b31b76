# tflo: verified models of the streaming core

This project models, in Dafny, the parts of tflo that decide what a stream means, and proves what they promise:

- the event-pattern matcher (`tflo-cep`): up to 1024 partial matches advanced at once, with `within` deadlines,
  terminal negation, interior guards, strict and eventual contiguity, repetition, eviction, clock ticks and the optional
  reorder buffer; and the builder that produces its patterns;
- the event-time reorder buffer and its second copy inside the keyed state (`tflo-core`);
- keyed execution: one graph per key, and the iterator that routes records to them;
- the event-time timer service, the checkpointer, the window join, the k-way merge and the rate limiter (`tflo-core`);
- the line-protocol printer (`tflo-sink-influx`).

Where the source edits fields in place, the model is a class whose methods run the same loops and branches on the same
fields; each method is proved equal to a transition function, and the theorems are about whole runs of those functions.
Timestamps are 64-bit integers with the source's saturating arithmetic (`Common`).

## How the files fit together

| file | content |
|---|---|
| `Common.dfy`, `Decimal.dfy` | option and result values, saturating arithmetic; decimal printing and its inverse |
| `Matching.dfy` | the matcher as a state machine over values: `React` on one partial, `Transition` on all, `Exec` over a run |
| `Engine.dfy` | the class `Runtime`, loop for loop, proved to compute those functions |
| `Refinement.dfy` | the many-partials machine is one-opening-at-a-time simulation, eviction included |
| `GenuineRuns.dfy`, `ExactMatches.dfy`, `FirstStep.dfy` | what a match is, in terms of pattern and history alone; exactly those are emitted; what the first step is worth |
| `Absence.dfy`, `ClockTicks.dfy`, `Drops.dfy`, `Accounting.dfy`, `Reset.dfy` | when absence fires, what ticks change, what is dropped when, where every partial goes, what a reset leaves |
| `ReorderBuffer.dfy`, `Releases.dfy`, `ReorderedMatching.dfy` | the buffer as a stable sort; what each input releases and rejects; the matcher behind it |
| `Pattern.dfy`, `BuilderCalls.dfy` | the builder, exactly which patterns it accepts, and what their steps are in terms of the calls |
| `Keyed.dfy`, `KeyedPolicies.dfy`, `KeyedFrontier.dfy`, `KeyedIter.dfy` | per-key state, agreement of the two reorder buffers, what each policy rejects, when the frontier can move back, isolation of keys |
| `Timers.dfy`, `Checkpoints.dfy` | the timer service; the two-write crash protocol and its breaker |
| `WindowJoin.dfy`, `MergeByKey.dfy`, `RateLimit.dfy` | the combinators |
| `LineProtocol.dfy`, `LineReader.dfy` | the printer, and a reader that gives its lines back |

`dafny verify dfyconfig.toml` checks everything.

## Where the code and its documentation disagree

The model follows the code in each case, and a theorem says when the documented promise holds.

- `times` and `not_then` are documented without an exception for the first step (tflo-cep/src/pattern.rs:312, 348-352),
  but a partial is opened by one event satisfying the first step's predicate, whatever else that step asks
  (tflo-cep/src/engine.rs:629-653). `FirstStep.RepeatedFirstTakesOne`: `when(p).times(min, max)` emits on every single
  event; `FirstStep.LoneAbsenceIsPresence`: a lone `not_then` with a bound emits on the presence of what it forbids.
  `FirstStep.FirstBlockIff`: the first block has a size its step allows exactly when that step is positive and asks for
  at most one capture, and takes as many as it may exactly when it allows no more than one.
- The error `NoWhenStep` stands for a pattern without the initial `when` (tflo-cep/src/pattern.rs:84), but only the empty
  pattern gets it: `FirstStep.NoWhenOnlyIfEmpty`.
- `TimerService::delete` is documented to tombstone the lowest sequence number among equal timers
  (tflo-core/src/timer.rs:96-98), but it takes the first match in heap storage order.
  `Timers.DeleteNeedNotTakeEarliest` gives three registrations after which it does not;
  `Timers.DeleteTakesEarliestIff`: it does, whatever else is registered and however a binary heap stores it, exactly when
  at most one live timer has the node and time or one of those is the very first timer there can be. So deletions can
  tell a restored service from the original, against tflo-core/src/timer.rs:18-22: `Timers.DeleteSameAfterRestoreIff`.
- A comment calls the per-key watermark monotonically non-decreasing (tflo-core/src/keyed.rs:440-445), but an explicit
  advance can pass records that are still pending, and releasing those moves the frontier back.
  `KeyedFrontier.AdvanceThenFlushGoesBack` gives the calls; `KeyedFrontier.AdvanceIsSafeIff`: no later call can move it
  back exactly when no pending record is below the advance; `KeyedFrontier.FrontierNeverBack`: over whole runs of such
  calls it never does.
- `Checkpointer::new` says to pass the largest 32-bit threshold to disable the breaker (tflo-core/src/state.rs:269). No
  threshold disables it: `Checkpoints.EveryThresholdOpens` says after how many failures each one opens.
- A comment promises that a tick is exactly a no-op event (tflo-cep/src/engine.rs:1074). `ClockTicks.IgnoredEventIsTick`:
  an event that a partial ignores acts as a tick exactly when the deadline has passed or the step is a negative, or is
  eventual with no satisfied repetition to end; `ClockTicks.IgnoredPushIsTick`: for the whole runtime, exactly when that
  is so of every partial.
- `reset` is documented to reset to the just-constructed state (tflo-cep/src/engine.rs:306-307), but the reorder buffer
  keeps its events, its frontier and its clock. `Resetting.ResetIsNewIff`: the runtime goes on as a new one exactly when
  there is no buffer or it is empty, its frontier is unset or the least integer, and, for a positive lateness, no clock
  it has seen is more than the lateness above the least integer.
- `next_deadline` is documented as the instant to schedule the next tick for (tflo-cep/src/engine.rs:451-455). A match
  deadline fires only strictly after itself: `ClockTicks.WakeLaw`, a tick at that instant is idle unless it is the
  buffer's release clock, and every later tick does something.
- `next_release_clock` is documented as the clock time at which the earliest event is released
  (tflo-core/src/reorder.rs:125-127). `Reorder.ReleaseClockIsExact`: exactly when the sum does not overflow and, for a
  positive lateness, the event is not at the least 64-bit integer.
- `window_join` is documented to find all right items in the window, without a word on order
  (tflo-core/src/combinators/join.rs:6-9). `WindowJoins.UnsortedCanMiss` gives unsorted inputs where it does not;
  `WindowJoins.JoinIsNestedLoopsIff` and `WindowJoins.SortedRightsJoinIff` say exactly which inputs fail when one side is
  sorted, and `WindowJoins.SortedJoinIsNestedLoops` that none do when both are.
- The escape rules keep a backslash in names and tags and rewrite a newline to two characters, as documented
  (tflo-sink-influx/src/lib.rs:162-171), so a rendered line need not determine what was written.
  `LineProtocol.NewlineCollides`: at every escaped position a newline prints like two characters.
  `LineProtocol.FinalBackslashSwallowsATag`, `LineProtocol.FinalKeyBackslashesCollide` and
  `LineProtocol.FinalValueBackslashesCollide`: final backslashes of names alone, of tag keys alone and of tag values alone
  make different lines print alike, also with the sorted, distinct keys of real tags (`LineProtocol.KeyCollisionIsReal`,
  `LineProtocol.ValueCollisionIsReal`). `LineProtocol.PrintingIsUnambiguous`: lines with none of these never do, and final
  backslashes of field keys do no harm.
- Newlines are said to be rewritten so that each record stays on one physical line (tflo-sink-influx/src/lib.rs:169-171),
  but texts are not rewritten. `LineProtocol.OneLineIff`: it does exactly when no text field has a newline.
- The rate limiter's comment says out-of-order gaps clamp at 0 (tflo-core/src/combinators/rate_limit.rs:90-92), but the
  signed subtraction goes below 0. `RateLimits.NoIntervalStillDrops`: with interval 0 such items are dropped all the same;
  `RateLimits.ClampingDecidesAlikeIff` says exactly when the difference shows.

## Model

| member | source | states |
|---|---|---|
| Matching.OfferOutcome | tflo-cep/src/engine.rs:528-627 | One event shown to one partial keeps it, completes it or kills it, never expires it; a kept partial's step index stays in range. |
| Matching.Transition | tflo-cep/src/engine.rs:382-386 | Every action keeps all step indices in range and at most 1024 partials in flight. |
| Matching.ExecConcat | tflo-cep/src/engine.rs:361-380 | Running two action lists one after the other is running their concatenation. |
| Engine.Runtime.constructor | tflo-cep/src/engine.rs:285-293 | A new runtime holds no partial, no drop and no buffer. |
| Engine.Runtime.WithReorder | tflo-cep/src/engine.rs:301-304 | Only the buffer changes: a fresh one with the clamped lateness. |
| Engine.Runtime.ResetAll | tflo-cep/src/engine.rs:312-314 | A reset clears the partials, leaves drops and reorder buffer untouched, and is the machine's own reset action. |
| Engine.ResetClears | tflo-cep/src/engine.rs:312-314 | The reset action of the run theorems kills every partial in flight, emits nothing and notes no drop. |
| Engine.Runtime.NoteDrop | tflo-cep/src/engine.rs:334-339 | Each drop is counted once and notified once, with its reason. |
| Engine.Runtime.PushEvent | tflo-cep/src/engine.rs:344-352 | A push uses the extractor's timestamp, or 0 without one. |
| Engine.Runtime.PushAt | tflo-cep/src/engine.rs:361-377 | State, drop notices and emissions of a push are those of the specification, with and without the reorder buffer. |
| Engine.Runtime.MatchOne | tflo-cep/src/engine.rs:382-386 | Deadlines, partials and opening done in place on the list equal one transition of the machine. |
| Engine.Runtime.MatchAll | tflo-cep/src/engine.rs:373-375 | Matching released events one by one is one run of the machine over them. |
| Engine.Runtime.FlushAll | tflo-cep/src/engine.rs:391-422 | A flush drains the buffer through the matcher, then resolves open negatives and full final repeats. |
| Engine.Runtime.TickTo | tflo-cep/src/engine.rs:436-449 | A tick releases what the clock makes due (`Releases.ReleasesExactly`) and then sweeps deadlines at the clock time. |
| Engine.Runtime.NextDeadline | tflo-cep/src/engine.rs:456-468 | The result is the driver's wake instant: a deadline of some partial or the buffer's release clock, and no later than any of them. `ClockTicks.WakeLaw` says what a tick there does. |
| Engine.Runtime.AdvanceDeadlines | tflo-cep/src/engine.rs:484-504 | The removing loop leaves exactly the unexpired partials, emits expired negatives oldest first and notes one drop per expired positive. |
| Engine.Runtime.ResolveAtEnd | tflo-cep/src/engine.rs:402-420 | The removing loop of a flush is the machine's flush: resolved partials oldest first, no drops. |
| Engine.Runtime.AdvancePartials | tflo-cep/src/engine.rs:506-520 | The reverse loop with removals leaves the kept partials in order and emits completions newest opened first. |
| Engine.Runtime.AdvanceOne | tflo-cep/src/engine.rs:528-608 | The in-place loop on one partial, re-offers included, computes the recursive outcome in the counted number of rounds and touches no other partial. |
| Engine.Runtime.AdvanceStep | tflo-cep/src/engine.rs:613-627 | Advancing re-arms the deadline, resets the repeat count and completes exactly past the last step. |
| Engine.Runtime.TryOpenNew | tflo-cep/src/engine.rs:629-653 | A matching event opens one partial, or emits at once for a one-step pattern; the 1025th partial evicts the oldest with one notice. |
| Engine.PushIsSweepThenOffer | tflo-cep/src/engine.rs:382-386 | Sweeping all partials and then showing the event to the rest equals doing both partial by partial. |
| Refinement.Solo | tflo-cep/src/engine.rs:528-653 | A partial simulated alone leaves flight, if ever, strictly after it opened and before now. |
| Refinement.MachineIsSolos | tflo-cep/src/engine.rs:484-653 | For every pattern and every run, the in-flight list is exactly the uncrowded survivors of simulating each opening event alone, in opening order. |
| Refinement.MachineEmitsSolos | tflo-cep/src/engine.rs:382-386 | Every action emits exactly the solo simulations it resolves oldest first, those it finishes newest first, then the one-step match. |
| Refinement.EvictionIsCrowding | tflo-cep/src/engine.rs:646-651 | Removing the oldest beyond 1024 is forgetting the partials with 1024 younger live ones. |
| Resetting.ResetIsNewIff | tflo-cep/src/engine.rs:306-314 | After a reset every run of calls has the matcher do the same, and the buffer reject the same, as in a new runtime if and only if the buffer holds nothing, has no frontier and has seen no clock that could age anything. |
| Resetting.GoesOnTheSame | tflo-cep/src/engine.rs:306-314 | Then the emissions, partials and further drop notices of every later run are those of a new runtime. |
| Refinement.NeverCrowded | tflo-cep/src/engine.rs:46-46 | While at most 1024 partials are ever live, nothing is crowded out. |
| GenuineRuns.OfferExplained | tflo-cep/src/engine.rs:528-627 | One event extends the recorded run of a partial through every step it is shown to. |
| GenuineRuns.LiveIsExplained | tflo-cep/src/engine.rs:528-653 | Every live partial has a run: strictly increasing positions, full blocks for past steps after the first, each left as late as its maximum allows, guards, strict contiguity and windows respected throughout, deadline from the step's entry. |
| GenuineRuns.GoneIsGenuine | tflo-cep/src/engine.rs:402-420 | A partial that resolves or finishes does so with a genuine run. |
| GenuineRuns.EmittedIsGenuine | tflo-cep/src/engine.rs:479-482 | Everything the machine ever emits for a pattern the builder accepts is a genuine run of some opening event not crowded out; an absence at its end has captured nothing and a repetition has room for more. |
| ExactMatches.OfferFollows | tflo-cep/src/engine.rs:528-627 | One event takes a partial through exactly the captures and steps that a genuine run says. |
| ExactMatches.GenuineIff | tflo-cep/src/engine.rs:391-653 | For every accepted pattern, history, opening and action: the opening alone is emitted there with these captures if and only if they have a genuine run. |
| ExactMatches.OneMatchPerOpening | tflo-cep/src/engine.rs:479-482 | All genuine runs of an opening end at the same action with the same captures. |
| ExactMatches.EmitsExactlyGenuine | tflo-cep/src/engine.rs:361-653 | For every accepted pattern and history, an action emits exactly the genuine runs ending there of the openings never crowded out. |
| Drops.MachineDropsSolos | tflo-cep/src/engine.rs:484-504 | For every pattern, history and action the drop notices are one deadline notice per uncrowded opening that lapses there, then an overflow notice if and only if an opening is newly crowded out. |
| Drops.LapsesExactly | tflo-cep/src/engine.rs:484-504 | A live opening lapses at an action if and only if it waits at a positive step and the clock read there is outside the window opened by the action that entered the step. |
| Engine.EmitsInOrder | tflo-cep/src/engine.rs:479-482 | The k-th emission is the callback on the k-th captures under the pattern's name. |
| FirstStep.FirstBlockIff | tflo-cep/src/engine.rs:629-645 | In every run the first block is one capture; its size is one the first step allows if and only if that step is positive and its minimum is at most one, and it is described like a later block if and only if its maximum is at most one. |
| FirstStep.RepeatedFirstTakesOne | tflo-cep/src/pattern.rs:348-360 | A repeated first step alone is accepted and emits one capture on every single event, for every predicate, range and event. |
| FirstStep.LoneAbsenceIsPresence | tflo-cep/src/engine.rs:629-645 | A lone bounded negative is accepted and emits on the presence of what it forbids and on nothing else. |
| FirstStep.NoWhenOnlyIfEmpty | tflo-cep/src/pattern.rs:376-378 | The missing-`when` error is for the empty pattern only; any positive step is accepted as the first. |
| Absence.AbsenceDecided | tflo-cep/src/engine.rs:484-504 | With events and ticks and a final flush, a waiting negative is emitted if and only if no matching event came while the clock was within its deadline. |
| Absence.AbsenceOnSortedStream | tflo-cep/src/engine.rs:549-557 | On a clock that never runs backwards, that is: no matching event with a timestamp at most entry time plus bound. |
| Absence.ResolvedIsEmitted | tflo-cep/src/engine.rs:391-422 | What a solo simulation resolves uncrowded is among the machine's emissions. |
| ClockTicks.TickBefore | tflo-cep/src/engine.rs:436-449 | A tick before an action no earlier than it changes neither the state nor the drops, and the emissions only by order. |
| ClockTicks.TicksChangeNothing | tflo-cep/src/engine.rs:428-435 | Any number of ticks, each followed by a push at or after it, can be deleted from a run without changing the final state, the drops or the bag of emissions. |
| ClockTicks.TickAgain | tflo-cep/src/engine.rs:434-435 | A tick no later than one already made does nothing. |
| ClockTicks.TickIdempotent | tflo-cep/src/engine.rs:434-449 | A second tick at the same instant emits nothing and changes nothing, with or without the reorder buffer. |
| ClockTicks.SweepActsIff | tflo-cep/src/engine.rs:484-504 | A sweep takes some partial out of flight if and only if some deadline is strictly below the clock. |
| ClockTicks.TickActsIff | tflo-cep/src/engine.rs:436-449 | For every state and instant, a tick does something if and only if it releases a buffered event or some deadline is strictly below it. |
| ClockTicks.WakeLaw | tflo-cep/src/engine.rs:451-468 | A tick before the wake instant is idle and one after it is not; one exactly at it is idle unless the instant is the buffer's release clock. |
| ClockTicks.IgnoredEventIsTick | tflo-cep/src/engine.rs:1074-1099 | An ignored event acts on a partial as a tick if and only if the deadline has passed or the step is patient. |
| ClockTicks.IgnoredPushIsTick | tflo-cep/src/engine.rs:1074-1099 | An event that opens nothing and that every unexpired partial ignores is a tick for the whole machine if and only if each of those is at a patient step. |
| Accounting.TransitionConserves | tflo-cep/src/engine.rs:484-520 | One action conserves partials: those in flight and opened are in flight, emitted, dropped with a notice or killed. |
| Accounting.EveryPartialAccountedFor | tflo-cep/src/engine.rs:334-339 | Over any run, opened equals emitted plus deadline drops plus overflow drops plus killed plus in flight, and the matcher's drops are exactly those two kinds. |
| Accounting.PushCountsLate | tflo-cep/src/engine.rs:367-371 | A push adds one late notice exactly when the buffer rejects its event. |
| Accounting.RunIsActions | tflo-cep/src/engine.rs:361-449 | Any run of pushes, ticks, flushes and resets through the buffer is the matcher's run over the actions they amount to, with one late notice per rejected push. |
| Accounting.RunConservesPartials | tflo-cep/src/engine.rs:325-339 | Over any such run, opened equals emitted plus deadline drops plus overflow drops plus killed plus in flight, and the drop count is deadline plus overflow plus late drops. |
| Accounting.FlushIdempotent | tflo-cep/src/engine.rs:391-422 | A second consecutive flush emits nothing and changes nothing, with or without the buffer. |
| Accounting.InFlightIsSafe | tflo-cep/src/pattern.rs:379-392 | For any accepted pattern and run, every partial in flight awaits a step after the first, has captures, and a repeat count below its maximum at repeats and 0 elsewhere. |
| Accounting.AtMostTwoRounds | tflo-cep/src/engine.rs:525-527 | For an accepted pattern the loop of `AdvanceOne`, which is proved to take this many rounds, runs at most twice. |
| Reorder.ReorderBuffer.constructor | tflo-core/src/reorder.rs:69-78 | A new buffer is empty, its lateness clamped to between 0 and 24 hours. |
| Reorder.ReorderBuffer.Step | tflo-core/src/reorder.rs:83-97 | An event behind the frontier is recorded late; any other is buffered and everything at or below the new watermark released. |
| Reorder.ReorderBuffer.AdvanceWatermark | tflo-core/src/reorder.rs:102-106 | Clock time releases everything at or below it minus the lateness, and nothing else (`Releases.ReleasesExactly`). |
| Releases.ReleasesExactly | tflo-core/src/reorder.rs:83-116 | Over any run, an accepted arrival releases exactly what is at or below the latest time read so far minus the lateness, a clock advance exactly what is at or below its own time minus it, a flush everything, a rejected arrival nothing; the rest stays pending. |
| Releases.SeenIsLatest | tflo-core/src/reorder.rs:91-104 | The buffer's clock is the latest of the accepted arrivals' timestamps and the clock advances. |
| Releases.RejectedExactly | tflo-core/src/reorder.rs:83-116 | Over any mix of arrivals, clock advances and flushes, an arrival is rejected if and only if an accepted one with a later timestamp has aged past the lateness of some time read, or been flushed. |
| Reorder.ReorderBuffer.Flush | tflo-core/src/reorder.rs:109-116 | Everything left is released in order. |
| Reorder.ReorderBuffer.TakeLate | tflo-core/src/reorder.rs:143-145 | The late records are handed over once and forgotten. |
| Reorder.ReorderBuffer.NextReleaseClock | tflo-core/src/reorder.rs:125-133 | There is a release clock exactly when something is pending, and when its arithmetic fits, the clock times that release something are exactly those from it on. |
| Reorder.ReorderBuffer.DrainDue | tflo-core/src/reorder.rs:147-161 | The popping loop releases exactly the longest pending prefix at or below the watermark. |
| Reorder.RunInOrder | tflo-core/src/reorder.rs:80-116 | Over any mix of events, clock advances and flushes, all releases and then all pending are strictly increasing in timestamp and arrival; everything pending is above the watermark and not behind the frontier. |
| Reorder.RunSortsAccepted | tflo-core/src/reorder.rs:80-116 | Releases and then pending are the stable sort by timestamp of the accepted arrivals. |
| Reorder.StableSortIsStable | tflo-core/src/reorder.rs:45-52 | That reference sort is sorted, a permutation, and keeps the order of simultaneous events. |
| Reorder.RunConserves | tflo-core/src/reorder.rs:83-145 | Pushed equals released plus pending plus late, as multisets. |
| Reorder.LateExactly | tflo-core/src/reorder.rs:83-87 | On arrivals alone, an event is rejected if and only if an accepted event later than it had already aged past the window of another accepted event. |
| Reorder.NoneLate | tflo-core/src/reorder.rs:66-68 | Events each at most the lateness behind every earlier one are all accepted. |
| Reorder.ReleaseClockIsExact | tflo-core/src/reorder.rs:125-133 | The clock times that release something are exactly those from the release clock on, if and only if the arithmetic does not saturate. |
| ReorderedMatching.PushedIsReleased | tflo-cep/src/engine.rs:361-377 | After any arrivals the matcher has run on exactly the buffer's releases so far. |
| ReorderedMatching.ReorderingSortsAccepted | tflo-cep/src/engine.rs:361-422 | Pushing any arrivals and flushing emits what the plain runtime emits on the stably sorted accepted events, with one late drop per rejected event. |
| ReorderedMatching.ReorderingIsTransparent | tflo-cep/src/engine.rs:354-377 | Arrivals within the lateness behave exactly as the plain runtime on the sorted stream, with no late drop. |
| Pattern.Builder.When | tflo-cep/src/pattern.rs:239-259 | The first step is set, or replaced if there is one. |
| Pattern.Builder.NotBetween | tflo-cep/src/pattern.rs:266-272 | The guard waits for the next positive step. |
| Pattern.Builder.ThenNamed | tflo-cep/src/pattern.rs:286-300 | A positive step is appended with the waiting guard, which is consumed. |
| Pattern.Builder.NotThenNamed | tflo-cep/src/pattern.rs:314-324 | A negative step without a bound is appended; a waiting guard stays. |
| Pattern.Builder.Within | tflo-cep/src/pattern.rs:328-334 | The last step's bound is set, clamped to 64 bits and never negative. |
| Pattern.Builder.NextContiguous | tflo-cep/src/pattern.rs:341-346 | The last step becomes strict unless it is negative. |
| Pattern.Builder.Times | tflo-cep/src/pattern.rs:353-360 | A last positive step is given the range, clamped to 1 <= min <= max; `FirstStep.FirstBlockIff` says what it is worth on the first step. |
| Pattern.Builder.Defer | tflo-cep/src/pattern.rs:495-508 | The first deferred predicate error is the one kept. |
| Pattern.Builder.Emit | tflo-cep/src/pattern.rs:368-436 | Accepts a pattern if and only if nothing is deferred and the engine's precondition holds, and then loses no field of any step; otherwise reports the first fault in order, a missing bound before a misplaced negative. |
| BuilderCalls.BuiltAsCalled | tflo-cep/src/pattern.rs:239-361 | After any sequence of calls every step is what the calls say: name, sign and closure of the call it comes from, the guard waiting then, the last bound, strictness and range given while it was the last step. |
| BuilderCalls.EmittedAsCalled | tflo-cep/src/pattern.rs:394-428 | So is every step of the accepted pattern: for all events and captures it matches exactly what its closure accepts and is guarded by exactly what its guard accepts. |
| Pattern.FaultlessIsWellFormed | tflo-cep/src/pattern.rs:379-392 | Among steps a builder can hold, passing the checks is exactly what the engine needs. |
| Keyed.KeyedGraphState.RunRecord | tflo-core/src/keyed.rs:279-313 | The due timers' items, each with its own time and value, then the record's, evaluated on the graph the timers leave; a failing record discards them. |
| Keyed.KeyedGraphState.DrainUntil | tflo-core/src/keyed.rs:317-339 | The loop releases the due prefix through the graph and stops at the first failure (`KeyedPolicies.DrainStops`). |
| Keyed.KeyedGraphState.Step | tflo-core/src/keyed.rs:353-411 | The three out-of-order policies, with their error and late paths; what each rejects is `KeyedPolicies.UnbufferedDecides`, `KeyedPolicies.BadLatenessRejects` and `Keyed.BuffersAgree`. |
| KeyedPolicies.RunUnbuffered | tflo-core/src/keyed.rs:360-376 | Without a buffer, over any run and for any graph: the graph is fed exactly the accepted records in order; the rejected ones are the late list under `Drop`, in order, and nowhere under `Error`. |
| KeyedPolicies.UnbufferedDecides | tflo-core/src/keyed.rs:360-376 | A record is rejected if and only if an earlier accepted one has a larger timestamp; a rejection is an error and changes nothing, or adds exactly that record to the late list. |
| KeyedPolicies.BadLatenessRejects | tflo-core/src/keyed.rs:377-386 | A lateness outside [0, 24h] makes every record an error and changes nothing. |
| KeyedPolicies.DrainStops | tflo-core/src/keyed.rs:317-339 | The first record to fail ends a drain with its error: it is gone, the frontier is at it, later records are still pending, and what earlier ones returned is lost. |
| KeyedPolicies.DrainRuns | tflo-core/src/keyed.rs:317-339 | A drain none of whose records fails feeds the graph exactly its records and leaves the rest pending. |
| KeyedPolicies.FlushStops | tflo-core/src/keyed.rs:423-435 | The first record to fail ends a flush with its error alone: nothing stays pending and no timer fires. |
| KeyedPolicies.FlushRuns | tflo-core/src/keyed.rs:423-461 | Otherwise the flush ends with one item per remaining timer, with its time and value. |
| Keyed.KeyedGraphState.Flush | tflo-core/src/keyed.rs:423-461 | Pending records in order, then the remaining timers; a failure loses what was still buffered; timers never move the frontier back, records do when an advance had passed them (`KeyedFrontier.FlushGoesBackIff`). |
| Keyed.KeyedGraphState.AdvanceEventTimeWatermark | tflo-core/src/keyed.rs:481-506 | A watermark behind the frontier is refused; otherwise the result is one item per fired timer with its time and value, the frontier and clock move, and the buffer is not drained. |
| Keyed.KeyedGraphState.TakeLateRecords | tflo-core/src/keyed.rs:264-266 | Late records are handed over once. |
| KeyedFrontier.FrontierNeverBack | tflo-core/src/keyed.rs:317-506 | Over any run of records, advances and flushes, under any policy and through any graph, failing ones included, the frontier never moves back while no advance passes a pending record. |
| KeyedFrontier.SeenIsLatest | tflo-core/src/keyed.rs:396-405 | Over any run of records, advances and flushes the keyed clock is the latest time of an accepted record or advance. |
| KeyedFrontier.RecordDrains | tflo-core/src/keyed.rs:393-409 | An accepted record whose releases succeed leaves pending exactly what is above the latest accepted time minus the lateness. |
| KeyedFrontier.AdvanceIsLatest | tflo-core/src/keyed.rs:452-453 | The fires of a flush move the frontier to the latest of it and their times. |
| KeyedFrontier.AdvanceIsSafeIff | tflo-core/src/keyed.rs:481-506 | After an accepted advance no call can move the frontier back, whatever the graph, if and only if no pending record is below it. |
| KeyedFrontier.FlushGoesBackIff | tflo-core/src/keyed.rs:427-436 | A flush through a never-failing graph without timers ends the frontier at the last pending record, so it moves back if and only if that is below it. |
| KeyedFrontier.AdvanceThenFlushGoesBack | tflo-core/src/keyed.rs:440-445 | A record, an advance past it and a flush end the frontier at the record, for every such pair of times. |
| Keyed.BuffersAgree | tflo-core/src/keyed.rs:377-409 | For a lateness in [0, 24h] and a graph that never fails, the keyed buffer holds, rejects and has fed its graph exactly what the stand-alone reorder buffer would after the same steps. |
| Keyed.FlushesAgree | tflo-core/src/keyed.rs:423-461 | So it does at the final flush, before the timers fire. |
| Keyed.ReleaseFeeds | tflo-core/src/keyed.rs:317-339 | Draining through a graph that never fails is feeding it the released prefix. |
| KeyedIter.Iter.NextResult | tflo-core/src/keyed.rs:613-664 | Yields queued results first, reads and routes otherwise, flushes once at the end, and ends only when all is done. |
| KeyedIter.Iter.RouteOne | tflo-core/src/keyed.rs:638-662 | One record changes its own key's state only, created on first sight. |
| KeyedIter.Iter.FlushKeys | tflo-core/src/keyed.rs:620-636 | Every key is flushed exactly once, in the map's own order. |
| KeyedIter.Iter.Collect | tflo-core/src/keyed.rs:602-665 | Run to its end, the iterator yields for each key exactly that key's records' results, in order, then its flush. |
| KeyedIter.RoutedAlone | tflo-core/src/keyed.rs:638-662 | While routing, a key's state and results are those of its own records alone. |
| KeyedIter.FlushedAlone | tflo-core/src/keyed.rs:627-634 | Flushing other keys before or after leaves a key's flush alone. |
| KeyedIter.KeysAreIsolated | tflo-core/src/keyed.rs:509-512 | For any interleaving and any flush order, one key's outputs and errors equal those of a single state run on its records and flushed. |
| Timers.TimerService.Register | tflo-core/src/timer.rs:81-92 | The new live timer takes the next sequence number; sequence numbers stay unique. |
| Timers.TimerService.Delete | tflo-core/src/timer.rs:99-118 | Exactly one live timer with that node and time goes, if there is one; otherwise nothing changes. |
| Timers.TimerService.PopDue | tflo-core/src/timer.rs:122-140 | Returns and removes the least live timer at or below the watermark, and none if and only if there is none. |
| Timers.TimerService.DrainAll | tflo-core/src/timer.rs:144-154 | All live timers in firing order, leaving nothing. |
| Timers.TimerService.TakeSnapshot | tflo-core/src/timer.rs:168-180 | The snapshot lists exactly the live timers in firing order with the counter. |
| Timers.TimerService.Restore | tflo-core/src/timer.rs:186-192 | Any snapshot is taken as it is, duplicates and tombstones included; the service is then valid exactly when the snapshot is well numbered. |
| Timers.SnapshotRestores | tflo-core/src/timer.rs:163-192 | A service's own snapshot restores to a valid service with the same live timers and counter and no tombstones. |
| Timers.PopsAreSorted | tflo-core/src/timer.rs:120-140 | Popping until nothing is due yields exactly the due timers in firing order. |
| Timers.SameLiveSamePops | tflo-core/src/timer.rs:163-192 | Services with the same live timers and counter, tombstones aside, return the same over any run of registrations and pops at changing watermarks. |
| Timers.RestoredServesAlike | tflo-core/src/timer.rs:18-22 | So a service restored from its own snapshot returns what the original would have. |
| Timers.DeleteSameAfterRestoreIff | tflo-core/src/timer.rs:96-112 | A deletion takes the same timer before and after a restore if and only if before it takes the lowest sequence number; after it, it always does. |
| Timers.DeleteNeedNotTakeEarliest | tflo-core/src/timer.rs:96-112 | Three registrations pushed on a binary heap after which deletion takes the later of two equal timers. |
| Timers.DeleteTakesEarliestIff | tflo-core/src/timer.rs:96-112 | Whatever else is registered and however a binary heap stores it, deletion takes the lowest sequence number if and only if at most one live timer has the node and time, or one of them is the first timer there can be (least time, number 0). |
| Checkpoints.Checkpointer.CommitOnce | tflo-core/src/state.rs:319-360 | Behind a closed breaker the snapshot is written if its write lands, and the cursor if the snapshot was acknowledged and its own write lands; nothing else changes in the stores; success is both acknowledged, and every error names the stage that failed. |
| Checkpoints.StoresHoldLastWritten | tflo-core/src/state.rs:334-353 | Over any run of commits, crashes and resets, a key's durable snapshot and cursor are the positions of the last of their writes that were issued and landed. |
| Checkpoints.Checkpointer.WithDeadline | tflo-core/src/state.rs:377-395 | A timeout is counted and recorded as a failure; any other end changes no counter. |
| Checkpoints.Checkpointer.ResetCircuit | tflo-core/src/state.rs:298-301 | Only the consecutive-failure count is cleared. |
| Checkpoints.CrashSafe | tflo-core/src/state.rs:334-353 | Whatever fails, times out or crashes, landed or not, the durable cursor never passes the durable snapshot, for positions not below the durable cursor. |
| Checkpoints.PositionsMustNotRegress | tflo-core/src/state.rs:303-307 | All outcomes of a commit are safe if and only if the breaker is open or its position is not below the durable cursor. |
| Checkpoints.CountersAreExact | tflo-core/src/state.rs:309-311 | The failure count is the failures since the last success, reset or restart, never above the threshold; each completed commit not rejected is counted once, and each timed-out one as a timeout. |
| Checkpoints.OpenStaysOpen | tflo-core/src/state.rs:325-332 | An open breaker performs no write and stays open under any number of attempts. |
| Checkpoints.EveryThresholdOpens | tflo-core/src/state.rs:266-269 | Under failing commits the breaker opens after exactly the threshold, whatever the threshold. |
| WindowJoins.WindowJoin.constructor | tflo-core/src/combinators/join.rs:59-71 | A new join has read nothing, whatever the inputs. |
| WindowJoins.WindowJoin.NextPair | tflo-core/src/combinators/join.rs:113-161 | For any inputs, the next left item comes with the buffered right items inside the saturating window, in right-stream order. |
| WindowJoins.WindowJoin.FillTo | tflo-core/src/combinators/join.rs:121-137 | The reading loop stops at the first buffered last item beyond the window end, or at the end of the stream. |
| WindowJoins.WindowJoin.EvictBefore | tflo-core/src/combinators/join.rs:143-150 | The evicting loop drops exactly the leading items before the window start. |
| WindowJoins.WindowJoin.Collect | tflo-core/src/combinators/join.rs:101-162 | The whole output is the specified buffered join. |
| WindowJoins.SelectNear | tflo-core/src/combinators/join.rs:117-121 | Saturating the window ends selects exactly the items within the true distance. |
| WindowJoins.OneJoined | tflo-core/src/combinators/join.rs:152-158 | One left item gets exactly the right items near it if and only if none of those is outside the buffer. |
| WindowJoins.AgreesWhenNothingMissed | tflo-core/src/combinators/join.rs:113-161 | For any inputs, it is the nested-loop join if and only if no near right item is outside the buffer when its left item is joined. |
| WindowJoins.JoinIsNestedLoopsIff | tflo-core/src/combinators/join.rs:6-9 | For sorted left items and any right items, the join is the nested-loop join if and only if no left item has a near right item behind one beyond its window. |
| WindowJoins.SortedRightsJoinIff | tflo-core/src/combinators/join.rs:6-9 | For sorted right items and any left items, it is the nested-loop join if and only if no right item near a left item lies before the window of an earlier left item. |
| WindowJoins.SortedJoinIsNestedLoops | tflo-core/src/combinators/join.rs:6-9 | On time-sorted inputs it is the nested-loop join, despite eviction, bounded lookahead and saturation. |
| WindowJoins.UnsortedCanMiss | tflo-core/src/combinators/join.rs:122-127 | A right item beyond the window hides every near one behind it, for every window and every such pair. |
| Merges.MergeByKey.constructor | tflo-core/src/combinators/merge.rs:110-133 | For any totally ordered key, the heap starts with exactly the head of each non-empty source. |
| Merges.MergeByKey.NextItem | tflo-core/src/combinators/merge.rs:144-160 | Outputs a least head and refills from its source, leaving one item fewer; ends only when every source has been output whole and in order; keeps the output sorted when the sources are. |
| Merges.MergeByKey.Collect | tflo-core/src/combinators/merge.rs:136-161 | Repeated calls reach the end, with an interleaving that holds every source whole and in order, sorted when the sources are. |
| Merges.PopKeepsOk | tflo-core/src/combinators/merge.rs:144-160 | The heap holds exactly the current head of each unexhausted source, and outputs per source are a prefix of it: nothing lost, repeated or reordered. |
| Merges.PopKeepsSorted | tflo-core/src/combinators/merge.rs:97-102 | With sorted sources the output stays sorted and below every held head, ties between sources in any order. |
| RateLimits.RateLimit.NextItem | tflo-core/src/combinators/rate_limit.rs:80-102 | The outputs are the greedy selection. |
| RateLimits.GreedyExactly | tflo-core/src/combinators/rate_limit.rs:80-102 | An item is output if and only if it is at least the interval after the last one output before it, or none was, sorted input or not. |
| RateLimits.GreedyIsSpaced | tflo-core/src/combinators/rate_limit.rs:80-102 | Consecutive outputs are at least the interval apart, sorted input or not. |
| RateLimits.GreedyIsLongest | tflo-core/src/combinators/rate_limit.rs:80-102 | On sorted input no selection with that spacing is longer. |
| RateLimits.ClampingDecidesAlikeIff | tflo-core/src/combinators/rate_limit.rs:90-96 | The test decides as it would with out-of-order gaps clamped to 0 if and only if the item is in order, the interval is positive, or the interval is at most the negative gap. |
| RateLimits.NoIntervalStillDrops | tflo-core/src/combinators/rate_limit.rs:90-99 | With interval 0 an out-of-order item, which clamping would let through, is dropped. |
| LineProtocol.EscapeIdentifier | tflo-sink-influx/src/lib.rs:173-189 | The pushing loop marks commas and spaces and rewrites newlines. |
| LineProtocol.EscapeTagKey | tflo-sink-influx/src/lib.rs:191-218 | The same, marking equals signs too; used for tag keys, tag values and field keys. |
| LineProtocol.EscapeFieldString | tflo-sink-influx/src/lib.rs:224-236 | Quotes and backslashes are marked, each once. |
| LineProtocol.Format | tflo-sink-influx/src/lib.rs:125-149 | The line is name, tags, fields and timestamp in order, as `LineReader.ReadsBack` reads it; no fields is the only error. |
| LineProtocol.FormatField | tflo-sink-influx/src/lib.rs:238-257 | Each kind of value is printed with its own mark; texts are escaped and quoted; `LineReader.ValueReads` reads it back. |
| LineProtocol.MarksExactly | tflo-sink-influx/src/lib.rs:154-160 | Commas and spaces, in tags equals signs too, are marked with a backslash, in texts quotes and backslashes, newlines become two characters outside texts, and nothing else changes. |
| LineReader.ValueReads | tflo-sink-influx/src/lib.rs:238-257 | A reader that knows only the format gives every field value back: booleans by word, integers by their suffix, texts by their quotes, floats otherwise. |
| LineReader.ReadsBack | tflo-sink-influx/src/lib.rs:125-149 | It gives every clean line back whole: name, tags, fields and timestamp. |
| LineProtocol.UnescapeUndoes | tflo-sink-influx/src/lib.rs:173-207 | Unescaping gives the name or tag back if and only if it has no newline. |
| LineProtocol.UnescapeTextUndoes | tflo-sink-influx/src/lib.rs:224-236 | Unescaping gives every field text back, whatever it contains. |
| LineProtocol.QuotedPeel | tflo-sink-influx/src/lib.rs:220-236 | A quoted text ends at its own closing quote and is determined by what is printed, whatever it contains. |
| LineProtocol.ScanFinds | tflo-sink-influx/src/lib.rs:154-167 | An escaped piece before a delimiter is found whole if and only if it does not end in a backslash. |
| LineProtocol.ValuePeel | tflo-sink-influx/src/lib.rs:238-257 | Field values of all five kinds are told apart and determined by what is printed. |
| LineProtocol.PrintingIsUnambiguous | tflo-sink-influx/src/lib.rs:125-149 | Lines whose names, keys and tag values have no newline, and whose names, tag keys and tag values have no final backslash, print equally only if they are equal. |
| LineProtocol.InKey | tflo-sink-influx/src/lib.rs:136-145 | From where one line is inside a text and another starts a field, they never print alike to the end, whatever fields follow. |
| LineProtocol.KeyNotLonger | tflo-sink-influx/src/lib.rs:213-218 | Field keys of fields printing alike to the end of the line are printed equally long, final backslashes or not. |
| LineProtocol.NewlineCollides | tflo-sink-influx/src/lib.rs:169-171 | Every string with a newline prints like the same string with a backslash and the letter n. |
| LineProtocol.FinalBackslashSwallowsATag | tflo-sink-influx/src/lib.rs:162-167 | Every name ending in a backslash with a first tag prints like a longer name without it. |
| LineProtocol.FinalKeyBackslashesCollide | tflo-sink-influx/src/lib.rs:130-135 | Every tag key ending in a backslash, with an equals sign in its value, prints like another tag whose key ends in a backslash. |
| LineProtocol.FinalValueBackslashesCollide | tflo-sink-influx/src/lib.rs:130-135 | Every tag value ending in a backslash, before a key with a comma, prints with that tag like another such pair. |
| LineProtocol.FinalBackslashesMergeTags | tflo-sink-influx/src/lib.rs:130-135 | A tag whose key and value both end in a backslash prints, with the next tag, like a single tag. |
| LineProtocol.KeyCollisionIsReal | tflo-sink-influx/src/lib.rs:130-135 | The collision of tag keys is between two different tag maps. |
| LineProtocol.ValueCollisionIsReal | tflo-sink-influx/src/lib.rs:130-135 | The collision of tag values is between two different tag maps when the keys are in order. |
| LineProtocol.MergeCollisionIsReal | tflo-sink-influx/src/lib.rs:130-135 | The merging of two tags is between tag maps when the keys are in order. |
| LineProtocol.OneLineIff | tflo-sink-influx/src/lib.rs:169-171 | For a rendering of floats without newlines, a record is on one line if and only if no text field has a newline. |
| Decimal.SignedDenotes | tflo-sink-influx/src/lib.rs:241-242 | Printed integers read back as themselves, so equal texts mean equal integers. |

## Left out

- Predicates, guards, emit callbacks and timestamp extractors are pure function parameters; the CEL, Rhai and Rego languages that can provide them are interpreters outside the repository's own logic.
- The computation graph is an abstract transition: firing due timers, evaluating a record, and the flush that re-registers and fires each remaining timer are three functions of the graph's state. Graph compilation, `zip` and `map` are not part of this model.
- `tflo-cep/src/runtime.rs`, `batch.rs`, `partition.rs`, `group.rs`, `dedupe.rs`, `BoundedSet`, the WebAssembly crates, the Kafka, MQTT, S3, file, Arrow and Parquet backends and the line-protocol `Batcher` would add I/O or easy members.
- `RateLimitKeepLast` may emit a pending item closer than the interval to the previous output, so the spacing law is not its law; `keyed_window_join` is a nested loop already.
- The builder's default-name wrappers `then` and `not_then`, the predicate-expression variants (only the error they defer is modelled) and `timestamp_ms` are one-line wrappers.
- Drop handlers are a ghost log of notices, one per call; what a handler does is not modelled.
- Sequence numbers and counters of 64 bits are unbounded, as is `usize`; the 32-bit failure count is proved never to pass its threshold.
- Binary heaps are sorted sequences (reorder buffers), a bag of entries (timers) or an unordered list from which any least entry may be popped (merge); sifting is modelled only to show what three registrations leave. Hash-map order is an arbitrary choice.
- Input iterators are finite sequences, read one item at a time.
- Clocks, futures, atomics and locks: an asynchronous write is a choice of how it ends, made by the environment; commits are sequential. A timed-out write may or may not have landed but never lands later. Snapshots are represented by the stream position they capture.
- LineReader.ReadsBack: asks field keys without a final backslash, where the reader would not know the end of the key; `LineProtocol.PrintingIsUnambiguous` does not.
- Float rendering is a parameter assumed injective and free of delimiters, quotes, backslashes and the last letters of the other values, and for the reader undone by a parser that is a parameter too; tags are given as a list, of which the sorted lists with distinct keys are the tag maps (`LineProtocol.IsTagMap`); insertion is not modelled.
- `Offer`, an event shown without a sweep or an opening, is the middle phase of a push in the specification, not an input of the runtime; theorems about inputs exclude it.
- The sorted-stream theorems are for pushes and a flush: a tick with a reorder buffer sweeps deadlines at the clock time although older events may still be buffered (tflo-cep/src/engine.rs:441-447).
- WindowJoins.JoinIsNestedLoopsIff: has the left items sorted (`WindowJoins.SortedRightsJoinIff` the right ones); when neither side is, the exact condition is given only in terms of what the buffer holds, by `WindowJoins.AgreesWhenNothingMissed`.
- ClockTicks.WakeLaw: takes the release clock's arithmetic to fit, which `Reorder.ReleaseClockIsExact` shows to be needed; `ClockTicks.TickActsIff` has no such condition.
- Keyed.BuffersAgree: does not cover explicit watermark advances, which move the frontier without draining, so that the two buffers then differ.
- KeyedIter.Iter.NextResult: the key that each result came from is a ghost tag; errors carry no key in the source.
