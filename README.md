# redux-saga-observer effects, modelled in Dafny

This project models the four effects of redux-saga-observer. They let a saga
react to a Redux store's state:

- `observeUntil(p)` suspends the saga until `p` holds on the store's state. It
  returns at once when `p` already holds. Otherwise it subscribes an action
  channel over an expanding buffer and repeats "take an action, read the state,
  check" (`observe_until.dfy`, with the channel in `channel.dfy`).
- `observeWhile(p)` delegates to `observeUntil` of `s => !p(s)`; the model takes
  the delegated wait to run (`observe_while.dfy`).
- `observeAndRun()` is a staged builder (`saga`, `when`, `run`) whose loop reads
  the state after every action. It forks the saga, with the previous snapshot,
  whenever the snapshot changed and the condition accepts the change
  (`observe_and_run.dfy`).
- `runWhile(saga)` is an immutable builder of tagged invariants and violation
  callbacks. Running it races the saga against one `observeWhile` per invariant.
  If the guard accepts the race outcome, it reads the state once, computes the
  violated tags and calls every callback in order (`run_while.dfy`).

`sagas.dfy` holds the Option and Result wrappers and `SagaRef`, an opaque
reference to a saga. The effects only store, fork or call sagas.

The store is seen through finite windows of reads. For `observeUntil`,
`obs[0]` is the read at call time and `obs[k]` the read after the k-th take.
`arrivals` are the actions the channel receives during the window. For the
`observeAndRun` loop, `obs[0]` is the first read, `obs[1]` the read at the start
of the first pass, and `obs[k + 1]` the read after the k-th take. The two
opening reads are back-to-back selects with no take between them, so
`obs[1] == obs[0]`: the first pass never forks. `observeUntil`'s
loop has no exit but the predicate, and the `observeAndRun` loop has none. A
window ending without a return means the saga is still suspended.

## Model

| member | source | states |
|---|---|---|
| Channel.ActionChannel.Subscribe | src/effects/ObserveUntil.ts:26 | a new subscription starts with nothing pending and nothing received |
| Channel.ActionChannel.Put | src/effects/ObserveUntil.ts:26 | arriving actions join the end of the buffer and nothing is dropped; the invariant `received == delivered + buffer` is kept |
| Channel.ActionChannel.Take | src/effects/ObserveUntil.ts:29 | a take removes and returns the oldest pending action (FIFO); on an empty buffer it blocks (None) and changes nothing |
| ObserveUntilEffect.InvariantMet | src/effects/ObserveUntil.ts:33-37 | reading the k-th state and applying the predicate says yes exactly when the wait, started at that read, would stop there |
| ObserveUntilEffect.FirstMet | src/effects/ObserveUntil.ts:28-30 | reference definition: the index of the first read on which the predicate holds; it holds there and on no earlier read, and None means it holds on no read |
| ObserveUntilEffect.FirstMetIsLeast | src/effects/ObserveUntil.ts:22-30 | a read where the predicate holds, with none earlier, is the first met index |
| ObserveUntilEffect.ObserveUntil | src/effects/ObserveUntil.ts:17-31 | it subscribes iff the predicate fails at call time; if it holds then, it returns with no take. Otherwise each re-check follows exactly one take, so it returns at the first satisfying read after at least one take. Takes return the received actions in order. Without a satisfying read it consumes the whole window and does not return |
| ObserveUntilEffect.StopsAtFirstValueAboveForty | test/src/ObserveUntilSpec.ts:35-44 | with `val` going 20, 35, 45, 50, waiting for `val > 40` ends on the read of 45, after two takes |
| ObserveWhileEffect.ObserveWhile | src/effects/ObserveWhile.ts:9-11 | it behaves as `observeUntil` of the negated predicate. It returns with no subscription when the condition is false at call time. Otherwise it returns at the first read on which the condition is false, having held on every earlier read |
| ObserveWhileEffect.StopsAtFirstValueNotBelowForty | test/src/ObserveWhileSpec.ts:30-50 | while `val < 40`, over 20, 35, 45, 50, ends on the read of 45 |
| ObserveWhileEffect.ReturnsAtOnceWhenAlreadyFalse | test/src/ObserveWhileSpec.ts:52-72 | starting from 60 the wait ends on the call-time read, before any take |
| ObserveAndRunEffect.ObserveAndRun | src/effects/ObserveAndRun.ts:32-39 | the default definition has the placeholder saga and a condition that accepts no transition |
| ObserveAndRunEffect.SagaPartial | src/effects/ObserveAndRun.ts:41-50 | the `saga` stage replaces only the saga and copies the condition |
| ObserveAndRunEffect.WhenPartial | src/effects/ObserveAndRun.ts:52-61 | the `when` stage replaces only the condition and copies the saga |
| ObserveAndRunEffect.RunPartial | src/effects/ObserveAndRun.ts:63-67 | `run` calls the loop on the assembled definition, unchanged |
| ObserveAndRunEffect.BuilderRunsSuppliedSagaAndCondition | src/effects/ObserveAndRun.ts:32-67 | the full chain runs exactly the caller's saga and condition; no default survives |
| ObserveAndRunEffect.ForkLog | src/effects/ObserveAndRun.ts:72-85 | reference definition of the forks over a window: at most one per adjacent pair of reads, all of the definition's saga |
| ObserveAndRunEffect.ConditionChecks | src/effects/ObserveAndRun.ts:75-77 | every pair the condition is evaluated on has differing snapshots (`!=` short-circuits), and there are no more evaluations than passes |
| ObserveAndRunEffect.ChecksMatchChangedPasses | src/effects/ObserveAndRun.ts:73-82 | the evaluations correspond one to one, in pass order, to the passes whose adjacent reads differ, each on that pass's (previous, current) pair; none happens on a pass with equal snapshots |
| ObserveAndRunEffect.ForksMatchForkingPasses | src/effects/ObserveAndRun.ts:73-82 | forks match the passes whose snapshots differ and satisfy the condition: one to one, in order, each with the older snapshot |
| ObserveAndRunEffect.NothingForkedBeforeFirstTake | src/effects/ObserveAndRun.ts:70-79 | when the two opening reads are the same snapshot, as they are with no take between them, the first pass evaluates no condition and forks nothing |
| ObserveAndRunEffect.DefaultNeverForks | src/effects/ObserveAndRun.ts:33-37 | the default definition forks nothing on any window |
| ObserveAndRunEffect.RunInternal | src/effects/ObserveAndRun.ts:69-86 | given that the two opening reads are the same snapshot, the loop forks exactly `ForkLog` and evaluates the condition on exactly `ConditionChecks`. `previousState` advances on every pass, forked or not |
| ObserveAndRunEffect.EvenToOddForksTwice | test/src/ObserveAndRunSpec.ts:27-91 | reads 0, 0, 1, 2, 3, 4 under "old even, new odd" fork twice, with 0 and then 2 |
| RunWhileEffect.RunWhile | src/effects/RunWhile.ts:70-81 | the starting definition guards the given saga with no invariants and no callbacks, and is well tagged |
| RunWhileEffect.AddInvariant | src/effects/RunWhile.ts:83-112 | `'@@Saga'` is an error, and so is a tag already present. Otherwise the invariant is appended at the end, callbacks and saga are copied, and distinct unreserved tags are kept |
| RunWhileEffect.OnViolation | src/effects/RunWhile.ts:114-127 | the callback is appended at the end; invariants and saga are copied |
| RunWhileEffect.ConfiguredDefinitions | src/effects/RunWhile.ts:71-127 | every definition a chain of builder calls reaches has pairwise-distinct tags, none `'@@Saga'`. Its tags and callbacks are the added ones in call order, and the saga is unchanged |
| RunWhileEffect.BuildRace | src/effects/RunWhile.ts:136-145 | the race map's keys are exactly `'@@Saga'` plus every invariant tag. In a well-tagged definition the saga sits under `'@@Saga'` and each invariant's `observeWhile` under its own tag |
| RunWhileEffect.RaceResult | src/effects/RunWhile.ts:147-150 | reading a key of the race result gives the winner's value for the winning key, a truthy inherited member for a name `Object.prototype` provides, and `undefined` otherwise |
| RunWhileEffect.ViolationGuard | src/effects/RunWhile.ts:150 | the written guard holds iff an invariant won with a truthy value, or some other invariant's tag names an inherited member, whoever won |
| RunWhileEffect.WonWatchIsIgnored | src/effects/RunWhile.ts:147-150 | a race won by an invariant's watch, which completes with `undefined`, passes the written guard only when another invariant's tag names an inherited member |
| RunWhileEffect.HorseViolationIsIgnored | src/effects/RunWhile.ts:140-150 | with the single invariant `horse` winning, the intended guard holds and the written one does not |
| RunWhileEffect.SagaWinReportsOnlyInheritedTags | src/effects/RunWhile.ts:147-150 | when the saga wins, in a well-tagged definition, the intended guard fails; the written guard holds, and runs every callback, iff some tag names an inherited member |
| RunWhileEffect.ToStringTagReportsSagaWin | src/effects/RunWhile.ts:87-95 | the builder accepts the tag `toString`; with the saga winning and no invariant winning, the written guard still passes |
| RunWhileEffect.Violations | src/effects/RunWhile.ts:153-155 | a tag is reported iff some invariant with that tag is false on the one state read; the set is never longer than the invariant list |
| RunWhileEffect.ViolationsInRegistrationOrder | src/effects/RunWhile.ts:153-155 | the violated tags come in registration order: the k-th is the tag of the k-th violated invariant, and every violated invariant is included |
| RunWhileEffect.CallViolationCallbacks | src/effects/RunWhile.ts:157-159 | one call per callback, in registration order, each with the same state and violation list |
| RunWhileEffect.HandleViolation | src/effects/RunWhile.ts:151-159 | every callback receives the state read once and the violation set computed against that read |
| RunWhileEffect.RunInternal | src/effects/RunWhile.ts:133-161 | as written: it builds the race map. Callbacks run only when the written guard holds, and then every one runs with the state and `Violations` |
| RunWhileEffect.RunInternalCorrected | src/effects/RunWhile.ts:150-159 | with the intended guard (the winning key is an invariant tag), callbacks run exactly when an invariant won the race, and none run when the saga won, whatever the tags |
| RunWhileEffect.BothInvariantsReported | test/src/RunWhileSpec.ts:117-124 | with `horse` (val1 < 20) and `doggie` (val1 < 19) at val1 = 20, both are reported, `horse` first |

## Left out

- The redux-saga runtime (`call`, `fork`, `race`, `select`, `take`, `actionChannel`) is left out, along with generator scheduling and the cancellation of race losers. `select` is reading the next element of a window of reads, and the race is an input naming the winning key and its value.
- The capacity and growth policy of `buffers.expanding(100)` are left out. The buffer is an unbounded sequence; only "never drops, oldest first" is kept.
- Arrival timing: `ObserveUntilEffect.ObserveUntil` puts the window's arrivals into the channel right after subscription. A FIFO buffer that never drops returns the same action on every take whatever the interleaving, and a take on an empty buffer ends the window.
- Never returning: both loops are run over finite windows. `observeUntil` without a satisfying read, and the `observeAndRun` loop, end the window still suspended.
- Running, failing and exceptions of forked reactions and violation callbacks are left out; only the calls and their arguments are logged.
- Caller predicates (the goal of `observeUntil`, the condition of `observeAndRun`, the invariant clauses) are total functions here. In the source a predicate that throws aborts the wait (src/effects/ObserveUntil.ts:36), the loop (src/effects/ObserveAndRun.ts:77) or the violation branch (src/effects/RunWhile.ts:154); that failure path is not modelled.
- ObserveWhileEffect.ObserveWhile: assumes the effect returned by `observeUntil` is run as a wait. src/effects/ObserveWhile.ts:10 calls `observeUntil`, which returns an effect object rather than an iterator (src/effects/ObserveUntil.ts:17-19). If `call` hands that object straight back, `observeWhile` completes at once without subscribing, and every invariant entry would win its race immediately. That behaviour is not modelled.
- `observeUntil` and `observeUntilInternal` are one member here, because the wrapper only calls the internal generator. `invariantMet` is the helper `InvariantMet`.
- `observeWhile` is a method and not a function, because the wait it delegates to is a loop.
- The TypeScript type-level tag tracking is left out. So is which method each builder stage object exposes (`run` before any invariant, `invariant`/`onViolation` after an invariant, `onViolation`/`run` after a callback): builder calls act on the definition directly.
- The duplicate-tag error message text is left out; `DuplicateTag` only says which tag.
- JavaScript `NaN` is not among the modelled values, so its falsiness is not modelled.
- RunWhileEffect.BuildRace: the entry values are stated for well-tagged definitions only. With repeated tags the later entry replaces the earlier one, as the spread in the loop does, but this is not stated.
- Termination predicates (`until`), derived arguments (`args`) and a `saga` stage on `runWhile` are not in src/effects/ObserveAndRun.ts or src/effects/RunWhile.ts, although the tests call them. The effects here follow the code: `observeAndRun` loops with no exit, and it forks the saga with the previous snapshot.

## Findings

| source | as written | input that shows it | evidently intended | confidence | as-written member | corrected member |
|---|---|---|---|---|---|---|
| src/effects/RunWhile.ts:150 | the violation branch runs only if `!!raceResults[invariant.tag]` for some invariant | invariant `horse`, the only one, goes false and its `observeWhile` wins the race, completing with `undefined` (src/effects/ObserveWhile.ts:9-11 has no return) | run the violation branch when the winning key is an invariant tag (an own key of the result, `hasOwnProperty`) | not executed; assumes redux-saga's race reports each entry's return value in a plain object | RunWhileEffect.WonWatchIsIgnored | RunWhileEffect.RunInternalCorrected |
| src/effects/RunWhile.ts:147-150 | `raceResults[invariant.tag]` also finds members inherited from `Object.prototype`, and `invariant` accepts such tags | an invariant tagged `toString`; the saga wins the race, and `raceResults.toString` is the inherited method, so every callback runs | no callback runs when the saga wins | not executed; assumes redux-saga builds the race result as a plain object | RunWhileEffect.ToStringTagReportsSagaWin | RunWhileEffect.RunInternalCorrected |
