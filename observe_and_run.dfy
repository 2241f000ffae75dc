/** `observeAndRun`: fork a saga on every transition of the store's state that
    a condition accepts.

    A staged builder (`saga`, then `when`, then `run`) assembles a definition;
    running it reads the state, then loops for ever: read the state again, fork
    the saga when the state changed and the condition accepts the change, then
    take one action. The loop is run here over a finite window of reads:
    `obs[0]` is the first read, `obs[1]` the read at the start of the first pass
    (no take in between), and `obs[k + 1]` the read after the k-th take.
    Snapshots are compared with `!=`, as the source compares references. */
module ObserveAndRunEffect {
  import opened Sagas

  datatype RunWhenDefinition<!S> = RunWhenDefinition(
    saga: SagaRef,
    condition: (S, S) -> bool  // (previous state, current state)
  )

  /** The object `observeAndRun()` returns: its `saga` member is `sagaPartial`
      over `base`. */
  datatype ObserveAndRunMonad<!S> = ObserveAndRunMonad(base: RunWhenDefinition<S>)

  /** The object the `saga` stage returns: its `when` member is `whenPartial`
      over `base`. */
  datatype ObserveAndRunSagaMonad<!S> = ObserveAndRunSagaMonad(base: RunWhenDefinition<S>)

  /** The object the `when` stage returns: its `run` member is `runPartial`
      over `base`. */
  datatype ObserveAndRunWhenMonad<!S> = ObserveAndRunWhenMonad(base: RunWhenDefinition<S>)

  /** `call(runInternal, definition)`. */
  datatype CallEffect<!S> = CallRunInternal(definition: RunWhenDefinition<S>)

  /** A reaction forked by the loop, with the argument it was forked with. */
  datatype Fork<S> = Fork(saga: SagaRef, arg: S)

  /** The builder's starting point: a placeholder saga and a condition that
      never accepts a transition. */
  function ObserveAndRun<S(!new)>(): (m: ObserveAndRunMonad<S>)
    ensures m.base.saga == Placeholder
    ensures forall previous: S, current: S :: !m.base.condition(previous, current)
  {
    ObserveAndRunMonad(RunWhenDefinition(Placeholder, (_, _) => false))
  }

  /** The `saga` stage: a new definition with the given saga, the condition
      copied from the one it was built on. */
  function SagaPartial<S>(definition: RunWhenDefinition<S>, saga: SagaRef): (m: ObserveAndRunSagaMonad<S>)
    ensures m.base.saga == saga
    ensures m.base.condition == definition.condition
  {
    ObserveAndRunSagaMonad(definition.(saga := saga))
  }

  /** The `when` stage: a new definition with the given condition, the saga
      copied from the one it was built on. */
  function WhenPartial<S>(definition: RunWhenDefinition<S>, condition: (S, S) -> bool): (m: ObserveAndRunWhenMonad<S>)
    ensures m.base.condition == condition
    ensures m.base.saga == definition.saga
  {
    ObserveAndRunWhenMonad(definition.(condition := condition))
  }

  /** The `run` stage: a call of the loop on the assembled definition. */
  function RunPartial<S>(definition: RunWhenDefinition<S>): (e: CallEffect<S>)
    ensures e.definition.saga == definition.saga
    ensures e.definition.condition == definition.condition
  {
    CallRunInternal(definition)
  }

  /** `observeAndRun().saga(saga).when(condition).run()` runs exactly the saga
      and the condition the caller supplied: the defaults are gone. */
  lemma BuilderRunsSuppliedSagaAndCondition<S(!new)>(saga: SagaRef, condition: (S, S) -> bool)
    ensures RunPartial(WhenPartial(SagaPartial(ObserveAndRun<S>().base, saga).base, condition).base)
            == CallRunInternal(RunWhenDefinition(saga, condition))
  {
  }

  /** Whether the snapshots compared by the pass over `obs[i]` (previous) and
      `obs[i + 1]` (current) differ. */
  predicate ChangesAt<S(==)>(obs: seq<S>, i: nat)
    requires i + 1 < |obs|
  {
    obs[i + 1] != obs[i]
  }

  /** Whether the pass that compares `obs[i]` (previous) with `obs[i + 1]`
      (current) forks: the snapshots differ and the condition accepts them. */
  predicate ForksAt<S(==)>(definition: RunWhenDefinition<S>, obs: seq<S>, i: nat)
    requires i + 1 < |obs|
  {
    ChangesAt(obs, i) && definition.condition(obs[i], obs[i + 1])
  }

  /** The reactions forked over a window of reads, one pass per adjacent pair,
      each forked with the older snapshot. */
  function ForkLog<S(==)>(definition: RunWhenDefinition<S>, obs: seq<S>): (forks: seq<Fork<S>>)
    ensures |forks| <= if |obs| == 0 then 0 else |obs| - 1
    ensures forall k :: 0 <= k < |forks| ==> forks[k].saga == definition.saga
  {
    if |obs| < 2 then []
    else
      var last := |obs| - 2;
      ForkLog(definition, obs[..|obs| - 1]) +
      (if ForksAt(definition, obs, last) then [Fork(definition.saga, obs[last])] else [])
  }

  /** The passes that fork, by the index of their older snapshot, in order. */
  function ForkingPasses<S(==)>(definition: RunWhenDefinition<S>, obs: seq<S>): (passes: seq<nat>)
  {
    if |obs| < 2 then []
    else
      var last := |obs| - 2;
      ForkingPasses(definition, obs[..|obs| - 1]) + (if ForksAt(definition, obs, last) then [last] else [])
  }

  /** The transitions on which the condition is evaluated: the adjacent pairs
      that differ. On equal snapshots `!=` short-circuits and the condition is
      not called. */
  function ConditionChecks<S(==)>(obs: seq<S>): (checks: seq<(S, S)>)
    ensures forall k :: 0 <= k < |checks| ==> checks[k].0 != checks[k].1
    ensures |checks| <= if |obs| == 0 then 0 else |obs| - 1
  {
    if |obs| < 2 then []
    else
      var previous, current := obs[|obs| - 2], obs[|obs| - 1];
      ConditionChecks(obs[..|obs| - 1]) + (if current != previous then [(previous, current)] else [])
  }

  /** The passes whose two snapshots differ, by the index of their older
      snapshot, in order. */
  function ChangedPasses<S(==)>(obs: seq<S>): (passes: seq<nat>)
  {
    if |obs| < 2 then []
    else
      var last := |obs| - 2;
      ChangedPasses(obs[..|obs| - 1]) + (if ChangesAt(obs, last) then [last] else [])
  }

  /** The condition is evaluated once on every pass whose snapshots differ and
      on no other, in pass order, each time on that pass's (previous, current)
      pair of adjacent reads. */
  lemma {:induction false} ChecksMatchChangedPasses<S>(obs: seq<S>)
    ensures var checks, passes := ConditionChecks(obs), ChangedPasses(obs);
      && |checks| == |passes|
      && (forall k :: 0 <= k < |passes| ==> passes[k] + 1 < |obs| && checks[k] == (obs[passes[k]], obs[passes[k] + 1]))
      && (forall j, k :: 0 <= j < k < |passes| ==> passes[j] < passes[k])
      && (forall i :: 0 <= i && i + 1 < |obs| ==> (i in passes <==> ChangesAt(obs, i)))
  {
    if |obs| >= 2 {
      var prefix := obs[..|obs| - 1];
      ChecksMatchChangedPasses(prefix);
      forall i | 0 <= i && i + 1 < |prefix|
        ensures ChangesAt(prefix, i) == ChangesAt(obs, i)
      {
        assert prefix[i] == obs[i] && prefix[i + 1] == obs[i + 1];
      }
    }
  }

  /** Forks correspond one to one, in order, to the passes whose snapshots
      differ and satisfy the condition, and each is forked with the older
      snapshot of its pass. */
  lemma {:induction false} ForksMatchForkingPasses<S>(definition: RunWhenDefinition<S>, obs: seq<S>)
    ensures var forks, passes := ForkLog(definition, obs), ForkingPasses(definition, obs);
      && |forks| == |passes|
      && (forall k :: 0 <= k < |passes| ==> passes[k] + 1 < |obs| && forks[k] == Fork(definition.saga, obs[passes[k]]))
      && (forall j, k :: 0 <= j < k < |passes| ==> passes[j] < passes[k])
      && (forall i :: 0 <= i && i + 1 < |obs| ==> (i in passes <==> ForksAt(definition, obs, i)))
  {
    if |obs| >= 2 {
      var prefix := obs[..|obs| - 1];
      ForksMatchForkingPasses(definition, prefix);
      forall i | 0 <= i && i + 1 < |prefix|
        ensures ForksAt(definition, prefix, i) == ForksAt(definition, obs, i)
      {
        assert prefix[i] == obs[i] && prefix[i + 1] == obs[i + 1];
      }
    }
  }

  /** The loop's first two reads are back-to-back selects with no take between
      them, so they see the same snapshot: the first pass neither evaluates the
      condition nor forks, whatever the condition is. */
  lemma {:induction false} NothingForkedBeforeFirstTake<S>(definition: RunWhenDefinition<S>, obs: seq<S>)
    requires 2 <= |obs| && obs[1] == obs[0]
    ensures 0 !in ForkingPasses(definition, obs) && 0 !in ChangedPasses(obs)
    ensures ForkLog(definition, obs[..2]) == [] && ConditionChecks(obs[..2]) == []
  {
    ForksMatchForkingPasses(definition, obs);
    ChecksMatchChangedPasses(obs);
  }

  /** The default definition never forks, whatever the store does. */
  lemma {:induction false} DefaultNeverForks<S(!new)>(obs: seq<S>)
    ensures ForkLog(ObserveAndRun<S>().base, obs) == []
  {
    if |obs| >= 2 {
      DefaultNeverForks(obs[..|obs| - 1]);
    }
  }

  /** `runInternal` over a window of reads, whose first two reads are the same
      snapshot (no take separates them): every pass compares the fresh read
      with the previous one, forks the saga with the previous snapshot when they
      differ and the condition accepts them, then makes the fresh read the
      previous one, whether or not it forked. */
  method RunInternal<S(==)>(definition: RunWhenDefinition<S>, obs: seq<S>)
    returns (forks: seq<Fork<S>>, checks: seq<(S, S)>)
    requires |obs| >= 2 ==> obs[1] == obs[0]
    ensures forks == ForkLog(definition, obs)
    ensures checks == ConditionChecks(obs)
  {
    forks, checks := [], [];
    if |obs| == 0 {
      return;
    }
    var previousState := obs[0];
    var i := 1;
    while i < |obs|
      invariant 1 <= i <= |obs|
      invariant previousState == obs[i - 1]
      invariant forks == ForkLog(definition, obs[..i])
      invariant checks == ConditionChecks(obs[..i])
    {
      var currentState := obs[i];
      if currentState != previousState {
        checks := checks + [(previousState, currentState)];
        if definition.condition(previousState, currentState) {
          forks := forks + [Fork(definition.saga, previousState)];
        }
      }
      previousState := currentState;
      // take('*'): the next read is obs[i + 1]
      i := i + 1;
      assert obs[..i][..i - 1] == obs[..i - 1];
    }
    assert obs[..|obs|] == obs;
  }

  /** The counting scenario: `val` read as 0, 0, then 1 to 4 after four
      increments, under "old even, new odd". Reactions fork on the transitions
      into 1 and into 3, with the older snapshots 0 and 2. */
  lemma EvenToOddForksTwice()
    ensures ForkLog(RunWhenDefinition(Named("count"), (previous: int, current: int) => previous % 2 == 0 && current % 2 == 1),
                    [0, 0, 1, 2, 3, 4])
            == [Fork(Named("count"), 0), Fork(Named("count"), 2)]
  {
    var definition := RunWhenDefinition(Named("count"), (previous: int, current: int) => previous % 2 == 0 && current % 2 == 1);
    var f0, f2 := Fork(Named("count"), 0), Fork(Named("count"), 2);
    assert [0, 0, 1][..2] == [0, 0];
    assert ForkLog(definition, [0, 0]) == [];
    assert ForkLog(definition, [0, 0, 1]) == [f0];
    assert [0, 0, 1, 2][..3] == [0, 0, 1];
    assert ForkLog(definition, [0, 0, 1, 2]) == [f0];
    assert [0, 0, 1, 2, 3][..4] == [0, 0, 1, 2];
    assert ForkLog(definition, [0, 0, 1, 2, 3]) == [f0, f2];
    assert [0, 0, 1, 2, 3, 4][..5] == [0, 0, 1, 2, 3];
  }
}
