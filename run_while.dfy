/** `runWhile`: run a saga only while a set of tagged invariants on the store's
    state hold.

    An immutable builder collects the saga, the invariants and the violation
    callbacks. Running the definition races the saga against one `observeWhile`
    per invariant, keyed by tag; the race itself is outside the model and enters
    as its outcome: the key that won and the value its entry completed with.
    When the guard accepts the outcome, the state is read once, the violated
    tags are computed against that one read, and every callback is called in
    turn with the state and those tags. */
module RunWhileEffect {
  import opened Sagas

  /** The race key of the guarded saga; no invariant may use it. */
  const SagaRaceTag: string := "@@Saga"

  datatype Invariant<!S> = Invariant(tag: string, clause: S -> bool)

  datatype RunWhileDefinition<!S> = RunWhileDefinition(
    invariants: seq<Invariant<S>>,
    onViolationCallbacks: seq<SagaRef>,
    saga: SagaRef
  )

  /** The errors `invariant` throws while the definition is being built. */
  datatype ConfigError = ReservedTag(tag: string) | DuplicateTag(tag: string)

  /** One builder call, for chains of them. */
  datatype BuildStep<!S> =
    | InvariantStep(tag: string, clause: S -> bool)
    | OnViolationStep(callback: SagaRef)

  /** An entry of the race: the guarded saga, or the watch of one invariant. */
  datatype RaceEntry<!S> = CallSaga(saga: SagaRef) | CallObserveWhile(clause: S -> bool)

  /** The JavaScript values a race entry can complete with, as far as
      truthiness goes. */
  datatype JsValue = Undefined | Null | Boolean(b: bool) | Number(n: int) | Text(s: string) | Object
  {
    predicate Truthy()
    {
      match this
      case Undefined => false
      case Null => false
      case Boolean(b) => b
      case Number(n) => n != 0
      case Text(s) => s != ""
      case Object => true
    }
  }

  /** The value an invariant's entry completes with: `observeWhile` has no
      return statement, and neither path out of `observeUntil` returns a value. */
  const ObserveWhileCompletion: JsValue := Undefined

  /** The outcome of the race: the key whose entry finished first and the value
      it finished with. The other entries are cancelled. */
  datatype RaceOutcome = RaceOutcome(winner: string, value: JsValue)

  /** One violation callback call, with its arguments. */
  datatype CallbackCall<S> = CallbackCall(callback: SagaRef, state: S, violations: seq<string>)

  function Tags<S>(invariants: seq<Invariant<S>>): (tags: seq<string>)
    ensures |tags| == |invariants|
    ensures forall i :: 0 <= i < |invariants| ==> tags[i] == invariants[i].tag
  {
    seq(|invariants|, i requires 0 <= i < |invariants| => invariants[i].tag)
  }

  /** What the runtime checks in `invariant` guarantee of a definition: the
      tags are pairwise distinct and none is the saga's race key. */
  predicate WellTagged<S>(d: RunWhileDefinition<S>)
  {
    && (forall i :: 0 <= i < |d.invariants| ==> d.invariants[i].tag != SagaRaceTag)
    && (forall i, j :: 0 <= i < j < |d.invariants| ==> d.invariants[i].tag != d.invariants[j].tag)
  }

  /** `runWhile(saga)`: the starting definition guards `saga` with nothing yet. */
  function RunWhile<S>(saga: SagaRef): (d: RunWhileDefinition<S>)
    ensures d.saga == saga && d.invariants == [] && d.onViolationCallbacks == []
    ensures WellTagged(d)
  {
    RunWhileDefinition([], [], saga)
  }

  /** `invariant(tag, clause)`: the reserved tag and a tag already present are
      errors; otherwise a new definition with the invariant appended, the rest
      copied. The definition it was called on is a value and stays as it was. */
  function AddInvariant<S>(d: RunWhileDefinition<S>, tag: string, clause: S -> bool)
    : (r: Result<RunWhileDefinition<S>, ConfigError>)
    ensures tag == SagaRaceTag ==> r == Err(ReservedTag(tag))
    ensures tag != SagaRaceTag && tag in Tags(d.invariants) ==> r == Err(DuplicateTag(tag))
    ensures r.Ok? <==> tag != SagaRaceTag && tag !in Tags(d.invariants)
    ensures r.Ok? ==> r.value.invariants == d.invariants + [Invariant(tag, clause)]
    ensures r.Ok? ==> r.value.onViolationCallbacks == d.onViolationCallbacks && r.value.saga == d.saga
    ensures r.Ok? && WellTagged(d) ==> WellTagged(r.value)
  {
    if tag == SagaRaceTag then Err(ReservedTag(tag))
    else if tag in Tags(d.invariants) then Err(DuplicateTag(tag))
    else Ok(d.(invariants := d.invariants + [Invariant(tag, clause)]))
  }

  /** `onViolation(callback)`: a new definition with the callback appended, the
      invariants and the saga copied. */
  function OnViolation<S>(d: RunWhileDefinition<S>, callback: SagaRef): (r: RunWhileDefinition<S>)
    ensures r.onViolationCallbacks == d.onViolationCallbacks + [callback]
    ensures r.invariants == d.invariants && r.saga == d.saga
    ensures WellTagged(d) ==> WellTagged(r)
  {
    d.(onViolationCallbacks := d.onViolationCallbacks + [callback])
  }

  /** A chain of builder calls; the first error thrown ends the chain. */
  function Configure<S>(d: RunWhileDefinition<S>, steps: seq<BuildStep<S>>): (r: Result<RunWhileDefinition<S>, ConfigError>)
    decreases |steps|
  {
    if |steps| == 0 then Ok(d)
    else
      var next := match steps[0]
        case InvariantStep(tag, clause) => AddInvariant(d, tag, clause)
        case OnViolationStep(callback) => Ok(OnViolation(d, callback));
      match next
      case Err(e) => Err(e)
      case Ok(d') => Configure(d', steps[1..])
  }

  /** The tags a chain adds, in call order. */
  function StepTags<S>(steps: seq<BuildStep<S>>): (tags: seq<string>)
  {
    if |steps| == 0 then []
    else (if steps[0].InvariantStep? then [steps[0].tag] else []) + StepTags(steps[1..])
  }

  /** The callbacks a chain adds, in call order. */
  function StepCallbacks<S>(steps: seq<BuildStep<S>>): (callbacks: seq<SagaRef>)
  {
    if |steps| == 0 then []
    else (if steps[0].OnViolationStep? then [steps[0].callback] else []) + StepCallbacks(steps[1..])
  }

  /** Every definition a chain of builder calls reaches keeps distinct,
      unreserved tags, lists the invariants and callbacks in the order they were
      added, and guards the same saga. */
  lemma {:induction false} ConfiguredDefinitions<S>(d: RunWhileDefinition<S>, steps: seq<BuildStep<S>>)
    requires WellTagged(d)
    decreases |steps|
    ensures Configure(d, steps).Ok? ==>
      var r := Configure(d, steps).value;
      && WellTagged(r)
      && Tags(r.invariants) == Tags(d.invariants) + StepTags(steps)
      && r.onViolationCallbacks == d.onViolationCallbacks + StepCallbacks(steps)
      && r.saga == d.saga
  {
    if |steps| > 0 {
      match steps[0]
      case InvariantStep(tag, clause) =>
        var next := AddInvariant(d, tag, clause);
        if next.Ok? {
          ConfiguredDefinitions(next.value, steps[1..]);
          assert Tags(next.value.invariants) == Tags(d.invariants) + [tag];
        }
      case OnViolationStep(callback) =>
        ConfiguredDefinitions(OnViolation(d, callback), steps[1..]);
        assert Tags(OnViolation(d, callback).invariants) == Tags(d.invariants);
    }
  }

  /** Builds the race map: the saga under the reserved key, then each
      invariant's watch under its tag, one key at a time in registration order. */
  method BuildRace<S>(d: RunWhileDefinition<S>) returns (race: map<string, RaceEntry<S>>)
    ensures forall t :: t in race <==> t == SagaRaceTag || exists i :: 0 <= i < |d.invariants| && d.invariants[i].tag == t
    ensures WellTagged(d) ==> race[SagaRaceTag] == CallSaga(d.saga)
    ensures WellTagged(d) ==>
      forall i :: 0 <= i < |d.invariants| ==> race[d.invariants[i].tag] == CallObserveWhile(d.invariants[i].clause)
  {
    race := map[SagaRaceTag := CallSaga(d.saga)];
    for n := 0 to |d.invariants|
      invariant forall t :: t in race <==> t == SagaRaceTag || exists i :: 0 <= i < n && d.invariants[i].tag == t
      invariant WellTagged(d) ==> race[SagaRaceTag] == CallSaga(d.saga)
      invariant WellTagged(d) ==>
        forall i :: 0 <= i < n ==> race[d.invariants[i].tag] == CallObserveWhile(d.invariants[i].clause)
    {
      race := race[d.invariants[n].tag := CallObserveWhile(d.invariants[n].clause)];
    }
  }

  /** The names an ordinary object inherits from `Object.prototype`. Reading
      one of them on the race result finds a function (for `__proto__`, the
      prototype object), not `undefined`; `invariant` does not reject them. */
  const InheritedKeys: set<string> := {
    "constructor", "hasOwnProperty", "isPrototypeOf", "propertyIsEnumerable",
    "toLocaleString", "toString", "valueOf", "__proto__",
    "__defineGetter__", "__defineSetter__", "__lookupGetter__", "__lookupSetter__"
  }

  /** `raceResults[key]` on the result object `{ [winner]: value }`: the
      winner's own property, otherwise an inherited member, otherwise
      `undefined`. */
  function RaceResult(outcome: RaceOutcome, key: string): (v: JsValue)
    ensures key == outcome.winner ==> v == outcome.value
    ensures key != outcome.winner && key in InheritedKeys ==> v.Truthy()
    ensures key != outcome.winner && key !in InheritedKeys ==> v == Undefined
  {
    if key == outcome.winner then outcome.value
    else if key in InheritedKeys then Object
    else Undefined
  }

  /** The guard as intended: an invariant's entry won the race, that is, the
      winning key is an invariant tag (an own key of the race result). */
  predicate InvariantWon<S>(d: RunWhileDefinition<S>, outcome: RaceOutcome)
  {
    exists i :: 0 <= i < |d.invariants| && d.invariants[i].tag == outcome.winner
  }

  /** Some invariant that did not win has a tag naming an inherited member. */
  predicate InheritedTagLost<S>(d: RunWhileDefinition<S>, outcome: RaceOutcome)
  {
    exists i :: 0 <= i < |d.invariants| && d.invariants[i].tag in InheritedKeys && d.invariants[i].tag != outcome.winner
  }

  /** The guard as written: some invariant's race result is truthy. It holds
      exactly when an invariant won with a truthy value, or when another
      invariant's tag names an inherited member, whoever won. */
  function ViolationGuard<S>(d: RunWhileDefinition<S>, outcome: RaceOutcome): (b: bool)
    ensures b <==> (InvariantWon(d, outcome) && outcome.value.Truthy()) || InheritedTagLost(d, outcome)
  {
    exists i :: 0 <= i < |d.invariants| && RaceResult(outcome, d.invariants[i].tag).Truthy()
  }

  /** As written, a won watch passes the guard only by accident: its entry
      completes with `undefined`, so the guard holds only through another
      invariant whose tag names an inherited member. */
  lemma WonWatchIsIgnored<S>(d: RunWhileDefinition<S>, tag: string)
    ensures ViolationGuard(d, RaceOutcome(tag, ObserveWhileCompletion))
            <==> InheritedTagLost(d, RaceOutcome(tag, ObserveWhileCompletion))
  {
  }

  /** The case the repository's test builds (test/src/RunWhileSpec.ts:61): one
      invariant `horse` that fails and wins the race. The intended guard holds,
      the written one does not. */
  lemma HorseViolationIsIgnored()
    ensures var d := RunWhileDefinition([Invariant("horse", (val1: int) => val1 < 20)], [Named("onViolation")], Named("saga"));
      var outcome := RaceOutcome("horse", ObserveWhileCompletion);
      InvariantWon(d, outcome) && !ViolationGuard(d, outcome)
  {
    var d := RunWhileDefinition([Invariant("horse", (val1: int) => val1 < 20)], [Named("onViolation")], Named("saga"));
    assert d.invariants[0].tag == "horse";
  }

  /** When the saga wins, no invariant won; the written guard still holds, and
      runs every callback, exactly when some tag names an inherited member. */
  lemma SagaWinReportsOnlyInheritedTags<S>(d: RunWhileDefinition<S>, value: JsValue)
    requires WellTagged(d)
    ensures !InvariantWon(d, RaceOutcome(SagaRaceTag, value))
    ensures ViolationGuard(d, RaceOutcome(SagaRaceTag, value))
            <==> exists i :: 0 <= i < |d.invariants| && d.invariants[i].tag in InheritedKeys
  {
  }

  /** An invariant tagged `toString` is accepted by the builder. When the saga
      wins, no invariant was violated, yet the written guard passes because
      `raceResults.toString` is the inherited method. */
  lemma ToStringTagReportsSagaWin()
    ensures var d := RunWhileDefinition([Invariant("toString", (val1: int) => val1 < 20)], [Named("onViolation")], Named("saga"));
      var outcome := RaceOutcome(SagaRaceTag, Undefined);
      WellTagged(d) && !InvariantWon(d, outcome) && ViolationGuard(d, outcome)
  {
    var d := RunWhileDefinition([Invariant("toString", (val1: int) => val1 < 20)], [Named("onViolation")], Named("saga"));
    assert d.invariants[0].tag == "toString";
  }

  /** The violation set: the tags of the invariants whose clause is false on
      `state`, in registration order (`filter` then `map`). */
  function Violations<S>(invariants: seq<Invariant<S>>, state: S): (tags: seq<string>)
    ensures |tags| <= |invariants|
    ensures forall t :: t in tags <==> exists i :: 0 <= i < |invariants| && invariants[i].tag == t && !invariants[i].clause(state)
  {
    if |invariants| == 0 then []
    else
      var rest := Violations(invariants[1..], state);
      assert forall i :: 0 <= i < |invariants| - 1 ==> invariants[1..][i] == invariants[i + 1];
      (if !invariants[0].clause(state) then [invariants[0].tag] else []) + rest
  }

  /** The indices of the violated invariants, in order. */
  function ViolatedIndices<S>(invariants: seq<Invariant<S>>, state: S): (indices: seq<nat>)
  {
    if |invariants| == 0 then []
    else
      var last := |invariants| - 1;
      ViolatedIndices(invariants[..last], state) + (if !invariants[last].clause(state) then [last] else [])
  }

  /** The violation set is ordered by registration: its k-th tag is that of
      the k-th violated invariant, and every violated invariant is there. */
  lemma {:induction false} ViolationsInRegistrationOrder<S>(invariants: seq<Invariant<S>>, state: S)
    ensures var tags, indices := Violations(invariants, state), ViolatedIndices(invariants, state);
      && |tags| == |indices|
      && (forall k :: 0 <= k < |indices| ==> indices[k] < |invariants| && tags[k] == invariants[indices[k]].tag)
      && (forall j, k :: 0 <= j < k < |indices| ==> indices[j] < indices[k])
      && (forall i :: 0 <= i < |invariants| ==> (i in indices <==> !invariants[i].clause(state)))
  {
    if |invariants| > 0 {
      var last := |invariants| - 1;
      var prefix := invariants[..last];
      ViolationsInRegistrationOrder(prefix, state);
      ViolationsSplitLast(invariants, state);
    }
  }

  /** Filtering a list with one more invariant at the end adds at most that
      invariant's tag at the end. */
  lemma {:induction false} ViolationsSplitLast<S>(invariants: seq<Invariant<S>>, state: S)
    requires |invariants| > 0
    ensures var last := |invariants| - 1;
      Violations(invariants, state)
      == Violations(invariants[..last], state) + (if !invariants[last].clause(state) then [invariants[last].tag] else [])
  {
    var last := |invariants| - 1;
    if last > 0 {
      ViolationsSplitLast(invariants[1..], state);
      assert invariants[1..][..last - 1] == invariants[..last][1..];
    }
  }

  /** The callback loop: each callback is called in turn, in registration
      order, with the same state and the same violation set. */
  method CallViolationCallbacks<S>(callbacks: seq<SagaRef>, state: S, violations: seq<string>)
    returns (calls: seq<CallbackCall<S>>)
    ensures |calls| == |callbacks|
    ensures forall k :: 0 <= k < |callbacks| ==> calls[k] == CallbackCall(callbacks[k], state, violations)
  {
    calls := [];
    for k := 0 to |callbacks|
      invariant |calls| == k
      invariant forall j :: 0 <= j < k ==> calls[j] == CallbackCall(callbacks[j], state, violations)
    {
      calls := calls + [CallbackCall(callbacks[k], state, violations)];
    }
  }

  /** The violation branch: `state` is the one read taken after the race; the
      violation set is computed against it and handed to every callback. */
  method HandleViolation<S>(d: RunWhileDefinition<S>, state: S) returns (calls: seq<CallbackCall<S>>)
    ensures |calls| == |d.onViolationCallbacks|
    ensures forall k :: 0 <= k < |calls| ==>
      calls[k] == CallbackCall(d.onViolationCallbacks[k], state, Violations(d.invariants, state))
  {
    var violations := Violations(d.invariants, state);
    calls := CallViolationCallbacks(d.onViolationCallbacks, state, violations);
  }

  /** `runInternal` as written: build the race, and run the violation branch
      only when some invariant's race result is truthy. */
  method RunInternal<S>(d: RunWhileDefinition<S>, outcome: RaceOutcome, state: S)
    returns (race: map<string, RaceEntry<S>>, calls: seq<CallbackCall<S>>)
    ensures forall t :: t in race <==> t == SagaRaceTag || exists i :: 0 <= i < |d.invariants| && d.invariants[i].tag == t
    ensures !ViolationGuard(d, outcome) ==> calls == []
    ensures ViolationGuard(d, outcome) ==>
      && |calls| == |d.onViolationCallbacks|
      && forall k :: 0 <= k < |calls| ==>
           calls[k] == CallbackCall(d.onViolationCallbacks[k], state, Violations(d.invariants, state))
  {
    race := BuildRace(d);
    calls := [];
    if ViolationGuard(d, outcome) {
      calls := HandleViolation(d, state);
    }
  }

  /** `runInternal` with the guard it evidently means: the violation branch runs
      exactly when an invariant's watch won the race, whatever value it
      completed with. */
  method RunInternalCorrected<S>(d: RunWhileDefinition<S>, outcome: RaceOutcome, state: S)
    returns (race: map<string, RaceEntry<S>>, calls: seq<CallbackCall<S>>)
    ensures forall t :: t in race <==> t == SagaRaceTag || exists i :: 0 <= i < |d.invariants| && d.invariants[i].tag == t
    ensures !InvariantWon(d, outcome) ==> calls == []
    ensures InvariantWon(d, outcome) ==>
      && |calls| == |d.onViolationCallbacks|
      && forall k :: 0 <= k < |calls| ==>
           calls[k] == CallbackCall(d.onViolationCallbacks[k], state, Violations(d.invariants, state))
  {
    race := BuildRace(d);
    calls := [];
    if InvariantWon(d, outcome) {
      calls := HandleViolation(d, state);
    }
  }

  /** The reporting scenario: `horse` (val1 < 20) and `doggie` (val1 < 19) are
      both false once val1 is 20, and both are reported, in registration order. */
  lemma BothInvariantsReported()
    ensures Violations([Invariant("horse", (val1: int) => val1 < 20), Invariant("doggie", (val1: int) => val1 < 19)], 20)
            == ["horse", "doggie"]
  {
  }
}
