/** `observeUntil`: suspend the calling saga until a predicate on the store's
    state holds.

    The store is seen through a window of observations: `obs[0]` is the state
    read at call time and `obs[k]` the state read right after the k-th take.
    `arrivals` are the actions the subscribed channel receives during the
    window, in dispatch order. */
module ObserveUntilEffect {
  import opened Sagas
  import opened Channel

  /** How one `observeUntil` went within the window. The effect itself completes
      with no value, so none is recorded. */
  datatype WaitRun<A> = WaitRun(
    subscribed: bool,  // an action channel was created
    taken: seq<A>,     // the actions taken from it, in order
    returned: bool     // the saga returned; otherwise it is still suspended
  )

  /** `invariantMet`: select the current state (the k-th observation) and apply
      the predicate to it. */
  function InvariantMet<S>(goal: S -> bool, obs: seq<S>, k: nat): (met: bool)
    requires k < |obs|
    ensures met <==> FirstMet(goal, obs[k..]) == Some(0)
  {
    goal(obs[k])
  }

  /** How many take-and-recheck rounds the window can supply: one per action
      received, and one read after each take. */
  function Window<S, A>(obs: seq<S>, arrivals: seq<A>): (n: nat)
    requires |obs| > 0
    ensures n < |obs| && n <= |arrivals|
    ensures n == |obs| - 1 || n == |arrivals|
  {
    if |obs| - 1 <= |arrivals| then |obs| - 1 else |arrivals|
  }

  /** Reference definition: the index of the first observation on which `p`
      holds, if any. */
  function FirstMet<S>(p: S -> bool, obs: seq<S>): (r: Option<nat>)
    ensures r.Some? ==> r.value < |obs| && p(obs[r.value])
    ensures r.Some? ==> forall j :: 0 <= j < r.value ==> !p(obs[j])
    ensures r.None? ==> forall j :: 0 <= j < |obs| ==> !p(obs[j])
  {
    if |obs| == 0 then None
    else if p(obs[0]) then Some(0)
    else match FirstMet(p, obs[1..])
      case None => None
      case Some(k) => Some(k + 1)
  }

  /** An index where `p` holds, with no earlier one, is the first met index. */
  lemma FirstMetIsLeast<S>(p: S -> bool, obs: seq<S>, k: nat)
    requires k < |obs| && p(obs[k])
    requires forall j :: 0 <= j < k ==> !p(obs[j])
    ensures FirstMet(p, obs) == Some(k)
  {
  }

  /** `observeUntil(goal)`, run over the window. If the predicate holds at
      call time it returns at once and subscribes nothing. Otherwise it
      subscribes a channel, then repeats "take one action, read the state,
      check" and returns just after the first read on which the predicate
      holds. It has no other exit. */
  method ObserveUntil<S, A>(goal: S -> bool, obs: seq<S>, arrivals: seq<A>) returns (w: WaitRun<A>)
    requires |obs| > 0
    ensures w.subscribed <==> !goal(obs[0])
    ensures !w.subscribed ==> w.taken == [] && w.returned
    ensures |w.taken| <= Window(obs, arrivals) && w.taken == arrivals[..|w.taken|]
    ensures forall j :: 0 <= j < |w.taken| ==> !goal(obs[j])
    ensures w.returned <==> goal(obs[|w.taken|])
    ensures w.returned ==> FirstMet(goal, obs) == Some(|w.taken|)
    ensures w.returned && w.subscribed ==> |w.taken| >= 1
    ensures !w.returned ==> |w.taken| == Window(obs, arrivals)
    ensures !w.returned ==> FirstMet(goal, obs[..Window(obs, arrivals) + 1]) == None
  {
    if InvariantMet(goal, obs, 0) {
      FirstMetIsLeast(goal, obs, 0);
      return WaitRun(false, [], true);
    }

    var channel := new ActionChannel<A>.Subscribe();
    // The buffer never drops and serves oldest first, so the k-th take returns
    // the k-th action received however arrivals interleave with the takes.
    channel.Put(arrivals);

    var n := Window(obs, arrivals);
    var k := 0;
    var taken: seq<A> := [];
    var met := false;
    // do { take } while (!invariantMet)
    while !met && k < n
      invariant k <= n
      invariant channel.Valid() && channel.received == arrivals
      invariant taken == arrivals[..k] && channel.delivered == taken && channel.buffer == arrivals[k..]
      invariant met <==> goal(obs[k])
      invariant forall j :: 0 <= j < k ==> !goal(obs[j])
      invariant k == 0 ==> !met
      decreases n - k
    {
      var action := channel.Take();
      taken := taken + [action.value];
      k := k + 1;
      met := InvariantMet(goal, obs, k);
    }

    w := WaitRun(true, taken, met);
    if met {
      FirstMetIsLeast(goal, obs, k);
    }
  }

  /** The store's `val` goes 20, 35, 45, 50; waiting for `val > 40` ends on the
      read that sees 45, after two takes. */
  lemma StopsAtFirstValueAboveForty()
    ensures FirstMet((val: int) => val > 40, [20, 35, 45, 50]) == Some(2)
  {
  }
}
