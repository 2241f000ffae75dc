/** `observeWhile`: suspend the calling saga while a predicate on the store's
    state holds; it is `observeUntil` of the negated predicate. */
module ObserveWhileEffect {
  import opened Sagas
  import opened ObserveUntilEffect

  /** `observeWhile(condition)` is `observeUntil(s => !condition(s))`: it returns
      at once, subscribing nothing, when the condition is false at call time, and
      otherwise just after the first read on which the condition is false. */
  method ObserveWhile<S, A>(condition: S -> bool, obs: seq<S>, arrivals: seq<A>) returns (w: WaitRun<A>)
    requires |obs| > 0
    ensures w.subscribed <==> condition(obs[0])
    ensures !w.subscribed ==> w.taken == [] && w.returned
    ensures |w.taken| <= Window(obs, arrivals) && w.taken == arrivals[..|w.taken|]
    ensures forall j :: 0 <= j < |w.taken| ==> condition(obs[j])
    ensures w.returned <==> !condition(obs[|w.taken|])
    ensures w.returned ==> FirstMet(s => !condition(s), obs) == Some(|w.taken|)
    ensures w.returned && w.subscribed ==> |w.taken| >= 1
    ensures !w.returned ==> |w.taken| == Window(obs, arrivals)
    ensures !w.returned ==> forall j :: 0 <= j <= Window(obs, arrivals) ==> condition(obs[j])
  {
    w := ObserveUntil(s => !condition(s), obs, arrivals);
    if !w.returned {
      var n := Window(obs, arrivals);
      forall j | 0 <= j <= n
        ensures condition(obs[j])
      {
        assert obs[..n + 1][j] == obs[j];
      }
    }
  }

  /** While `val < 40` over 20, 35, 45, 50 ends on the read that sees 45. */
  lemma StopsAtFirstValueNotBelowForty()
    ensures FirstMet((val: int) => !(val < 40), [20, 35, 45, 50]) == Some(2)
  {
  }

  /** Starting from 60, `val < 40` is already false: the wait ends on the
      call-time read, before any take. */
  lemma ReturnsAtOnceWhenAlreadyFalse()
    ensures FirstMet((val: int) => !(val < 40), [60, 35, 45, 50]) == Some(0)
  {
  }
}
