/** What holds at the end of a history because some event started it and no event since ended it. */
module History {

  /** Event `k` starts it, given the events before, and none after `k` ends it. */
  ghost predicate Since<E>(
    es: seq<E>, starts: (seq<E>, E) -> bool, ends: (seq<E>, E) -> bool, k: nat)
  {
    && k < |es| && starts(es[..k], es[k])
    && forall m :: k < m < |es| ==> !ends(es[..m], es[m])
  }

  ghost predicate EverSince<E>(es: seq<E>, starts: (seq<E>, E) -> bool, ends: (seq<E>, E) -> bool) {
    exists k :: Since(es, starts, ends, k)
  }

  /** No event ends it. */
  ghost predicate Unended<E>(es: seq<E>, ends: (seq<E>, E) -> bool) {
    forall m :: 0 <= m < |es| ==> !ends(es[..m], es[m])
  }

  lemma SincePrefix<E>(es: seq<E>, starts: (seq<E>, E) -> bool, ends: (seq<E>, E) -> bool, k: nat)
    requires k + 1 < |es|
    ensures var n := |es| - 1;
            Since(es, starts, ends, k) <==> Since(es[..n], starts, ends, k) && !ends(es[..n], es[n])
  {
    var n := |es| - 1;
    assert forall m :: 0 <= m < n ==> es[..n][..m] == es[..m] && es[..n][m] == es[m];
  }

  /** One event more. */
  lemma EverSinceStep<E>(es: seq<E>, starts: (seq<E>, E) -> bool, ends: (seq<E>, E) -> bool)
    requires es != []
    ensures var n := |es| - 1;
            EverSince(es, starts, ends) <==>
            starts(es[..n], es[n]) || (EverSince(es[..n], starts, ends) && !ends(es[..n], es[n]))
  {
    var n := |es| - 1;
    assert starts(es[..n], es[n]) <==> Since(es, starts, ends, n);
    forall k: nat | k < n
      ensures Since(es, starts, ends, k) <==> Since(es[..n], starts, ends, k) && !ends(es[..n], es[n])
    {
      SincePrefix(es, starts, ends, k);
    }
  }

  lemma UnendedStep<E>(es: seq<E>, ends: (seq<E>, E) -> bool)
    requires es != []
    ensures var n := |es| - 1; Unended(es, ends) <==> Unended(es[..n], ends) && !ends(es[..n], es[n])
  {
    var n := |es| - 1;
    assert forall m :: 0 <= m < n ==> es[..n][..m] == es[..m] && es[..n][m] == es[m];
  }
}
