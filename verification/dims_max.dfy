/** The broadcast-rank operator `DimsMax`: for a pair of dimension types,
    the type of the broadcast result. The source states it as a blanket impl
    for equal types plus one `impl_broadcast!(smaller, larger)` invocation
    per unordered pair of distinct types; here those impls are a table and
    the operator looks a pair up in it. */
module DimsMax {
  import opened Common
  import opened Dimension

  /** The `impl_broadcast!(smaller, larger)` invocations, in source order;
      each provides `DimsMax` in both argument orders with `larger` as the
      output. */
  predicate Listed(smaller: Rank, larger: Rank) {
    || (smaller == Static(0) && larger == Static(1))
    || (smaller == Static(0) && larger == Static(2))
    || (smaller == Static(0) && larger == Static(3))
    || (smaller == Static(0) && larger == Static(4))
    || (smaller == Static(0) && larger == Static(5))
    || (smaller == Static(0) && larger == Static(6))
    || (smaller == Static(0) && larger == Static(7))
    || (smaller == Static(0) && larger == Static(8))
    || (smaller == Static(0) && larger == Dyn)
    || (smaller == Static(1) && larger == Static(2))
    || (smaller == Static(1) && larger == Static(3))
    || (smaller == Static(1) && larger == Static(4))
    || (smaller == Static(1) && larger == Static(5))
    || (smaller == Static(1) && larger == Static(6))
    || (smaller == Static(1) && larger == Static(7))
    || (smaller == Static(1) && larger == Static(8))
    || (smaller == Static(1) && larger == Dyn)
    || (smaller == Static(2) && larger == Static(3))
    || (smaller == Static(2) && larger == Static(4))
    || (smaller == Static(2) && larger == Static(5))
    || (smaller == Static(2) && larger == Static(6))
    || (smaller == Static(2) && larger == Static(7))
    || (smaller == Static(2) && larger == Static(8))
    || (smaller == Static(2) && larger == Dyn)
    || (smaller == Static(3) && larger == Static(4))
    || (smaller == Static(3) && larger == Static(5))
    || (smaller == Static(3) && larger == Static(6))
    || (smaller == Static(3) && larger == Static(7))
    || (smaller == Static(3) && larger == Static(8))
    || (smaller == Static(3) && larger == Dyn)
    || (smaller == Static(4) && larger == Static(5))
    || (smaller == Static(4) && larger == Static(6))
    || (smaller == Static(4) && larger == Static(7))
    || (smaller == Static(4) && larger == Static(8))
    || (smaller == Static(4) && larger == Dyn)
    || (smaller == Static(5) && larger == Static(6))
    || (smaller == Static(5) && larger == Static(7))
    || (smaller == Static(5) && larger == Static(8))
    || (smaller == Static(5) && larger == Dyn)
    || (smaller == Static(6) && larger == Static(7))
    || (smaller == Static(6) && larger == Static(8))
    || (smaller == Static(6) && larger == Dyn)
    || (smaller == Static(7) && larger == Static(8))
    || (smaller == Static(7) && larger == Dyn)
    || (smaller == Static(8) && larger == Dyn)
  }

  /** `<A as DimsMax<B>>::Output`, or `None` if no impl applies. */
  function DimsMaxOf(a: Rank, b: Rank): (r: Option<Rank>)
    ensures r.Some? ==> r.value == a || r.value == b
  {
    if a == b then Some(a)
    else if Listed(a, b) then Some(b)
    else if Listed(b, a) then Some(a)
    else None
  }

  /** The listed pairs are exactly the pairs in strictly increasing rank
      order, the dynamic type above every static one. */
  lemma ListedIsRankOrder(s: Rank, l: Rank)
    ensures Listed(s, l) <==> s.Static? && (l.Dyn? || s.k < l.k)
  {
  }

  /** Every one of the 100 ordered pairs of the ten types has an impl. */
  lemma DimsMaxTotal(a: Rank, b: Rank)
    ensures DimsMaxOf(a, b).Some?
  {
    ListedIsRankOrder(a, b);
    ListedIsRankOrder(b, a);
  }

  /** A type broadcast against itself is itself. */
  lemma DimsMaxIdempotent(a: Rank)
    ensures DimsMaxOf(a, a) == Some(a)
  {
  }

  /** Both argument orders give the same type. */
  lemma DimsMaxSymmetric(a: Rank, b: Rank)
    ensures DimsMaxOf(a, b) == DimsMaxOf(b, a)
  {
    ListedIsRankOrder(a, b);
    ListedIsRankOrder(b, a);
  }

  /** Two static ranks broadcast to the larger rank. */
  lemma DimsMaxStatic(j: StaticRank, k: StaticRank)
    ensures DimsMaxOf(Static(j), Static(k)) == Some(Static(if j < k then k else j))
  {
    ListedIsRankOrder(Static(j), Static(k));
    ListedIsRankOrder(Static(k), Static(j));
  }

  /** Anything broadcast against the dynamic type is dynamic. */
  lemma DimsMaxDynamic(a: Rank)
    ensures DimsMaxOf(a, Dyn) == Some(Dyn) && DimsMaxOf(Dyn, a) == Some(Dyn)
  {
    ListedIsRankOrder(a, Dyn);
    ListedIsRankOrder(Dyn, a);
  }
}
