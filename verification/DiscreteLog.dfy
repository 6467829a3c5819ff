/** The specification both discrete-log searches are proved against: the least multiplier in a range. */
module DiscreteLog {
  import opened Numbers
  import opened Wrappers
  import opened Groups
  import opened Scalars

  ghost predicate IsLeastLog<T(!new)>(g: Group<T>, base: T, target: T, bound: int, r: Option<int>) {
    match r
    case Some(k) =>
      && 0 <= k <= bound && Times(g, k, base) == target
      && (forall j: nat :: j < k ==> Times(g, j, base) != target)
    case None => forall j: nat :: j <= bound ==> Times(g, j, base) != target
  }

  /** The linear scan from m on. */
  ghost function ScanFrom<T(!new)>(g: Group<T>, base: T, target: T, m: nat, bound: int): Option<int>
    decreases bound - m
  {
    if m > bound then None
    else if Times(g, m, base) == target then Some(m)
    else ScanFrom(g, base, target, m + 1, bound)
  }

  lemma {:induction false} ScanFromSpec<T(!new)>(g: Group<T>, base: T, target: T, m: nat, bound: int)
    requires forall j: nat :: j < m ==> Times(g, j, base) != target
    ensures IsLeastLog(g, base, target, bound, ScanFrom(g, base, target, m, bound))
    decreases bound - m
  {
    if m <= bound && Times(g, m, base) != target {
      ScanFromSpec(g, base, target, m + 1, bound);
    }
  }

  /** The scan is the only search that meets the specification. */
  lemma ScanIsLeastLog<T(!new)>(g: Group<T>, base: T, target: T, bound: int, r: Option<int>)
    ensures IsLeastLog(g, base, target, bound, r) <==> r == ScanFrom(g, base, target, 0, bound)
  {
    ScanFromSpec(g, base, target, 0, bound);
  }

  /** The least multiplier of a multiple is its least residue. */
  lemma LeastLogOfScalar<T(!new)>(g: Group<T>, q: int, b: T, m: int, bound: int, r: Option<int>)
    requires PrimeOrder(g, q) && g.elem(b) && b != g.zero
    requires bound >= 0 && IsLeastLog(g, b, Scalar(g, q, m, b), bound, r)
    ensures r == if m % q <= bound then Some(m % q) else None
  {
    hide PrimeOrder, Laws, Divides;
    OrderFacts(g, q);
    var n := m % q;
    assert Times(g, n, b) == Scalar(g, q, m, b);
    if r.Some? {
      var k: nat := r.value;
      TimesReduces(g, q, k, b);
      ScalarInjective(g, q, k, m, b);
      EqIffMod(q, k, m);
      ModSmall(q, k);
    }
  }
}
