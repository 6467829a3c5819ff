/** Multiples by integers modulo the prime order of a group. */
module Scalars {
  import opened Numbers
  import opened Groups

  ghost predicate PrimeOrder<T(!new)>(g: Group<T>, q: int) {
    && Laws(g) && IsPrime(q)
    && (forall a {:trigger Times(g, q, a)} :: g.elem(a) ==> Times(g, q, a) == g.zero)
  }

  function Scalar<T>(g: Group<T>, q: int, k: int, a: T): T
    requires q > 0
  {
    Times(g, k % q, a)
  }

  lemma OrderFacts<T(!new)>(g: Group<T>, q: int)
    requires PrimeOrder(g, q)
    ensures Laws(g) && IsPrime(q) && q >= 2
  {
  }

  lemma OrderKills<T(!new)>(g: Group<T>, q: int, a: T)
    requires PrimeOrder(g, q) && g.elem(a)
    ensures Times(g, q, a) == g.zero
  {
  }

  lemma ScalarElem<T(!new)>(g: Group<T>, q: int, k: int, a: T)
    requires PrimeOrder(g, q) && g.elem(a)
    ensures g.elem(Scalar(g, q, k, a))
  {
    hide Laws;
    TimesElem(g, k % q, a);
  }

  lemma QuotientRemainder(n: nat, q: int)
    requires q > 0
    ensures n == (n / q) * q + n % q && n / q >= 0 && (n / q) * q >= 0
  {
  }

  lemma NatProduct(m: nat, n: nat) returns (k: nat)
    ensures k == m * n
  {
    k := m * n;
  }

  /** Multiples do not change when the multiplier is reduced. */
  lemma TimesReduces<T(!new)>(g: Group<T>, q: int, n: nat, a: T)
    requires PrimeOrder(g, q) && g.elem(a)
    ensures Times(g, n, a) == Scalar(g, q, n, a)
  {
    hide Laws, PrimeOrder, Divides, IsPrime;
    OrderFacts(g, q);
    OrderKills(g, q, a);
    var k, r := n / q, n % q;
    QuotientRemainder(n, q);
    TimesSum(g, k * q, r, a);
    TimesTimes(g, k, q, k * q, a);
    TimesOfZero(g, k);
    TimesElem(g, r, a);
    AddZero(g, Times(g, r, a));
  }

  lemma ScalarCongruent<T>(g: Group<T>, q: int, k: int, l: int, a: T)
    requires q > 0 && Eq(q, k, l)
    ensures Scalar(g, q, k, a) == Scalar(g, q, l, a)
  {
    EqIffMod(q, k, l);
  }

  lemma ScalarSum<T(!new)>(g: Group<T>, q: int, k: int, l: int, a: T)
    requires PrimeOrder(g, q) && g.elem(a)
    ensures Scalar(g, q, k + l, a) == g.add(Scalar(g, q, k, a), Scalar(g, q, l, a))
  {
    hide Laws, PrimeOrder, Divides, IsPrime;
    OrderFacts(g, q);
    var n := k % q + l % q;
    TimesReduces(g, q, n, a);
    TimesSum(g, k % q, l % q, a);
    EqMod(q, k);
    EqMod(q, l);
    EqAdd(q, k % q, k, l % q, l);
    ScalarCongruent(g, q, n, k + l, a);
  }

  lemma ScalarScalar<T(!new)>(g: Group<T>, q: int, k: int, l: int, a: T)
    requires PrimeOrder(g, q) && g.elem(a)
    ensures Scalar(g, q, k, Scalar(g, q, l, a)) == Scalar(g, q, k * l, a)
  {
    hide Laws, PrimeOrder, Divides, IsPrime;
    OrderFacts(g, q);
    var n := NatProduct(k % q, l % q);
    TimesReduces(g, q, n, a);
    TimesTimes(g, k % q, l % q, n, a);
    EqMod(q, k);
    EqMod(q, l);
    EqMul(q, k % q, k, l % q, l);
    ScalarCongruent(g, q, n, k * l, a);
  }

  lemma ScalarOfSum<T(!new)>(g: Group<T>, q: int, k: int, a: T, b: T)
    requires PrimeOrder(g, q) && g.elem(a) && g.elem(b)
    ensures Scalar(g, q, k, g.add(a, b)) == g.add(Scalar(g, q, k, a), Scalar(g, q, k, b))
  {
    hide Laws;
    TimesOfSum(g, k % q, a, b);
  }

  lemma ScalarZero<T(!new)>(g: Group<T>, q: int, a: T)
    requires PrimeOrder(g, q) && g.elem(a)
    ensures Scalar(g, q, 0, a) == g.zero && Scalar(g, q, 1, a) == a
  {
    hide Laws;
    TimesOne(g, a);
    assert 0 % q == 0 && 1 % q == 1;
  }

  lemma ScalarOfZero<T(!new)>(g: Group<T>, q: int, k: int)
    requires PrimeOrder(g, q)
    ensures Scalar(g, q, k, g.zero) == g.zero
  {
    hide Laws;
    TimesOfZero(g, k % q);
  }

  lemma ScalarNeg<T(!new)>(g: Group<T>, q: int, k: int, a: T)
    requires PrimeOrder(g, q) && g.elem(a)
    ensures Scalar(g, q, -k, a) == g.neg(Scalar(g, q, k, a))
  {
    hide Laws, PrimeOrder, Divides, IsPrime;
    OrderFacts(g, q);
    ScalarSum(g, q, k, -k, a);
    ScalarZero(g, q, a);
    ScalarElem(g, q, k, a);
    ScalarElem(g, q, -k, a);
    assert k + -k == 0;
    NegUnique(g, Scalar(g, q, k, a), Scalar(g, q, -k, a));
  }

  lemma ScalarOfNeg<T(!new)>(g: Group<T>, q: int, k: int, a: T)
    requires PrimeOrder(g, q) && g.elem(a)
    ensures Scalar(g, q, k, g.neg(a)) == g.neg(Scalar(g, q, k, a)) && g.elem(g.neg(a))
  {
    hide Laws;
    AddNeg(g, a);
    ScalarOfSum(g, q, k, a, g.neg(a));
    ScalarOfZero(g, q, k);
    ScalarElem(g, q, k, a);
    ScalarElem(g, q, k, g.neg(a));
    NegUnique(g, Scalar(g, q, k, a), Scalar(g, q, k, g.neg(a)));
  }

  lemma MultipleIsScalar<T(!new)>(g: Group<T>, q: int, k: int, a: T)
    requires PrimeOrder(g, q) && g.elem(a)
    ensures Multiple(g, k, a) == Scalar(g, q, k, a)
  {
    hide Laws, PrimeOrder, Scalar;
    OrderFacts(g, q);
    if k >= 0 {
      TimesReduces(g, q, k, a);
    } else {
      TimesReduces(g, q, -k, a);
      ScalarNeg(g, q, -k, a);
    }
  }

  /** Multiples of a non-neutral element are equal exactly when the multipliers are congruent. */
  lemma ScalarInjective<T(!new)>(g: Group<T>, q: int, k: int, l: int, a: T)
    requires PrimeOrder(g, q) && g.elem(a) && a != g.zero
    ensures Scalar(g, q, k, a) == Scalar(g, q, l, a) <==> Eq(q, k, l)
  {
    hide Laws, Divides;
    if Eq(q, k, l) {
      ScalarCongruent(g, q, k, l, a);
    } else if Scalar(g, q, k, a) == Scalar(g, q, l, a) {
      var n := (k - l) % q;
      ScalarSum(g, q, k - l, l, a);
      ScalarElem(g, q, l, a);
      ScalarElem(g, q, k - l, a);
      AddZero(g, Scalar(g, q, l, a));
      Cancel(g, Scalar(g, q, k - l, a), g.zero, Scalar(g, q, l, a));
      EqMod(q, k - l);
      EqDivides(q, n, k - l);
      CoprimeKills(g, q, n, a);
    }
  }

  /** A non-zero multiplier does not change whether an element is neutral. */
  lemma ScalarNonzero<T(!new)>(g: Group<T>, q: int, k: int, a: T)
    requires PrimeOrder(g, q) && g.elem(a) && a != g.zero
    ensures Scalar(g, q, k, a) == g.zero <==> Divides(q, k)
  {
    hide Laws, Divides, PrimeOrder;
    ScalarZero(g, q, a);
    ScalarInjective(g, q, k, 0, a);
    assert k - 0 == k;
  }
}
