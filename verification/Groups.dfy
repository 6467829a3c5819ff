/** Abelian groups whose elements have a 32-byte encoding: what the client code
    assumes of its group library, and the algebra that follows. */
module Groups {
  import opened Numbers
  import opened Bytes
  import opened Wrappers

  datatype Group<!T> = Group(elem: T -> bool, zero: T, add: (T, T) -> T, neg: T -> T,
                             enc: T -> seq<Byte>, dec: seq<Byte> -> Option<T>)

  ghost predicate Closed<T(!new)>(g: Group<T>) {
    && g.elem(g.zero)
    && (forall a, b {:trigger g.add(a, b)} :: g.elem(a) && g.elem(b) ==> g.elem(g.add(a, b)))
    && (forall a {:trigger g.neg(a)} :: g.elem(a) ==> g.elem(g.neg(a)))
  }

  ghost predicate Commutative<T(!new)>(g: Group<T>) {
    forall a, b {:trigger g.add(a, b)} :: g.elem(a) && g.elem(b) ==> g.add(a, b) == g.add(b, a)
  }

  ghost predicate AssociatesAt<T(!new)>(g: Group<T>, a: T, b: T, c: T) {
    g.add(g.add(a, b), c) == g.add(a, g.add(b, c))
  }

  ghost predicate Associative<T(!new)>(g: Group<T>) {
    forall a, b, c {:trigger AssociatesAt(g, a, b, c)} ::
      g.elem(a) && g.elem(b) && g.elem(c) ==> AssociatesAt(g, a, b, c)
  }

  ghost predicate Invertible<T(!new)>(g: Group<T>) {
    && (forall a {:trigger g.add(a, g.zero)} :: g.elem(a) ==> g.add(a, g.zero) == a)
    && (forall a {:trigger g.add(a, g.neg(a))} :: g.elem(a) ==> g.add(a, g.neg(a)) == g.zero)
  }

  /** Encoding and decoding are inverse, both ways. */
  ghost predicate Coded<T(!new)>(g: Group<T>) {
    && (forall a {:trigger g.enc(a)} :: g.elem(a) ==> |g.enc(a)| == 32 && g.dec(g.enc(a)) == Some(a))
    && (forall s {:trigger g.dec(s)} :: g.dec(s).Some? ==> g.elem(g.dec(s).value) && g.enc(g.dec(s).value) == s)
  }

  ghost predicate Laws<T(!new)>(g: Group<T>) {
    Closed(g) && Commutative(g) && Associative(g) && Invertible(g) && Coded(g)
  }

  // ---------------------------------------------------------------- instances of the laws

  lemma AddElem<T(!new)>(g: Group<T>, a: T, b: T)
    requires Laws(g) && g.elem(a) && g.elem(b)
    ensures g.elem(g.add(a, b)) && g.add(a, b) == g.add(b, a)
  {
  }

  lemma ZeroElem<T(!new)>(g: Group<T>)
    requires Laws(g)
    ensures g.elem(g.zero)
  {
  }

  lemma AddZero<T(!new)>(g: Group<T>, a: T)
    requires Laws(g) && g.elem(a)
    ensures g.add(a, g.zero) == a && g.add(g.zero, a) == a && g.elem(g.zero)
  {
  }

  lemma AddNeg<T(!new)>(g: Group<T>, a: T)
    requires Laws(g) && g.elem(a)
    ensures g.elem(g.neg(a)) && g.add(a, g.neg(a)) == g.zero && g.add(g.neg(a), a) == g.zero
  {
  }

  lemma AddAssociates<T(!new)>(g: Group<T>, a: T, b: T, c: T)
    requires Laws(g) && g.elem(a) && g.elem(b) && g.elem(c)
    ensures g.add(g.add(a, b), c) == g.add(a, g.add(b, c))
    ensures g.elem(g.add(a, b)) && g.elem(g.add(b, c)) && g.elem(g.add(a, g.add(b, c)))
  {
    assert AssociatesAt(g, a, b, c);
  }

  lemma EncDec<T(!new)>(g: Group<T>, a: T)
    requires Laws(g) && g.elem(a)
    ensures |g.enc(a)| == 32 && g.dec(g.enc(a)) == Some(a)
  {
  }

  lemma DecEnc<T(!new)>(g: Group<T>, s: seq<Byte>)
    requires Laws(g) && g.dec(s).Some?
    ensures g.elem(g.dec(s).value) && g.enc(g.dec(s).value) == s && |s| == 32
  {
  }

  lemma EncInjective<T(!new)>(g: Group<T>, a: T, b: T)
    requires Laws(g) && g.elem(a) && g.elem(b)
    ensures g.enc(a) == g.enc(b) <==> a == b
  {
    hide Laws;
    EncDec(g, a);
    EncDec(g, b);
  }

  lemma Cancel<T(!new)>(g: Group<T>, a: T, b: T, c: T)
    requires Laws(g) && g.elem(a) && g.elem(b) && g.elem(c) && g.add(a, c) == g.add(b, c)
    ensures a == b
  {
    hide Laws;
    AddNeg(g, c);
    AddAssociates(g, a, c, g.neg(c));
    AddAssociates(g, b, c, g.neg(c));
    AddZero(g, a);
    AddZero(g, b);
  }

  lemma NegUnique<T(!new)>(g: Group<T>, a: T, b: T)
    requires Laws(g) && g.elem(a) && g.elem(b) && g.add(a, b) == g.zero
    ensures b == g.neg(a)
  {
    hide Laws;
    AddNeg(g, a);
    AddElem(g, a, b);
    Cancel(g, b, g.neg(a), a);
  }

  /** (a + b) + (c + d) = (a + c) + (b + d). */
  lemma Interchange<T(!new)>(g: Group<T>, a: T, b: T, c: T, d: T)
    requires Laws(g) && g.elem(a) && g.elem(b) && g.elem(c) && g.elem(d)
    ensures g.add(g.add(a, b), g.add(c, d)) == g.add(g.add(a, c), g.add(b, d))
  {
    hide Laws;
    AddElem(g, c, d);
    AddElem(g, b, d);
    AddElem(g, b, c);
    AddAssociates(g, a, b, g.add(c, d));
    AddAssociates(g, a, c, g.add(b, d));
    AddAssociates(g, b, c, d);
    AddAssociates(g, c, b, d);
  }

  /** -(a + b) = -a + -b. */
  lemma NegAdd<T(!new)>(g: Group<T>, a: T, b: T)
    requires Laws(g) && g.elem(a) && g.elem(b)
    ensures g.neg(g.add(a, b)) == g.add(g.neg(a), g.neg(b))
  {
    hide Laws;
    AddNeg(g, a);
    AddNeg(g, b);
    AddElem(g, a, b);
    AddElem(g, g.neg(a), g.neg(b));
    Interchange(g, a, b, g.neg(a), g.neg(b));
    ZeroElem(g);
    AddZero(g, g.zero);
    NegUnique(g, g.add(a, b), g.add(g.neg(a), g.neg(b)));
  }

  lemma NegNeg<T(!new)>(g: Group<T>, a: T)
    requires Laws(g) && g.elem(a)
    ensures g.neg(g.neg(a)) == a && g.elem(g.neg(a))
  {
    hide Laws;
    AddNeg(g, a);
    NegUnique(g, g.neg(a), a);
  }

  // ---------------------------------------------------------------- multiples

  /** n-fold sum of a. */
  function Times<T>(g: Group<T>, n: nat, a: T): T {
    if n == 0 then g.zero else g.add(Times(g, n - 1, a), a)
  }

  lemma {:induction false} TimesElem<T(!new)>(g: Group<T>, n: nat, a: T)
    requires Laws(g) && g.elem(a)
    ensures g.elem(Times(g, n, a))
  {
    hide Laws;
    if n == 0 {
      ZeroElem(g);
    } else {
      TimesElem(g, n - 1, a);
      AddElem(g, Times(g, n - 1, a), a);
    }
  }

  lemma {:induction false} TimesSum<T(!new)>(g: Group<T>, m: nat, n: nat, a: T)
    requires Laws(g) && g.elem(a)
    ensures Times(g, m + n, a) == g.add(Times(g, m, a), Times(g, n, a))
  {
    hide Laws;
    TimesElem(g, m, a);
    if n == 0 {
      AddZero(g, Times(g, m, a));
    } else {
      TimesElem(g, n - 1, a);
      TimesSum(g, m, n - 1, a);
      AddAssociates(g, Times(g, m, a), Times(g, n - 1, a), a);
    }
  }

  lemma {:induction false} TimesTimes<T(!new)>(g: Group<T>, m: nat, n: nat, k: nat, a: T)
    requires Laws(g) && g.elem(a) && k == m * n
    ensures Times(g, m, Times(g, n, a)) == Times(g, k, a)
    decreases m
  {
    hide Laws;
    TimesElem(g, n, a);
    if m > 0 {
      assert (m - 1) * n + n == k;
      TimesTimes(g, m - 1, n, k - n, a);
      TimesSum(g, k - n, n, a);
    }
  }

  lemma {:induction false} TimesOfSum<T(!new)>(g: Group<T>, n: nat, a: T, b: T)
    requires Laws(g) && g.elem(a) && g.elem(b)
    ensures Times(g, n, g.add(a, b)) == g.add(Times(g, n, a), Times(g, n, b))
  {
    hide Laws;
    AddElem(g, a, b);
    if n == 0 {
      ZeroElem(g);
      AddZero(g, g.zero);
    } else {
      TimesOfSum(g, n - 1, a, b);
      TimesElem(g, n - 1, a);
      TimesElem(g, n - 1, b);
      Interchange(g, Times(g, n - 1, a), Times(g, n - 1, b), a, b);
    }
  }

  lemma {:induction false} TimesOfZero<T(!new)>(g: Group<T>, n: nat)
    requires Laws(g)
    ensures Times(g, n, g.zero) == g.zero
  {
    hide Laws;
    ZeroElem(g);
    if n > 0 {
      TimesOfZero(g, n - 1);
      AddZero(g, g.zero);
    }
  }

  lemma TimesOne<T(!new)>(g: Group<T>, a: T)
    requires Laws(g) && g.elem(a)
    ensures Times(g, 1, a) == a
  {
    hide Laws;
    AddZero(g, a);
    assert Times(g, 0, a) == g.zero;
  }

  /** Multiples by any integer. */
  function Multiple<T>(g: Group<T>, k: int, a: T): T {
    if k >= 0 then Times(g, k, a) else g.neg(Times(g, -k, a))
  }

  lemma MultipleNeg<T(!new)>(g: Group<T>, k: int, a: T)
    requires Laws(g) && g.elem(a)
    ensures Multiple(g, -k, a) == g.neg(Multiple(g, k, a)) && g.elem(Multiple(g, k, a))
  {
    hide Laws;
    TimesElem(g, if k >= 0 then k else -k, a);
    NegNeg(g, Times(g, if k >= 0 then k else -k, a));
    if k == 0 {
      AddZero(g, g.zero);
      NegUnique(g, g.zero, g.zero);
    }
  }

  /** With k >= 0: (k + l)*a = k*a + l*a. */
  lemma MultipleSumFrom<T(!new)>(g: Group<T>, k: nat, l: int, a: T)
    requires Laws(g) && g.elem(a)
    ensures Multiple(g, k + l, a) == g.add(Multiple(g, k, a), Multiple(g, l, a))
  {
    hide Laws;
    TimesElem(g, k, a);
    if l >= 0 {
      TimesSum(g, k, l, a);
    } else {
      var n := -l;
      TimesElem(g, n, a);
      AddNeg(g, Times(g, n, a));
      if k >= n {
        TimesSum(g, k - n, n, a);
        TimesElem(g, k - n, a);
        AddAssociates(g, Times(g, k - n, a), Times(g, n, a), g.neg(Times(g, n, a)));
        AddZero(g, Times(g, k - n, a));
      } else {
        TimesSum(g, n - k, k, a);
        TimesElem(g, n - k, a);
        NegAdd(g, Times(g, n - k, a), Times(g, k, a));
        AddNeg(g, Times(g, n - k, a));
        AddNeg(g, Times(g, k, a));
        AddElem(g, g.neg(Times(g, n - k, a)), g.neg(Times(g, k, a)));
        AddAssociates(g, Times(g, k, a), g.neg(Times(g, k, a)), g.neg(Times(g, n - k, a)));
        AddZero(g, g.neg(Times(g, n - k, a)));
      }
    }
  }

  lemma MultipleSum<T(!new)>(g: Group<T>, k: int, l: int, a: T)
    requires Laws(g) && g.elem(a)
    ensures Multiple(g, k + l, a) == g.add(Multiple(g, k, a), Multiple(g, l, a))
  {
    hide Laws, Multiple;
    if k >= 0 {
      MultipleSumFrom(g, k, l, a);
    } else {
      MultipleSumFrom(g, -k, -l, a);
      MultipleNeg(g, -k, a);
      MultipleNeg(g, -l, a);
      MultipleNeg(g, -k + -l, a);
      assert -(-k) == k && -(-l) == l && -(-k + -l) == k + l;
      NegAdd(g, Multiple(g, -k, a), Multiple(g, -l, a));
    }
  }

  /** Two coprime multiples that vanish make the element vanish. */
  lemma CoprimeKills<T(!new)>(g: Group<T>, q: int, k: nat, a: T)
    requires Laws(g) && g.elem(a) && IsPrime(q) && !Divides(q, k)
    requires Times(g, q, a) == g.zero && Times(g, k, a) == g.zero
    ensures a == g.zero
  {
    hide Laws, Divides;
    PrimeGcd(q, k);
    var x, y := Bezout(k, q);
    hide IsPrime;
    var m, n := PositiveBezout(x, y, k, q);
    TimesTimes(g, m, k, m * k, a);
    TimesTimes(g, n, q, n * q, a);
    TimesOfZero(g, m);
    TimesOfZero(g, n);
    TimesSum(g, n * q, 1, a);
    TimesOne(g, a);
    AddZero(g, a);
  }

  lemma PositiveBezout(x: int, y: int, k: nat, q: nat) returns (m: nat, n: nat)
    requires x * k + y * q == 1 && q >= 2
    ensures m * k == n * q + 1
  {
    m := x % q;
    var t := x / q;
    var n' := -y - t * k;
    assert x == q * t + m;
    assert x * k == q * (t * k) + m * k;
    assert m * k >= 0;
    assert m * k == n' * q + 1;
    n := n';
  }
}
