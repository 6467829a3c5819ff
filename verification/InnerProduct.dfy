/** The algebra of the inner-product argument: one round of folding. */
module InnerProduct {
  import opened Numbers
  import opened Groups
  import opened Scalars
  import opened Sums

  datatype Vectors<T> = Vectors(a: seq<int>, b: seq<int>, g: seq<T>, h: seq<T>)

  predicate SameLengths<T>(V: Vectors<T>) {
    |V.b| == |V.a| && |V.g| == |V.a| && |V.h| == |V.a|
  }

  ghost predicate WellFormed<T(!new)>(G: Group<T>, q: int, V: Vectors<T>) {
    && SameLengths(V)
    && (forall i :: 0 <= i < |V.a| ==> 0 <= V.a[i] < q && 0 <= V.b[i] < q && G.elem(V.g[i]) && G.elem(V.h[i]))
  }

  lemma WellFormedLengths<T(!new)>(G: Group<T>, q: int, V: Vectors<T>)
    requires WellFormed(G, q, V)
    ensures SameLengths(V)
  {
  }

  /** One round: vectors of half the length, rounded down. */
  function Fold<T>(G: Group<T>, q: int, V: Vectors<T>, u: int, v: int): Vectors<T>
    requires q > 0 && SameLengths(V)
  {
    var half := |V.a| / 2;
    Vectors(seq(half, i requires 0 <= i < half => (V.a[i] * u + V.a[half + i] * v) % q),
            seq(half, i requires 0 <= i < half => (V.b[i] * v + V.b[half + i] * u) % q),
            seq(half, i requires 0 <= i < half => G.add(Scalar(G, q, v, V.g[i]), Scalar(G, q, u, V.g[half + i]))),
            seq(half, i requires 0 <= i < half => G.add(Scalar(G, q, u, V.h[i]), Scalar(G, q, v, V.h[half + i]))))
  }

  /** a_i*g_i + b_i*h_i, and the two cross terms at i. */
  function Term<T>(G: Group<T>, q: int, V: Vectors<T>, i: int): T
    requires q > 0 && SameLengths(V)
  {
    if 0 <= i < |V.a| then G.add(Scalar(G, q, V.a[i], V.g[i]), Scalar(G, q, V.b[i], V.h[i])) else G.zero
  }

  function LTerm<T>(G: Group<T>, q: int, V: Vectors<T>, i: int): T
    requires q > 0 && SameLengths(V)
  {
    var half := |V.a| / 2;
    if 0 <= i < half then G.add(Scalar(G, q, V.a[i], V.g[half + i]), Scalar(G, q, V.b[half + i], V.h[i])) else G.zero
  }

  function RTerm<T>(G: Group<T>, q: int, V: Vectors<T>, i: int): T
    requires q > 0 && SameLengths(V)
  {
    var half := |V.a| / 2;
    if 0 <= i < half then G.add(Scalar(G, q, V.a[half + i], V.g[i]), Scalar(G, q, V.b[i], V.h[half + i])) else G.zero
  }

  function TermOf<T>(G: Group<T>, q: int, V: Vectors<T>): nat -> T
    requires q > 0 && SameLengths(V)
  {
    i => Term(G, q, V, i)
  }

  /** <a, g> + <b, h>. */
  function Commitment<T>(G: Group<T>, q: int, V: Vectors<T>): T
    requires q > 0 && SameLengths(V)
  {
    Sum(G, TermOf(G, q, V), |V.a|)
  }

  function CrossL<T>(G: Group<T>, q: int, V: Vectors<T>): T
    requires q > 0 && SameLengths(V)
  {
    Sum(G, LTerms(G, q, V), |V.a| / 2)
  }

  function CrossR<T>(G: Group<T>, q: int, V: Vectors<T>): T
    requires q > 0 && SameLengths(V)
  {
    Sum(G, RTerms(G, q, V), |V.a| / 2)
  }

  /** What a round of odd length loses: the term of the last element. */
  function Lost<T>(G: Group<T>, q: int, V: Vectors<T>): T
    requires q > 0 && SameLengths(V)
  {
    if |V.a| % 2 == 1 then Term(G, q, V, |V.a| - 1) else G.zero
  }

  // ---------------------------------------------------------------- one index

  /** With u*v = 1, (x*u + y*v) times (v*P + u*Q) is x*P + y*Q plus the two cross terms. */
  lemma FoldedProduct<T(!new)>(G: Group<T>, q: int, x: int, y: int, P: T, Q: T, u: int, v: int)
    requires PrimeOrder(G, q) && G.elem(P) && G.elem(Q) && Eq(q, u * v, 1)
    ensures Scalar(G, q, (x * u + y * v) % q, G.add(Scalar(G, q, v, P), Scalar(G, q, u, Q)))
         == G.add(G.add(Scalar(G, q, x, P), Scalar(G, q, y, Q)),
                  G.add(Scalar(G, q, u * u, Scalar(G, q, x, Q)), Scalar(G, q, v * v, Scalar(G, q, y, P))))
  {
    hide PrimeOrder, Laws, Scalar, Divides;
    OrderFacts(G, q);
    var w := (x * u + y * v) % q;
    ScalarElem(G, q, v, P);
    ScalarElem(G, q, u, Q);
    ScalarOfSum(G, q, w, Scalar(G, q, v, P), Scalar(G, q, u, Q));
    ScalarScalar(G, q, w, v, P);
    ScalarScalar(G, q, w, u, Q);
    FoldedScalars(q, x, y, u, v, w);
    ScalarCongruent(G, q, w * v, x + (v * v) * y, P);
    ScalarCongruent(G, q, w * u, (u * u) * x + y, Q);
    ScalarSum(G, q, x, (v * v) * y, P);
    ScalarSum(G, q, (u * u) * x, y, Q);
    ScalarScalar(G, q, v * v, y, P);
    ScalarScalar(G, q, u * u, x, Q);
    var xP, yQ, cR, cL := Scalar(G, q, x, P), Scalar(G, q, y, Q), Scalar(G, q, (v * v) * y, P),
                          Scalar(G, q, (u * u) * x, Q);
    ScalarElem(G, q, x, P);
    ScalarElem(G, q, y, Q);
    ScalarElem(G, q, (v * v) * y, P);
    ScalarElem(G, q, (u * u) * x, Q);
    AddElem(G, cL, yQ);
    AddElem(G, cR, cL);
    Interchange(G, xP, cR, yQ, cL);
  }

  lemma FoldedScalars(q: int, x: int, y: int, u: int, v: int, w: int)
    requires q > 0 && w == (x * u + y * v) % q && Eq(q, u * v, 1)
    ensures Eq(q, w * v, x + (v * v) * y) && Eq(q, w * u, (u * u) * x + y)
  {
    hide Divides;
    EqMod(q, x * u + y * v);
    EqScale(q, v, w, x * u + y * v);
    EqScale(q, u, w, x * u + y * v);
    EqScale(q, x, u * v, 1);
    EqScale(q, y, u * v, 1);
    EqRefl(q, (v * v) * y);
    EqRefl(q, (u * u) * x);
    EqAdd(q, x * (u * v), x * 1, (v * v) * y, (v * v) * y);
    EqAdd(q, (u * u) * x, (u * u) * x, y * (u * v), y * 1);
    assert v * (x * u + y * v) == x * (u * v) + (v * v) * y;
    assert u * (x * u + y * v) == (u * u) * x + y * (u * v);
    assert v * w == w * v && u * w == w * u;
    EqTrans(q, w * v, x * (u * v) + (v * v) * y, x * 1 + (v * v) * y);
    EqTrans(q, w * u, (u * u) * x + y * (u * v), (u * u) * x + y * 1);
  }

  lemma TermElems<T(!new)>(G: Group<T>, q: int, V: Vectors<T>, i: nat)
    requires PrimeOrder(G, q) && WellFormed(G, q, V)
    ensures G.elem(Term(G, q, V, i)) && G.elem(LTerm(G, q, V, i)) && G.elem(RTerm(G, q, V, i))
  {
    hide PrimeOrder, Laws, Scalar;
    OrderFacts(G, q);
    ZeroElem(G);
    var half := |V.a| / 2;
    if i < |V.a| {
      ScalarElem(G, q, V.a[i], V.g[i]);
      ScalarElem(G, q, V.b[i], V.h[i]);
      AddElem(G, Scalar(G, q, V.a[i], V.g[i]), Scalar(G, q, V.b[i], V.h[i]));
    }
    if i < half {
      ScalarElem(G, q, V.a[i], V.g[half + i]);
      ScalarElem(G, q, V.b[half + i], V.h[i]);
      AddElem(G, Scalar(G, q, V.a[i], V.g[half + i]), Scalar(G, q, V.b[half + i], V.h[i]));
      ScalarElem(G, q, V.a[half + i], V.g[i]);
      ScalarElem(G, q, V.b[i], V.h[half + i]);
      AddElem(G, Scalar(G, q, V.a[half + i], V.g[i]), Scalar(G, q, V.b[i], V.h[half + i]));
    }
  }

  /** Adding two sums of that shape. */
  lemma FourPairs<T(!new)>(G: Group<T>, q: int, k: int, l: int, p1: T, p2: T, x1: T, y1: T, r1: T, r2: T, x2: T, y2: T)
    requires PrimeOrder(G, q) && G.elem(p1) && G.elem(p2) && G.elem(x1) && G.elem(y1)
    requires G.elem(r1) && G.elem(r2) && G.elem(x2) && G.elem(y2)
    ensures G.add(G.add(G.add(p1, p2), G.add(Scalar(G, q, k, x1), Scalar(G, q, l, y1))),
                  G.add(G.add(r1, r2), G.add(Scalar(G, q, k, x2), Scalar(G, q, l, y2))))
         == G.add(G.add(G.add(p1, r1), G.add(p2, r2)),
                  G.add(Scalar(G, q, k, G.add(x1, x2)), Scalar(G, q, l, G.add(y1, y2))))
  {
    hide PrimeOrder, Laws, Scalar;
    OrderFacts(G, q);
    var s1, t1, s2, t2 := Scalar(G, q, k, x1), Scalar(G, q, l, y1), Scalar(G, q, k, x2), Scalar(G, q, l, y2);
    ScalarElem(G, q, k, x1);
    ScalarElem(G, q, l, y1);
    ScalarElem(G, q, k, x2);
    ScalarElem(G, q, l, y2);
    AddElem(G, p1, p2);
    AddElem(G, r1, r2);
    AddElem(G, s1, t1);
    AddElem(G, s2, t2);
    Interchange(G, G.add(p1, p2), G.add(s1, t1), G.add(r1, r2), G.add(s2, t2));
    Interchange(G, p1, p2, r1, r2);
    Interchange(G, s1, t1, s2, t2);
    ScalarOfSum(G, q, k, x1, x2);
    ScalarOfSum(G, q, l, y1, y2);
  }

  lemma FoldedPair<T(!new)>(G: Group<T>, q: int, aLo: int, aHi: int, bLo: int, bHi: int, gLo: T, gHi: T, hLo: T,
                            hHi: T, u: int, v: int)
    requires PrimeOrder(G, q) && Eq(q, u * v, 1) && G.elem(gLo) && G.elem(gHi) && G.elem(hLo) && G.elem(hHi)
    ensures G.add(Scalar(G, q, (aLo * u + aHi * v) % q, G.add(Scalar(G, q, v, gLo), Scalar(G, q, u, gHi))),
                  Scalar(G, q, (bLo * v + bHi * u) % q, G.add(Scalar(G, q, u, hLo), Scalar(G, q, v, hHi))))
         == G.add(G.add(G.add(Scalar(G, q, aLo, gLo), Scalar(G, q, bLo, hLo)),
                        G.add(Scalar(G, q, aHi, gHi), Scalar(G, q, bHi, hHi))),
                  G.add(Scalar(G, q, u * u, G.add(Scalar(G, q, aLo, gHi), Scalar(G, q, bHi, hLo))),
                        Scalar(G, q, v * v, G.add(Scalar(G, q, aHi, gLo), Scalar(G, q, bLo, hHi)))))
  {
    hide PrimeOrder, Laws, Scalar, Divides;
    OrderFacts(G, q);
    FoldedProduct(G, q, aLo, aHi, gLo, gHi, u, v);
    FoldedProduct(G, q, bHi, bLo, hHi, hLo, u, v);
    ScalarElem(G, q, u, hLo);
    ScalarElem(G, q, v, hHi);
    AddElem(G, Scalar(G, q, u, hLo), Scalar(G, q, v, hHi));
    assert bHi * u + bLo * v == bLo * v + bHi * u;
    ScalarElem(G, q, aLo, gLo);
    ScalarElem(G, q, aHi, gHi);
    ScalarElem(G, q, aLo, gHi);
    ScalarElem(G, q, aHi, gLo);
    ScalarElem(G, q, bHi, hHi);
    ScalarElem(G, q, bLo, hLo);
    ScalarElem(G, q, bHi, hLo);
    ScalarElem(G, q, bLo, hHi);
    AddElem(G, Scalar(G, q, bLo, hLo), Scalar(G, q, bHi, hHi));
    FourPairs(G, q, u * u, v * v,
              Scalar(G, q, aLo, gLo), Scalar(G, q, aHi, gHi), Scalar(G, q, aLo, gHi), Scalar(G, q, aHi, gLo),
              Scalar(G, q, bLo, hLo), Scalar(G, q, bHi, hHi), Scalar(G, q, bHi, hLo), Scalar(G, q, bLo, hHi));
  }

  lemma FoldAt<T>(G: Group<T>, q: int, V: Vectors<T>, u: int, v: int, i: nat)
    requires q > 0 && SameLengths(V) && i < |V.a| / 2
    ensures var W, half := Fold(G, q, V, u, v), |V.a| / 2;
            && SameLengths(W) && |W.a| == half
            && W.a[i] == (V.a[i] * u + V.a[half + i] * v) % q && W.b[i] == (V.b[i] * v + V.b[half + i] * u) % q
            && W.g[i] == G.add(Scalar(G, q, v, V.g[i]), Scalar(G, q, u, V.g[half + i]))
            && W.h[i] == G.add(Scalar(G, q, u, V.h[i]), Scalar(G, q, v, V.h[half + i]))
  {
    hide Scalar;
  }

  /** One index of the folded vectors: two terms of the original and u^2, v^2 times the cross terms. */
  lemma FoldedTerm<T(!new)>(G: Group<T>, q: int, V: Vectors<T>, u: int, v: int, i: nat)
    requires PrimeOrder(G, q) && WellFormed(G, q, V) && Eq(q, u * v, 1) && i < |V.a| / 2
    ensures Term(G, q, Fold(G, q, V, u, v), i)
         == G.add(G.add(Term(G, q, V, i), Term(G, q, V, |V.a| / 2 + i)),
                  G.add(Scalar(G, q, u * u, LTerm(G, q, V, i)), Scalar(G, q, v * v, RTerm(G, q, V, i))))
  {
    hide PrimeOrder, Laws, Scalar, Divides, Fold;
    OrderFacts(G, q);
    var half := |V.a| / 2;
    FoldAt(G, q, V, u, v, i);
    FoldedPair(G, q, V.a[i], V.a[half + i], V.b[i], V.b[half + i], V.g[i], V.g[half + i], V.h[i], V.h[half + i], u, v);
  }

  // ---------------------------------------------------------------- one round

  lemma FoldWellFormed<T(!new)>(G: Group<T>, q: int, V: Vectors<T>, u: int, v: int)
    requires PrimeOrder(G, q) && WellFormed(G, q, V)
    ensures WellFormed(G, q, Fold(G, q, V, u, v)) && |Fold(G, q, V, u, v).a| == |V.a| / 2
  {
    hide PrimeOrder, Laws, Scalar;
    OrderFacts(G, q);
    var half := |V.a| / 2;
    forall i | 0 <= i < half
      ensures G.elem(G.add(Scalar(G, q, v, V.g[i]), Scalar(G, q, u, V.g[half + i])))
           && G.elem(G.add(Scalar(G, q, u, V.h[i]), Scalar(G, q, v, V.h[half + i])))
    {
      ScalarElem(G, q, v, V.g[i]);
      ScalarElem(G, q, u, V.g[half + i]);
      ScalarElem(G, q, u, V.h[i]);
      ScalarElem(G, q, v, V.h[half + i]);
      AddElem(G, Scalar(G, q, v, V.g[i]), Scalar(G, q, u, V.g[half + i]));
      AddElem(G, Scalar(G, q, u, V.h[i]), Scalar(G, q, v, V.h[half + i]));
    }
  }

  lemma CommitmentElems<T(!new)>(G: Group<T>, q: int, V: Vectors<T>)
    requires PrimeOrder(G, q) && WellFormed(G, q, V)
    ensures G.elem(Commitment(G, q, V)) && G.elem(CrossL(G, q, V)) && G.elem(CrossR(G, q, V)) && G.elem(Lost(G, q, V))
  {
    hide PrimeOrder, Laws, Scalar, Term, LTerm, RTerm;
    OrderFacts(G, q);
    ZeroElem(G);
    forall i: nat ensures G.elem(Term(G, q, V, i)) && G.elem(LTerm(G, q, V, i)) && G.elem(RTerm(G, q, V, i)) {
      TermElems(G, q, V, i);
    }
    SumElem(G, TermOf(G, q, V), |V.a|);
    SumElem(G, LTerms(G, q, V), |V.a| / 2);
    SumElem(G, RTerms(G, q, V), |V.a| / 2);
  }

  /** The terms of the original vectors, in two halves and the lost one. */
  lemma CommitmentHalves<T(!new)>(G: Group<T>, q: int, V: Vectors<T>, hi: nat -> T)
    requires PrimeOrder(G, q) && WellFormed(G, q, V) && forall i: nat ::
               i < |V.a| / 2 ==> hi(i) == Term(G, q, V, |V.a| / 2 + i)
    ensures Commitment(G, q, V)
         == G.add(G.add(Sum(G, TermOf(G, q, V), |V.a| / 2), Sum(G, hi, |V.a| / 2)), Lost(G, q, V))
    ensures G.elem(Sum(G, TermOf(G, q, V), |V.a| / 2)) && G.elem(Sum(G, hi, |V.a| / 2))
  {
    hide PrimeOrder, Laws, Scalar, Term;
    OrderFacts(G, q);
    var n, half, f := |V.a|, |V.a| / 2, TermOf(G, q, V);
    forall i: nat ensures G.elem(f(i)) {
      TermElems(G, q, V, i);
    }
    forall i: nat | i < half ensures G.elem(hi(i)) {
      assert hi(i) == f(half + i);
    }
    SumSplit(G, f, hi, half, half);
    SumElem(G, f, half);
    SumElem(G, hi, half);
    SumElem(G, f, half + half);
    AddZero(G, Sum(G, f, half + half));
    assert n % 2 == 1 ==> n == half + half + 1;
  }

  function HighTerms<T>(G: Group<T>, q: int, V: Vectors<T>): nat -> T
    requires q > 0 && SameLengths(V)
  {
    i => Term(G, q, V, |V.a| / 2 + i)
  }

  function LTerms<T>(G: Group<T>, q: int, V: Vectors<T>): nat -> T
    requires q > 0 && SameLengths(V)
  {
    i => LTerm(G, q, V, i)
  }

  function RTerms<T>(G: Group<T>, q: int, V: Vectors<T>): nat -> T
    requires q > 0 && SameLengths(V)
  {
    i => RTerm(G, q, V, i)
  }

  lemma PartialSumElems<T(!new)>(G: Group<T>, q: int, V: Vectors<T>, n: nat)
    requires PrimeOrder(G, q) && WellFormed(G, q, V)
    ensures G.elem(Sum(G, TermOf(G, q, V), n)) && G.elem(Sum(G, HighTerms(G, q, V), n))
    ensures G.elem(Sum(G, LTerms(G, q, V), n)) && G.elem(Sum(G, RTerms(G, q, V), n))
  {
    hide PrimeOrder, Laws, Scalar, Term, LTerm, RTerm;
    OrderFacts(G, q);
    forall i: nat ensures G.elem(Term(G, q, V, i)) && G.elem(LTerm(G, q, V, i)) && G.elem(RTerm(G, q, V, i)) {
      TermElems(G, q, V, i);
    }
    SumElem(G, TermOf(G, q, V), n);
    SumElem(G, HighTerms(G, q, V), n);
    SumElem(G, LTerms(G, q, V), n);
    SumElem(G, RTerms(G, q, V), n);
  }

  lemma NextTerms<T>(G: Group<T>, q: int, V: Vectors<T>, i: nat)
    requires q > 0 && SameLengths(V)
    ensures Sum(G, TermOf(G, q, V), 0) == G.zero && Sum(G, HighTerms(G, q, V), 0) == G.zero
    ensures Sum(G, LTerms(G, q, V), 0) == G.zero && Sum(G, RTerms(G, q, V), 0) == G.zero
    ensures Sum(G, TermOf(G, q, V), i + 1) == G.add(Sum(G, TermOf(G, q, V), i), Term(G, q, V, i))
    ensures Sum(G, HighTerms(G, q, V), i + 1) == G.add(Sum(G, HighTerms(G, q, V), i), Term(G, q, V, |V.a| / 2 + i))
    ensures Sum(G, LTerms(G, q, V), i + 1) == G.add(Sum(G, LTerms(G, q, V), i), LTerm(G, q, V, i))
    ensures Sum(G, RTerms(G, q, V), i + 1) == G.add(Sum(G, RTerms(G, q, V), i), RTerm(G, q, V, i))
  {
    hide Term, LTerm, RTerm;
  }

  /** The first n folded terms, and the terms of the original they are made of. */
  ghost function FoldedSide<T(!new)>(G: Group<T>, q: int, V: Vectors<T>, u: int, v: int, n: nat): T
    requires q > 0 && SameLengths(V)
  {
    G.add(G.add(Sum(G, TermOf(G, q, V), n), Sum(G, HighTerms(G, q, V), n)),
          G.add(Scalar(G, q, u * u, Sum(G, LTerms(G, q, V), n)), Scalar(G, q, v * v, Sum(G, RTerms(G, q, V), n))))
  }

  lemma FoldedSideNext<T(!new)>(G: Group<T>, q: int, V: Vectors<T>, u: int, v: int, i: nat)
    requires PrimeOrder(G, q) && WellFormed(G, q, V) && Eq(q, u * v, 1) && i < |V.a| / 2
    ensures FoldedSide(G, q, V, u, v, i + 1) == G.add(FoldedSide(G, q, V, u, v, i), Term(G, q, Fold(G, q, V, u, v), i))
  {
    hide PrimeOrder, Laws, Scalar, Term, LTerm, RTerm, Divides, Fold, Sum, TermOf, HighTerms, LTerms, RTerms;
    OrderFacts(G, q);
    FoldWellFormed(G, q, V, u, v);
    NextTerms(G, q, V, i);
    FoldedTerm(G, q, V, u, v, i);
    PartialSumElems(G, q, V, i);
    TermElems(G, q, V, i);
    TermElems(G, q, V, |V.a| / 2 + i);
    FourPairs(G, q, u * u, v * v,
              Sum(G, TermOf(G, q, V), i), Sum(G, HighTerms(G, q, V), i), Sum(G, LTerms(G, q, V), i),
              Sum(G, RTerms(G, q, V), i),
              Term(G, q, V, i), Term(G, q, V, |V.a| / 2 + i), LTerm(G, q, V, i), RTerm(G, q, V, i));
  }

  lemma {:induction false} FoldedSum<T(!new)>(G: Group<T>, q: int, V: Vectors<T>, u: int, v: int, n: nat)
    requires PrimeOrder(G, q) && WellFormed(G, q, V) && Eq(q, u * v, 1) && n <= |V.a| / 2
    ensures Sum(G, TermOf(G, q, Fold(G, q, V, u, v)), n) == FoldedSide(G, q, V, u, v, n)
  {
    hide PrimeOrder, Laws, Scalar, Term, LTerm, RTerm, Divides, Fold, Sum, TermOf, HighTerms, LTerms, RTerms;
    OrderFacts(G, q);
    FoldWellFormed(G, q, V, u, v);
    if n == 0 {
      NextTerms(G, q, Fold(G, q, V, u, v), 0);
      NextTerms(G, q, V, 0);
      ScalarOfZero(G, q, u * u);
      ScalarOfZero(G, q, v * v);
      ZeroElem(G);
      AddZero(G, G.zero);
    } else {
      hide FoldedSide;
      var i: nat := n - 1;
      NextTerms(G, q, Fold(G, q, V, u, v), i);
      FoldedSum(G, q, V, u, v, i);
      FoldedSideNext(G, q, V, u, v, i);
    }
  }

  /** One round of folding with an invertible challenge: the folded commitment and the lost term together are
      the original commitment plus u^2*L and u^-2*R. */
  lemma RoundIdentity<T(!new)>(G: Group<T>, q: int, V: Vectors<T>, u: int, v: int)
    requires PrimeOrder(G, q) && WellFormed(G, q, V) && Eq(q, u * v, 1)
    ensures G.add(Commitment(G, q, Fold(G, q, V, u, v)), Lost(G, q, V))
         == G.add(Commitment(G, q, V),
                  G.add(Scalar(G, q, u * u, CrossL(G, q, V)), Scalar(G, q, v * v, CrossR(G, q, V))))
  {
    hide PrimeOrder, Laws, Scalar, Term, LTerm, RTerm, Divides, Fold, Lost, Sum;
    OrderFacts(G, q);
    var half := |V.a| / 2;
    FoldWellFormed(G, q, V, u, v);
    FoldedSum(G, q, V, u, v, half);
    CommitmentElems(G, q, V);
    CommitmentHalves(G, q, V, HighTerms(G, q, V));
    ScalarElem(G, q, u * u, CrossL(G, q, V));
    ScalarElem(G, q, v * v, CrossR(G, q, V));
    MoveLost(G, Sum(G, TermOf(G, q, V), half), Sum(G, HighTerms(G, q, V), half),
             Scalar(G, q, u * u, CrossL(G, q, V)), Scalar(G, q, v * v, CrossR(G, q, V)), Lost(G, q, V));
  }

  lemma MoveLost<T(!new)>(G: Group<T>, a: T, b: T, c: T, d: T, e: T)
    requires Laws(G) && G.elem(a) && G.elem(b) && G.elem(c) && G.elem(d) && G.elem(e)
    ensures G.add(G.add(G.add(a, b), G.add(c, d)), e) == G.add(G.add(G.add(a, b), e), G.add(c, d))
  {
    hide Laws;
    AddElem(G, a, b);
    AddElem(G, c, d);
    AddElem(G, G.add(c, d), e);
    AddAssociates(G, G.add(a, b), G.add(c, d), e);
    AddAssociates(G, G.add(a, b), e, G.add(c, d));
  }
}
