/** The witness of the range proof: the bits of the value and the point that commits to them. */
module RangeWitness {
  import opened Wrappers
  import opened Groups
  import opened Scalars
  import opened Sums
  import opened SdkGroup
  import opened ScalarCodec
  import opened InnerProduct
  import opened InnerProductProver

  /** The n low bits, least significant first. */
  function Bits(value: nat, n: nat): (bits: seq<int>)
    ensures |bits| == n && forall i :: 0 <= i < n ==> bits[i] == 0 || bits[i] == 1
  {
    if n == 0 then [] else [value % 2] + Bits(value / 2, n - 1)
  }

  /** The value of a bit string. */
  function Recompose(bits: seq<int>): int {
    if bits == [] then 0 else bits[0] + 2 * Recompose(bits[1..])
  }

  /** -1 for a zero bit and 0 for a one. */
  function Complement(bits: seq<int>): (r: seq<int>)
    ensures |r| == |bits|
  {
    seq(|bits|, i requires 0 <= i < |bits| => if bits[i] == 0 then -1 else 0)
  }

  lemma {:induction false} BitsLast(value: nat, n: nat, rest: nat)
    requires rest == value / Exp2(n)
    ensures Bits(value, n + 1) == Bits(value, n) + [rest % 2] && rest / 2 == value / Exp2(n + 1)
    decreases n
  {
    if n == 0 {
      assert Bits(value, 1) == [value % 2] + Bits(value / 2, 0);
    } else {
      DivideTwice(value, 2, Exp2(n - 1));
      BitsLast(value / 2, n - 1, rest);
      DivideTwice(value, 2, Exp2(n));
    }
  }

  method BitsLE(value: nat, nBits: nat) returns (bits: seq<int>)
    ensures bits == Bits(value, nBits)
  {
    bits := [];
    var tmp := value;
    for i := 0 to nBits
      invariant tmp == value / Exp2(i)
      invariant bits == Bits(value, i)
    {
      BitsLast(value, i, tmp);
      bits := bits + [tmp % 2];
      tmp := tmp / 2;
    }
  }

  /** The bits of every value below 2^n recompose to it, and the complement is aL - 1 with aL * aR = 0. */
  lemma {:induction false} WitnessRelation(value: nat, n: nat)
    ensures value < Exp2(n) <==> Recompose(Bits(value, n)) == value
    ensures 0 <= Recompose(Bits(value, n)) < Exp2(n)
    ensures var aL, aR := Bits(value, n), Complement(Bits(value, n));
            forall i :: 0 <= i < n ==> aR[i] == aL[i] - 1 && aL[i] * aR[i] == 0
    decreases n
  {
    if n > 0 {
      WitnessRelation(value / 2, n - 1);
      assert Bits(value, n)[1..] == Bits(value / 2, n - 1);
    }
  }

  // ---------------------------------------------------------------- the commitment to the bits

  /** blinding*G + <a, gVec> + <b, hVec>. */
  function VectorCommitment<T(!new)>(s: Setup<T>, blinding: int, a: seq<int>, b: seq<int>, gVec: seq<T>,
                                     hVec: seq<T>): T
    requires s.q > 0 && |b| == |a| && |gVec| == |a| && |hVec| == |a|
  {
    s.g.add(Scalar(s.g, s.q, blinding, s.G), Commitment(s.g, s.q, Vectors(a, b, gVec, hVec)))
  }

  ghost predicate Generators<T(!new)>(g: Group<T>, gVec: seq<T>, hVec: seq<T>) {
    |gVec| == |hVec| && forall i :: 0 <= i < |gVec| ==> g.elem(gVec[i]) && g.elem(hVec[i])
  }

  /** One bit: add g for a one, subtract h for a zero. */
  lemma BitTerm<T(!new)>(s: Setup<T>, acc: T, bit: int, P: T, Q: T)
    requires s.Valid() && s.g.elem(acc) && s.g.elem(P) && s.g.elem(Q) && (bit == 0 || bit == 1)
    ensures var c := if bit == 0 then -1 else 0;
            var x := if bit == 1 then s.g.add(acc, P) else acc;
            var y := if c == -1 then Subtract(s.g, x, Q) else x;
            y == s.g.add(acc, s.g.add(Scalar(s.g, s.q, bit, P), Scalar(s.g, s.q, c, Q))) && s.g.elem(y)
            && s.g.elem(s.g.add(Scalar(s.g, s.q, bit, P), Scalar(s.g, s.q, c, Q)))
  {
    hide PrimeOrder, Laws, Setup<T>.Valid, Scalar;
    SetupFacts(s);
    ScalarZero(s.g, s.q, P);
    ScalarZero(s.g, s.q, Q);
    ScalarNeg(s.g, s.q, 1, Q);
    AddNeg(s.g, Q);
    AddZero(s.g, P);
    AddZero(s.g, s.g.neg(Q));
    AddElem(s.g, acc, P);
    AddElem(s.g, acc, s.g.neg(Q));
  }

  lemma NextTerm<T>(G: Group<T>, q: int, V: Vectors<T>, i: nat)
    requires q > 0 && SameLengths(V) && i < |V.a|
    ensures Sum(G, TermOf(G, q, V), 0) == G.zero
    ensures Sum(G, TermOf(G, q, V), i + 1)
         == G.add(Sum(G, TermOf(G, q, V), i), G.add(Scalar(G, q, V.a[i], V.g[i]), Scalar(G, q, V.b[i], V.h[i])))
  {
    hide Scalar;
  }

  /** The branching loop over the bits: it throws when the blinding is zero, and otherwise computes
      alpha*G + <aL, gVec> + <aR, hVec>. */
  method CommitBits<T(!new)>(s: Setup<T>, alpha: int, aL: seq<int>, gVec: seq<T>, hVec: seq<T>)
    returns (r: Result<T, SdkError>)
    requires s.Valid() && Generators(s.g, gVec, hVec) && |gVec| == |aL|
    requires forall i :: 0 <= i < |aL| ==> aL[i] == 0 || aL[i] == 1
    ensures r == if 1 <= alpha < s.q then Ok(VectorCommitment(s, alpha, aL, Complement(aL), gVec, hVec))
            else Err(ScalarOutOfRange)
    ensures r.Ok? ==> s.g.elem(r.value)
  {
    hide PrimeOrder, Laws, Setup<T>.Valid, Scalar, Sum, TermOf;
    SetupFacts(s);
    var aR := Complement(aL);
    var start := Multiply(s.g, s.q, s.G, alpha);
    MultiplyIsScalar(s.g, s.q, s.G, alpha);
    if start.Err? {
      return Err(ScalarOutOfRange);
    }
    var aPoint := start.value;
    ghost var V := Vectors(aL, aR, gVec, hVec);
    ghost var sum := s.g.zero;
    AddZero(s.g, aPoint);
    EmptySum(s.g, TermOf(s.g, s.q, V));
    for i := 0 to |aL|
      invariant sum == Sum(s.g, TermOf(s.g, s.q, V), i) && s.g.elem(sum)
      invariant aPoint == s.g.add(start.value, sum) && s.g.elem(aPoint)
    {
      NextTerm(s.g, s.q, V, i);
      BitTerm(s, aPoint, aL[i], gVec[i], hVec[i]);
      ghost var term := s.g.add(Scalar(s.g, s.q, aL[i], gVec[i]), Scalar(s.g, s.q, aR[i], hVec[i]));
      AddAssociates(s.g, start.value, sum, term);
      if aL[i] == 1 {
        aPoint := s.g.add(aPoint, gVec[i]);
      }
      if aR[i] == -1 {
        aPoint := Subtract(s.g, aPoint, hVec[i]);
      }
      sum := s.g.add(sum, term);
    }
    r := Ok(aPoint);
  }

  lemma EmptySum<T>(G: Group<T>, f: nat -> T)
    ensures Sum(G, f, 0) == G.zero
  {
  }

  ghost predicate AllInRange(q: int, a: seq<int>) {
    forall i :: 0 <= i < |a| ==> 1 <= a[i] < q
  }

  /** acc + k*P, throwing when k is out of range. */
  method AddMultiple<T(!new)>(s: Setup<T>, acc: T, k: int, P: T) returns (r: Result<T, SdkError>)
    requires s.Valid() && s.g.elem(acc) && s.g.elem(P)
    ensures r == if 1 <= k < s.q then Ok(s.g.add(acc, Scalar(s.g, s.q, k, P))) else Err(ScalarOutOfRange)
    ensures s.g.elem(Scalar(s.g, s.q, k, P)) && s.g.elem(s.g.add(acc, Scalar(s.g, s.q, k, P)))
  {
    hide PrimeOrder, Laws, Setup<T>.Valid, Scalar, Multiply;
    SetupFacts(s);
    MultiplyIsScalar(s.g, s.q, P, k);
    MultiplyError(s.g, s.q, P, k);
    ScalarElem(s.g, s.q, k, P);
    AddElem(s.g, acc, Scalar(s.g, s.q, k, P));
    var m := Multiply(s.g, s.q, P, k);
    if m.Err? {
      return Err(ScalarOutOfRange);
    }
    r := Ok(s.g.add(acc, m.value));
  }

  /** acc + k*P + l*Q, throwing when k or l is out of range. */
  method AddPair<T(!new)>(s: Setup<T>, acc: T, k: int, P: T, l: int, Q: T) returns (r: Result<T, SdkError>)
    requires s.Valid() && s.g.elem(acc) && s.g.elem(P) && s.g.elem(Q)
    ensures r == if 1 <= k < s.q && 1 <= l < s.q
                 then Ok(s.g.add(acc, s.g.add(Scalar(s.g, s.q, k, P), Scalar(s.g, s.q, l, Q))))
                 else Err(ScalarOutOfRange)
    ensures s.g.elem(s.g.add(Scalar(s.g, s.q, k, P), Scalar(s.g, s.q, l, Q)))
    ensures s.g.elem(s.g.add(acc, s.g.add(Scalar(s.g, s.q, k, P), Scalar(s.g, s.q, l, Q))))
  {
    hide PrimeOrder, Laws, Setup<T>.Valid, Scalar;
    SetupFacts(s);
    ScalarElem(s.g, s.q, k, P);
    ScalarElem(s.g, s.q, l, Q);
    AddAssociates(s.g, acc, Scalar(s.g, s.q, k, P), Scalar(s.g, s.q, l, Q));
    var left := AddMultiple(s, acc, k, P);
    if left.Err? {
      return Err(ScalarOutOfRange);
    }
    r := AddMultiple(s, left.value, l, Q);
  }

  /** The loop for S multiplies every generator: it throws when any scalar is zero. */
  method CommitBlinding<T(!new)>(s: Setup<T>, rho: int, sL: seq<int>, sR: seq<int>, gVec: seq<T>, hVec: seq<T>)
    returns (r: Result<T, SdkError>)
    requires s.Valid() && Generators(s.g, gVec, hVec) && |sL| == |gVec| && |sR| == |gVec|
    ensures r == if 1 <= rho < s.q && AllInRange(s.q, sL) && AllInRange(s.q, sR)
                 then Ok(VectorCommitment(s, rho, sL, sR, gVec, hVec)) else Err(ScalarOutOfRange)
    ensures r.Ok? ==> s.g.elem(r.value)
  {
    hide PrimeOrder, Laws, Setup<T>.Valid, Scalar, Sum, TermOf, Multiply, VectorCommitment, Generators, AllInRange;
    SetupFacts(s);
    GeneratorsAt(s.g, gVec, hVec);
    CommitmentIs(s, rho, sL, sR, gVec, hVec);
    RangeOfPrefix(s.q, sL);
    RangeOfPrefix(s.q, sR);
    MultiplyIsScalar(s.g, s.q, s.G, rho);
    MultiplyError(s.g, s.q, s.G, rho);
    var start := Multiply(s.g, s.q, s.G, rho);
    if start.Err? {
      return Err(ScalarOutOfRange);
    }
    var sPoint := start.value;
    ghost var V := Vectors(sL, sR, gVec, hVec);
    ghost var sum := s.g.zero;
    AddZero(s.g, sPoint);
    EmptySum(s.g, TermOf(s.g, s.q, V));
    for i := 0 to |sL|
      invariant AllInRange(s.q, sL[..i]) && AllInRange(s.q, sR[..i])
      invariant sum == Sum(s.g, TermOf(s.g, s.q, V), i) && s.g.elem(sum)
      invariant sPoint == s.g.add(start.value, sum) && s.g.elem(sPoint)
    {
      NextTerm(s.g, s.q, V, i);
      RangeNext(s.q, sL, i);
      RangeNext(s.q, sR, i);
      var next := AddPair(s, sPoint, sL[i], gVec[i], sR[i], hVec[i]);
      if next.Err? {
        return Err(ScalarOutOfRange);
      }
      ghost var term := s.g.add(Scalar(s.g, s.q, sL[i], gVec[i]), Scalar(s.g, s.q, sR[i], hVec[i]));
      AddAssociates(s.g, start.value, sum, term);
      sPoint := next.value;
      sum := s.g.add(sum, term);
    }
    r := Ok(sPoint);
  }

  lemma GeneratorsAt<T(!new)>(g: Group<T>, gVec: seq<T>, hVec: seq<T>)
    requires Generators(g, gVec, hVec)
    ensures |gVec| == |hVec| && forall i :: 0 <= i < |gVec| ==> g.elem(gVec[i]) && g.elem(hVec[i])
  {
  }

  lemma CommitmentIs<T(!new)>(s: Setup<T>, blinding: int, a: seq<int>, b: seq<int>, gVec: seq<T>, hVec: seq<T>)
    requires s.q > 0 && |b| == |a| && |gVec| == |a| && |hVec| == |a|
    ensures VectorCommitment(s, blinding, a, b, gVec, hVec)
         == s.g.add(Scalar(s.g, s.q, blinding, s.G), Sum(s.g, TermOf(s.g, s.q, Vectors(a, b, gVec, hVec)), |a|))
  {
  }

  lemma RangeOfPrefix(q: int, a: seq<int>)
    ensures AllInRange(q, a[..0]) && a[..|a|] == a
  {
  }

  lemma RangeNext(q: int, a: seq<int>, i: nat)
    requires i < |a|
    ensures AllInRange(q, a[..i + 1]) <==> AllInRange(q, a[..i]) && 1 <= a[i] < q
    ensures AllInRange(q, a) ==> 1 <= a[i] < q
  {
    assert a[..i + 1] == a[..i] + [a[i]];
  }

  lemma MultiplyError<T>(g: Group<T>, q: int, a: T, k: int)
    ensures Multiply(g, q, a, k).Err? ==> Multiply(g, q, a, k) == Err(ScalarOutOfRange)
  {
  }
}
