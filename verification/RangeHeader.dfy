/** What the scalars in front of the inner-product argument open. */
module RangeHeader {
  import opened Numbers
  import opened Bytes
  import opened Wrappers
  import opened Groups
  import opened Scalars
  import opened SdkGroup
  import opened Sigma
  import opened Transcript
  import opened InnerProductProver
  import opened InnerProductLengths
  import opened RangeWitness
  import opened RangeProof

  /** x*T1 + x^2*T2 + z^2*V. */
  function Combination<T(!new)>(s: Setup<T>, c: Challenges, h: Header<T>, V: T): T
    requires s.q > 0
  {
    s.g.add(s.g.add(Scalar(s.g, s.q, c.x, h.T1), Scalar(s.g, s.q, c.x * c.x, h.T2)), Scalar(s.g, s.q, c.z * c.z, V))
  }

  lemma BlindedElem<T(!new)>(s: Setup<T>, a: int, b: int)
    requires s.Valid()
    ensures s.g.elem(BlindedPoint(s, a, b))
  {
    hide PrimeOrder, Laws, Setup<T>.Valid, Scalar;
    SetupFacts(s);
    ScalarElem(s.g, s.q, a, s.G);
    ScalarElem(s.g, s.q, b, s.H);
    AddElem(s.g, Scalar(s.g, s.q, a, s.G), Scalar(s.g, s.q, b, s.H));
  }

  lemma BlindedSum<T(!new)>(s: Setup<T>, a: int, b: int, a': int, b': int)
    requires s.Valid()
    ensures s.g.add(BlindedPoint(s, a, b), BlindedPoint(s, a', b')) == BlindedPoint(s, a + a', b + b')
  {
    hide PrimeOrder, Laws, Setup<T>.Valid, Scalar;
    SetupFacts(s);
    ScalarElem(s.g, s.q, a, s.G);
    ScalarElem(s.g, s.q, b, s.H);
    ScalarElem(s.g, s.q, a', s.G);
    ScalarElem(s.g, s.q, b', s.H);
    Interchange(s.g, Scalar(s.g, s.q, a, s.G), Scalar(s.g, s.q, b, s.H), Scalar(s.g, s.q, a', s.G),
                Scalar(s.g, s.q, b', s.H));
    ScalarSum(s.g, s.q, a, a', s.G);
    ScalarSum(s.g, s.q, b, b', s.H);
  }

  lemma BlindedMultiple<T(!new)>(s: Setup<T>, k: int, a: int, b: int)
    requires s.Valid()
    ensures Scalar(s.g, s.q, k, BlindedPoint(s, a, b)) == BlindedPoint(s, k * a, k * b)
  {
    hide PrimeOrder, Laws, Setup<T>.Valid, Scalar;
    SetupFacts(s);
    ScalarElem(s.g, s.q, a, s.G);
    ScalarElem(s.g, s.q, b, s.H);
    ScalarOfSum(s.g, s.q, k, Scalar(s.g, s.q, a, s.G), Scalar(s.g, s.q, b, s.H));
    ScalarScalar(s.g, s.q, k, a, s.G);
    ScalarScalar(s.g, s.q, k, b, s.H);
  }

  lemma BlindedCongruent<T(!new)>(s: Setup<T>, a: int, b: int, a': int, b': int)
    requires s.q > 0 && Eq(s.q, a, a') && Eq(s.q, b, b')
    ensures BlindedPoint(s, a, b) == BlindedPoint(s, a', b')
  {
    hide Scalar, Divides;
    ScalarCongruent(s.g, s.q, a, a', s.G);
    ScalarCongruent(s.g, s.q, b, b', s.H);
  }

  /** The commitment, over the two generators the other way round. */
  lemma CommitmentIsBlinded<T(!new)>(s: Setup<T>, value: int, r: int)
    requires s.Valid()
    ensures PedersenCommit(s, value, r) == BlindedPoint(s, r, value)
  {
    hide PrimeOrder, Laws, Setup<T>.Valid, Scalar;
    SetupFacts(s);
    ScalarElem(s.g, s.q, r, s.G);
    ScalarElem(s.g, s.q, value, s.H);
    AddElem(s.g, Scalar(s.g, s.q, value, s.H), Scalar(s.g, s.q, r, s.G));
  }

  lemma CombinationOf<T(!new)>(s: Setup<T>, rnd: Randomness, c: Challenges, h: Header<T>, a: int, b: int)
    requires s.Valid() && h.T1 == BlindedPoint(s, rnd.t1, rnd.tau1) && h.T2 == BlindedPoint(s, rnd.t2, rnd.tau2)
    ensures Combination(s, c, h, BlindedPoint(s, a, b)) ==
            BlindedPoint(s, rnd.t1 * c.x + rnd.t2 * (c.x * c.x) + a * (c.z * c.z),
                         rnd.tau2 * (c.x * c.x) + rnd.tau1 * c.x + (c.z * c.z) * b)
  {
    hide PrimeOrder, Laws, Setup<T>.Valid, Scalar, BlindedPoint;
    SetupFacts(s);
    var x, xx, zz := c.x, c.x * c.x, c.z * c.z;
    BlindedMultiple(s, x, rnd.t1, rnd.tau1);
    BlindedMultiple(s, xx, rnd.t2, rnd.tau2);
    BlindedMultiple(s, zz, a, b);
    BlindedSum(s, x * rnd.t1, x * rnd.tau1, xx * rnd.t2, xx * rnd.tau2);
    BlindedSum(s, x * rnd.t1 + xx * rnd.t2, x * rnd.tau1 + xx * rnd.tau2, zz * a, zz * b);
    Commutes(x, rnd.t1, x, rnd.tau1);
    Commutes(xx, rnd.t2, xx, rnd.tau2);
    Commutes(zz, a, zz, b);
  }

  lemma Commutes(a: int, b: int, c: int, d: int)
    ensures a * b == b * a && c * d == d * c
  {
  }

  /** t_hat*G + tau_x*H = x*T1 + x^2*T2 + z^2*(value*G + r*H). */
  lemma HeaderOpens<T(!new)>(s: Setup<T>, value: int, rnd: Randomness, c: Challenges, h: Header<T>)
    requires s.Valid() && HonestScalars(s.q, value, rnd, c, h)
    requires h.T1 == BlindedPoint(s, rnd.t1, rnd.tau1) && h.T2 == BlindedPoint(s, rnd.t2, rnd.tau2)
    ensures BlindedPoint(s, h.tHat, h.tauX) == Combination(s, c, h, BlindedPoint(s, value, rnd.blinding))
  {
    hide PrimeOrder, Laws, Setup<T>.Valid, Scalar, BlindedPoint, Combination, Divides, Eq;
    SetupFacts(s);
    CombinationOf(s, rnd, c, h, value, rnd.blinding);
    BlindedCongruent(s, h.tHat, h.tauX, rnd.t1 * c.x + rnd.t2 * (c.x * c.x) + value * (c.z * c.z),
                     rnd.tau2 * (c.x * c.x) + rnd.tau1 * c.x + (c.z * c.z) * rnd.blinding);
  }

  /** a*G + b*H = b*G + a*H exactly when a = b modulo the order, or the generators are the same. */
  lemma Exchanged<T(!new)>(s: Setup<T>, a: int, b: int)
    requires s.Valid()
    ensures BlindedPoint(s, a, b) == BlindedPoint(s, b, a) <==> Eq(s.q, a, b) || s.G == s.H
  {
    hide PrimeOrder, Laws, Setup<T>.Valid, Scalar, Divides;
    SetupFacts(s);
    var g, q, k := s.g, s.q, a - b;
    // aG + bH = bG + aH + k(G - H)
    var kG, kH := Scalar(g, q, k, s.G), Scalar(g, q, k, s.H);
    ScalarElem(g, q, k, s.G);
    ScalarElem(g, q, k, s.H);
    BlindedElem(s, b, b);
    var m := BlindedPoint(s, b, b);
    BlindedSum(s, k, 0, b, b);
    BlindedSum(s, 0, k, b, b);
    OneSided(s, k);
    AddElem(g, kG, m);
    AddElem(g, kH, m);
    assert BlindedPoint(s, a, b) == g.add(kG, m) && BlindedPoint(s, b, a) == g.add(kH, m);
    if g.add(kG, m) == g.add(kH, m) {
      Cancel(g, kG, kH, m);
    }
    SameMultiple(s, k);
  }

  lemma OneSided<T(!new)>(s: Setup<T>, k: int)
    requires s.Valid()
    ensures BlindedPoint(s, k, 0) == Scalar(s.g, s.q, k, s.G) && BlindedPoint(s, 0, k) == Scalar(s.g, s.q, k, s.H)
  {
    hide PrimeOrder, Laws, Setup<T>.Valid, Scalar;
    SetupFacts(s);
    ScalarZero(s.g, s.q, s.G);
    ScalarZero(s.g, s.q, s.H);
    ScalarElem(s.g, s.q, k, s.G);
    ScalarElem(s.g, s.q, k, s.H);
    AddZero(s.g, Scalar(s.g, s.q, k, s.G));
    AddZero(s.g, Scalar(s.g, s.q, k, s.H));
  }

  lemma SameMultiple<T(!new)>(s: Setup<T>, k: int)
    requires s.Valid()
    ensures Scalar(s.g, s.q, k, s.G) == Scalar(s.g, s.q, k, s.H) <==> Divides(s.q, k) || s.G == s.H
  {
    hide PrimeOrder, Laws, Setup<T>.Valid, Scalar, Divides;
    SetupFacts(s);
    var g, q := s.g, s.q;
    ScalarNonzero(g, q, k, s.G);
    ScalarNonzero(g, q, k, s.H);
    if Scalar(g, q, k, s.G) == Scalar(g, q, k, s.H) && s.G != s.H {
      var d := g.add(s.G, g.neg(s.H));
      ScalarOfNeg(g, q, k, s.H);
      ScalarOfSum(g, q, k, s.G, g.neg(s.H));
      ScalarElem(g, q, k, s.H);
      AddNeg(g, Scalar(g, q, k, s.H));
      AddElem(g, s.G, g.neg(s.H));
      AddNeg(g, s.H);
      if d == g.zero {
        Cancel(g, s.G, s.H, g.neg(s.H));
      }
      ScalarNonzero(g, q, k, d);
    }
  }

  /** The scalars open the transmitted commitment value*H + r*G exactly when z is 0, value and r agree, or the two
      generators are the same: the code exchanges the generators between T1, T2 and the commitment. */
  lemma OpensCommitment<T(!new)>(s: Setup<T>, value: int, rnd: Randomness, c: Challenges, h: Header<T>)
    requires s.Valid() && HonestScalars(s.q, value, rnd, c, h)
    requires h.T1 == BlindedPoint(s, rnd.t1, rnd.tau1) && h.T2 == BlindedPoint(s, rnd.t2, rnd.tau2)
    ensures BlindedPoint(s, h.tHat, h.tauX) == Combination(s, c, h, PedersenCommit(s, value, rnd.blinding))
       <==> Divides(s.q, c.z) || Eq(s.q, value, rnd.blinding) || s.G == s.H
  {
    hide PrimeOrder, Laws, Setup<T>.Valid, Scalar, BlindedPoint, PedersenCommit, Divides, IsPrime, HonestScalars;
    SetupFacts(s);
    var g, q, v, r, zz := s.g, s.q, value, rnd.blinding, c.z * c.z;
    HeaderOpens(s, value, rnd, c, h);
    CommitmentIsBlinded(s, v, r);
    BlindedMultiple(s, zz, v, r);
    BlindedMultiple(s, zz, r, v);
    var front := g.add(Scalar(g, q, c.x, h.T1), Scalar(g, q, c.x * c.x, h.T2));
    BlindedElem(s, rnd.t1, rnd.tau1);
    BlindedElem(s, rnd.t2, rnd.tau2);
    BlindedElem(s, zz * v, zz * r);
    BlindedElem(s, zz * r, zz * v);
    ScalarElem(g, q, c.x, h.T1);
    ScalarElem(g, q, c.x * c.x, h.T2);
    AddElem(g, Scalar(g, q, c.x, h.T1), Scalar(g, q, c.x * c.x, h.T2));
    AddElem(g, front, BlindedPoint(s, zz * v, zz * r));
    AddElem(g, front, BlindedPoint(s, zz * r, zz * v));
    if g.add(front, BlindedPoint(s, zz * v, zz * r)) == g.add(front, BlindedPoint(s, zz * r, zz * v)) {
      Cancel(g, BlindedPoint(s, zz * v, zz * r), BlindedPoint(s, zz * r, zz * v), front);
    }
    Exchanged(s, zz * v, zz * r);
    ScaledEqual(q, c.z, v, r);
  }

  lemma ScaledEqual(q: int, z: int, v: int, r: int)
    requires IsPrime(q)
    ensures Eq(q, (z * z) * v, (z * z) * r) <==> Divides(q, z) || Eq(q, v, r)
  {
    hide Divides, IsPrime;
    if Divides(q, z) {
      FactorDivides(q, z, z);
      FactorDivides(q, z * z, v - r);
      assert (z * z) * (v - r) == (z * z) * v - (z * z) * r;
    } else if Eq(q, v, r) {
      EqScale(q, z * z, v, r);
    } else if Eq(q, (z * z) * v, (z * z) * r) {
      ProductNonzero(q, z, z);
      EqCancel(q, z * z, v, r);
    }
  }

  // ---------------------------------------------------------------- over all honest runs

  /** t_hat*G + tau_x*H = x*T1 + x^2*T2 + z^2*V, for the transmitted V and the challenges of the transcript. */
  ghost predicate Opens<T(!new)>(s: Setup<T>, hash: Hash, value: int, r: int, h: Header<T>)
    requires s.q > 0
  {
    var V := PedersenCommit(s, value, r);
    BlindedPoint(s, h.tHat, h.tauX) == Combination(s, HeaderChallenges(s.g, s.q, hash, s.g.enc(V), h), h, V)
  }

  ghost predicate HonestRun<T(!new)>(s: Setup<T>, hash: Hash, value: nat, rnd: Randomness, gVec: seq<T>, hVec: seq<T>,
                                     tr: Trace<T>)
    requires s.q > 2
  {
    && |rnd.sL| == |rnd.sR| == |gVec| == |hVec|
    && Unguarded(s.q, rnd) && HonestTrace(s, hash, value, rnd, gVec, hVec, tr)
  }

  /** Every honest run about the value with blinding r, under any hash and with any other randomness, opens V. */
  ghost predicate AlwaysOpens<T(!new)>(s: Setup<T>, value: nat, r: int, gVec: seq<T>, hVec: seq<T>)
    requires s.q > 2
  {
    forall hash: Hash, rnd: Randomness, tr: Trace<T> ::
      HonestRun(s, hash, value, rnd, gVec, hVec, tr) && rnd.blinding == r ==> Opens(s, hash, value, r, tr.header)
  }

  function Ones(n: nat): (ones: seq<int>)
    ensures |ones| == n && forall i :: 0 <= i < n ==> ones[i] == 1
  {
    seq(n, i => 1)
  }

  /** All random scalars 1, except the blinding. */
  function PlainRandomness(n: nat, r: int): Randomness {
    Randomness(r, 1, Ones(n), Ones(n), 1, 1, 1, 1, 1)
  }

  lemma PlainUnguarded(q: int, n: nat, r: int)
    requires q > 2
    ensures Unguarded(q, PlainRandomness(n, r))
  {
  }

  /** Under a hash that always draws 1, the challenges are 1 whatever the header. */
  lemma OneChallenges<T(!new)>(s: Setup<T>, commitment: seq<Byte>, h: Header<T>)
    requires s.q > 2
    ensures var c := HeaderChallenges(s.g, s.q, ONE_HASH, commitment, h); c.y == 1 && c.z == 1 && c.x == 1
  {
    hide Appended;
    OneDigest(s.q);
  }

  /** The failing input: if value and r differ and so do the generators, the run with all other random scalars 1, under
      a hash that always draws 1, goes through to the end, and its header does not open V. */
  lemma HeaderFails<T(!new)>(s: Setup<T>, value: nat, r: int, gVec: seq<T>, hVec: seq<T>) returns (tr: Trace<T>)
    requires s.Valid() && |gVec| == |hVec| && !Eq(s.q, value, r) && s.G != s.H
    ensures s.q > 2
    ensures var rnd := PlainRandomness(|gVec|, r);
            && HonestRun(s, ONE_HASH, value, rnd, gVec, hVec, tr)
            && Run(s, ONE_HASH, Witness(s.q, Bits(value, |gVec|), tr.z, rnd, gVec, hVec), tr.acc).Ok?
    ensures !Opens(s, ONE_HASH, value, r, tr.header)
  {
    hide PrimeOrder, Laws, Setup<T>.Valid, Scalar, BlindedPoint, PedersenCommit, Combination, Divides, IsPrime, Eq;
    hide Fits32;
    hide HonestScalars, MakeHeader, HeaderChallenges, VectorCommitment, Unguarded, Bits, Run;
    SetupFacts(s);
    var n, q := |gVec|, s.q;
    var rnd, bits, V := PlainRandomness(n, r), Bits(value, n), PedersenCommit(s, value, r);
    var A := VectorCommitment(s, 1, bits, Complement(bits), gVec, hVec);
    var S := VectorCommitment(s, 1, rnd.sL, rnd.sR, gVec, hVec);
    var T := BlindedPoint(s, 1, 1);
    var h := MakeHeader(q, value, rnd, A, S, T, T, 1, 1);
    var c := HeaderChallenges(s.g, q, ONE_HASH, s.g.enc(V), h);
    OneChallenges(s, s.g.enc(V), h);
    HeaderScalars(q, value, rnd, A, S, T, T, c);
    PlainUnguarded(q, n, r);
    tr := Trace(h, c.z, c.acc);
    OnesRun(s, Witness(q, bits, tr.z, rnd, gVec, hVec), tr.acc);
    OpensCommitment(s, value, rnd, c, h);
    OneNotDivisible(q);
  }

  lemma OneNotDivisible(q: int)
    requires q > 2
    ensures !Divides(q, 1)
  {
    DividesMod(q, 1);
  }

  /** Whether the header always opens the transmitted commitment is known before the call: exactly when the value is
      the blinding factor modulo the order, or the two generators are the same. */
  lemma OpensExactly<T(!new)>(s: Setup<T>, value: nat, r: int, gVec: seq<T>, hVec: seq<T>)
    requires s.Valid() && |gVec| == |hVec|
    ensures s.q > 2 && (AlwaysOpens(s, value, r, gVec, hVec) <==> Eq(s.q, value, r) || s.G == s.H)
  {
    hide PrimeOrder, Laws, Setup<T>.Valid, BlindedPoint, PedersenCommit, Combination, Divides, IsPrime, Eq, Fits32;
    hide HeaderChallenges, VectorCommitment, Unguarded, HonestScalars, Bits;
    SetupFacts(s);
    if Eq(s.q, value, r) || s.G == s.H {
      forall hash: Hash, rnd: Randomness, tr: Trace<T>
        | HonestRun(s, hash, value, rnd, gVec, hVec, tr) && rnd.blinding == r
        ensures Opens(s, hash, value, r, tr.header)
      {
        OpensCommitment(s, value, rnd,
                        HeaderChallenges(s.g, s.q, hash, s.g.enc(PedersenCommit(s, value, r)), tr.header), tr.header);
      }
    } else {
      var tr := HeaderFails(s, value, r, gVec, hVec);
    }
  }
}
