/** For which lengths the identity of the inner-product argument holds: exactly the powers of two. */
module InnerProductLengths {
  import opened Numbers
  import opened Fermat
  import opened Bytes
  import opened Wrappers
  import opened Groups
  import opened Scalars
  import opened SdkGroup
  import opened ModularInverse
  import opened Sigma
  import opened Transcript
  import opened InnerProduct
  import opened InnerProductProver

  /** a*g + b*h = <a, g> + <b, h> + sum of u_j^2*L_j + u_j^-2*R_j, for the output of a run on V. */
  ghost predicate Identity<T(!new)>(s: Setup<T>, V: Vectors<T>, o: Output<T>) {
    && s.q > 2 && SameLengths(V) && SameLengths(o.last) && |o.us| == |o.l| == |o.r|
    && Commitment(s.g, s.q, o.last) == s.g.add(Commitment(s.g, s.q, V), CrossSum(s.g, s.q, o.us, o.l, o.r))
  }

  /** Every successful run on vectors of length n satisfies the identity. */
  ghost predicate HoldsForLength<T(!new)>(s: Setup<T>, acc: seq<Byte>, n: nat)
    requires s.q > 2
  {
    forall hash: Hash, V: Vectors<T> :: WellFormed(s.g, s.q, V) && |V.a| == n && Run(s, hash, V, acc).Ok?
                                        ==> Identity(s, V, Run(s, hash, V, acc).value.0)
  }

  // ---------------------------------------------------------------- runs whose challenges are all one

  lemma InverseOfOne(q: int)
    requires IsPrime(q) && q > 2
    ensures Inverse(q, 1) == 1
  {
    hide Divides, IsPrime, Inverse;
    SmallNotDivisible(q, 1);
    EqRefl(q, 1);
    InverseIs(q, 1, 1);
  }

  ghost predicate AllOne(us: seq<int>) {
    forall i :: 0 <= i < |us| ==> us[i] == 1
  }

  lemma {:induction false} OnesRun<T(!new)>(s: Setup<T>, V: Vectors<T>, acc: seq<Byte>)
    requires s.q > 2 && SameLengths(V)
    ensures Run(s, ONE_HASH, V, acc).Ok? && AllOne(Run(s, ONE_HASH, V, acc).value.0.us)
    decreases |V.a|
  {
    hide CrossL, CrossR, Inverse, RoundChallenge;
    if |V.a| > 1 {
      OneChallenge(s, V, acc);
      var acc' := RoundChallenge(s, ONE_HASH, V, acc).1;
      OnesRun(s, Fold(s.g, s.q, V, 1, Inverse(s.q, 1)), acc');
    }
  }

  lemma OneChallenge<T(!new)>(s: Setup<T>, V: Vectors<T>, acc: seq<Byte>)
    requires s.q > 2 && SameLengths(V)
    ensures RoundChallenge(s, ONE_HASH, V, acc).0 == 1
  {
    hide CrossL, CrossR;
    OneDigest(s.q);
  }

  // ---------------------------------------------------------------- vectors with nothing to lose

  ghost predicate Flat<T>(V: Vectors<T>) {
    SameLengths(V) && forall i :: 0 <= i < |V.a| ==> V.a[i] == 0 && V.b[i] == 0
  }

  lemma FlatFold<T>(G: Group<T>, q: int, V: Vectors<T>, u: int, v: int)
    requires q > 0 && Flat(V)
    ensures Flat(Fold(G, q, V, u, v))
  {
    hide Scalar;
    assert 0 * u + 0 * v == 0 && 0 * v + 0 * u == 0 && 0 % q == 0;
  }

  lemma FlatLost<T(!new)>(s: Setup<T>, V: Vectors<T>)
    requires s.Valid() && WellFormed(s.g, s.q, V) && Flat(V)
    ensures Lost(s.g, s.q, V) == s.g.zero
  {
    hide PrimeOrder, Laws, Setup<T>.Valid, Scalar;
    SetupFacts(s);
    AddZero(s.g, s.g.zero);
    if |V.a| % 2 == 1 {
      var last := |V.a| - 1;
      ScalarZero(s.g, s.q, V.g[last]);
      ScalarZero(s.g, s.q, V.h[last]);
    }
  }

  lemma {:induction false} FlatLosesNothing<T(!new)>(s: Setup<T>, V: Vectors<T>, us: seq<int>)
    requires s.Valid() && WellFormed(s.g, s.q, V) && Flat(V)
    ensures LostSum(s.g, s.q, V, us) == s.g.zero
    decreases |us|
  {
    hide PrimeOrder, Laws, Setup<T>.Valid, Fold, Inverse, Lost, WellFormed, Flat;
    SetupFacts(s);
    WellFormedLengths(s.g, s.q, V);
    if us != [] {
      var u, v := us[0], Inverse(s.q, us[0]);
      FlatLost(s, V);
      FlatFold(s.g, s.q, V, u, v);
      FoldWellFormed(s.g, s.q, V, u, v);
      FlatLosesNothing(s, Fold(s.g, s.q, V, u, v), us[1..]);
      AddZero(s.g, s.g.zero);
    }
  }

  // ---------------------------------------------------------------- vectors that lose their one entry

  /** a = (0, .., 0, 1) and b = 0, over generators that are all P. */
  function Spike<T>(n: nat, P: T): (V: Vectors<T>)
    ensures SameLengths(V) && |V.a| == n
  {
    Vectors(seq(n, i => if i == n - 1 then 1 else 0), seq(n, i => 0), seq(n, i => P), seq(n, i => P))
  }

  lemma SpikeWellFormed<T(!new)>(s: Setup<T>, n: nat, P: T)
    requires s.Valid() && s.g.elem(P)
    ensures WellFormed(s.g, s.q, Spike(n, P))
  {
    hide PrimeOrder, Laws;
  }

  /** An even length folds to a spike over twice the generator. */
  lemma SpikeFoldEven<T(!new)>(s: Setup<T>, n: nat, P: T)
    requires s.Valid() && s.g.elem(P) && n >= 2 && n % 2 == 0
    ensures Fold(s.g, s.q, Spike(n, P), 1, 1) == Spike(n / 2, s.g.add(P, P))
  {
    hide PrimeOrder, Laws, Setup<T>.Valid, Scalar;
    SetupFacts(s);
    ScalarZero(s.g, s.q, P);
    ModSmall(s.q, 1);
    ModSmall(s.q, 0);
    var W, X := Fold(s.g, s.q, Spike(n, P), 1, 1), Spike(n / 2, s.g.add(P, P));
    assert W.a == X.a;
    assert W.b == X.b;
    assert W.g == X.g;
    assert W.h == X.h;
  }

  /** An odd length folds to nothing but zeros, and loses P. */
  lemma SpikeFoldOdd<T(!new)>(s: Setup<T>, n: nat, P: T)
    requires s.Valid() && s.g.elem(P) && n % 2 == 1
    ensures Flat(Fold(s.g, s.q, Spike(n, P), 1, 1)) && Lost(s.g, s.q, Spike(n, P)) == P
  {
    hide PrimeOrder, Laws, Setup<T>.Valid, Scalar;
    SetupFacts(s);
    ScalarZero(s.g, s.q, P);
    AddZero(s.g, P);
    ModSmall(s.q, 0);
  }

  lemma DoubleNonzero<T(!new)>(s: Setup<T>, P: T)
    requires s.Valid() && s.g.elem(P) && P != s.g.zero
    ensures s.g.elem(s.g.add(P, P)) && s.g.add(P, P) != s.g.zero
  {
    hide PrimeOrder, Laws, Setup<T>.Valid, Scalar, Divides;
    SetupFacts(s);
    AddElem(s.g, P, P);
    ScalarZero(s.g, s.q, P);
    ScalarSum(s.g, s.q, 1, 1, P);
    ScalarNonzero(s.g, s.q, 2, P);
    DividesMod(s.q, 2);
  }

  lemma {:induction false} SpikeLoses<T(!new)>(s: Setup<T>, n: nat, P: T, us: seq<int>)
    requires s.Valid() && s.g.elem(P) && P != s.g.zero
    requires n >= 1 && n != Exp2(Log2(n)) && |us| == Log2(n) && AllOne(us)
    ensures LostSum(s.g, s.q, Spike(n, P), us) != s.g.zero
    decreases n
  {
    hide PrimeOrder, Laws, Setup<T>.Valid, Fold, Inverse, Lost, WellFormed, Flat, Spike, IsPrime;
    SetupFacts(s);
    var V := Spike(n, P);
    SpikeWellFormed(s, n, P);
    assert n > 1 && us[0] == 1;
    InverseOfOne(s.q);
    var W := Fold(s.g, s.q, V, 1, 1);
    FoldWellFormed(s.g, s.q, V, 1, 1);
    WellFormedLengths(s.g, s.q, V);
    WellFormedLengths(s.g, s.q, W);
    if n % 2 == 1 {
      SpikeFoldOdd(s, n, P);
      FlatLosesNothing(s, W, us[1..]);
      AddZero(s.g, P);
    } else {
      SpikeFoldEven(s, n, P);
      DoubleNonzero(s, P);
      SpikeLoses(s, n / 2, s.g.add(P, P), us[1..]);
      LostElem(s, W, us[1..]);
      AddZero(s.g, LostSum(s.g, s.q, W, us[1..]));
      EvenLosesNothing(s.g, s.q, V);
    }
  }

  lemma EvenLosesNothing<T>(G: Group<T>, q: int, V: Vectors<T>)
    requires q > 0 && SameLengths(V) && |V.a| % 2 == 0
    ensures Lost(G, q, V) == G.zero
  {
  }

  lemma {:induction false} LostElem<T(!new)>(s: Setup<T>, V: Vectors<T>, us: seq<int>)
    requires s.Valid() && WellFormed(s.g, s.q, V)
    ensures s.g.elem(LostSum(s.g, s.q, V, us))
    decreases |us|
  {
    hide PrimeOrder, Laws, Setup<T>.Valid, Fold, Inverse, Lost, WellFormed, Commitment, CrossL, CrossR, IsPrime, Fits32;
    SetupFacts(s);
    WellFormedLengths(s.g, s.q, V);
    if us != [] {
      var W := Fold(s.g, s.q, V, us[0], Inverse(s.q, us[0]));
      FoldWellFormed(s.g, s.q, V, us[0], Inverse(s.q, us[0]));
      WellFormedLengths(s.g, s.q, W);
      LostElem(s, W, us[1..]);
      CommitmentElems(s.g, s.q, V);
      AddElem(s.g, Lost(s.g, s.q, V), LostSum(s.g, s.q, W, us[1..]));
    }
  }

  // ---------------------------------------------------------------- the exact condition

  /** In every group: for every length that is not a power of two there is a successful run without the identity. */
  lemma OtherLengthsFail<T(!new)>(s: Setup<T>, acc: seq<Byte>, n: nat)
    requires s.Valid() && n >= 1 && n != Exp2(Log2(n))
    ensures var V := Spike(n, s.G);
            && s.q > 2 && WellFormed(s.g, s.q, V) && |V.a| == n && Run(s, ONE_HASH, V, acc).Ok?
            && (var o := Run(s, ONE_HASH, V, acc).value.0;
                && SameLengths(o.last) && |o.us| == |o.l| == |o.r|
                && Commitment(s.g, s.q, o.last) != s.g.add(Commitment(s.g, s.q, V), CrossSum(s.g, s.q, o.us, o.l, o.r)))
  {
    hide PrimeOrder, Laws, Setup<T>.Valid, Run, CrossSum, LostSum, Commitment, WellFormed, Spike;
    SetupFacts(s);
    var V := Spike(n, s.G);
    SpikeWellFormed(s, n, s.G);
    OnesRun(s, V, acc);
    RunShape(s, ONE_HASH, V, acc);
    IdentityExact(s, ONE_HASH, V, acc);
    SpikeLoses(s, n, s.G, Run(s, ONE_HASH, V, acc).value.0.us);
  }

  /** The identity holds for all vectors of a length, all hashes and all successful runs exactly when the length is a
      power of two. */
  lemma LengthExact<T(!new)>(s: Setup<T>, acc: seq<Byte>, n: nat)
    requires s.Valid() && n >= 1
    ensures s.q > 2 && (HoldsForLength(s, acc, n) <==> n == Exp2(Log2(n)))
  {
    hide PrimeOrder, Laws, Setup<T>.Valid, Run, Commitment, CrossSum, Spike, Fits32, IsPrime;
    SetupFacts(s);
    if n == Exp2(Log2(n)) {
      forall hash: Hash, V: Vectors<T> | WellFormed(s.g, s.q, V) && |V.a| == n && Run(s, hash, V, acc).Ok?
        ensures Identity(s, V, Run(s, hash, V, acc).value.0)
      {
        PowerOfTwoHolds(s, hash, V, acc, Log2(n));
      }
    } else {
      OtherLengthsFail(s, acc, n);
      assert !Identity(s, Spike(n, s.G), Run(s, ONE_HASH, Spike(n, s.G), acc).value.0);
    }
  }

  lemma PowerOfTwoHolds<T(!new)>(s: Setup<T>, hash: Hash, V: Vectors<T>, acc: seq<Byte>, k: nat)
    requires s.Valid() && WellFormed(s.g, s.q, V) && |V.a| == Exp2(k) && Run(s, hash, V, acc).Ok?
    ensures Identity(s, V, Run(s, hash, V, acc).value.0)
  {
    hide PrimeOrder, Laws, Setup<T>.Valid, Run, CrossSum, LostSum, Commitment, WellFormed;
    SetupFacts(s);
    WellFormedLengths(s.g, s.q, V);
    RunShape(s, hash, V, acc);
    var o := Run(s, hash, V, acc).value.0;
    Log2Exp2(k);
    PowerOfTwoLosesNothing(s, V, o.us, k);
    IdentityExact(s, hash, V, acc);
  }
}
