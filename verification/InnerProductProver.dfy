/** The recursive-halving prover: all rounds together. */
module InnerProductProver {
  import opened Numbers
  import opened Bytes
  import opened Wrappers
  import opened Groups
  import opened Scalars
  import opened Sums
  import opened SdkGroup
  import opened ModularInverse
  import opened Sigma
  import opened Transcript
  import opened InnerProduct

  /** The pairs sent, the challenges they were answered with, and the vectors left at the end. */
  datatype Output<T> = Output(l: seq<T>, r: seq<T>, us: seq<int>, last: Vectors<T>)

  /** The transcript after a round's two points, and its challenge. */
  function RoundChallenge<T(!new)>(s: Setup<T>, hash: Hash, V: Vectors<T>, acc: seq<Byte>): (int, seq<Byte>)
    requires s.q > 0 && SameLengths(V)
  {
    var acc1 := Appended(hash, acc, "L", s.g.enc(CrossL(s.g, s.q, V)));
    var acc2 := Appended(hash, acc1, "R", s.g.enc(CrossR(s.g, s.q, V)));
    Drawn(s.q, hash, acc2, "u")
  }

  function Run<T(!new)>(s: Setup<T>, hash: Hash, V: Vectors<T>,
                        acc: seq<Byte>): Result<(Output<T>, seq<Byte>), SdkError>
    requires s.q > 2 && SameLengths(V)
    decreases |V.a|
  {
    if |V.a| <= 1 then Ok((Output([], [], [], V), acc))
    else
      var (u, acc') := RoundChallenge(s, hash, V, acc);
      if u % s.q == 0 then Err(ProofGenerationFailed)
      else
        var (o, end) :- Run(s, hash, Fold(s.g, s.q, V, u, Inverse(s.q, u)), acc');
        Ok((Output([CrossL(s.g, s.q, V)] + o.l, [CrossR(s.g, s.q, V)] + o.r, [u] + o.us, o.last), end))
  }

  function Square(k: int): int {
    k * k
  }

  lemma SquaredRound<T(!new)>(G: Group<T>, q: int, V: Vectors<T>, u: int, v: int)
    requires PrimeOrder(G, q) && WellFormed(G, q, V) && Eq(q, u * v, 1)
    ensures G.add(Commitment(G, q, Fold(G, q, V, u, v)), Lost(G, q, V))
         == G.add(Commitment(G, q, V),
                  G.add(Scalar(G, q, Square(u), CrossL(G, q, V)), Scalar(G, q, Square(v), CrossR(G, q, V))))
  {
    hide PrimeOrder, WellFormed, Commitment, Fold, Scalar, Lost, CrossL, CrossR, Divides;
    RoundIdentity(G, q, V, u, v);
  }

  /** Sum over the rounds of u^2*L + u^-2*R. */
  function CrossSum<T>(G: Group<T>, q: int, us: seq<int>, l: seq<T>, r: seq<T>): T
    requires q > 2 && |l| == |us| && |r| == |us|
  {
    if us == [] then G.zero
    else
      var u, v := us[0], Inverse(q, us[0]);
      G.add(G.add(Scalar(G, q, Square(u), l[0]), Scalar(G, q, Square(v), r[0])),
            CrossSum(G, q, us[1..], l[1..], r[1..]))
  }

  /** Sum over the rounds of the terms that odd lengths lose. */
  function LostSum<T>(G: Group<T>, q: int, V: Vectors<T>, us: seq<int>): T
    requires q > 2 && SameLengths(V)
    decreases |us|
  {
    if us == [] then G.zero
    else G.add(Lost(G, q, V), LostSum(G, q, Fold(G, q, V, us[0], Inverse(q, us[0])), us[1..]))
  }

  function Log2(n: nat): nat {
    if n <= 1 then 0 else 1 + Log2(n / 2)
  }

  function Exp2(k: nat): (r: nat)
    ensures r >= 1
  {
    if k == 0 then 1 else 2 * Exp2(k - 1)
  }

  /** The shape of a successful run. */
  lemma {:induction false} RunShape<T(!new)>(s: Setup<T>, hash: Hash, V: Vectors<T>, acc: seq<Byte>)
    requires s.Valid() && WellFormed(s.g, s.q, V) && Run(s, hash, V, acc).Ok?
    ensures var o := Run(s, hash, V, acc).value.0;
            && |o.us| == |o.l| == |o.r| == Log2(|V.a|)
            && WellFormed(s.g, s.q, o.last) && |o.last.a| == (if |V.a| == 0 then 0 else 1)
            && (forall i :: 0 <= i < |o.us| ==> s.g.elem(o.l[i]) && s.g.elem(o.r[i]) && !Divides(s.q, o.us[i]))
    decreases |V.a|
  {
    hide PrimeOrder, Laws, Setup<T>.Valid, Fold, CrossL, CrossR, Inverse, Divides, RoundChallenge;
    SetupFacts(s);
    if |V.a| > 1 {
      var (u, acc') := RoundChallenge(s, hash, V, acc);
      var W := Fold(s.g, s.q, V, u, Inverse(s.q, u));
      FoldWellFormed(s.g, s.q, V, u, Inverse(s.q, u));
      CommitmentElems(s.g, s.q, V);
      DividesMod(s.q, u);
      RunShape(s, hash, W, acc');
    }
  }

  /** What is left at the end, together with what odd lengths lost, is the original commitment plus
      u_j^2*L_j + u_j^-2*R_j over all rounds. */
  ghost predicate Balanced<T(!new)>(G: Group<T>, q: int, V: Vectors<T>, o: Output<T>)
    requires q > 2 && SameLengths(V)
  {
    && |o.us| == |o.l| == |o.r| && SameLengths(o.last)
    && G.elem(Commitment(G, q, o.last)) && G.elem(LostSum(G, q, V, o.us)) && G.elem(CrossSum(G, q, o.us, o.l, o.r))
    && G.add(Commitment(G, q, o.last), LostSum(G, q, V, o.us))
       == G.add(Commitment(G, q, V), CrossSum(G, q, o.us, o.l, o.r))
  }

  lemma OneMoreRound<T>(G: Group<T>, q: int, V: Vectors<T>, u: int, o: Output<T>, o': Output<T>)
    requires q > 2 && SameLengths(V) && |o'.us| == |o'.l| == |o'.r|
    requires o == Output([CrossL(G, q, V)] + o'.l, [CrossR(G, q, V)] + o'.r, [u] + o'.us, o'.last)
    ensures |o.us| == |o.l| == |o.r|
    ensures LostSum(G, q, V, o.us) == G.add(Lost(G, q, V), LostSum(G, q, Fold(G, q, V, u, Inverse(q, u)), o'.us))
    ensures CrossSum(G, q, o.us, o.l, o.r) ==
            G.add(G.add(Scalar(G, q, Square(u), CrossL(G, q, V)), Scalar(G, q, Square(Inverse(q, u)), CrossR(G, q, V))),
                  CrossSum(G, q, o'.us, o'.l, o'.r))
  {
    hide Fold, CrossL, CrossR, Inverse, Lost, Scalar, Square;
    assert o.us[1..] == o'.us && o.l[1..] == o'.l && o.r[1..] == o'.r;
  }

  lemma ChallengeInverse(q: int, u: int)
    requires IsPrime(q) && u % q != 0
    ensures Eq(q, u * Inverse(q, u), 1)
  {
    hide Divides, IsPrime, Inverse;
    PrimeFacts(q);
    DividesMod(q, u);
    InverseSpec(q, u);
  }

  lemma CrossElem<T(!new)>(s: Setup<T>, V: Vectors<T>, k: int, l: int) returns (x: T)
    requires s.Valid() && WellFormed(s.g, s.q, V)
    ensures x == s.g.add(Scalar(s.g, s.q, k, CrossL(s.g, s.q, V)), Scalar(s.g, s.q, l, CrossR(s.g, s.q, V)))
            && s.g.elem(x)
  {
    hide PrimeOrder, Laws, Setup<T>.Valid, CrossL, CrossR, Scalar;
    SetupFacts(s);
    CommitmentElems(s.g, s.q, V);
    ScalarElem(s.g, s.q, k, CrossL(s.g, s.q, V));
    ScalarElem(s.g, s.q, l, CrossR(s.g, s.q, V));
    AddElem(s.g, Scalar(s.g, s.q, k, CrossL(s.g, s.q, V)), Scalar(s.g, s.q, l, CrossR(s.g, s.q, V)));
    x := s.g.add(Scalar(s.g, s.q, k, CrossL(s.g, s.q, V)), Scalar(s.g, s.q, l, CrossR(s.g, s.q, V)));
  }

  lemma BalancedRound<T(!new)>(s: Setup<T>, V: Vectors<T>, u: int, o: Output<T>, o': Output<T>)
    requires s.Valid() && WellFormed(s.g, s.q, V) && u % s.q != 0
    requires o == Output([CrossL(s.g, s.q, V)] + o'.l, [CrossR(s.g, s.q, V)] + o'.r, [u] + o'.us, o'.last)
    requires SameLengths(Fold(s.g, s.q, V, u, Inverse(s.q, u)))
             && Balanced(s.g, s.q, Fold(s.g, s.q, V, u, Inverse(s.q, u)), o')
    ensures Balanced(s.g, s.q, V, o)
  {
    hide PrimeOrder, Laws, Setup<T>.Valid, Fold, CrossL, CrossR, Inverse, Divides, IsPrime, WellFormed, Commitment;
    hide Lost, Scalar, LostSum, CrossSum, Square;
    SetupFacts(s);
    WellFormedLengths(s.g, s.q, V);
    var G, q, v := s.g, s.q, Inverse(s.q, u);
    var W := Fold(G, q, V, u, v);
    OneMoreRound(G, q, V, u, o, o');
    ChallengeInverse(q, u);
    FoldWellFormed(G, q, V, u, v);
    CommitmentElems(G, q, V);
    CommitmentElems(G, q, W);
    SquaredRound(G, q, V, u, v);
    var x := CrossElem(s, V, Square(u), Square(v));
    ChainRounds(G, Commitment(G, q, o.last), LostSum(G, q, W, o'.us), Commitment(G, q, W),
                CrossSum(G, q, o'.us, o'.l, o'.r), Lost(G, q, V), Commitment(G, q, V), x);
  }

  /** The identity of all rounds, for vectors of any length. */
  lemma {:induction false} FoldingIdentity<T(!new)>(s: Setup<T>, hash: Hash, V: Vectors<T>, acc: seq<Byte>)
    requires s.Valid() && WellFormed(s.g, s.q, V) && Run(s, hash, V, acc).Ok?
    ensures Balanced(s.g, s.q, V, Run(s, hash, V, acc).value.0)
    decreases |V.a|
  {
    hide PrimeOrder, Laws, Setup<T>.Valid, Fold, CrossL, CrossR, Inverse, RoundChallenge, WellFormed, Commitment;
    hide Balanced;
    SetupFacts(s);
    WellFormedLengths(s.g, s.q, V);
    if |V.a| <= 1 {
      BalancedEmpty(s, V);
    } else {
      var (u, acc') := RoundChallenge(s, hash, V, acc);
      var W := Fold(s.g, s.q, V, u, Inverse(s.q, u));
      FoldWellFormed(s.g, s.q, V, u, Inverse(s.q, u));
      WellFormedLengths(s.g, s.q, W);
      FoldingIdentity(s, hash, W, acc');
      BalancedRound(s, V, u, Run(s, hash, V, acc).value.0, Run(s, hash, W, acc').value.0);
    }
  }

  lemma BalancedEmpty<T(!new)>(s: Setup<T>, V: Vectors<T>)
    requires s.Valid() && WellFormed(s.g, s.q, V)
    ensures Balanced(s.g, s.q, V, Output([], [], [], V))
  {
    hide PrimeOrder, Laws, Setup<T>.Valid, Commitment;
    SetupFacts(s);
    CommitmentElems(s.g, s.q, V);
    AddZero(s.g, Commitment(s.g, s.q, V));
  }

  /** From c + m = w + y and w + e = p + x: c + (e + m) = p + (x + y). */
  lemma ChainRounds<T(!new)>(G: Group<T>, c: T, m: T, w: T, y: T, e: T, p: T, x: T)
    requires Laws(G) && G.elem(c) && G.elem(m) && G.elem(w) && G.elem(y) && G.elem(e) && G.elem(p) && G.elem(x)
    requires G.add(c, m) == G.add(w, y) && G.add(w, e) == G.add(p, x)
    ensures G.add(c, G.add(e, m)) == G.add(p, G.add(x, y)) && G.elem(G.add(e, m)) && G.elem(G.add(x, y))
  {
    hide Laws;
    AddElem(G, e, m);
    AddElem(G, w, y);
    AddAssociates(G, c, m, e);
    AddAssociates(G, w, y, e);
    AddElem(G, y, e);
    AddAssociates(G, w, e, y);
    AddAssociates(G, p, x, y);
  }

  /** So the plain identity holds exactly when the lost terms cancel. */
  lemma IdentityExact<T(!new)>(s: Setup<T>, hash: Hash, V: Vectors<T>, acc: seq<Byte>)
    requires s.Valid() && WellFormed(s.g, s.q, V) && Run(s, hash, V, acc).Ok?
    ensures var o := Run(s, hash, V, acc).value.0;
            && |o.us| == |o.l| == |o.r| && SameLengths(o.last)
            && (Commitment(s.g, s.q, o.last) == s.g.add(Commitment(s.g, s.q, V), CrossSum(s.g, s.q, o.us, o.l, o.r))
                <==> LostSum(s.g, s.q, V, o.us) == s.g.zero)
  {
    hide PrimeOrder, Laws, Setup<T>.Valid, Run, CrossSum, LostSum, Commitment, WellFormed;
    SetupFacts(s);
    WellFormedLengths(s.g, s.q, V);
    FoldingIdentity(s, hash, V, acc);
    RunShape(s, hash, V, acc);
    var o := Run(s, hash, V, acc).value.0;
    var c, m := Commitment(s.g, s.q, o.last), LostSum(s.g, s.q, V, o.us);
    CommitmentElems(s.g, s.q, V);
    CommitmentElems(s.g, s.q, o.last);
    AddZero(s.g, c);
    if c == s.g.add(Commitment(s.g, s.q, V), CrossSum(s.g, s.q, o.us, o.l, o.r)) {
      AddElem(s.g, c, m);
      Cancel(s.g, m, s.g.zero, c);
    }
  }

  /** A power of two loses nothing. */
  lemma {:induction false} PowerOfTwoLosesNothing<T(!new)>(s: Setup<T>, V: Vectors<T>, us: seq<int>, k: nat)
    requires s.Valid() && WellFormed(s.g, s.q, V) && |V.a| == Exp2(k) && |us| <= k
    ensures LostSum(s.g, s.q, V, us) == s.g.zero && Log2(|V.a|) == k
    decreases k
  {
    hide PrimeOrder, Laws, Setup<T>.Valid, Fold, Inverse;
    SetupFacts(s);
    if k > 0 {
      var u := if us == [] then 1 else us[0];
      var W := Fold(s.g, s.q, V, u, Inverse(s.q, u));
      FoldWellFormed(s.g, s.q, V, u, Inverse(s.q, u));
      PowerOfTwoLosesNothing(s, W, if us == [] then [] else us[1..], k - 1);
      AddZero(s.g, s.g.zero);
    }
  }

  /** For vectors of length 2^k: exactly k pairs are sent, one pair of scalars is left, and
      a*g + b*h = <a, g> + <b, h> + sum of u_j^2*L_j + u_j^-2*R_j. */
  lemma PowerOfTwoIdentity<T(!new)>(s: Setup<T>, hash: Hash, V: Vectors<T>, acc: seq<Byte>, k: nat)
    requires s.Valid() && WellFormed(s.g, s.q, V) && |V.a| == Exp2(k) && Run(s, hash, V, acc).Ok?
    ensures var o := Run(s, hash, V, acc).value.0;
            && |o.us| == |o.l| == |o.r| == k && |o.last.a| == 1 && SameLengths(o.last)
            && s.g.add(Scalar(s.g, s.q, o.last.a[0], o.last.g[0]), Scalar(s.g, s.q, o.last.b[0], o.last.h[0]))
            == s.g.add(Commitment(s.g, s.q, V), CrossSum(s.g, s.q, o.us, o.l, o.r))
  {
    hide PrimeOrder, Laws, Setup<T>.Valid, Run, CrossSum, LostSum, Scalar;
    SetupFacts(s);
    RunShape(s, hash, V, acc);
    var o := Run(s, hash, V, acc).value.0;
    Log2Exp2(k);
    PowerOfTwoLosesNothing(s, V, o.us, k);
    IdentityExact(s, hash, V, acc);
    SingleTerm(s, o.last);
  }

  // ---------------------------------------------------------------- what a verifier can recompute

  /** The generators folded with the challenges alone. */
  function FoldedGenerators<T>(G: Group<T>, q: int, gs: seq<T>, hs: seq<T>, us: seq<int>): (seq<T>, seq<T>)
    requires q > 2 && |gs| == |hs|
    decreases |us|
  {
    if us == [] then (gs, hs)
    else
      var u, v, half := us[0], Inverse(q, us[0]), |gs| / 2;
      FoldedGenerators(G, q,
                       seq(half, i requires 0 <= i < half =>
                           G.add(Scalar(G, q, v, gs[i]), Scalar(G, q, u, gs[half + i]))),
                       seq(half, i requires 0 <= i < half =>
                           G.add(Scalar(G, q, u, hs[i]), Scalar(G, q, v, hs[half + i]))), us[1..])
  }

  lemma {:induction false} GeneratorsOnly<T(!new)>(s: Setup<T>, hash: Hash, V: Vectors<T>, acc: seq<Byte>)
    requires s.q > 2 && SameLengths(V) && Run(s, hash, V, acc).Ok?
    ensures var o := Run(s, hash, V, acc).value.0;
            (o.last.g, o.last.h) == FoldedGenerators(s.g, s.q, V.g, V.h, o.us)
    decreases |V.a|
  {
    hide CrossL, CrossR, Inverse, RoundChallenge, Scalar;
    if |V.a| > 1 {
      var (u, acc') := RoundChallenge(s, hash, V, acc);
      var W := Fold(s.g, s.q, V, u, Inverse(s.q, u));
      GeneratorsOnly(s, hash, W, acc');
      var o, o' := Run(s, hash, V, acc).value.0, Run(s, hash, W, acc').value.0;
      assert o.us[0] == u && o.us[1..] == o'.us;
      var half, v := |V.g| / 2, Inverse(s.q, u);
      assert W.g
          == seq(half, i requires 0 <= i < half =>
                 s.g.add(Scalar(s.g, s.q, v, V.g[i]), Scalar(s.g, s.q, u, V.g[half + i])));
      assert W.h
          == seq(half, i requires 0 <= i < half =>
                 s.g.add(Scalar(s.g, s.q, u, V.h[i]), Scalar(s.g, s.q, v, V.h[half + i])));
    }
  }

  /** The equation of the inner-product argument: with the two generators folded by the challenges, the final scalars
      open the original commitment adjusted by the pairs. */
  lemma OpeningEquation<T(!new)>(s: Setup<T>, hash: Hash, V: Vectors<T>, acc: seq<Byte>, k: nat)
    requires s.Valid() && WellFormed(s.g, s.q, V) && |V.a| == Exp2(k) && Run(s, hash, V, acc).Ok?
    ensures var o := Run(s, hash, V, acc).value.0;
            var (gs, hs) := FoldedGenerators(s.g, s.q, V.g, V.h, o.us);
            && |o.us| == |o.l| == |o.r| == k && |o.last.a| == |o.last.b| == |gs| == |hs| == 1
            && s.g.add(Scalar(s.g, s.q, o.last.a[0], gs[0]), Scalar(s.g, s.q, o.last.b[0], hs[0]))
            == s.g.add(Commitment(s.g, s.q, V), CrossSum(s.g, s.q, o.us, o.l, o.r))
  {
    hide PrimeOrder, Laws, Setup<T>.Valid, Run, CrossSum, FoldedGenerators, Scalar, Commitment, WellFormed;
    SetupFacts(s);
    WellFormedLengths(s.g, s.q, V);
    GeneratorsOnly(s, hash, V, acc);
    PowerOfTwoIdentity(s, hash, V, acc, k);
  }

  lemma SingleTerm<T(!new)>(s: Setup<T>, V: Vectors<T>)
    requires s.Valid() && WellFormed(s.g, s.q, V) && |V.a| == 1
    ensures Commitment(s.g, s.q, V) == s.g.add(Scalar(s.g, s.q, V.a[0], V.g[0]), Scalar(s.g, s.q, V.b[0], V.h[0]))
  {
    hide PrimeOrder, Laws, Setup<T>.Valid, Scalar;
    SetupFacts(s);
    TermElems(s.g, s.q, V, 0);
    var f := TermOf(s.g, s.q, V);
    assert Sum(s.g, f, 1) == s.g.add(Sum(s.g, f, 0), f(0));
    AddZero(s.g, f(0));
  }

  lemma {:induction false} Log2Exp2(k: nat)
    ensures Log2(Exp2(k)) == k
  {
    if k > 0 {
      Log2Exp2(k - 1);
    }
  }

  // ---------------------------------------------------------------- odd lengths

  /** With three elements the plain identity holds exactly when the third term is neutral. */
  lemma ThreeElements<T(!new)>(s: Setup<T>, hash: Hash, V: Vectors<T>, acc: seq<Byte>)
    requires s.Valid() && WellFormed(s.g, s.q, V) && |V.a| == 3 && Run(s, hash, V, acc).Ok?
    ensures var o := Run(s, hash, V, acc).value.0;
            && |o.us| == |o.l| == |o.r| == 1 && SameLengths(o.last)
            && (Commitment(s.g, s.q, o.last) == s.g.add(Commitment(s.g, s.q, V), CrossSum(s.g, s.q, o.us, o.l, o.r))
                <==> Term(s.g, s.q, V, 2) == s.g.zero)
  {
    hide PrimeOrder, Laws, Setup<T>.Valid, Run, CrossSum, Commitment, Term, Fold, Inverse;
    SetupFacts(s);
    RunShape(s, hash, V, acc);
    IdentityExact(s, hash, V, acc);
    var us := Run(s, hash, V, acc).value.0.us;
    assert Log2(3) == 1 + Log2(1);
    OneRoundLoses(s, V, us);
  }

  lemma OneRoundLoses<T(!new)>(s: Setup<T>, V: Vectors<T>, us: seq<int>)
    requires s.Valid() && WellFormed(s.g, s.q, V) && |us| == 1
    ensures LostSum(s.g, s.q, V, us) == Lost(s.g, s.q, V)
  {
    hide PrimeOrder, Laws, Setup<T>.Valid, Lost, Inverse;
    SetupFacts(s);
    CommitmentElems(s.g, s.q, V);
    FoldWellFormed(s.g, s.q, V, us[0], Inverse(s.q, us[0]));
    AddZero(s.g, Lost(s.g, s.q, V));
  }
}
