/** The prover as the loop it is: the vectors are rebuilt in every round and the pairs collected. */
module InnerProductLoop {
  import opened Numbers
  import opened Bytes
  import opened Wrappers
  import opened Groups
  import opened Scalars
  import opened Sums
  import opened SdkGroup
  import opened ModularInverse
  import opened Sigma
  import opened Transcript
  import opened InnerProduct
  import opened InnerProductProver

  datatype Answer<T> = Answer(l: seq<T>, r: seq<T>, a: int, b: int)

  /** The witness with the blinding vector added. */
  function Mixed(q: int, a: seq<int>, b: seq<int>): (m: seq<int>)
    requires q > 0 && |a| == |b|
    ensures |m| == |a| && forall i :: 0 <= i < |m| ==> 0 <= m[i] < q
  {
    seq(|a|, i requires 0 <= i < |a| => (a[i] + b[i]) % q)
  }

  function First(v: seq<int>): int {
    if v == [] then 0 else v[0]
  }

  /** A run continued from the rounds already made. */
  function After<T>(l: seq<T>, r: seq<T>, us: seq<int>,
                    rest: Result<(Output<T>, seq<Byte>), SdkError>): Result<(Output<T>, seq<Byte>), SdkError> {
    match rest
    case Err(e) => Err(e)
    case Ok((o, end)) => Ok((Output(l + o.l, r + o.r, us + o.us, o.last), end))
  }

  lemma AfterNothing<T>(rest: Result<(Output<T>, seq<Byte>), SdkError>)
    ensures After([], [], [], rest) == rest
  {
    if rest.Ok? {
      var o := rest.value.0;
      assert [] + o.l == o.l && [] + o.r == o.r && [] + o.us == o.us;
    }
  }

  /** One round of a run in progress. */
  lemma AfterRound<T(!new)>(s: Setup<T>, hash: Hash, V: Vectors<T>, acc: seq<Byte>, l: seq<T>, r: seq<T>, us: seq<int>)
    requires s.q > 2 && SameLengths(V) && |V.a| > 1
    ensures var (u, acc') := RoundChallenge(s, hash, V, acc);
            && (u % s.q == 0 ==> Run(s, hash, V, acc) == Err(ProofGenerationFailed))
            && (u % s.q != 0 ==>
                After(l, r, us, Run(s, hash, V, acc))
                == After(l + [CrossL(s.g, s.q, V)], r + [CrossR(s.g, s.q, V)], us + [u],
                         Run(s, hash, Fold(s.g, s.q, V, u, Inverse(s.q, u)), acc')))
  {
    hide CrossL, CrossR, Inverse, Fold, RoundChallenge;
    var (u, acc') := RoundChallenge(s, hash, V, acc);
    if u % s.q != 0 {
      FoldLengths(s.g, s.q, V, u, Inverse(s.q, u));
      var rest := Run(s, hash, Fold(s.g, s.q, V, u, Inverse(s.q, u)), acc');
      if rest.Ok? {
        var o := rest.value.0;
        var L, R := CrossL(s.g, s.q, V), CrossR(s.g, s.q, V);
        assert l + ([L] + o.l) == (l + [L]) + o.l && r + ([R] + o.r) == (r + [R]) + o.r
            && us + ([u] + o.us) == (us + [u]) + o.us;
      }
    }
  }

  lemma FoldLengths<T>(G: Group<T>, q: int, V: Vectors<T>, u: int, v: int)
    requires q > 0 && SameLengths(V)
    ensures SameLengths(Fold(G, q, V, u, v)) && |Fold(G, q, V, u, v).a| == |V.a| / 2
  {
  }

  /** acc + k*P, the multiplication skipped for k = 0. */
  method AddGuarded<T(!new)>(s: Setup<T>, acc: T, k: int, P: T) returns (r: T)
    requires s.Valid() && s.g.elem(acc) && s.g.elem(P) && 0 <= k < s.q
    ensures r == s.g.add(acc, Scalar(s.g, s.q, k, P)) && s.g.elem(r) && s.g.elem(Scalar(s.g, s.q, k, P))
  {
    hide PrimeOrder, Laws, Setup<T>.Valid, Scalar, Multiply;
    SetupFacts(s);
    ScalarElem(s.g, s.q, k, P);
    ScalarZero(s.g, s.q, P);
    AddZero(s.g, acc);
    AddElem(s.g, acc, Scalar(s.g, s.q, k, P));
    MultiplyIsScalar(s.g, s.q, P, k);
    r := acc;
    if k != 0 {
      r := s.g.add(acc, Multiply(s.g, s.q, P, k).value);
    }
  }

  /** k*P + l*Q for scalars that are not zero. */
  method Combine<T(!new)>(s: Setup<T>, k: int, P: T, l: int, Q: T) returns (r: T)
    requires s.Valid() && s.g.elem(P) && s.g.elem(Q) && 1 <= k < s.q && 1 <= l < s.q
    ensures r == s.g.add(Scalar(s.g, s.q, k, P), Scalar(s.g, s.q, l, Q))
  {
    hide PrimeOrder, Laws, Setup<T>.Valid, Scalar, Multiply;
    SetupFacts(s);
    MultiplyIsScalar(s.g, s.q, P, k);
    MultiplyIsScalar(s.g, s.q, Q, l);
    r := s.g.add(Multiply(s.g, s.q, P, k).value, Multiply(s.g, s.q, Q, l).value);
  }

  /** The entries of the two halves at i. */
  lemma HalvesAt<T(!new)>(G: Group<T>, q: int, V: Vectors<T>, i: nat)
    requires WellFormed(G, q, V) && i < |V.a| / 2
    ensures var j := |V.a| / 2 + i;
            && SameLengths(V) && j < |V.a|
            && 0 <= V.a[i] < q && 0 <= V.b[i] < q && G.elem(V.g[i]) && G.elem(V.h[i])
            && 0 <= V.a[j] < q && 0 <= V.b[j] < q && G.elem(V.g[j]) && G.elem(V.h[j])
  {
  }

  lemma HalfScalars<T(!new)>(G: Group<T>, q: int, V: Vectors<T>, i: nat)
    requires PrimeOrder(G, q) && WellFormed(G, q, V) && i < |V.a| / 2
    ensures var j := |V.a| / 2 + i;
            && SameLengths(V)
            && G.elem(Scalar(G, q, V.a[i], V.g[j])) && G.elem(Scalar(G, q, V.b[j], V.h[i]))
            && G.elem(Scalar(G, q, V.a[j], V.g[i])) && G.elem(Scalar(G, q, V.b[i], V.h[j]))
  {
    hide PrimeOrder, Laws, WellFormed, Scalar;
    HalvesAt(G, q, V, i);
    var j := |V.a| / 2 + i;
    ScalarElem(G, q, V.a[i], V.g[j]);
    ScalarElem(G, q, V.b[j], V.h[i]);
    ScalarElem(G, q, V.a[j], V.g[i]);
    ScalarElem(G, q, V.b[i], V.h[j]);
  }

  lemma NextCross<T>(G: Group<T>, q: int, V: Vectors<T>, i: nat)
    requires q > 0 && SameLengths(V) && i < |V.a| / 2
    ensures var j := |V.a| / 2 + i;
            && Sum(G, LTerms(G, q, V), 0) == G.zero && Sum(G, RTerms(G, q, V), 0) == G.zero
            && Sum(G, LTerms(G, q, V), i + 1)
            == G.add(Sum(G, LTerms(G, q, V), i), G.add(Scalar(G, q, V.a[i], V.g[j]), Scalar(G, q, V.b[j], V.h[i])))
            && Sum(G, RTerms(G, q, V), i + 1)
            == G.add(Sum(G, RTerms(G, q, V), i), G.add(Scalar(G, q, V.a[j], V.g[i]), Scalar(G, q, V.b[i], V.h[j])))
  {
    hide Scalar;
    NextTerms(G, q, V, i);
  }

  /** The two cross points of a round, from the low half (index i) and the high half (index half + i). */
  method CrossPoints<T(!new)>(s: Setup<T>, V: Vectors<T>) returns (L: T, R: T)
    requires s.Valid() && WellFormed(s.g, s.q, V) && SameLengths(V)
    ensures L == CrossL(s.g, s.q, V) && R == CrossR(s.g, s.q, V)
  {
    hide PrimeOrder, Laws, Setup<T>.Valid, Scalar, Times, WellFormed, Sum, LTerms, RTerms;
    SetupFacts(s);
    var g, q := s.g, s.q;
    var half := |V.a| / 2;
    L, R := g.zero, g.zero;
    EmptySums(g, q, V);
    for i := 0 to half
      invariant L == Sum(g, LTerms(g, q, V), i) && g.elem(L)
      invariant R == Sum(g, RTerms(g, q, V), i) && g.elem(R)
    {
      HalvesAt(g, q, V, i);
      NextCross(g, q, V, i);
      var j := half + i;
      HalfScalars(g, q, V, i);
      AddAssociates(g, L, Scalar(g, q, V.a[i], V.g[j]), Scalar(g, q, V.b[j], V.h[i]));
      AddAssociates(g, R, Scalar(g, q, V.a[j], V.g[i]), Scalar(g, q, V.b[i], V.h[j]));
      L := AddGuarded(s, L, V.a[i], V.g[j]);
      L := AddGuarded(s, L, V.b[j], V.h[i]);
      R := AddGuarded(s, R, V.a[j], V.g[i]);
      R := AddGuarded(s, R, V.b[i], V.h[j]);
    }
  }

  lemma EmptySums<T>(G: Group<T>, q: int, V: Vectors<T>)
    requires q > 0 && SameLengths(V)
    ensures Sum(G, LTerms(G, q, V), 0) == G.zero && Sum(G, RTerms(G, q, V), 0) == G.zero
  {
  }

  /** The four folded entries at i. */
  method FoldEntry<T(!new)>(s: Setup<T>, V: Vectors<T>, u: int, uInv: int, i: nat) returns (a: int, b: int, g: T, h: T)
    requires s.Valid() && WellFormed(s.g, s.q, V) && SameLengths(V) && 1 <= u < s.q && 1 <= uInv < s.q && i < |V.a| / 2
    ensures var F := Fold(s.g, s.q, V, u, uInv);
            && SameLengths(F) && |F.a| == |V.a| / 2 && a == F.a[i] && b == F.b[i] && g == F.g[i] && h == F.h[i]
  {
    hide PrimeOrder, Laws, Setup<T>.Valid, Scalar, WellFormed, Fold;
    SetupFacts(s);
    var j := |V.a| / 2 + i;
    HalvesAt(s.g, s.q, V, i);
    FoldAt(s.g, s.q, V, u, uInv, i);
    a := (V.a[i] * u + V.a[j] * uInv) % s.q;
    b := (V.b[i] * uInv + V.b[j] * u) % s.q;
    g := Combine(s, uInv, V.g[i], u, V.g[j]);
    h := Combine(s, u, V.h[i], uInv, V.h[j]);
  }

  /** The folded vectors of a round. */
  method FoldVectors<T(!new)>(s: Setup<T>, V: Vectors<T>, u: int, uInv: int) returns (W: Vectors<T>)
    requires s.Valid() && WellFormed(s.g, s.q, V) && SameLengths(V) && 1 <= u < s.q && 1 <= uInv < s.q
    ensures W == Fold(s.g, s.q, V, u, uInv)
  {
    hide PrimeOrder, Laws, Setup<T>.Valid, WellFormed, Fold;
    SetupFacts(s);
    var half := |V.a| / 2;
    var nextA: seq<int>, nextB: seq<int>, nextG: seq<T>, nextH: seq<T> := [], [], [], [];
    ghost var F := Fold(s.g, s.q, V, u, uInv);
    FoldLengths(s.g, s.q, V, u, uInv);
    Whole(F.a);
    Whole(F.b);
    Whole(F.g);
    Whole(F.h);
    for i := 0 to half
      invariant nextA == F.a[..i] && nextB == F.b[..i] && nextG == F.g[..i] && nextH == F.h[..i]
    {
      var a, b, g, h := FoldEntry(s, V, u, uInv, i);
      Extends(F.a, i);
      Extends(F.b, i);
      Extends(F.g, i);
      Extends(F.h, i);
      nextA := nextA + [a];
      nextB := nextB + [b];
      nextG := nextG + [g];
      nextH := nextH + [h];
    }
    W := Vectors(nextA, nextB, nextG, nextH);
  }

  /** Every entry gets the blinding entry added. */
  method Mix(q: int, a: seq<int>, blinding: seq<int>) returns (m: seq<int>)
    requires q > 0 && |a| == |blinding|
    ensures m == Mixed(q, a, blinding)
  {
    m := a;
    for i := 0 to |a|
      invariant |m| == |a|
      invariant forall j :: 0 <= j < |a| ==> m[j] == if j < i then (a[j] + blinding[j]) % q else a[j]
    {
      m := m[i := (m[i] + blinding[i]) % q];
    }
  }

  /** Both points go into the transcript before the challenge is drawn. */
  method DrawChallenge<T(!new)>(s: Setup<T>, ghost V: Vectors<T>, L: T, R: T, transcript: Transcript) returns (u: int)
    requires s.q > 0 && SameLengths(V) && L == CrossL(s.g, s.q, V) && R == CrossR(s.g, s.q, V)
    modifies transcript
    ensures (u, transcript.acc) == RoundChallenge(s, transcript.hash, V, old(transcript.acc)) && 0 <= u < s.q
  {
    hide CrossL, CrossR;
    transcript.Append("L", s.g.enc(L));
    transcript.Append("R", s.g.enc(R));
    u := transcript.ChallengeScalar(s.q, "u");
  }

  /** One round: the two points, and the folded vectors unless the challenge has no inverse. */
  method Round<T(!new)>(s: Setup<T>, V: Vectors<T>, transcript: Transcript)
    returns (L: T, R: T, next: Result<Vectors<T>, SdkError>, ghost u: int)
    requires s.Valid() && WellFormed(s.g, s.q, V) && SameLengths(V)
    modifies transcript
    ensures L == CrossL(s.g, s.q, V) && R == CrossR(s.g, s.q, V)
    ensures (u, transcript.acc) == RoundChallenge(s, transcript.hash, V, old(transcript.acc))
    ensures next == if u % s.q == 0 then Err(ProofGenerationFailed) else Ok(Fold(s.g, s.q, V, u, Inverse(s.q, u)))
    ensures next.Ok? ==> SameLengths(next.value) && WellFormed(s.g, s.q, next.value) && |next.value.a| == |V.a| / 2
  {
    hide PrimeOrder, Laws, Setup<T>.Valid, Fold, CrossL, CrossR, Inverse, WellFormed, RoundChallenge, IsPrime, Divides;
    SetupFacts(s);
    L, R := CrossPoints(s, V);
    var c := DrawChallenge(s, V, L, R, transcript);
    u := c;
    ModSmall(s.q, c);
    var uInv := InvScalar(c, s.q);
    if uInv.Err? {
      next := Err(ProofGenerationFailed);
      return;
    }
    ChallengeInRange(s.q, c);
    FoldWellFormed(s.g, s.q, V, c, uInv.value);
    FoldLengths(s.g, s.q, V, c, uInv.value);
    var W := FoldVectors(s, V, c, uInv.value);
    next := Ok(W);
  }

  /** The answer of a prover whose rounds are the given run. */
  ghost predicate Answers<T>(run: Result<(Output<T>, seq<Byte>), SdkError>, answer: Result<Answer<T>, SdkError>,
                             acc: seq<Byte>) {
    match run
    case Err(e) => answer == Err(e)
    case Ok((o, end)) => answer == Ok(Answer(o.l, o.r, First(o.last.a), First(o.last.b))) && acc == end
  }

  /** The whole prover: it computes the run from the mixed witness, and leaves the transcript where the run ends. */
  method InnerProductProve<T(!new)>(s: Setup<T>, aVec: seq<int>, bVec: seq<int>, sL: seq<int>, sR: seq<int>,
                                    gVec: seq<T>, hVec: seq<T>, transcript: Transcript)
    returns (answer: Result<Answer<T>, SdkError>)
    requires s.Valid()
    requires |bVec| == |aVec| && |sL| == |aVec| && |sR| == |aVec| && |gVec| == |aVec| && |hVec| == |aVec|
    requires forall i :: 0 <= i < |aVec| ==> s.g.elem(gVec[i]) && s.g.elem(hVec[i])
    modifies transcript
    ensures Answers(Run(s, transcript.hash, Vectors(Mixed(s.q, aVec, sL), Mixed(s.q, bVec, sR), gVec, hVec),
                        old(transcript.acc)),
                    answer, transcript.acc)
  {
    hide PrimeOrder, Laws, Setup<T>.Valid, Fold, CrossL, CrossR, Inverse, WellFormed, After, Run, RoundChallenge;
    hide Mixed, IsPrime, Divides;
    SetupFacts(s);
    var aCur := Mix(s.q, aVec, sL);
    var bCur := Mix(s.q, bVec, sR);
    var V := Vectors(aCur, bCur, gVec, hVec);
    var lVec: seq<T>, rVec: seq<T> := [], [];
    ghost var run := Run(s, transcript.hash, V, transcript.acc);
    ghost var us: seq<int> := [];
    MixedWellFormed(s.g, s.q, V);
    AfterNothing(run);
    while |V.a| > 1
      invariant SameLengths(V) && WellFormed(s.g, s.q, V)
      invariant run == After(lVec, rVec, us, Run(s, transcript.hash, V, transcript.acc))
      decreases |V.a|
    {
      AfterRound(s, transcript.hash, V, transcript.acc, lVec, rVec, us);
      AfterError(lVec, rVec, us, ProofGenerationFailed);
      var L, R, next, u := Round(s, V, transcript);
      if next.Err? {
        return Err(ProofGenerationFailed);
      }
      lVec := lVec + [L];
      rVec := rVec + [R];
      us := us + [u];
      V := next.value;
    }
    answer := Ok(Answer(lVec, rVec, First(V.a), First(V.b)));
    RunEnds(s, transcript.hash, V, transcript.acc, lVec, rVec, us);
  }

  lemma Extends<X>(s: seq<X>, i: nat)
    requires i < |s|
    ensures s[..i + 1] == s[..i] + [s[i]]
  {
  }

  lemma Whole<X>(s: seq<X>)
    ensures s[..|s|] == s && s[..0] == []
  {
  }

  lemma AfterError<T>(l: seq<T>, r: seq<T>, us: seq<int>, e: SdkError)
    ensures After(l, r, us, Err(e)) == Err(e)
  {
  }

  lemma ChallengeInRange(q: int, u: int)
    requires IsPrime(q) && u % q != 0
    ensures 1 <= Inverse(q, u) < q
  {
    hide Divides, IsPrime;
    PrimeFacts(q);
    DividesMod(q, u);
    InverseSpec(q, u);
  }

  lemma MixedWellFormed<T(!new)>(G: Group<T>, q: int, V: Vectors<T>)
    requires SameLengths(V) && forall i ::
               0 <= i < |V.a| ==> 0 <= V.a[i] < q && 0 <= V.b[i] < q && G.elem(V.g[i]) && G.elem(V.h[i])
    ensures WellFormed(G, q, V)
  {
  }

  lemma RunEnds<T(!new)>(s: Setup<T>, hash: Hash, V: Vectors<T>, acc: seq<Byte>, l: seq<T>, r: seq<T>, us: seq<int>)
    requires s.q > 2 && SameLengths(V) && |V.a| <= 1
    ensures After(l, r, us, Run(s, hash, V, acc)) == Ok((Output(l, r, us, V), acc))
  {
    assert l + [] == l && r + [] == r && us + [] == us;
  }
}
