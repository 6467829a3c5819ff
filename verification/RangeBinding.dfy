/** What the challenges of a range proof depend on. */
module RangeBinding {
  import opened Numbers
  import opened Bytes
  import opened Groups
  import opened Scalars
  import opened SdkGroup
  import opened Sigma
  import opened Transcript
  import opened TranscriptBinding
  import opened InnerProduct
  import opened InnerProductProver
  import opened RangeProof

  lemma PlayAbsorb(hash: Hash, acc: seq<Byte>, ops: seq<Op>, tag: string, bytes: seq<Byte>)
    ensures Play(hash, acc, ops + [Absorb(tag, bytes)]) == Appended(hash, Play(hash, acc, ops), tag, bytes)
  {
    assert (ops + [Absorb(tag, bytes)])[..|ops|] == ops;
  }

  lemma PlayDraw(q: int, hash: Hash, acc: seq<Byte>, ops: seq<Op>, tag: string)
    requires q > 0
    ensures Play(hash, acc, ops + [Draw(tag)]) == Drawn(q, hash, Play(hash, acc, ops), tag).1
  {
    assert (ops + [Draw(tag)])[..|ops|] == ops;
  }

  /** What the transcript has seen when z is drawn, and when x is. */
  function BeforeZ<T>(g: Group<T>, commitment: seq<Byte>, h: Header<T>): seq<Op> {
    [Absorb("commitment", commitment)] + [Absorb("A", g.enc(h.A))] + [Absorb("S", g.enc(h.S))] + [Draw("y")]
  }

  function BeforeX<T>(g: Group<T>, commitment: seq<Byte>, h: Header<T>): seq<Op> {
    BeforeZ(g, commitment, h) + [Draw("z")] + [Absorb("T1", g.enc(h.T1))] + [Absorb("T2", g.enc(h.T2))]
  }

  lemma HeaderPlays<T>(g: Group<T>, q: int, hash: Hash, commitment: seq<Byte>, h: Header<T>)
    requires q > 0
    ensures var c := HeaderChallenges(g, q, hash, commitment, h);
            && c.z == Drawn(q, hash, Play(hash, TRANSCRIPT_DOMAIN, BeforeZ(g, commitment, h)), "z").0
            && c.x == Drawn(q, hash, Play(hash, TRANSCRIPT_DOMAIN, BeforeX(g, commitment, h)), "x").0
  {
    hide Appended, Drawn, Play;
    var d := TRANSCRIPT_DOMAIN;
    var o1, o2, o3 := [Absorb("commitment", commitment)], [Absorb("A", g.enc(h.A))], [Absorb("S", g.enc(h.S))];
    PlayNothing(hash, d);
    PlayAbsorb(hash, d, [], "commitment", commitment);
    assert [] + o1 == o1;
    PlayAbsorb(hash, d, o1, "A", g.enc(h.A));
    PlayAbsorb(hash, d, o1 + o2, "S", g.enc(h.S));
    PlayDraw(q, hash, d, o1 + o2 + o3, "y");
    var z := BeforeZ(g, commitment, h);
    PlayDraw(q, hash, d, z, "z");
    PlayAbsorb(hash, d, z + [Draw("z")], "T1", g.enc(h.T1));
    PlayAbsorb(hash, d, z + [Draw("z")] + [Absorb("T1", g.enc(h.T1))], "T2", g.enc(h.T2));
  }

  ghost predicate Members<T(!new)>(g: Group<T>, commitment: seq<Byte>, h: Header<T>) {
    |commitment| == 32 && HeaderMembers(g, h)
  }

  /** Two headers draw the same z under every hash exactly when commitment, A and S agree, and the same x exactly when
      T1 and T2 do as well. */
  lemma HeaderBinds<T(!new)>(s: Setup<T>, commitment: seq<Byte>, h: Header<T>, commitment': seq<Byte>, h': Header<T>)
    requires s.Valid() && Members(s.g, commitment, h) && Members(s.g, commitment', h')
    ensures s.q > 2
    ensures (forall hash: Hash :: HeaderChallenges(s.g, s.q, hash, commitment, h).z
                               == HeaderChallenges(s.g, s.q, hash, commitment', h').z)
       <==> commitment == commitment' && h.A == h'.A && h.S == h'.S
    ensures (forall hash: Hash :: HeaderChallenges(s.g, s.q, hash, commitment, h).x
                               == HeaderChallenges(s.g, s.q, hash, commitment', h').x)
       <==> commitment == commitment' && h.A == h'.A && h.S == h'.S && h.T1 == h'.T1 && h.T2 == h'.T2
  {
    hide PrimeOrder, Laws, Setup<T>.Valid, Drawn, Play, HeaderChallenges, Fits32, IsPrime;
    SetupFacts(s);
    var g, q, d := s.g, s.q, TRANSCRIPT_DOMAIN;
    HeaderEncodings(g, h, h');
    var z, z', x, x' := BeforeZ(g, commitment, h), BeforeZ(g, commitment', h'), BeforeX(g, commitment, h),
                        BeforeX(g, commitment', h');
    assert z == z' <==> z[0] == z'[0] && z[1] == z'[1] && z[2] == z'[2];
    assert x == x' <==> x[0] == x'[0] && x[1] == x'[1] && x[2] == x'[2] && x[5] == x'[5] && x[6] == x'[6];
    PlayBinds(q, d, z, z', "z");
    PlayBinds(q, d, x, x', "x");
    forall hash: Hash
      ensures HeaderChallenges(g, q, hash, commitment, h).z == Drawn(q, hash, Play(hash, d, z), "z").0
           && HeaderChallenges(g, q, hash, commitment', h').z == Drawn(q, hash, Play(hash, d, z'), "z").0
           && HeaderChallenges(g, q, hash, commitment, h).x == Drawn(q, hash, Play(hash, d, x), "x").0
           && HeaderChallenges(g, q, hash, commitment', h').x == Drawn(q, hash, Play(hash, d, x'), "x").0
    {
      HeaderPlays(g, q, hash, commitment, h);
      HeaderPlays(g, q, hash, commitment', h');
    }
  }

  lemma HeaderEncodings<T(!new)>(g: Group<T>, h: Header<T>, h': Header<T>)
    requires Laws(g) && HeaderMembers(g, h) && HeaderMembers(g, h')
    ensures |g.enc(h.A)| == |g.enc(h.S)| == |g.enc(h.T1)| == |g.enc(h.T2)| == 32
    ensures |g.enc(h'.A)| == |g.enc(h'.S)| == |g.enc(h'.T1)| == |g.enc(h'.T2)| == 32
    ensures (g.enc(h.A) == g.enc(h'.A) <==> h.A == h'.A) && (g.enc(h.S) == g.enc(h'.S) <==> h.S == h'.S)
    ensures (g.enc(h.T1) == g.enc(h'.T1) <==> h.T1 == h'.T1) && (g.enc(h.T2) == g.enc(h'.T2) <==> h.T2 == h'.T2)
  {
    hide Laws;
    EncDec(g, h.A);
    EncDec(g, h.S);
    EncDec(g, h.T1);
    EncDec(g, h.T2);
    EncDec(g, h'.A);
    EncDec(g, h'.S);
    EncDec(g, h'.T1);
    EncDec(g, h'.T2);
  }

  /** The challenge of a round, behind any transcript, is the same for two vectors under every hash exactly when their
      cross points L and R are. */
  lemma RoundBinds<T(!new)>(s: Setup<T>, V: Vectors<T>, V': Vectors<T>, acc: seq<Byte>)
    requires s.Valid() && WellFormed(s.g, s.q, V) && WellFormed(s.g, s.q, V')
    ensures s.q > 2 && SameLengths(V) && SameLengths(V')
    ensures (forall hash: Hash :: RoundChallenge(s, hash, V, acc).0 == RoundChallenge(s, hash, V', acc).0)
       <==> CrossL(s.g, s.q, V) == CrossL(s.g, s.q, V') && CrossR(s.g, s.q, V) == CrossR(s.g, s.q, V')
  {
    hide PrimeOrder, Laws, Setup<T>.Valid, Drawn, Play, Appended, CrossL, CrossR, WellFormed, Fits32, IsPrime;
    SetupFacts(s);
    WellFormedLengths(s.g, s.q, V);
    WellFormedLengths(s.g, s.q, V');
    CommitmentElems(s.g, s.q, V);
    CommitmentElems(s.g, s.q, V');
    var g, q := s.g, s.q;
    var L, R, L', R' := CrossL(g, q, V), CrossR(g, q, V), CrossL(g, q, V'), CrossR(g, q, V');
    EncDec(g, L);
    EncDec(g, R);
    EncDec(g, L');
    EncDec(g, R');
    var ops, ops' := [Absorb("L", g.enc(L))] + [Absorb("R", g.enc(R))],
                     [Absorb("L", g.enc(L'))] + [Absorb("R", g.enc(R'))];
    assert ops == ops' <==> ops[0] == ops'[0] && ops[1] == ops'[1];
    PlayBinds(q, acc, ops, ops', "u");
    forall hash: Hash
      ensures RoundChallenge(s, hash, V, acc).0 == Drawn(q, hash, Play(hash, acc, ops), "u").0
           && RoundChallenge(s, hash, V', acc).0 == Drawn(q, hash, Play(hash, acc, ops'), "u").0
    {
      PlayPair(hash, acc, g.enc(L), g.enc(R));
      PlayPair(hash, acc, g.enc(L'), g.enc(R'));
    }
  }

  lemma PlayPair(hash: Hash, acc: seq<Byte>, l: seq<Byte>, r: seq<Byte>)
    ensures Play(hash, acc, [Absorb("L", l)] + [Absorb("R", r)]) == Appended(hash, Appended(hash, acc, "L", l), "R", r)
  {
    hide Appended, Play;
    PlayNothing(hash, acc);
    PlayAbsorb(hash, acc, [], "L", l);
    assert [] + [Absorb("L", l)] == [Absorb("L", l)];
    PlayAbsorb(hash, acc, [Absorb("L", l)], "R", r);
  }
}
