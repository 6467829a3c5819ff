/** The 32-byte strings of the CLI's group (sections 4.3.1 and 4.3.2 of RFC 9496): the accepted
    strings are in bijection with the cosets of even points, and form an abelian group. */
module RistrettoBytes {
  import opened Numbers
  import opened Bytes
  import opened Wrappers
  import opened Field25519
  import opened EdwardsGroup
  import opened EdwardsPoint
  import opened Ristretto
  import opened RistrettoEncode
  import opened RistrettoGroup

  /** The failures of the CLI: four of decoding, four of the cipher. */
  datatype CryptoError =
    | WrongLength | NonCanonical | NegativeParameter | NotAPoint
    | NegativeAmount | AmountTooLarge | NegativeBound | NotFound

  function Decode(f: Params, data: seq<Byte>): Result<Point, CryptoError>
    requires f.p >= 5
  {
    if |data| != 32 then Err(WrongLength)
    else
      var s := FromLE(data);
      if s >= f.p then Err(NonCanonical)
      else if IsNegative(s) then Err(NegativeParameter)
      else match DecodeField(f, s)
           case None => Err(NotAPoint)
           case Some(p) => Ok(p)
  }

  function Encode(f: Params, p: Point): seq<Byte>
    requires f.p >= 5
  {
    ToLE(EncodeField(f, p), 32)
  }

  /** The field elements fit in 32 bytes. */
  ghost predicate Fits(f: Params) {
    f.p >= 5 && Fits32(f.p) && f.Valid()
  }

  /** The byte form of decoding accepts exactly what the field form accepts. */
  lemma DecodeIsField(f: Params, data: seq<Byte>)
    requires f.p >= 5
    ensures Decode(f, data).Ok? <==> |data| == 32 && DecodeField(f, FromLE(data)).Some?
    ensures Decode(f, data).Ok? ==> DecodeField(f, FromLE(data)) == Some(Decode(f, data).value)
  {
  }

  /** Which error a rejected string meets. */
  lemma DecodeErrors(f: Params, data: seq<Byte>)
    requires f.p >= 5
    ensures Decode(f, data) == Err(WrongLength) <==> |data| != 32
    ensures Decode(f, data) == Err(NonCanonical) <==> |data| == 32 && FromLE(data) >= f.p
    ensures Decode(f, data) == Err(NegativeParameter) <==> |data| == 32 && FromLE(data) < f.p && FromLE(data) % 2 == 1
    ensures Decode(f, data) == Err(NotAPoint)
       <==> |data| == 32 && FromLE(data) < f.p && FromLE(data) % 2 == 0 && DecodeField(f, FromLE(data)).None?
  {
  }

  /** Every accepted string is what its point encodes to; so decoding is injective on accepted strings. */
  lemma EncodeOfAccepted(f: Params, data: seq<Byte>)
    requires Fits(f) && Decode(f, data).Ok?
    ensures Encode(f, Decode(f, data).value) == data
  {
    hide DecodeField, EncodeField, Decode, Bound, Params.Valid;
    Fitting(f);
    DecodeIsField(f, data);
    EncodeOfDecode(f, FromLE(data));
    FromLE32(data);
  }

  lemma Fitting(f: Params)
    requires Fits(f)
    ensures f.Valid() && f.p >= 5 && Fits32(f.p)
  {
  }

  lemma DecodeInjective(f: Params, x: seq<Byte>, y: seq<Byte>)
    requires Fits(f) && Decode(f, x).Ok? && Decode(f, x) == Decode(f, y)
    ensures x == y
  {
    hide DecodeField, EncodeField, Decode, Encode;
    EncodeOfAccepted(f, x);
    EncodeOfAccepted(f, y);
  }

  /** Every even point encodes to an accepted string, which decodes to its canonical representative. */
  lemma AcceptEncoded(f: Params, p: Point, a: Affine)
    requires Fits(f) && On(f, a) && Even(f, a) && Represents(f, p, a)
    ensures Decode(f, Encode(f, p)) == Ok(Extended(f, Canonical(f, a)))
  {
    hide EncodeField, Canonical, On, Represents, Bound, Divides, Params.Valid, DecodeField;
    Fitting(f);
    var s := EncodeField(f, p);
    DecodeOfEncode(f, p, a);
    DecodedRange(f, s);
    ToLE32(f.p, s);
  }

  lemma DecodedRange(f: Params, s: int)
    requires f.p >= 5 && DecodeField(f, s).Some?
    ensures 0 <= s < f.p && !IsNegative(s)
  {
  }

  // ---------------------------------------------------------------- group elements

  /** The group elements: canonical even points. */
  ghost predicate Member(f: Params, e: Affine) {
    IsCanonical(f, e) && Even(f, e)
  }

  function Join(f: Params, a: Affine, b: Affine): Affine
    requires f.p > 2
  {
    Canonical(f, Plus(f, a, b))
  }

  function Opposite(f: Params, a: Affine): Affine
    requires f.p > 2
  {
    Canonical(f, Neg(f, a))
  }

  function DecodeElement(f: Params, data: seq<Byte>): Option<Affine>
    requires f.p >= 5
  {
    match Decode(f, data)
    case Ok(p) => Some(Affine(p.X, p.Y))
    case Err(_) => None
  }

  ghost predicate StandsAt(f: Params, p: Point, e: Affine, a: Affine)
    requires f.p > 0
  {
    On(f, a) && Even(f, a) && Represents(f, p, a) && Canonical(f, a) == e
  }

  /** p is a representative of the group element e. */
  ghost predicate Denotes(f: Params, p: Point, e: Affine)
    requires f.p > 0
  {
    exists a: Affine :: StandsAt(f, p, e, a)
  }

  lemma MemberDenotes(f: Params, e: Affine)
    requires f.Valid() && Member(f, e)
    ensures Denotes(f, Extended(f, e), e) && On(f, e) && Even(f, e) && Canonical(f, e) == e
  {
    hide Divides, NonSquare, IsPrime, Canonical, Even, Represents;
    ExtendedRepresents(f, e);
    CanonicalFixed(f, e);
    assert StandsAt(f, Extended(f, e), e, e);
  }

  /** Canonical representatives of even points are even. */
  lemma CanonicalMember(f: Params, a: Affine)
    requires f.Valid() && On(f, a) && Even(f, a)
    ensures Member(f, Canonical(f, a))
  {
    hide Divides, NonSquare, IsPrime, Canonical, Even, Represents, EncodeField, DecodeField, IsParameter, On;
    hide IsCanonical;
    var p := Extended(f, a);
    ExtendedRepresents(f, a);
    EncodeSpec(f, p, a);
    DecodeOfEncode(f, p, a);
    DecodeAccepts(f, EncodeField(f, p));
  }

  lemma DenotesMember(f: Params, p: Point, e: Affine)
    requires f.Valid() && Denotes(f, p, e)
    ensures Member(f, e)
  {
    hide Divides, NonSquare, IsPrime, Canonical, Even, Represents, On, IsCanonical, Member;
    var a :| StandsAt(f, p, e, a);
    CanonicalMember(f, a);
  }

  lemma DenotesIdentity(f: Params)
    requires f.Valid()
    ensures Denotes(f, Identity, Zero) && Member(f, Zero)
  {
    IdentityRepresents(f);
    ZeroOn(f);
    EvenZero(f);
    ZeroCanonical(f);
    CanonicalFixed(f, Zero);
    assert StandsAt(f, Identity, Zero, Zero);
  }

  /** Point addition is the group operation on representatives. */
  lemma DenotesAdd(f: Params, p: Point, q: Point, e: Affine, e': Affine)
    requires f.Valid() && Denotes(f, p, e) && Denotes(f, q, e')
    ensures Denotes(f, Add(f, p, q), Join(f, e, e'))
  {
    hide Divides, NonSquare, IsPrime, Canonical, Even, Represents, On, Plus, Add, SameCoset;
    var a :| StandsAt(f, p, e, a);
    var b :| StandsAt(f, q, e', b);
    AddRepresents(f, p, q, a, b);
    EvenPlus(f, a, b);
    CanonicalInCoset(f, a);
    CanonicalInCoset(f, b);
    PlusCosets(f, a, e, b, e');
    CanonicalOfCoset(f, Plus(f, a, b), Plus(f, e, e'));
    assert StandsAt(f, Add(f, p, q), Join(f, e, e'), Plus(f, a, b));
  }

  lemma NegCoset(f: Params, a: Affine, b: Affine)
    requires f.Valid() && On(f, a) && SameCoset(f, a, b)
    ensures SameCoset(f, Neg(f, a), Neg(f, b))
  {
    hide Divides, NonSquare, IsPrime, On, Plus, SameCoset, Neg;
    var m, n := Neg(f, a), Neg(f, b);
    CosetOn(f, a, b);
    NegOn(f, a);
    NegOn(f, b);
    PlusOn(f, n, a);
    ZeroOn(f);
    // n + (m + a) ~ n + (m + b): n ~ m
    PlusCoset(f, m, a, b);
    PlusOn(f, m, a);
    PlusCoset(f, n, Plus(f, m, a), Plus(f, m, b));
    PlusCommutes(f, m, a);
    PlusNeg(f, a);
    PlusZero(f, n);
    PlusCommutes(f, m, b);
    PlusCommutes(f, n, Plus(f, b, m));
    PlusCommutes(f, b, m);
    PlusAssociates(f, m, b, n);
    PlusNeg(f, b);
    PlusZero(f, m);
    CosetSymmetric(f, n, m);
  }

  lemma DenotesNegate(f: Params, p: Point, e: Affine)
    requires f.Valid() && Denotes(f, p, e)
    ensures Denotes(f, Negate(f, p), Opposite(f, e))
  {
    hide Divides, NonSquare, IsPrime, Canonical, Even, Represents, On, Negate, Neg, SameCoset;
    var a :| StandsAt(f, p, e, a);
    NegateRepresents(f, p, a);
    EvenNeg(f, a);
    CanonicalInCoset(f, a);
    NegCoset(f, a, e);
    CanonicalOfCoset(f, Neg(f, a), Neg(f, e));
    assert StandsAt(f, Negate(f, p), Opposite(f, e), Neg(f, a));
  }

  /** The equality test decides equality of group elements. */
  lemma DenotesEqual(f: Params, p: Point, q: Point, e: Affine, e': Affine)
    requires f.Valid() && Denotes(f, p, e) && Denotes(f, q, e')
    ensures RistrettoEqual(f, p, q) <==> e == e'
  {
    hide Divides, NonSquare, IsPrime, Canonical, Even, Represents, On, SameCoset, RistrettoEqual;
    var a :| StandsAt(f, p, e, a);
    var b :| StandsAt(f, q, e', b);
    RistrettoEqualSpec(f, p, q, a, b);
    CanonicalInCoset(f, a);
    CanonicalInCoset(f, b);
    if e == e' {
      CosetSymmetric(f, b, e);
      CosetTransitive(f, a, e, b);
    } else if SameCoset(f, a, b) {
      CanonicalOfCoset(f, a, b);
    }
  }

  /** An accepted string decodes to a representative of a group element, and only one string does. */
  lemma DenotesDecoded(f: Params, data: seq<Byte>)
    requires Fits(f) && Decode(f, data).Ok?
    ensures var p := Decode(f, data).value;
            var e := Affine(p.X, p.Y);
            Member(f, e) && p == Extended(f, e) && Denotes(f, p, e) && Encode(f, p) == data
  {
    hide Divides, NonSquare, IsPrime, Canonical, Even, Represents, On, DecodeField, EncodeField, Encode, Bound;
    hide Params.Valid, IsParameter;
    Fitting(f);
    DecodeIsField(f, data);
    EncodeOfAccepted(f, data);
    DecodeAccepts(f, FromLE(data));
    var p := Decode(f, data).value;
    MemberDenotes(f, Affine(p.X, p.Y));
  }

  /** All representatives of a group element have the same encoding, which decodes to the element. */
  lemma DenotesEncoded(f: Params, p: Point, e: Affine)
    requires Fits(f) && Denotes(f, p, e)
    ensures Encode(f, p) == Encode(f, Extended(f, e)) && Decode(f, Encode(f, p)) == Ok(Extended(f, e))
  {
    hide Divides, NonSquare, IsPrime, Canonical, Even, Represents, On, Encode, Decode, Bound, Params.Valid;
    Fitting(f);
    var a :| StandsAt(f, p, e, a);
    AcceptEncoded(f, p, a);
    EncodeOfAccepted(f, Encode(f, p));
  }
}
