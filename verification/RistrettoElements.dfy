/** The CLI's group elements satisfy the group laws, and its point arithmetic computes in that group. */
module RistrettoElements {
  import opened Numbers
  import opened Bytes
  import opened Wrappers
  import opened Field25519
  import opened EdwardsGroup
  import opened EdwardsPoint
  import opened Ristretto
  import opened RistrettoEncode
  import opened RistrettoGroup
  import opened RistrettoBytes
  import G = Groups

  ghost function Elements(f: Params): G.Group<Affine>
    requires Fits(f)
  {
    G.Group(e => Member(f, e), Zero, (a, b) => Join(f, a, b), a => Opposite(f, a),
            e => Encode(f, Extended(f, e)), s => DecodeElement(f, s))
  }

  /** Joining canonical representatives is canonicalising the sum. */
  lemma JoinCanonical(f: Params, a: Affine, b: Affine)
    requires f.Valid() && On(f, a) && On(f, b)
    ensures Join(f, Canonical(f, a), Canonical(f, b)) == Canonical(f, Plus(f, a, b))
  {
    hide Divides, NonSquare, IsPrime, Canonical, On, Plus, SameCoset;
    CanonicalInCoset(f, a);
    CanonicalInCoset(f, b);
    PlusOn(f, a, b);
    PlusCosets(f, a, Canonical(f, a), b, Canonical(f, b));
    CanonicalOfCoset(f, Plus(f, a, b), Plus(f, Canonical(f, a), Canonical(f, b)));
  }

  lemma JoinMember(f: Params, a: Affine, b: Affine)
    requires f.Valid() && Member(f, a) && Member(f, b)
    ensures Member(f, Join(f, a, b)) && Join(f, a, b) == Join(f, b, a)
  {
    hide Divides, NonSquare, IsPrime, Canonical, On, Plus, Even, Member;
    MemberDenotes(f, a);
    MemberDenotes(f, b);
    PlusOn(f, a, b);
    PlusCommutes(f, a, b);
    EvenPlus(f, a, b);
    CanonicalMember(f, Plus(f, a, b));
  }

  lemma JoinAssociates(f: Params, a: Affine, b: Affine, c: Affine)
    requires f.Valid() && Member(f, a) && Member(f, b) && Member(f, c)
    ensures Join(f, Join(f, a, b), c) == Join(f, a, Join(f, b, c))
  {
    hide Divides, NonSquare, IsPrime, Canonical, On, Plus, Even, Member;
    MemberDenotes(f, a);
    MemberDenotes(f, b);
    MemberDenotes(f, c);
    PlusOn(f, a, b);
    PlusOn(f, b, c);
    JoinCanonical(f, Plus(f, a, b), c);
    JoinCanonical(f, a, Plus(f, b, c));
    PlusAssociates(f, a, b, c);
  }

  lemma JoinInverse(f: Params, a: Affine)
    requires f.Valid() && Member(f, a)
    ensures Join(f, a, Zero) == a && Member(f, Opposite(f, a)) && Join(f, a, Opposite(f, a)) == Zero
  {
    hide Divides, NonSquare, IsPrime, Canonical, On, Plus, Even, Member, Neg;
    MemberDenotes(f, a);
    PlusZero(f, a);
    NegOn(f, a);
    EvenNeg(f, a);
    CanonicalMember(f, Neg(f, a));
    JoinCanonical(f, a, Neg(f, a));
    PlusNeg(f, a);
    DenotesIdentity(f);
    MemberDenotes(f, Zero);
  }

  lemma MemberCoded(f: Params, a: Affine)
    requires Fits(f) && Member(f, a)
    ensures |Encode(f, Extended(f, a))| == 32 && DecodeElement(f, Encode(f, Extended(f, a))) == Some(a)
  {
    hide Divides, NonSquare, IsPrime, Canonical, On, Even, Member, Decode, EncodeField, Denotes;
    MemberDenotes(f, a);
    DenotesEncoded(f, Extended(f, a), a);
  }

  lemma CodedMember(f: Params, data: seq<Byte>)
    requires Fits(f) && DecodeElement(f, data).Some?
    ensures Member(f, DecodeElement(f, data).value) && Encode(f, Extended(f, DecodeElement(f, data).value)) == data
  {
    hide Divides, NonSquare, IsPrime, Canonical, On, Even, Member, Decode, Encode, Denotes;
    DenotesDecoded(f, data);
  }

  lemma ElementsClosed(f: Params)
    requires Fits(f)
    ensures G.Closed(Elements(f))
  {
    hide Divides, NonSquare, IsPrime, Canonical, On, Even, Member, Encode, DecodeElement, Join, Opposite, Bound;
    DenotesIdentity(f);
    forall a, b | Member(f, a) && Member(f, b) ensures Member(f, Join(f, a, b)) {
      JoinMember(f, a, b);
    }
    forall a | Member(f, a) ensures Member(f, Opposite(f, a)) {
      JoinInverse(f, a);
    }
  }

  lemma ElementsCommute(f: Params)
    requires Fits(f)
    ensures G.Commutative(Elements(f))
  {
    hide Divides, NonSquare, IsPrime, Canonical, On, Even, Member, Encode, DecodeElement, Join, Opposite, Bound;
    forall a, b | Member(f, a) && Member(f, b) ensures Join(f, a, b) == Join(f, b, a) {
      JoinMember(f, a, b);
    }
  }

  lemma ElementsAssociate(f: Params)
    requires Fits(f)
    ensures G.Associative(Elements(f))
  {
    hide Divides, NonSquare, IsPrime, Canonical, On, Even, Member, Encode, DecodeElement, Join, Opposite, Bound;
    forall a, b, c | Member(f, a) && Member(f, b) && Member(f, c)
      ensures Join(f, Join(f, a, b), c) == Join(f, a, Join(f, b, c))
    {
      JoinAssociates(f, a, b, c);
    }
  }

  lemma ElementsInvertible(f: Params)
    requires Fits(f)
    ensures G.Invertible(Elements(f))
  {
    hide Divides, NonSquare, IsPrime, Canonical, On, Even, Member, Encode, DecodeElement, Join, Opposite, Bound;
    forall a | Member(f, a) ensures Join(f, a, Zero) == a && Join(f, a, Opposite(f, a)) == Zero {
      JoinInverse(f, a);
    }
  }

  lemma ElementsCoded(f: Params)
    requires Fits(f)
    ensures G.Coded(Elements(f))
  {
    hide Divides, NonSquare, IsPrime, Canonical, On, Even, Member, Encode, DecodeElement, Join, Opposite, Bound;
    forall a | Member(f, a)
      ensures |Encode(f, Extended(f, a))| == 32 && DecodeElement(f, Encode(f, Extended(f, a))) == Some(a)
    {
      MemberCoded(f, a);
    }
    forall s | DecodeElement(f, s).Some?
      ensures Member(f, DecodeElement(f, s).value) && Encode(f, Extended(f, DecodeElement(f, s).value)) == s
    {
      CodedMember(f, s);
    }
  }

  /** The accepted strings form an abelian group under decode, add and encode. */
  lemma ElementsLaws(f: Params)
    requires Fits(f)
    ensures G.Laws(Elements(f))
  {
    hide Elements, G.Closed, G.Commutative, G.Associative, G.Invertible, G.Coded;
    ElementsClosed(f);
    ElementsCommute(f);
    ElementsAssociate(f);
    ElementsInvertible(f);
    ElementsCoded(f);
  }

  lemma {:induction false} CanonicalTimes(f: Params, n: nat, a: Affine)
    requires Fits(f) && On(f, a)
    ensures Canonical(f, Times(f, n, a)) == G.Times(Elements(f), n, Canonical(f, a))
  {
    hide Divides, NonSquare, IsPrime, Canonical, On, Plus, Even, Member, Encode, DecodeElement, Opposite;
    if n == 0 {
      ZeroCanonical(f);
      CanonicalFixed(f, Zero);
    } else {
      CanonicalTimes(f, n - 1, a);
      TimesOn(f, n - 1, a);
      JoinCanonical(f, Times(f, n - 1, a), a);
    }
  }

  /** Double-and-add computes the (k mod order)-fold multiple in the group. */
  lemma DenotesScalarMul(f: Params, order: int, p: Point, e: Affine, k: int)
    requires Fits(f) && order > 0 && Denotes(f, p, e)
    ensures Denotes(f, ScalarMul(f, order, p, k), G.Times(Elements(f), k % order, e))
  {
    hide Divides, NonSquare, IsPrime, Canonical, On, Plus, Even, Member, Represents, ScalarMul, Elements, Bound;
    var a :| StandsAt(f, p, e, a);
    var n := k % order;
    ScalarMulSpec(f, order, p, a, k);
    EvenTimes(f, n, a);
    CanonicalTimes(f, n, a);
    assert StandsAt(f, ScalarMul(f, order, p, k), G.Times(Elements(f), n, e), Times(f, n, a));
  }

  lemma ElementsFields(f: Params, a: Affine, b: Affine)
    requires Fits(f)
    ensures var g := Elements(f);
            && g.elem(a) == Member(f, a) && g.zero == Zero && g.add(a, b) == Join(f, a, b)
            && g.neg(a) == Opposite(f, a) && g.enc(a) == Encode(f, Extended(f, a))
  {
  }

  /** Reading an encoded element. */
  lemma ReadElement(f: Params, e: Affine)
    requires Fits(f) && Elements(f).elem(e)
    ensures Decode(f, Elements(f).enc(e)) == Ok(Extended(f, e)) && Denotes(f, Extended(f, e), e)
  {
    ElementsFields(f, e, e);
    hide Divides, NonSquare, IsPrime, Canonical, On, Even, Member, Decode, Encode, Denotes, Elements, Fits;
    Fitting(f);
    MemberDenotes(f, e);
    DenotesEncoded(f, Extended(f, e), e);
  }

  /** Writing a representative. */
  lemma WriteElement(f: Params, p: Point, e: Affine)
    requires Fits(f) && Denotes(f, p, e)
    ensures Encode(f, p) == Elements(f).enc(e) && Elements(f).elem(e)
  {
    ElementsFields(f, e, e);
    hide Divides, NonSquare, IsPrime, Canonical, On, Even, Member, Decode, Encode, Denotes, Elements, Fits;
    Fitting(f);
    DenotesMember(f, p, e);
    DenotesEncoded(f, p, e);
  }

  /** Accepted strings are the encodings of elements. */
  lemma AcceptedElement(f: Params, data: seq<Byte>) returns (e: Affine)
    requires Fits(f) && Decode(f, data).Ok?
    ensures Elements(f).elem(e) && Elements(f).enc(e) == data && Decode(f, data) == Ok(Extended(f, e))
  {
    var p := Decode(f, data).value;
    e := Affine(p.X, p.Y);
    ElementsFields(f, e, e);
    hide Divides, NonSquare, IsPrime, Canonical, On, Even, Member, Decode, Encode, Denotes, Elements, Fits;
    DenotesDecoded(f, data);
  }

  /** Sums, opposites and multiples of representatives. */
  lemma RepresentativeSum(f: Params, p: Point, q: Point, a: Affine, b: Affine)
    requires Fits(f) && Denotes(f, p, a) && Denotes(f, q, b)
    ensures Denotes(f, Add(f, p, q), Elements(f).add(a, b))
    ensures Denotes(f, Add(f, p, Negate(f, q)), Elements(f).add(a, Elements(f).neg(b)))
  {
    ElementsFields(f, a, b);
    ElementsFields(f, b, b);
    ElementsFields(f, a, Elements(f).neg(b));
    hide Divides, NonSquare, IsPrime, Canonical, On, Even, Member, Denotes, Elements, Fits, Add, Negate, Join, Opposite;
    Fitting(f);
    DenotesAdd(f, p, q, a, b);
    DenotesNegate(f, q, b);
    DenotesAdd(f, p, Negate(f, q), a, Opposite(f, b));
  }
}
