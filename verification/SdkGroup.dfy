/** What the SDK uses of its curve library: parsing and printing points, multiplication by
    scalars in [1, order), and the two generators. */
module SdkGroup {
  import opened Numbers
  import opened Bytes
  import opened Wrappers
  import opened Groups
  import opened Scalars

  datatype SdkError =
    | InvalidInput | InvalidAmount | InvalidEncoding | InvalidKeyDerivation
    | ProofGenerationFailed | ScalarOutOfRange | BalanceOutOfRange

  /** The group, its order, the base point and the message generator. */
  datatype Setup<!T(!new)> = Setup(g: Group<T>, q: int, G: T, H: T) {
    ghost predicate Valid() {
      && PrimeOrder(g, q) && q > 2 && Fits32(q)
      && g.elem(G) && g.elem(H) && G != g.zero && H != g.zero
    }
  }

  function PointFromBytes<T>(g: Group<T>, bytes: seq<Byte>): Result<T, SdkError> {
    if |bytes| != 32 then Err(InvalidInput)
    else match g.dec(bytes)
         case Some(a) => Ok(a)
         case None => Err(InvalidEncoding)
  }

  /** The library's multiplication throws outside [1, order). */
  function Multiply<T>(g: Group<T>, q: int, a: T, k: int): Result<T, SdkError> {
    if 1 <= k < q then Ok(Times(g, k, a)) else Err(ScalarOutOfRange)
  }

  function Subtract<T>(g: Group<T>, a: T, b: T): T {
    g.add(a, g.neg(b))
  }

  lemma SetupFacts<T(!new)>(s: Setup<T>)
    requires s.Valid()
    ensures Laws(s.g) && PrimeOrder(s.g, s.q) && IsPrime(s.q) && s.q > 2 && Fits32(s.q)
    ensures s.g.elem(s.G) && s.g.elem(s.H) && s.G != s.g.zero && s.H != s.g.zero && s.g.elem(s.g.zero)
  {
  }

  /** Reading back an encoded point. */
  lemma ParseEncoded<T(!new)>(g: Group<T>, a: T)
    requires Laws(g) && g.elem(a)
    ensures |g.enc(a)| == 32 && PointFromBytes(g, g.enc(a)) == Ok(a)
  {
    EncDec(g, a);
  }

  lemma ParsedElement<T(!new)>(g: Group<T>, bytes: seq<Byte>)
    requires Laws(g) && PointFromBytes(g, bytes).Ok?
    ensures g.elem(PointFromBytes(g, bytes).value) && g.enc(PointFromBytes(g, bytes).value) == bytes
  {
    DecEnc(g, bytes);
  }

  /** Within its range, multiplication is the scalar multiple. */
  lemma MultiplyIsScalar<T(!new)>(g: Group<T>, q: int, a: T, k: int)
    requires PrimeOrder(g, q) && g.elem(a)
    ensures Multiply(g, q, a, k).Ok? <==> 1 <= k < q
    ensures 1 <= k < q ==> Multiply(g, q, a, k) == Ok(Scalar(g, q, k, a)) && g.elem(Scalar(g, q, k, a))
  {
    hide PrimeOrder, Laws;
    if 1 <= k < q {
      ModSmall(q, k);
      ScalarElem(g, q, k, a);
    }
  }

  // ---------------------------------------------------------------- the axioms are consistent

  function AddMod(q: int, a: int, b: int): int
    requires q > 0
  {
    (a + b) % q
  }

  function NegMod(q: int, a: int): int
    requires q > 0
  {
    (-a) % q
  }

  function ResidueBytes(a: int): seq<Byte> {
    if a >= 0 then ToLE(a, 32) else []
  }

  function ResidueOf(q: int, s: seq<Byte>): Option<int> {
    if |s| == 32 && FromLE(s) < q then Some(FromLE(s)) else None
  }

  /** The residues modulo q, written as 32 little-endian bytes. */
  ghost function Residues(q: int): Group<int>
    requires q > 0
  {
    Group(a => 0 <= a < q, 0, (a, b) => AddMod(q, a, b), a => NegMod(q, a), a => ResidueBytes(a), s => ResidueOf(q, s))
  }

  lemma AddModCongruent(q: int, a: int, b: int, c: int)
    requires q > 0 && Eq(q, a + b, c)
    ensures AddMod(q, a, b) == c % q
  {
    EqIffMod(q, a + b, c);
  }

  lemma AddModAssociates(q: int, a: int, b: int, c: int)
    requires q > 0
    ensures AddMod(q, AddMod(q, a, b), c) == AddMod(q, a, AddMod(q, b, c))
  {
    hide Divides;
    EqMod(q, a + b);
    EqRefl(q, c);
    EqRefl(q, a);
    EqMod(q, b + c);
    EqAdd(q, AddMod(q, a, b), a + b, c, c);
    EqAdd(q, a, a, AddMod(q, b, c), b + c);
    hide AddMod;
    assert a + b + c == a + (b + c);
    AddModCongruent(q, AddMod(q, a, b), c, a + b + c);
    AddModCongruent(q, a, AddMod(q, b, c), a + b + c);
  }

  lemma AddModInverse(q: int, a: int)
    requires 0 <= a < q
    ensures AddMod(q, a, 0) == a && AddMod(q, a, NegMod(q, a)) == 0 && 0 <= NegMod(q, a) < q
  {
    hide Divides;
    ModSmall(q, a);
    ModSmall(q, 0);
    EqRefl(q, a);
    EqMod(q, -a);
    EqAdd(q, a, a, NegMod(q, a), -a);
    AddModCongruent(q, a, NegMod(q, a), 0);
  }

  lemma ResiduesAdd(q: int)
    requires q > 0
    ensures Closed(Residues(q)) && Commutative(Residues(q)) && Invertible(Residues(q))
  {
    hide ResidueBytes, ResidueOf, NegMod;
    forall a, b ensures 0 <= AddMod(q, a, b) < q && AddMod(q, a, b) == AddMod(q, b, a) {
    }
    hide AddMod;
    forall a | 0 <= a < q ensures AddMod(q, a, 0) == a && AddMod(q, a, NegMod(q, a)) == 0 && 0 <= NegMod(q, a) < q {
      AddModInverse(q, a);
    }
  }

  lemma ResiduesAssociate(q: int)
    requires q > 0
    ensures Associative(Residues(q))
  {
    hide ResidueBytes, ResidueOf, NegMod, AddMod;
    forall a, b, c ensures AddMod(q, AddMod(q, a, b), c) == AddMod(q, a, AddMod(q, b, c)) {
      AddModAssociates(q, a, b, c);
    }
  }

  lemma ResidueCode(q: int, a: int, s: seq<Byte>)
    requires q > 0 && Fits32(q)
    ensures 0 <= a < q ==> |ResidueBytes(a)| == 32 && ResidueOf(q, ResidueBytes(a)) == Some(a)
    ensures ResidueOf(q, s).Some? ==> 0 <= ResidueOf(q, s).value < q && ResidueBytes(ResidueOf(q, s).value) == s
  {
    hide Bound, ToLE, FromLE;
    if |s| == 32 {
      FromLE32(s);
    }
    if 0 <= a < q {
      ToLE32(q, a);
    }
  }

  lemma ResiduesCoded(q: int)
    requires q > 0 && Fits32(q)
    ensures Coded(Residues(q))
  {
    hide Bound, ResidueBytes, ResidueOf;
    forall a | 0 <= a < q ensures |ResidueBytes(a)| == 32 && ResidueOf(q, ResidueBytes(a)) == Some(a) {
      ResidueCode(q, a, []);
    }
    forall s | ResidueOf(q, s).Some?
      ensures 0 <= ResidueOf(q, s).value < q && ResidueBytes(ResidueOf(q, s).value) == s
    {
      ResidueCode(q, 0, s);
    }
  }

  lemma {:induction false} ResiduesTimes(q: int, n: nat, a: int)
    requires q > 0
    ensures Times(Residues(q), n, a) == (n * a) % q
  {
    hide ResidueBytes, ResidueOf, NegMod, Divides;
    if n == 0 {
      ModSmall(q, 0);
    } else {
      ResiduesTimes(q, n - 1, a);
      EqMod(q, (n - 1) * a);
      EqRefl(q, a);
      EqAdd(q, ((n - 1) * a) % q, (n - 1) * a, a, a);
      hide AddMod;
      assert (n - 1) * a + a == n * a;
      AddModCongruent(q, ((n - 1) * a) % q, a, n * a);
    }
  }

  /** The integers modulo a prime are a group of that order with an encoding. */
  lemma ResiduesPrimeOrder(q: int)
    requires IsPrime(q) && Fits32(q)
    ensures PrimeOrder(Residues(q), q)
  {
    hide Closed, Commutative, Associative, Invertible, Coded, Divides, Bound, ResidueBytes, ResidueOf, AddMod, NegMod;
    ResiduesAdd(q);
    ResiduesAssociate(q);
    ResiduesCoded(q);
    forall a: int ensures Times(Residues(q), q, a) == 0 {
      ResiduesTimes(q, q, a);
      DividesIntro(q, q * a, a);
      DividesMod(q, q * a);
    }
  }
}
