/** Scalars as bytes, and the key pair derived from a seed. */
module ScalarCodec {
  import opened Numbers
  import opened Bytes
  import opened Wrappers
  import opened Groups
  import opened Scalars
  import opened SdkGroup

  function ScalarFromLE32(q: int, bytes: seq<Byte>): Result<int, SdkError>
    requires q > 0
  {
    if |bytes| != 32 then Err(InvalidInput) else Ok(FromLE(bytes) % q)
  }

  function ScalarToLE32(q: int, scalar: int): (out: seq<Byte>)
    requires q > 0
    ensures |out| == 32
  {
    ToLE(scalar % q, 32)
  }

  /** A wide string, of any length, read as a scalar. */
  function ScalarFromUniform64(q: int, bytes: seq<Byte>): int
    requires q > 0
  {
    FromLE(bytes) % q
  }

  lemma {:induction false} FromLEZeros(bytes: seq<Byte>, n: nat)
    ensures FromLE(bytes + seq(n, _ => 0 as Byte)) == FromLE(bytes)
    decreases |bytes| + n
  {
    var zeros := seq(n, _ => 0 as Byte);
    if bytes == [] {
      assert bytes + zeros == zeros;
      if n > 0 {
        assert zeros[1..] == seq(n - 1, _ => 0 as Byte);
        FromLEZeros([], n - 1);
        assert [] + zeros[1..] == zeros[1..];
      }
    } else {
      assert (bytes + zeros)[1..] == bytes[1..] + zeros;
      FromLEZeros(bytes[1..], n);
    }
  }

  /** The accumulating loop over the bytes from the last to the first. */
  method ReadLE(bytes: seq<Byte>) returns (n: nat)
    ensures n == FromLE(bytes)
  {
    n := 0;
    var i := |bytes| - 1;
    assert bytes[i + 1..] == [];
    while i >= 0
      invariant -1 <= i < |bytes|
      invariant n == FromLE(bytes[i + 1..])
    {
      assert bytes[i..][1..] == bytes[i + 1..];
      n := n * 256 + bytes[i];
      i := i - 1;
    }
    assert bytes[0..] == bytes;
  }

  method ReadScalarLE32(q: int, bytes: seq<Byte>) returns (r: Result<int, SdkError>)
    requires q > 0
    ensures r == ScalarFromLE32(q, bytes)
  {
    if |bytes| != 32 {
      return Err(InvalidInput);
    }
    var n := ReadLE(bytes);
    r := Ok(n % q);
  }

  /** Short inputs are padded with zeros to 64 bytes, which does not change the scalar. */
  method ReadScalarUniform64(q: int, bytes: seq<Byte>) returns (r: int)
    requires q > 0
    ensures r == ScalarFromUniform64(q, bytes)
    decreases 64 - |bytes|
  {
    if |bytes| < 64 {
      FromLEZeros(bytes, 64 - |bytes|);
      r := ReadScalarUniform64(q, bytes + seq(64 - |bytes|, _ => 0 as Byte));
      return;
    }
    var n := ReadLE(bytes);
    r := n % q;
  }

  lemma {:induction false} ToLESplit(n: nat, i: nat, len: nat, rest: nat)
    requires i <= len && rest == n / Bound(i)
    ensures ToLE(n, len) == ToLE(n, i) + ToLE(rest, len - i)
    decreases i
  {
    if i > 0 {
      DivideTwice(n, 256, Bound(i - 1));
      ToLESplit(n / 256, i - 1, len - 1, rest);
    }
  }

  lemma DivideTwice(n: nat, b: nat, c: nat)
    requires b > 0 && c > 0
    ensures b * c > 0 && (n / b) / c == n / (b * c)
  {
    var x := n / b;
    var y := x / c;
    assert n == b * x + n % b;
    assert x == c * y + x % c;
    TwoRemainders(n, b, c, x, y, n % b, x % c);
    DivisionUnique(n, b * c, y, b * (x % c) + n % b);
  }

  lemma Distribute(b: int, x: int, t: int)
    ensures b * (x + t) == b * x + b * t
  {
  }

  lemma Reassociate(b: int, c: int, y: int)
    ensures b * (c * y) == (b * c) * y
  {
  }

  lemma SmallFactor(b: nat, t: nat, c: nat)
    requires b > 0 && t < c
    ensures b * c > 0 && 0 <= b * t <= b * c - b
  {
    var k := c - t;
    Distribute(b, t, k);
    Distribute(b, k - 1, 1);
    assert b * (k - 1) >= 0 && b * t >= 0;
  }

  lemma TwoRemainders(n: nat, b: nat, c: nat, x: nat, y: nat, r: nat, t: nat)
    requires n == b * x + r && x == c * y + t && r < b && t < c
    ensures b * c > 0 && n == (b * c) * y + (b * t + r) && 0 <= b * t + r < b * c
  {
    Distribute(b, c * y, t);
    Reassociate(b, c, y);
    SmallFactor(b, t, c);
  }

  lemma DivisionUnique(n: int, d: int, k: int, r: int)
    requires d > 0 && n == d * k + r && 0 <= r < d
    ensures n / d == k
  {
    hide Divides;
    assert n == d * (n / d) + n % d;
    assert d * (n / d - k) == r - n % d;
    DividesIntro(d, r - n % d, n / d - k);
    DividesSmall(d, r - n % d);
    if n / d - k != 0 {
      MultipleIsLarge(d, n / d - k);
    }
  }

  /** The output buffer is filled byte by byte from the low end. */
  method WriteScalarLE32(q: int, scalar: int) returns (out: array<Byte>)
    requires q > 0
    ensures fresh(out) && out[..] == ScalarToLE32(q, scalar)
  {
    var s := scalar % q;
    out := new Byte[32];
    var tmp: nat := s;
    for i := 0 to 32
      invariant out[..i] == ToLE(s, i)
      invariant tmp == s / Bound(i)
    {
      ToLESplit(s, i, i + 1, tmp);
      assert ToLE(tmp, 1) == [tmp % 256];
      out[i] := tmp % 256;
      DivideTwice(s, Bound(i), 256);
      tmp := tmp / 256;
    }
    assert out[..] == out[..32];
  }

  /** The 32-byte form of a scalar reads back as its residue. */
  lemma ScalarRoundTrip(q: int, scalar: int)
    requires q > 0 && Fits32(q)
    ensures ScalarFromLE32(q, ScalarToLE32(q, scalar)) == Ok(scalar % q)
  {
    hide Bound, ToLE, FromLE;
    ToLE32(q, scalar % q);
    ModSmall(q, scalar % q);
  }

  /** Reading is injective on the strings that are below the order: writing gives them back. */
  lemma CanonicalScalar(q: int, bytes: seq<Byte>)
    requires q > 0 && |bytes| == 32
    ensures ScalarToLE32(q, FromLE(bytes)) == bytes <==> FromLE(bytes) < q
  {
    hide ToLE, FromLE;
    FromLE32(bytes);
    if FromLE(bytes) < q {
      ModSmall(q, FromLE(bytes));
    } else if ScalarToLE32(q, FromLE(bytes)) == bytes {
      var n := FromLE(bytes) % q;
      assert n < FromLE(bytes);
      ToLE32(FromLE(bytes) + 1, n);
    }
  }

  // ---------------------------------------------------------------- keys from seeds

  /** The masks of the clamp, on one byte: the low three bits cleared; bit 7 cleared and bit 6 set. */
  lemma MaskBits(b: bv8)
    ensures b & 248 == b - b % 8 && (b & 127) | 64 == b % 64 + 64
  {
  }

  /** Clear the low three bits and the top bit, set bit 254. */
  function Clamp(bytes: seq<Byte>): (out: seq<Byte>)
    requires |bytes| == 32
    ensures |out| == 32 && out[0] % 8 == 0 && 64 <= out[31] < 128 && out[1..31] == bytes[1..31]
    ensures out[0] / 8 == bytes[0] / 8 && out[31] % 64 == bytes[31] % 64
  {
    var low := bytes[0 := bytes[0] - bytes[0] % 8];
    low[31 := low[31] % 64 + 64]
  }

  /** Two digests are clamped to the same scalar exactly when they agree outside the five bits that the clamp fixes. */
  lemma ClampDetermines(x: seq<Byte>, y: seq<Byte>)
    requires |x| == |y| == 32
    ensures FromLE(Clamp(x)) == FromLE(Clamp(y))
       <==> x[1..31] == y[1..31] && x[0] / 8 == y[0] / 8 && x[31] % 64 == y[31] % 64
  {
    hide FromLE, ToLE;
    var a, b := Clamp(x), Clamp(y);
    FromLE32(a);
    FromLE32(b);
    assert a == b <==> a[0] == b[0] && a[1..31] == b[1..31] && a[31] == b[31] by {
      assert a == [a[0]] + a[1..31] + [a[31]] && b == [b[0]] + b[1..31] + [b[31]];
    }
  }

  lemma {:induction false} FromLESplit(x: seq<Byte>, y: seq<Byte>)
    ensures FromLE(x + y) == FromLE(x) + Bound(|x|) * FromLE(y)
  {
    if x == [] {
      assert x + y == y;
    } else {
      assert (x + y)[1..] == x[1..] + y;
      FromLESplit(x[1..], y);
      assert 256 * (Bound(|x| - 1) * FromLE(y)) == Bound(|x|) * FromLE(y);
    }
  }

  /** A clamped string is a positive multiple of 8 between 2^254 and 2^255. */
  lemma ClampRange(bytes: seq<Byte>)
    requires |bytes| == 32
    ensures var n := FromLE(Clamp(bytes)); n % 8 == 0 && TWO_256 <= 4 * n && 2 * n < TWO_256
  {
    hide Bound, Clamp;
    var c := Clamp(bytes);
    var x, y := c[..31], c[31..];
    assert c == x + y && y == [c[31]];
    FromLESplit(x, y);
    ToFromLE(x);
    assert y[1..] == [];
    assert FromLE(y) == c[31] + 256 * FromLE([]);
    TopByte(FromLE(c), FromLE(x), Bound(31), c[31]);
    LowByte(FromLE(c), c[0], FromLE(c[1..]));
    BoundOf32();
    BoundNext(31);
  }

  lemma BoundNext(n: nat)
    ensures Bound(n + 1) == 256 * Bound(n)
  {
  }

  lemma LowByte(n: nat, low: nat, rest: nat)
    requires n == low + 256 * rest && low % 8 == 0
    ensures n % 8 == 0
  {
  }

  lemma TopByte(n: nat, low: nat, bound: nat, top: nat)
    requires n == low + bound * top && low < bound && 64 <= top < 128
    ensures 256 * bound <= 4 * n && 2 * n < 256 * bound
  {
    assert bound * 64 <= bound * top <= bound * 127;
  }

  /** The digest of the seed is a parameter: `digest` stands for the SHA-512 of the 32-byte seed. */
  function KeyPairFromSeed<T(!new)>(s: Setup<T>, seed: seq<Byte>,
                                    digest: seq<Byte>): Result<(seq<Byte>, seq<Byte>), SdkError>
    requires s.q > 0 && |digest| == 64
  {
    if |seed| != 32 then Err(InvalidKeyDerivation)
    else
      var secret :- ScalarFromLE32(s.q, Clamp(digest[..32]));
      var public :- MultBase(s.g, s.q, s.G, secret);
      Ok((s.g.enc(public), ScalarToLE32(s.q, secret)))
  }

  /** Multiplication of a fixed generator, guarded against zero. */
  function MultBase<T>(g: Group<T>, q: int, base: T, scalar: int): Result<T, SdkError>
    requires q > 0
  {
    var k := scalar % q;
    if k == 0 then Ok(g.zero) else Multiply(g, q, base, k)
  }

  lemma MultBaseIsScalar<T(!new)>(g: Group<T>, q: int, base: T, scalar: int)
    requires PrimeOrder(g, q) && g.elem(base)
    ensures MultBase(g, q, base, scalar) == Ok(Scalar(g, q, scalar, base)) && g.elem(Scalar(g, q, scalar, base))
  {
    hide PrimeOrder, Laws;
    OrderFacts(g, q);
    ScalarElem(g, q, scalar, base);
    assert Times(g, 0, base) == g.zero;
  }

  /** No clamped scalar is zero modulo an odd prime above 2^252. */
  lemma ClampNonzero(q: int, bytes: seq<Byte>)
    requires IsPrime(q) && q > 2 && 16 * q > TWO_256 && |bytes| == 32
    ensures !Divides(q, FromLE(Clamp(bytes)))
  {
    hide Divides, Bound, Clamp, FromLE;
    ClampRange(bytes);
    var n := FromLE(Clamp(bytes));
    var k := n / 8;
    assert n == 8 * k;
    if Divides(q, n) {
      SmallNotDivisibleByPowerOfTwo(q);
      PrimeDividesProduct(q, 8, k);
      DividesSmall(q, k);
    }
  }

  lemma SmallNotDivisibleByPowerOfTwo(q: int)
    requires IsPrime(q) && q > 2
    ensures !Divides(q, 8)
  {
    hide Divides;
    if Divides(q, 8) {
      PrimeDividesProduct(q, 2, 4);
      if Divides(q, 4) {
        PrimeDividesProduct(q, 2, 2);
      }
      DividesSmall(q, 2);
    }
  }

  /** Every 32-byte seed gives a key pair whose scalar is invertible, whatever the digest. */
  lemma KeyPairInvertible<T(!new)>(s: Setup<T>, seed: seq<Byte>, digest: seq<Byte>)
    requires s.Valid() && 16 * s.q > TWO_256 && |digest| == 64
    ensures KeyPairFromSeed(s, seed, digest).Ok? <==> |seed| == 32
    ensures |seed| == 32 ==>
              var (public, secret) := KeyPairFromSeed(s, seed, digest).value;
              var x := FromLE(Clamp(digest[..32]));
              && ScalarFromLE32(s.q, secret) == Ok(x % s.q) && x % s.q != 0
              && public == s.g.enc(Scalar(s.g, s.q, x, s.G)) && Scalar(s.g, s.q, x, s.G) != s.g.zero
  {
    hide PrimeOrder, Laws, Divides, Bound, Clamp, FromLE, Setup<T>.Valid, Scalar;
    SetupFacts(s);
    var bytes := digest[..32];
    var x := FromLE(Clamp(bytes));
    ClampNonzero(s.q, bytes);
    DividesMod(s.q, x);
    MultBaseIsScalar(s.g, s.q, s.G, x % s.q);
    ScalarRoundTrip(s.q, x % s.q);
    ModSmall(s.q, x % s.q);
    EqMod(s.q, x);
    ScalarCongruent(s.g, s.q, x % s.q, x, s.G);
    ScalarNonzero(s.g, s.q, x, s.G);
  }
}
