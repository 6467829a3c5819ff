/** The CLI's cipher: c1 = r*G, c2 = amount*G + r*pk, on 32-byte strings, with decryption by linear scan. */
module CliElGamal {
  import opened Bytes
  import opened Wrappers
  import opened Field25519
  import E = EdwardsPoint
  import opened Ristretto
  import opened RistrettoBytes

  /** The field, the scalar modulus and the encoding of the base point. */
  datatype Curve = Curve(f: Params, order: int, base: seq<Byte>) {
    ghost predicate Valid() {
      && Fits(f) && U64 <= order
      && Decode(f, base).Ok?
    }
  }

  const U64: int := 0x1_0000_0000_0000_0000

  datatype Ciphertext = Ciphertext(c1: seq<Byte>, c2: seq<Byte>)

  function PublicKey(c: Curve, secret: int): Result<seq<Byte>, CryptoError>
    requires c.f.p >= 5 && c.order > 0
  {
    var g :- Decode(c.f, c.base);
    Ok(Encode(c.f, E.ScalarMul(c.f, c.order, g, secret)))
  }

  /** `drawn` and `entropy` stand for the random sources, `digest` for the hash of the seed. */
  function Keygen(c: Curve, digest: Option<seq<Byte>>, drawn: int,
                  entropy: seq<Byte>): Result<(int, seq<Byte>), CryptoError>
    requires c.f.p >= 5 && c.order > 0
  {
    var first := if digest.Some? then FromLE(digest.value) % c.order else drawn;
    var secret := if first == 0 then FromLE(entropy) % c.order else first;
    var public :- PublicKey(c, secret);
    Ok((secret, public))
  }

  /** The scalar that encryption uses; `drawn` is the result of the random source. */
  function Nonce(c: Curve, randomness: Option<int>, drawn: int): int
    requires c.order > 0
  {
    var r := if randomness.Some? then randomness.value % c.order else drawn;
    if r == 0 then drawn else r
  }

  function Encrypt(c: Curve, pk: seq<Byte>, amount: int, randomness: Option<int>,
                   drawn: int): Result<Ciphertext, CryptoError>
    requires c.f.p >= 5 && c.order > 0
  {
    if amount < 0 then Err(NegativeAmount)
    else if amount >= U64 then Err(AmountTooLarge)
    else
      var r := Nonce(c, randomness, drawn);
      var g :- Decode(c.f, c.base);
      var pkPoint :- Decode(c.f, pk);
      var c1 := E.ScalarMul(c.f, c.order, g, r);
      var c2 := E.Add(c.f, E.ScalarMul(c.f, c.order, g, amount), E.ScalarMul(c.f, c.order, pkPoint, r));
      Ok(Ciphertext(Encode(c.f, c1), Encode(c.f, c2)))
  }

  /** The point left after the mask is removed. */
  function Unmasked(c: Curve, secret: int, c1: E.Point, c2: E.Point): E.Point
    requires c.f.p >= 5 && c.order > 0
  {
    E.Add(c.f, c2, E.Negate(c.f, E.ScalarMul(c.f, c.order, c1, secret)))
  }

  /** The remaining iterations of the scan, with the cursor at m*g. */
  function Scan(f: Params, g: E.Point, cursor: E.Point, target: E.Point, m: int,
                maxAmount: int): Result<int, CryptoError>
    requires f.p >= 5
    decreases maxAmount - m
  {
    if RistrettoEqual(f, cursor, target) then Ok(m)
    else if m >= maxAmount then Err(NotFound)
    else Scan(f, g, E.Add(f, cursor, g), target, m + 1, maxAmount)
  }

  function Decrypt(c: Curve, secret: int, ct: Ciphertext, maxAmount: int): Result<int, CryptoError>
    requires c.f.p >= 5 && c.order > 0
  {
    if maxAmount < 0 then Err(NegativeBound)
    else
      var c1 :- Decode(c.f, ct.c1);
      var c2 :- Decode(c.f, ct.c2);
      var g :- Decode(c.f, c.base);
      Scan(c.f, g, E.Identity, Unmasked(c, secret, c1, c2), 0, maxAmount)
  }

  method DecryptExhaustive(c: Curve, secret: int, ct: Ciphertext, maxAmount: int) returns (r: Result<int, CryptoError>)
    requires c.f.p >= 5 && c.order > 0
    ensures r == Decrypt(c, secret, ct, maxAmount)
  {
    hide E.Add, E.Negate, RistrettoEqual, Decode, Unmasked;
    if maxAmount < 0 {
      return Err(NegativeBound);
    }
    var c1 :- Decode(c.f, ct.c1);
    var c2 :- Decode(c.f, ct.c2);
    var mask := E.ScalarMulLoop(c.f, c.order, c1, secret);
    var target := E.Add(c.f, c2, E.Negate(c.f, mask));
    assert target == Unmasked(c, secret, c1, c2) by {
      UnmaskedIs(c, secret, c1, c2);
    }
    var g :- Decode(c.f, c.base);
    var cursor := E.Identity;
    if RistrettoEqual(c.f, cursor, target) {
      return Ok(0);
    }
    for m := 1 to maxAmount + 1
      invariant !RistrettoEqual(c.f, cursor, target)
      invariant Scan(c.f, g, cursor, target, m - 1, maxAmount) == Decrypt(c, secret, ct, maxAmount)
    {
      cursor := E.Add(c.f, cursor, g);
      if RistrettoEqual(c.f, cursor, target) {
        return Ok(m);
      }
    }
    return Err(NotFound);
  }

  lemma UnmaskedIs(c: Curve, secret: int, c1: E.Point, c2: E.Point)
    requires c.f.p >= 5 && c.order > 0
    ensures Unmasked(c, secret, c1, c2) == E.Add(c.f, c2, E.Negate(c.f, E.ScalarMul(c.f, c.order, c1, secret)))
  {
  }

  /** `drawn` is the scalar drawn from the random source. */
  function Randomize(c: Curve, ct: Ciphertext, pk: seq<Byte>, drawn: int): Result<Ciphertext, CryptoError>
    requires c.f.p >= 5 && c.order > 0
  {
    var g :- Decode(c.f, c.base);
    var pkPoint :- Decode(c.f, pk);
    var c1 :- Decode(c.f, ct.c1);
    var c2 :- Decode(c.f, ct.c2);
    Ok(Ciphertext(Encode(c.f, E.Add(c.f, c1, E.ScalarMul(c.f, c.order, g, drawn))),
                  Encode(c.f, E.Add(c.f, c2, E.ScalarMul(c.f, c.order, pkPoint, drawn)))))
  }

  function HomomorphicAdd(f: Params, a: Ciphertext, b: Ciphertext): Result<Ciphertext, CryptoError>
    requires f.p >= 5
  {
    var a1 :- Decode(f, a.c1);
    var a2 :- Decode(f, a.c2);
    var b1 :- Decode(f, b.c1);
    var b2 :- Decode(f, b.c2);
    Ok(Ciphertext(Encode(f, E.Add(f, a1, b1)), Encode(f, E.Add(f, a2, b2))))
  }

  function HomomorphicSub(f: Params, a: Ciphertext, b: Ciphertext): Result<Ciphertext, CryptoError>
    requires f.p >= 5
  {
    var a1 :- Decode(f, a.c1);
    var a2 :- Decode(f, a.c2);
    var b1 :- Decode(f, b.c1);
    var b2 :- Decode(f, b.c2);
    Ok(Ciphertext(Encode(f, E.Add(f, a1, E.Negate(f, b1))), Encode(f, E.Add(f, a2, E.Negate(f, b2)))))
  }
}
