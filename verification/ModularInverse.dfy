/** The SDK's two scalar inverses: the extended Euclidean loop and square-and-multiply. */
module ModularInverse {
  import opened Numbers
  import opened Fermat
  import opened Wrappers
  import opened SdkGroup

  /** The inverse of a modulo a prime q. */
  function Inverse(q: int, a: int): int
    requires q >= 2
  {
    Pow(a, q - 2) % q
  }

  lemma InverseSpec(q: int, a: int)
    requires IsPrime(q) && !Divides(q, a)
    ensures 1 <= Inverse(q, a) < q && Eq(q, a * Inverse(q, a), 1)
  {
    hide Divides, IsPrime;
    PrimeFacts(q);
    FermatInverse(q, a);
    var x := Pow(a, q - 2);
    EqMod(q, x);
    EqScale(q, a, x % q, x);
    EqTrans(q, a * (x % q), a * x, 1);
    if x % q == 0 {
      SmallNotDivisible(q, 1);
      DividesIntro(q, 0, 0);
      EqDivides(q, a * (x % q), 1);
    }
  }

  lemma PrimeFacts(q: int)
    requires IsPrime(q)
    ensures q >= 2
  {
  }

  lemma InverseIs(q: int, a: int, x: int)
    requires IsPrime(q) && !Divides(q, a) && 0 <= x < q && Eq(q, a * x, 1)
    ensures x == Inverse(q, a)
  {
    hide Divides, IsPrime;
    InverseSpec(q, a);
    InverseUnique(q, a, x, Inverse(q, a));
    EqSmall(q, x, Inverse(q, a));
  }

  lemma InverseReduced(q: int, a: int)
    requires IsPrime(q)
    ensures Inverse(q, a % q) == Inverse(q, a)
  {
    hide Divides, IsPrime;
    PrimeFacts(q);
    EqMod(q, a);
    EqPow(q, a % q, a, q - 2);
    EqIffMod(q, Pow(a % q, q - 2), Pow(a, q - 2));
  }

  // ---------------------------------------------------------------- extended Euclid

  lemma EuclidStep(n: int, a: int, oldR: nat, r: nat, oldS: int, s: int)
    requires r > 0 && Eq(n, oldS * a, oldR) && Eq(n, s * a, r)
    ensures var k := oldR / r;
            oldR - k * r == oldR % r && Gcd(r, oldR % r) == Gcd(oldR, r) && Eq(n, (oldS - k * s) * a, oldR - k * r)
  {
    hide Divides;
    var k := oldR / r;
    EqScale(n, k, s * a, r);
    EqSub(n, oldS * a, oldR, k * (s * a), k * r);
    assert oldS * a - k * (s * a) == (oldS - k * s) * a;
  }

  /** For every modulus and every a not divisible by it, a times the result is the greatest common divisor;
      modulo a prime the result is the inverse. */
  method InvMod(a: int, n: int) returns (result: Result<int, SdkError>)
    requires n > 0
    ensures a % n == 0 ==> result == Err(InvalidKeyDerivation)
    ensures a % n != 0 ==> result.Ok? && 0 <= result.value < n && Eq(n, result.value * (a % n), Gcd(a % n, n))
    ensures IsPrime(n) && a % n != 0 ==> result == Ok(Inverse(n, a))
  {
    hide Divides, IsPrime;
    var aMod := a % n;
    if aMod == 0 {
      return Err(InvalidKeyDerivation);
    }
    var oldR, r := aMod, n;
    var oldS, s := 1, 0;
    EqRefl(n, aMod);
    DividesIntro(n, 0 * aMod - n, -1);
    while r != 0
      invariant oldR >= 0 && r >= 0
      invariant Gcd(oldR, r) == Gcd(aMod, n)
      invariant Eq(n, oldS * aMod, oldR) && Eq(n, s * aMod, r)
      decreases r
    {
      EuclidStep(n, aMod, oldR, r, oldS, s);
      var q := oldR / r;
      oldR, r := r, oldR - q * r;
      oldS, s := s, oldS - q * s;
    }
    assert oldR == Gcd(aMod, n);
    result := Ok(oldS % n);
    EqMod(n, oldS);
    EqScale(n, aMod, oldS % n, oldS);
    EqTrans(n, aMod * (oldS % n), aMod * oldS, Gcd(aMod, n));
    assert aMod * (oldS % n) == (oldS % n) * aMod && aMod * oldS == oldS * aMod;
    PrimeResult(a, n, oldS % n);
  }

  lemma PrimeResult(a: int, n: int, x: int)
    requires n > 0 && 0 <= x < n && a % n != 0 && Eq(n, x * (a % n), Gcd(a % n, n))
    ensures IsPrime(n) ==> x == Inverse(n, a)
  {
    hide Divides, IsPrime;
    if IsPrime(n) {
      var m := a % n;
      SmallNotDivisible(n, m);
      PrimeGcd(n, m);
      PrimeFacts(n);
      assert x * m == m * x;
      InverseIs(n, m, x);
      InverseReduced(n, a);
    }
  }

  // ---------------------------------------------------------------- square and multiply

  lemma SquareStep(q: int, base: int, e: nat)
    requires q > 0 && e > 0
    ensures Eq(q, Pow(base, e), (if e % 2 == 1 then base else 1) * Pow((base * base) % q, e / 2))
  {
    hide Divides;
    var h := e / 2;
    EqMod(q, base * base);
    EqPow(q, (base * base) % q, base * base, h);
    EqSym(q, Pow((base * base) % q, h), Pow(base * base, h));
    PowSmall(base);
    PowMul(base, 2, h);
    if e % 2 == 1 {
      PowAdd(base, 1, 2 * h);
      EqScale(q, base, Pow(base * base, h), Pow((base * base) % q, h));
    }
  }

  /** One iteration keeps result * base^exponent modulo q. */
  lemma LoopStep(q: int, result: int, base: int, e: nat, goal: int)
    requires q > 0 && e > 0 && Eq(q, result * Pow(base, e), goal)
    ensures Eq(q, (if e % 2 == 1 then (result * base) % q else result) * Pow((base * base) % q, e / 2), goal)
  {
    hide Divides;
    var b := if e % 2 == 1 then base else 1;
    var rest := Pow((base * base) % q, e / 2);
    SquareStep(q, base, e);
    EqScale(q, result, Pow(base, e), b * rest);
    EqSym(q, result * Pow(base, e), result * (b * rest));
    EqTrans(q, result * (b * rest), result * Pow(base, e), goal);
    assert result * (b * rest) == (result * b) * rest;
    if e % 2 == 1 {
      EqMod(q, result * base);
      EqScale(q, rest, (result * base) % q, result * base);
      assert rest * ((result * base) % q) == ((result * base) % q) * rest
          && rest * (result * base) == (result * base) * rest;
      EqTrans(q, ((result * base) % q) * rest, (result * base) * rest, goal);
    }
  }

  /** Square-and-multiply computes s^(q-2); modulo a prime that is the same inverse as InvMod's. */
  method InvScalar(s: int, q: int) returns (r: Result<int, SdkError>)
    requires q > 2
    ensures s % q == 0 ==> r == Err(ProofGenerationFailed)
    ensures s % q != 0 ==> r == Ok(Inverse(q, s))
  {
    hide Divides, Pow;
    var reduced := s % q;
    if reduced == 0 {
      return Err(ProofGenerationFailed);
    }
    var base := reduced;
    var exponent := q - 2;
    var result := 1;
    EqRefl(q, 1 * Pow(reduced, q - 2));
    while exponent > 0
      invariant 0 <= exponent && 0 <= result < q
      invariant Eq(q, result * Pow(base, exponent), Pow(reduced, q - 2))
      decreases exponent
    {
      LoopStep(q, result, base, exponent, Pow(reduced, q - 2));
      if exponent % 2 == 1 {
        result := (result * base) % q;
      }
      base := (base * base) % q;
      exponent := exponent / 2;
    }
    PowSmall(base);
    EqIffMod(q, result, Pow(reduced, q - 2));
    ModSmall(q, result);
    EqMod(q, s);
    EqPow(q, reduced, s, q - 2);
    EqIffMod(q, Pow(reduced, q - 2), Pow(s, q - 2));
    r := Ok(result);
  }
}
