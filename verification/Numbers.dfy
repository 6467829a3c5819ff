/** Integer number theory shared by the curve, the scalar field and the proofs:
    divisibility, congruence, primes and Bezout's identity. */
module Numbers {

  ghost predicate Divides(d: int, n: int) {
    exists k: int :: n == d * k
  }

  /** a and b are congruent modulo n. */
  ghost predicate Eq(n: int, a: int, b: int) {
    Divides(n, a - b)
  }

  ghost predicate IsPrime(p: int) {
    2 <= p && forall d: int :: 1 < d < p ==> !Divides(d, p)
  }

  // ---------------------------------------------------------------- divisibility

  lemma DividesIntro(d: int, n: int, k: int)
    requires n == d * k
    ensures Divides(d, n)
  {
  }

  lemma DividesAdd(d: int, a: int, b: int)
    requires Divides(d, a) && Divides(d, b)
    ensures Divides(d, a + b)
  {
    var i :| a == d * i;
    var j :| b == d * j;
    DividesIntro(d, a + b, i + j);
  }

  lemma DividesMul(d: int, a: int, c: int)
    requires Divides(d, a)
    ensures Divides(d, c * a)
  {
    var i :| a == d * i;
    assert c * (d * i) == d * (c * i);
    DividesIntro(d, c * a, c * i);
  }

  lemma FactorDivides(d: int, a: int, c: int)
    ensures Divides(d, a) ==> Divides(d, a * c) && Divides(d, c * a)
  {
    if Divides(d, a) {
      DividesMul(d, a, c);
    }
  }

  /** Multiples of d smaller than d in size are zero. */
  lemma DividesSmall(d: int, n: int)
    requires Divides(d, n) && -d < n < d
    ensures n == 0
  {
    var k :| n == d * k;
    MultipleIsLarge(d, k);
  }

  lemma MultipleIsLarge(d: int, k: int)
    ensures d > 0 && k >= 1 ==> d * k >= d
    ensures d > 0 && k <= -1 ==> d * k <= -d
  {
    if d > 0 && k >= 1 {
      assert d * k == d + d * (k - 1);
    } else if d > 0 && k <= -1 {
      assert d * k == -d + d * (k + 1);
    }
  }

  lemma DividesMod(d: int, n: int)
    requires d > 0
    ensures Divides(d, n) <==> n % d == 0
  {
    assert n == d * (n / d) + n % d;
    if n % d == 0 {
      DividesIntro(d, n, n / d);
    } else if Divides(d, n) {
      var k :| n == d * k;
      DividesIntro(d, n % d, k - n / d);
      DividesSmall(d, n % d);
    }
  }

  // ---------------------------------------------------------------- congruence

  lemma EqRefl(n: int, a: int)
    ensures Eq(n, a, a)
  {
    DividesIntro(n, 0, 0);
  }

  lemma EqSym(n: int, a: int, b: int)
    requires Eq(n, a, b)
    ensures Eq(n, b, a)
  {
    var k :| a - b == n * k;
    DividesIntro(n, b - a, -k);
  }

  lemma EqTrans(n: int, a: int, b: int, c: int)
    requires Eq(n, a, b) && Eq(n, b, c)
    ensures Eq(n, a, c)
  {
    DividesAdd(n, a - b, b - c);
  }

  lemma EqAdd(n: int, a: int, b: int, c: int, d: int)
    requires Eq(n, a, b) && Eq(n, c, d)
    ensures Eq(n, a + c, b + d)
  {
    DividesAdd(n, a - b, c - d);
    assert (a - b) + (c - d) == (a + c) - (b + d);
  }

  lemma EqNeg(n: int, a: int, b: int)
    requires Eq(n, a, b)
    ensures Eq(n, -a, -b)
  {
    DividesMul(n, a - b, -1);
    assert -1 * (a - b) == (-a) - (-b);
  }

  lemma EqSub(n: int, a: int, b: int, c: int, d: int)
    requires Eq(n, a, b) && Eq(n, c, d)
    ensures Eq(n, a - c, b - d)
  {
    EqNeg(n, c, d);
    EqAdd(n, a, b, -c, -d);
    assert a + -c == a - c && b + -d == b - d;
  }

  lemma EqMul(n: int, a: int, b: int, c: int, d: int)
    requires Eq(n, a, b) && Eq(n, c, d)
    ensures Eq(n, a * c, b * d)
  {
    hide Divides;
    DividesMul(n, a - b, c);
    DividesMul(n, c - d, b);
    DividesAdd(n, c * (a - b), b * (c - d));
    assert c * (a - b) + b * (c - d) == a * c - b * d;
  }

  lemma EqScale(n: int, c: int, a: int, b: int)
    requires Eq(n, a, b)
    ensures Eq(n, c * a, c * b)
  {
    hide Divides;
    DividesMul(n, a - b, c);
    assert c * (a - b) == c * a - c * b;
  }

  lemma EqMod(n: int, a: int)
    requires n > 0
    ensures Eq(n, a % n, a) && Eq(n, a, a % n)
  {
    assert a == n * (a / n) + a % n;
    DividesIntro(n, a - a % n, a / n);
    DividesIntro(n, a % n - a, -(a / n));
  }

  /** Congruence is equality of least residues. */
  lemma EqIffMod(n: int, a: int, b: int)
    requires n > 0
    ensures Eq(n, a, b) <==> a % n == b % n
  {
    hide Divides;
    EqMod(n, a);
    EqMod(n, b);
    if Eq(n, a, b) {
      EqTrans(n, a % n, a, b);
      EqTrans(n, a % n, b, b % n);
      DividesSmall(n, a % n - b % n);
    } else if a % n == b % n {
      EqTrans(n, a, a % n, b);
    }
  }

  lemma EqDivides(n: int, a: int, b: int)
    requires Eq(n, a, b)
    ensures Divides(n, a) <==> Divides(n, b)
  {
    hide Divides;
    assert b == 1 * a + -1 * (a - b) && a == 1 * b + 1 * (a - b);
    if Divides(n, a) {
      Combine2(n, b, 1, a, -1, a - b);
    } else if Divides(n, b) {
      Combine2(n, a, 1, b, 1, a - b);
    }
  }

  lemma EqSmall(n: int, a: int, b: int)
    requires Eq(n, a, b) && 0 <= a < n && 0 <= b < n
    ensures a == b
  {
    DividesSmall(n, a - b);
  }

  lemma ModSmall(n: int, a: int)
    requires 0 <= a < n
    ensures a % n == a
  {
    hide Divides;
    EqMod(n, a);
    EqSmall(n, a % n, a);
  }

  // Certificates: z is an integer combination of numbers divisible by n.

  lemma Combine1(n: int, z: int, c1: int, z1: int)
    requires Divides(n, z1) && z == c1 * z1
    ensures Divides(n, z)
  {
    DividesMul(n, z1, c1);
  }

  lemma Combine2(n: int, z: int, c1: int, z1: int, c2: int, z2: int)
    requires Divides(n, z1) && Divides(n, z2) && z == c1 * z1 + c2 * z2
    ensures Divides(n, z)
  {
    DividesMul(n, z1, c1);
    DividesMul(n, z2, c2);
    DividesAdd(n, c1 * z1, c2 * z2);
  }

  lemma Combine3(n: int, z: int, c1: int, z1: int, c2: int, z2: int, c3: int, z3: int)
    requires Divides(n, z1) && Divides(n, z2) && Divides(n, z3) && z == c1 * z1 + c2 * z2 + c3 * z3
    ensures Divides(n, z)
  {
    Combine2(n, c1 * z1 + c2 * z2, c1, z1, c2, z2);
    DividesMul(n, z3, c3);
    DividesAdd(n, c1 * z1 + c2 * z2, c3 * z3);
  }

  lemma Combine4(n: int, z: int, c1: int, z1: int, c2: int, z2: int, c3: int, z3: int, c4: int, z4: int)
    requires Divides(n, z1) && Divides(n, z2) && Divides(n, z3) && Divides(n, z4)
    requires z == c1 * z1 + c2 * z2 + c3 * z3 + c4 * z4
    ensures Divides(n, z)
  {
    Combine3(n, c1 * z1 + c2 * z2 + c3 * z3, c1, z1, c2, z2, c3, z3);
    DividesMul(n, z4, c4);
    DividesAdd(n, c1 * z1 + c2 * z2 + c3 * z3, c4 * z4);
  }

  // ---------------------------------------------------------------- gcd and primes

  function Gcd(a: nat, b: nat): nat
    decreases b
  {
    if b == 0 then a else Gcd(b, a % b)
  }

  lemma {:induction false} GcdDivides(a: nat, b: nat)
    ensures Divides(Gcd(a, b), a) && Divides(Gcd(a, b), b)
    decreases b
  {
    if b == 0 {
      DividesIntro(a, a, 1);
      DividesIntro(a, 0, 0);
    } else {
      var g := Gcd(b, a % b);
      GcdDivides(b, a % b);
      assert a == (a / b) * b + a % b;
      Combine2(g, a, a / b, b, 1, a % b);
    }
  }

  lemma {:induction false} Bezout(a: nat, b: nat) returns (x: int, y: int)
    ensures Gcd(a, b) == x * a + y * b
    decreases b
  {
    if b == 0 {
      x, y := 1, 0;
    } else {
      var x', y' := Bezout(b, a % b);
      x, y := y', x' - (a / b) * y';
      BezoutStep(a, b, a / b, a % b, x', y');
    }
  }

  lemma BezoutStep(a: int, b: int, q: int, r: int, x: int, y: int)
    requires a == q * b + r
    ensures x * b + y * r == y * a + (x - q * y) * b
  {
    assert y * a == y * (q * b) + y * r;
    assert (x - q * y) * b == x * b - y * (q * b);
  }

  lemma PrimeGcd(p: int, a: nat)
    requires IsPrime(p) && !Divides(p, a)
    ensures Gcd(a, p) == 1
  {
    hide Divides;
    var g := Gcd(a, p);
    GcdDivides(a, p);
    DividesLe(g, p);
    assert g == 1 || g == p;
  }

  lemma DividesLe(d: nat, n: int)
    requires Divides(d, n) && n > 0
    ensures 1 <= d <= n
  {
    var k :| n == d * k;
    assert k >= 1;
    assert d * k >= d * 1;
  }

  /** Euclid's lemma. */
  lemma PrimeDividesProduct(p: int, a: int, b: int)
    requires IsPrime(p) && Divides(p, a * b)
    ensures Divides(p, a) || Divides(p, b)
  {
    hide Divides;
    if !Divides(p, a) {
      var m := a % p;
      EqMod(p, a);
      EqDivides(p, m, a);
      PrimeGcd(p, m);
      var x, y := Bezout(m, p);
      assert 1 == x * m + y * p;
      DividesIntro(p, p, 1);
      // b = x*(a*b) - x*b*(a - m) + (y*b)*p
      assert b == b * (x * m + y * p);
      assert b * (x * m + y * p) == x * (a * b) + (-(x * b)) * (a - m) + (y * b) * p;
      Combine3(p, b, x, a * b, -(x * b), a - m, y * b, p);
    }
  }

  /** A factor that is not zero modulo a prime cancels. */
  lemma EqCancel(p: int, c: int, a: int, b: int)
    requires IsPrime(p) && !Divides(p, c) && Eq(p, c * a, c * b)
    ensures Eq(p, a, b)
  {
    assert c * a - c * b == c * (a - b);
    PrimeDividesProduct(p, c, a - b);
  }

  lemma ProductNonzero(p: int, a: int, b: int)
    requires IsPrime(p) && !Divides(p, a) && !Divides(p, b)
    ensures !Divides(p, a * b)
  {
    if Divides(p, a * b) {
      PrimeDividesProduct(p, a, b);
    }
  }

  /** Modulo a prime, equal squares have equal or opposite roots. */
  lemma EqualSquares(p: int, a: int, b: int)
    requires IsPrime(p) && Eq(p, a * a, b * b)
    ensures Eq(p, a, b) || Eq(p, a, -b)
  {
    assert a * a - b * b == (a - b) * (a - -b);
    PrimeDividesProduct(p, a - b, a - -b);
  }
}
