/** Fermat's little theorem, by the permutation a, 2a, ..., (p-1)a of the non-zero residues. */
module Fermat {
  import opened Numbers

  function Pow(b: int, e: nat): int {
    if e == 0 then 1 else b * Pow(b, e - 1)
  }

  function Factorial(n: nat): int {
    if n == 0 then 1 else n * Factorial(n - 1)
  }

  function Product(s: seq<int>): int {
    if s == [] then 1 else s[|s| - 1] * Product(s[..|s| - 1])
  }

  // ---------------------------------------------------------------- powers

  lemma {:induction false} PowAdd(b: int, m: nat, n: nat)
    ensures Pow(b, m + n) == Pow(b, m) * Pow(b, n)
  {
    if m > 0 {
      PowAdd(b, m - 1, n);
      assert b * (Pow(b, m - 1) * Pow(b, n)) == (b * Pow(b, m - 1)) * Pow(b, n);
    }
  }

  lemma MulSwap(a: int, b: int, x: int, y: int)
    ensures (a * b) * (x * y) == (a * x) * (b * y)
  {
    assert b * (x * y) == x * (b * y);
  }

  lemma {:induction false} PowMul(b: int, m: nat, n: nat)
    ensures Pow(Pow(b, m), n) == Pow(b, m * n)
  {
    if n > 0 {
      PowMul(b, m, n - 1);
      PowAdd(b, m, m * (n - 1));
      assert m + m * (n - 1) == m * n;
    }
  }

  lemma {:induction false} PowBase(a: int, b: int, n: nat)
    ensures Pow(a * b, n) == Pow(a, n) * Pow(b, n)
  {
    if n > 0 {
      PowBase(a, b, n - 1);
      MulSwap(a, b, Pow(a, n - 1), Pow(b, n - 1));
    }
  }

  lemma {:induction false} EqPow(n: int, a: int, b: int, e: nat)
    requires Eq(n, a, b)
    ensures Eq(n, Pow(a, e), Pow(b, e))
  {
    hide Divides;
    if e == 0 {
      EqRefl(n, 1);
    } else {
      EqPow(n, a, b, e - 1);
      EqMul(n, a, b, Pow(a, e - 1), Pow(b, e - 1));
    }
  }

  lemma PowSmall(b: int)
    ensures Pow(b, 0) == 1 && Pow(b, 1) == b && Pow(b, 2) == b * b
  {
    assert Pow(b, 2) == b * Pow(b, 1);
  }

  // ---------------------------------------------------------------- permutations of 1..n

  ghost predicate Distinct(s: seq<int>) {
    forall i, j :: 0 <= i < j < |s| ==> s[i] != s[j]
  }

  ghost predicate Within(s: seq<int>, n: int) {
    forall i :: 0 <= i < |s| ==> 1 <= s[i] <= n
  }

  ghost function Without(s: seq<int>, j: nat): seq<int>
    requires j < |s|
  {
    s[..j] + s[j + 1..]
  }

  lemma {:induction false} Pigeonhole(s: seq<int>, n: nat)
    requires Distinct(s) && Within(s, n)
    ensures |s| <= n
  {
    if s != [] {
      assert 1 <= s[0] <= n;
    }
    if s == [] {
    } else if n in s {
      var j :| 0 <= j < |s| && s[j] == n;
      Pigeonhole(Without(s, j), n - 1);
    } else {
      assert forall i :: 0 <= i < |s| ==> s[i] in s;
      Pigeonhole(s, n - 1);
    }
  }

  lemma Exchange(a: int, b: int, w: int)
    ensures a * (b * w) == b * (a * w)
  {
  }

  lemma {:induction false} ProductWithout(s: seq<int>, j: nat)
    requires j < |s|
    ensures Product(s) == s[j] * Product(Without(s, j))
  {
    var last := |s| - 1;
    if j == last {
      assert Without(s, j) == s[..last];
    } else {
      ProductWithout(s[..last], j);
      var front, back := Without(s[..last], j), Without(s, j);
      assert back[..last - 1] == front && back[last - 1] == s[last];
      Exchange(s[last], s[j], Product(front));
    }
  }

  lemma WithoutKeeps(s: seq<int>, j: nat, n: nat)
    requires |s| == n && Distinct(s) && Within(s, n) && j < |s| && s[j] == n
    ensures Distinct(Without(s, j)) && Within(Without(s, j), n - 1)
  {
  }

  lemma {:induction false} ProductOfPermutation(s: seq<int>, n: nat)
    requires |s| == n && Distinct(s) && Within(s, n)
    ensures Product(s) == Factorial(n)
  {
    if n > 0 {
      if n !in s {
        assert forall i :: 0 <= i < |s| ==> s[i] in s;
        Pigeonhole(s, n - 1);
        assert false;
      }
      var j :| 0 <= j < |s| && s[j] == n;
      hide Product, Without;
      ProductWithout(s, j);
      WithoutKeeps(s, j, n);
      ProductOfPermutation(Without(s, j), n - 1);
    }
  }

  // ---------------------------------------------------------------- the multiples of a

  function Multiples(a: int, p: int, n: nat): (s: seq<int>)
    requires p > 0
    ensures |s| == n
  {
    seq(n, i requires 0 <= i => (a * (i + 1)) % p)
  }

  lemma {:induction false} ProductOfMultiples(a: int, p: int, n: nat)
    requires p > 0
    ensures Eq(p, Product(Multiples(a, p, n)), Pow(a, n) * Factorial(n))
  {
    hide Divides;
    if n == 0 {
      EqRefl(p, 1);
    } else {
      var s := Multiples(a, p, n);
      assert s[..n - 1] == Multiples(a, p, n - 1);
      ProductOfMultiples(a, p, n - 1);
      EqMod(p, a * n);
      EqMul(p, s[n - 1], a * n, Product(s[..n - 1]), Pow(a, n - 1) * Factorial(n - 1));
      MulSwap(a, n, Pow(a, n - 1), Factorial(n - 1));
    }
  }

  lemma MultiplesPermute(a: int, p: int)
    requires IsPrime(p) && !Divides(p, a)
    ensures Distinct(Multiples(a, p, p - 1)) && Within(Multiples(a, p, p - 1), p - 1)
  {
    hide Divides;
    var s := Multiples(a, p, p - 1);
    forall i | 0 <= i < |s| ensures 1 <= s[i] <= p - 1 {
      SmallNotDivisible(p, i + 1);
      ProductNonzero(p, a, i + 1);
      DividesMod(p, a * (i + 1));
    }
    forall i, j | 0 <= i < j < |s| ensures s[i] != s[j] {
      if s[i] == s[j] {
        EqIffMod(p, a * (i + 1), a * (j + 1));
        EqCancel(p, a, i + 1, j + 1);
        EqSmall(p, i + 1, j + 1);
      }
    }
  }

  lemma SmallNotDivisible(p: int, n: int)
    requires 1 <= n < p
    ensures !Divides(p, n)
  {
    if Divides(p, n) {
      DividesSmall(p, n);
    }
  }

  lemma {:induction false} FactorialNonzero(p: int, n: nat)
    requires IsPrime(p) && n < p
    ensures !Divides(p, Factorial(n))
  {
    hide Divides;
    if n == 0 {
      SmallNotDivisible(p, 1);
    } else {
      FactorialNonzero(p, n - 1);
      SmallNotDivisible(p, n);
      ProductNonzero(p, n, Factorial(n - 1));
    }
  }

  lemma MulByOne(f: int, w: int)
    ensures w * f == f * w && f * 1 == f
  {
  }

  /** a^(p-1) = 1 (mod p) for a prime p that does not divide a. */
  lemma LittleTheorem(p: int, a: int)
    requires IsPrime(p) && !Divides(p, a)
    ensures Eq(p, Pow(a, p - 1), 1)
  {
    hide Divides;
    var f, w := Factorial(p - 1), Pow(a, p - 1);
    MultiplesPermute(a, p);
    ProductOfPermutation(Multiples(a, p, p - 1), p - 1);
    ProductOfMultiples(a, p, p - 1);
    FactorialNonzero(p, p - 1);
    EqSym(p, f, w * f);
    MulByOne(f, w);
    EqCancel(p, f, w, 1);
  }

  /** Hence a^(p-2) is the inverse of a. */
  lemma FermatInverse(p: int, a: int)
    requires IsPrime(p) && !Divides(p, a)
    ensures Eq(p, a * Pow(a, p - 2), 1)
  {
    hide Divides;
    LittleTheorem(p, a);
  }

  /** Inverses modulo n are unique. */
  lemma InverseUnique(n: int, a: int, x: int, y: int)
    requires Eq(n, a * x, 1) && Eq(n, a * y, 1)
    ensures Eq(n, x, y)
  {
    hide Divides;
    // x - y = x(1 - ay) - y(1 - ax)
    assert x - y == -x * (a * y - 1) + y * (a * x - 1);
    Combine2(n, x - y, -x, a * y - 1, y, a * x - 1);
  }
}
