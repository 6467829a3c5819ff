/** The affine points of the curve form an abelian group. */
module EdwardsGroup {
  import opened Numbers
  import opened Fermat
  import opened Field25519
  import opened EdwardsLaw
  import opened EdwardsAssociativity

  datatype Affine = Affine(x: int, y: int)

  ghost predicate On(f: Params, a: Affine) {
    0 <= a.x < f.p && 0 <= a.y < f.p && OnCurve(f.p, f.d, a.x, a.y)
  }

  const Zero: Affine := Affine(0, 1)

  function CrossProduct(f: Params, a: Affine, b: Affine): int {
    f.d * (a.x * a.y) * (b.x * b.y)
  }

  function Plus(f: Params, a: Affine, b: Affine): Affine
    requires f.p > 2
  {
    var m := CrossProduct(f, a, b);
    Affine((SumE(a.x, a.y, b.x, b.y) * Inv(f, 1 + m)) % f.p, (SumH(a.x, a.y, b.x, b.y) * Inv(f, 1 - m)) % f.p)
  }

  function Neg(f: Params, a: Affine): Affine
    requires f.p > 2
  {
    Affine((-a.x) % f.p, a.y)
  }

  /** c is a + b: the fraction equations that determine it. */
  ghost predicate IsSum(f: Params, a: Affine, b: Affine, c: Affine) {
    var m := CrossProduct(f, a, b);
    && 0 <= c.x < f.p && 0 <= c.y < f.p
    && Eq(f.p, c.x * (1 + m), SumE(a.x, a.y, b.x, b.y))
    && Eq(f.p, c.y * (1 - m), SumH(a.x, a.y, b.x, b.y))
  }

  lemma InvSpec(f: Params, x: int)
    requires IsPrime(f.p) && f.p > 2 && !Divides(f.p, x)
    ensures 0 <= Inv(f, x) < f.p && Eq(f.p, x * Inv(f, x), 1)
  {
    hide Divides, Pow;
    FermatInverse(f.p, x);
    EqMod(f.p, Pow(x, f.p - 2));
    EqScale(f.p, x, Inv(f, x), Pow(x, f.p - 2));
    EqTrans(f.p, x * Inv(f, x), x * Pow(x, f.p - 2), 1);
  }

  /** (n * inverse of g) * g = n. */
  lemma FractionSpec(f: Params, n: int, g: int)
    requires IsPrime(f.p) && f.p > 2 && !Divides(f.p, g)
    ensures Eq(f.p, ((n * Inv(f, g)) % f.p) * g, n)
  {
    hide Divides, Inv;
    InvSpec(f, g);
    var q := n * Inv(f, g);
    EqMod(f.p, q);
    EqScale(f.p, g, q % f.p, q);
    EqScale(f.p, n, g * Inv(f, g), 1);
    assert g * q == n * (g * Inv(f, g)) && g * (q % f.p) == (q % f.p) * g;
    EqTrans(f.p, (q % f.p) * g, g * q, n * 1);
  }

  lemma Denominators(f: Params, a: Affine, b: Affine)
    requires f.Valid() && On(f, a) && On(f, b)
    ensures !Divides(f.p, 1 + CrossProduct(f, a, b)) && !Divides(f.p, 1 - CrossProduct(f, a, b))
  {
    hide Divides, NonSquare;
    var m := CrossProduct(f, a, b);
    Complete(f.p, f.d, f.i, a.x, a.y, b.x, b.y, 1);
    Complete(f.p, f.d, f.i, a.x, a.y, b.x, b.y, -1);
    assert 1 + m == m - -1 && -1 * (1 - m) == m - 1;
    if Divides(f.p, 1 - m) {
      DividesMul(f.p, 1 - m, -1);
    }
  }

  lemma PlusIsSum(f: Params, a: Affine, b: Affine)
    requires f.Valid() && On(f, a) && On(f, b)
    ensures IsSum(f, a, b, Plus(f, a, b))
  {
    hide Divides, NonSquare, CrossProduct, SumE, SumH, Inv;
    var m := CrossProduct(f, a, b);
    Denominators(f, a, b);
    FractionSpec(f, SumE(a.x, a.y, b.x, b.y), 1 + m);
    FractionSpec(f, SumH(a.x, a.y, b.x, b.y), 1 - m);
  }

  lemma SumUnique(f: Params, a: Affine, b: Affine, c: Affine, c': Affine)
    requires f.Valid() && On(f, a) && On(f, b) && IsSum(f, a, b, c) && IsSum(f, a, b, c')
    ensures c == c'
  {
    hide Divides, NonSquare, CrossProduct, SumE, SumH;
    var m := CrossProduct(f, a, b);
    Denominators(f, a, b);
    FractionUnique(f.p, 1 + m, c.x, c'.x, SumE(a.x, a.y, b.x, b.y));
    FractionUnique(f.p, 1 - m, c.y, c'.y, SumH(a.x, a.y, b.x, b.y));
  }

  lemma FractionUnique(p: int, g: int, x: int, x': int, n: int)
    requires IsPrime(p) && !Divides(p, g) && 0 <= x < p && 0 <= x' < p
    requires Eq(p, x * g, n) && Eq(p, x' * g, n)
    ensures x == x'
  {
    hide Divides;
    EqSym(p, x' * g, n);
    EqTrans(p, x * g, n, x' * g);
    assert x * g == g * x && x' * g == g * x';
    EqCancel(p, g, x, x');
    EqSmall(p, x, x');
  }

  /** Plus is the only solution of the fraction equations. */
  lemma PlusUnique(f: Params, a: Affine, b: Affine, c: Affine)
    requires f.Valid() && On(f, a) && On(f, b) && IsSum(f, a, b, c)
    ensures c == Plus(f, a, b)
  {
    hide Divides, NonSquare, Plus, IsSum;
    PlusIsSum(f, a, b);
    SumUnique(f, a, b, c, Plus(f, a, b));
  }

  // ---------------------------------------------------------------- closure

  lemma PlusOn(f: Params, a: Affine, b: Affine)
    requires f.Valid() && On(f, a) && On(f, b)
    ensures On(f, Plus(f, a, b))
  {
    hide Divides, NonSquare, SumE, SumH, Plus;
    PlusIsSum(f, a, b);
    Denominators(f, a, b);
    Closed(f.p, f.d, a.x, a.y, b.x, b.y);
    var c, m := Plus(f, a, b), CrossProduct(f, a, b);
    OnFromFractions(f.p, f.d, c.x, c.y, SumE(a.x, a.y, b.x, b.y), SumH(a.x, a.y, b.x, b.y), 1 + m, 1 - m);
  }

  lemma OnFromFractions(p: int, d: int, x: int, y: int, e: int, h: int, g: int, k: int)
    requires IsPrime(p) && !Divides(p, g) && !Divides(p, k)
    requires Eq(p, x * g, e) && Eq(p, y * k, h)
    requires Eq(p, (h * g) * (h * g) - (e * k) * (e * k), (k * g) * (k * g) + d * (e * h) * (e * h))
    ensures OnCurve(p, d, x, y)
  {
    hide Divides;
    var w := k * g;
    var lhs, rhs := (h * g) * (h * g) - (e * k) * (e * k), w * w + d * (e * h) * (e * h);
    // h*g = y*w, e*k = x*w, e*h = (x*y)*w
    EqScale(p, g, y * k, h);
    EqScale(p, k, x * g, e);
    EqMul(p, x * g, e, y * k, h);
    FractionProducts(x, y, g, k);
    EqMul(p, y * w, h * g, y * w, h * g);
    EqMul(p, x * w, e * k, x * w, e * k);
    EqMul(p, (x * y) * w, e * h, (x * y) * w, e * h);
    EqSub(p, (y * w) * (y * w), (h * g) * (h * g), (x * w) * (x * w), (e * k) * (e * k));
    EqScale(p, d, ((x * y) * w) * ((x * y) * w), (e * h) * (e * h));
    assert d * ((e * h) * (e * h)) == d * (e * h) * (e * h);
    EqRefl(p, w * w);
    EqAdd(p, w * w, w * w, d * (((x * y) * w) * ((x * y) * w)), d * ((e * h) * (e * h)));
    EqSym(p, w * w + d * (((x * y) * w) * ((x * y) * w)), rhs);
    EqTrans(p, (y * w) * (y * w) - (x * w) * (x * w), lhs, rhs);
    EqTrans(p, (y * w) * (y * w) - (x * w) * (x * w), rhs, w * w + d * (((x * y) * w) * ((x * y) * w)));
    CommonSquare(x, y, d, w, x * y);
    ProductNonzero(p, k, g);
    ProductNonzero(p, w, w);
    EqCancel(p, w * w, y * y - x * x, 1 + d * (x * y) * (x * y));
  }

  lemma FractionProducts(x: int, y: int, g: int, k: int)
    ensures g * (y * k) == y * (k * g) && k * (x * g) == x * (k * g) && (x * g) * (y * k) == (x * y) * (k * g)
  {
  }

  lemma CommonSquare(x: int, y: int, d: int, w: int, t: int)
    ensures (y * w) * (y * w) - (x * w) * (x * w) == (w * w) * (y * y - x * x)
    ensures w * w + d * ((t * w) * (t * w)) == (w * w) * (1 + d * t * t)
  {
  }

  // ---------------------------------------------------------------- commutativity, identity, inverse

  lemma PlusCommutes(f: Params, a: Affine, b: Affine)
    requires f.p > 2
    ensures Plus(f, a, b) == Plus(f, b, a)
  {
    hide Inv;
    SumSymmetric(a.x, a.y, b.x, b.y);
    assert CrossProduct(f, a, b) == CrossProduct(f, b, a);
  }

  lemma ZeroOn(f: Params)
    requires f.Valid()
    ensures On(f, Zero)
  {
    assert f.d * (0 * 1) * (0 * 1) == 0;
    EqRefl(f.p, 1);
  }

  lemma PlusZero(f: Params, a: Affine)
    requires f.Valid() && On(f, a)
    ensures Plus(f, a, Zero) == a
  {
    hide Divides, Plus, NonSquare;
    ZeroOn(f);
    assert CrossProduct(f, a, Zero) == 0;
    assert SumE(a.x, a.y, 0, 1) == a.x * (1 + 0) && SumH(a.x, a.y, 0, 1) == a.y * (1 - 0);
    EqRefl(f.p, a.x);
    EqRefl(f.p, a.y);
    PlusUnique(f, a, Zero, a);
  }

  lemma NegOn(f: Params, a: Affine)
    requires f.Valid() && On(f, a)
    ensures On(f, Neg(f, a)) && Eq(f.p, Neg(f, a).x, -a.x)
  {
    hide Divides, NonSquare, OnCurve;
    var x := Neg(f, a).x;
    EqMod(f.p, -a.x);
    EqRefl(f.p, a.y);
    OnFlip(a.x, a.y, f.p, f.d);
    OnCongruent(f.p, f.d, -a.x, a.y, x, a.y);
  }

  lemma OnFlip(x: int, y: int, p: int, d: int)
    requires OnCurve(p, d, x, y)
    ensures OnCurve(p, d, -x, y)
  {
    assert -x * -x == x * x && (-x * y) == -(x * y);
    assert d * -(x * y) * -(x * y) == d * (x * y) * (x * y);
  }

  /** The curve equation only depends on residues. */
  lemma OnCongruent(p: int, d: int, x: int, y: int, x': int, y': int)
    requires OnCurve(p, d, x, y) && Eq(p, x', x) && Eq(p, y, y')
    ensures OnCurve(p, d, x', y')
  {
    hide Divides;
    EqSym(p, x', x);
    EqSym(p, y, y');
    EqMul(p, x', x, x', x);
    EqMul(p, y', y, y', y);
    EqSub(p, y' * y', y * y, x' * x', x * x);
    EqMul(p, x, x', y, y');
    EqMul(p, x * y, x' * y', x * y, x' * y');
    EqScale(p, d, (x * y) * (x * y), (x' * y') * (x' * y'));
    assert d * ((x * y) * (x * y)) == d * (x * y) * (x * y);
    assert d * ((x' * y') * (x' * y')) == d * (x' * y') * (x' * y');
    EqRefl(p, 1);
    EqAdd(p, 1, 1, d * (x * y) * (x * y), d * (x' * y') * (x' * y'));
    EqTrans(p, y' * y' - x' * x', y * y - x * x, 1 + d * (x * y) * (x * y));
    EqTrans(p, y' * y' - x' * x', 1 + d * (x * y) * (x * y), 1 + d * (x' * y') * (x' * y'));
  }

  lemma PlusNeg(f: Params, a: Affine)
    requires f.Valid() && On(f, a)
    ensures Plus(f, a, Neg(f, a)) == Zero
  {
    hide Divides, Plus, NonSquare, CrossProduct, SumE, SumH;
    NegOn(f, a);
    ZeroOn(f);
    NegSum(f, a, Neg(f, a).x);
    PlusUnique(f, a, Neg(f, a), Zero);
  }

  lemma NegSum(f: Params, a: Affine, nx: int)
    requires On(f, a) && Eq(f.p, nx, -a.x) && 1 < f.p
    ensures IsSum(f, a, Affine(nx, a.y), Zero)
  {
    hide Divides;
    var p, d, x, y := f.p, f.d, a.x, a.y;
    var m := CrossProduct(f, a, Affine(nx, y));
    // e = y*(nx + x) and h = y^2 - x^2 + x*(nx + x), while 1 - m = 1 + d*t^2 - d*t*y*(nx + x)
    var z := nx - -x;
    assert SumE(x, y, nx, y) == y * z;
    assert 0 * (1 + m) - y * z == -y * z;
    Combine1(p, 0 * (1 + m) - SumE(x, y, nx, y), -y, z);
    assert SumH(x, y, nx, y) == y * y - x * x + x * z;
    NegCross(d, x, y, nx);
    var c := y * y - x * x - (1 + d * (x * y) * (x * y));
    Combine2(p, 1 * (1 - m) - SumH(x, y, nx, y), -1, c, -(d * (x * y) * y) - x, z);
  }

  lemma NegCross(d: int, x: int, y: int, nx: int)
    ensures d * (x * y) * (nx * y) == -(d * (x * y) * (x * y)) + (d * (x * y) * y) * (nx - -x)
  {
  }

  // ---------------------------------------------------------------- associativity

  /** The x-coordinate of (x, y) + (x3, y3), multiplied out when (x, y) = (e/(1+m), h/(1-m)). */
  lemma OuterFraction(p: int, d: int, x: int, y: int, e: int, h: int, m: int, x3: int, y3: int, lx: int)
    requires Eq(p, x * (1 + m), e) && Eq(p, y * (1 - m), h)
    requires Eq(p, lx * (1 + d * (x * y) * (x3 * y3)), x * y3 + x3 * y)
    ensures var den := (1 - m) * (1 + m) + d * (e * h) * (x3 * y3);
            && Eq(p, lx * den, x3 * (h * (1 + m)) + y3 * (e * (1 - m)))
            && Eq(p, den, ((1 - m) * (1 + m)) * (1 + d * (x * y) * (x3 * y3)))
  {
    hide Divides;
    var g, k, t3 := 1 + m, 1 - m, x3 * y3;
    var w := k * g;
    var den := w + d * (e * h) * t3;
    var inner := 1 + d * (x * y) * t3;
    EqMul(p, x * g, e, y * k, h);
    FractionProducts(x, y, g, k);
    EqScale(p, d * t3, (x * y) * w, e * h);
    EqRefl(p, w);
    EqAdd(p, w, w, (d * t3) * ((x * y) * w), (d * t3) * (e * h));
    OuterRegroup(d, t3, x * y, w, e * h);
    EqSym(p, w * inner, den);
    EqScale(p, lx, den, w * inner);
    EqScale(p, w, lx * inner, x * y3 + x3 * y);
    assert lx * (w * inner) == w * (lx * inner);
    EqTrans(p, lx * den, w * (lx * inner), w * (x * y3 + x3 * y));
    // w*(x*y3 + x3*y) = x3*(y*k)*g + y3*(x*g)*k
    EqScale(p, x3 * g, y * k, h);
    EqScale(p, y3 * k, x * g, e);
    EqAdd(p, (x3 * g) * (y * k), (x3 * g) * h, (y3 * k) * (x * g), (y3 * k) * e);
    OuterNumerator(x, y, x3, y3, g, k, e, h);
    EqTrans(p, lx * den, w * (x * y3 + x3 * y), x3 * (h * g) + y3 * (e * k));
  }

  lemma OuterRegroup(d: int, t3: int, t: int, w: int, k: int)
    ensures w + (d * t3) * (t * w) == w * (1 + d * t * t3) && w + (d * t3) * k == w + d * k * t3
  {
  }

  lemma OuterNumerator(x: int, y: int, x3: int, y3: int, g: int, k: int, e: int, h: int)
    ensures (x3 * g) * (y * k) + (y3 * k) * (x * g) == (k * g) * (x * y3 + x3 * y)
    ensures (x3 * g) * h + (y3 * k) * e == x3 * (h * g) + y3 * (e * k)
  {
  }

  lemma CrossEqual(p: int, l: int, r: int, n1: int, d1: int, n2: int, d2: int)
    requires IsPrime(p) && !Divides(p, d1) && !Divides(p, d2)
    requires Eq(p, l * d1, n1) && Eq(p, r * d2, n2) && Eq(p, n1 * d2, n2 * d1)
    ensures Eq(p, l, r)
  {
    hide Divides;
    EqScale(p, d2, l * d1, n1);
    EqScale(p, d1, r * d2, n2);
    assert d2 * (l * d1) == (d1 * d2) * l && d1 * (r * d2) == (d1 * d2) * r;
    assert d2 * n1 == n1 * d2 && d1 * n2 == n2 * d1;
    EqTrans(p, (d1 * d2) * l, n1 * d2, n2 * d1);
    EqSym(p, (d1 * d2) * r, n2 * d1);
    EqTrans(p, (d1 * d2) * l, n2 * d1, (d1 * d2) * r);
    ProductNonzero(p, d1, d2);
    EqCancel(p, d1 * d2, l, r);
  }

  /** Facts about one triple sum (a + b) + c, in the form TripleSum uses. */
  lemma TripleFraction(f: Params, a: Affine, b: Affine, c: Affine)
    requires f.Valid() && On(f, a) && On(f, b) && On(f, c)
    ensures var e, h, m := SumE(a.x, a.y, b.x, b.y), SumH(a.x, a.y, b.x, b.y), CrossProduct(f, a, b);
            var den := (1 - m) * (1 + m) + f.d * (e * h) * (c.x * c.y);
            && !Divides(f.p, den)
            && Eq(f.p, Plus(f, Plus(f, a, b), c).x * den, c.x * (h * (1 + m)) + c.y * (e * (1 - m)))
  {
    hide Divides, NonSquare, Plus;
    var e, h, m := SumE(a.x, a.y, b.x, b.y), SumH(a.x, a.y, b.x, b.y), CrossProduct(f, a, b);
    var s := Plus(f, a, b);
    PlusOn(f, a, b);
    PlusIsSum(f, a, b);
    PlusIsSum(f, s, c);
    Denominators(f, a, b);
    Denominators(f, s, c);
    OuterFraction(f.p, f.d, s.x, s.y, e, h, m, c.x, c.y, Plus(f, s, c).x);
    ProductNonzero(f.p, 1 - m, 1 + m);
    ProductNonzero(f.p, (1 - m) * (1 + m), 1 + CrossProduct(f, s, c));
    EqDivides(f.p, (1 - m) * (1 + m) + f.d * (e * h) * (c.x * c.y), ((1 - m) * (1 + m)) * (1 + CrossProduct(f, s, c)));
  }

  lemma AssociativeX(f: Params, a: Affine, b: Affine, c: Affine)
    requires f.Valid() && On(f, a) && On(f, b) && On(f, c)
    ensures Plus(f, Plus(f, a, b), c).x == Plus(f, a, Plus(f, b, c)).x
  {
    hide Divides, NonSquare, Plus, OnCurve;
    PlusOn(f, a, b);
    PlusOn(f, b, c);
    PlusOn(f, Plus(f, a, b), c);
    PlusOn(f, a, Plus(f, b, c));
    PlusCommutes(f, a, Plus(f, b, c));
    TripleFraction(f, a, b, c);
    TripleFraction(f, b, c, a);
    TripleSum(f.p, f.d, a.x, a.y, b.x, b.y, c.x, c.y);
    var e1, h1, m1 := SumE(a.x, a.y, b.x, b.y), SumH(a.x, a.y, b.x, b.y), CrossProduct(f, a, b);
    var e2, h2, m2 := SumE(b.x, b.y, c.x, c.y), SumH(b.x, b.y, c.x, c.y), CrossProduct(f, b, c);
    var l, r := Plus(f, Plus(f, a, b), c).x, Plus(f, a, Plus(f, b, c)).x;
    CrossEqual(f.p, l, r,
      c.x * (h1 * (1 + m1)) + c.y * (e1 * (1 - m1)), (1 - m1) * (1 + m1) + f.d * (e1 * h1) * (c.x * c.y),
      a.x * (h2 * (1 + m2)) + a.y * (e2 * (1 - m2)), (1 - m2) * (1 + m2) + f.d * (e2 * h2) * (a.x * a.y));
    EqSmall(f.p, l, r);
  }

  /** Translation by the point (i, 0) of order four: (x, y) becomes (i*y, i*x). */
  function Rotate(f: Params, a: Affine): Affine
    requires f.p > 0
  {
    Affine((f.i * a.y) % f.p, (f.i * a.x) % f.p)
  }

  lemma RotateOn(f: Params, a: Affine)
    requires f.Valid() && On(f, a)
    ensures On(f, Rotate(f, a))
    ensures Eq(f.p, Rotate(f, a).x, f.i * a.y) && Eq(f.p, Rotate(f, a).y, f.i * a.x)
  {
    hide Divides, NonSquare;
    EqMod(f.p, f.i * a.y);
    EqMod(f.p, f.i * a.x);
    RotateCurve(f.p, f.d, f.i, a.x, a.y);
    hide OnCurve;
    OnCongruent(f.p, f.d, f.i * a.y, f.i * a.x, Rotate(f, a).x, Rotate(f, a).y);
  }

  lemma RotateCurve(p: int, d: int, i: int, x: int, y: int)
    requires OnCurve(p, d, x, y) && Eq(p, i * i, -1)
    ensures OnCurve(p, d, i * y, i * x)
  {
    hide Divides;
    var j, t := i * i, x * y;
    assert (i * y) * (i * x) == j * t;
    assert (i * x) * (i * x) - (i * y) * (i * y) == -j * (y * y - x * x);
    RotateCertificate(j, d, t, y * y - x * x);
    Combine2(p, (i * x) * (i * x) - (i * y) * (i * y) - (1 + d * (j * t) * (j * t)),
             1, y * y - x * x - (1 + d * t * t), -(y * y - x * x) - d * t * t * (j - 1), j - -1);
  }

  lemma RotateCertificate(j: int, d: int, t: int, c: int)
    ensures -j * c - (1 + d * (j * t) * (j * t)) == 1 * (c - (1 + d * t * t)) + (-c - d * t * t * (j - 1)) * (j - -1)
  {
  }

  lemma PlusRotate(f: Params, a: Affine, b: Affine)
    requires f.Valid() && On(f, a) && On(f, b)
    ensures Plus(f, a, Rotate(f, b)) == Rotate(f, Plus(f, a, b))
  {
    hide Divides, NonSquare, Plus, Rotate, OnCurve;
    var c := Plus(f, a, b);
    PlusOn(f, a, b);
    PlusIsSum(f, a, b);
    RotateOn(f, b);
    RotateOn(f, c);
    RotatedSum(f, a, b, c, Rotate(f, b), Rotate(f, c));
    PlusUnique(f, a, Rotate(f, b), Rotate(f, c));
  }

  lemma RotatedSum(f: Params, a: Affine, b: Affine, c: Affine, b': Affine, c': Affine)
    requires IsSum(f, a, b, c) && Eq(f.p, f.i * f.i, -1)
    requires Eq(f.p, b'.x, f.i * b.y) && Eq(f.p, b'.y, f.i * b.x) && Eq(f.p, c'.x, f.i * c.y)
             && Eq(f.p, c'.y, f.i * c.x)
    requires 0 <= c'.x < f.p && 0 <= c'.y < f.p
    ensures IsSum(f, a, b', c')
  {
    hide Divides;
    var p, i := f.p, f.i;
    var m, m' := CrossProduct(f, a, b), CrossProduct(f, a, b');
    // m' = -m
    EqMul(p, b'.x, i * b.y, b'.y, i * b.x);
    assert (i * b.y) * (i * b.x) == (b.x * b.y) * (i * i);
    EqScale(p, b.x * b.y, i * i, -1);
    EqTrans(p, b'.x * b'.y, (b.x * b.y) * (i * i), (b.x * b.y) * -1);
    EqScale(p, f.d * (a.x * a.y), b'.x * b'.y, (b.x * b.y) * -1);
    assert (f.d * (a.x * a.y)) * ((b.x * b.y) * -1) == -m;
    EqRefl(p, 1);
    EqAdd(p, 1, 1, m', -m);
    EqSub(p, 1, 1, m', -m);
    // e' = i*h and h' = i*e
    LinearPair(p, a.x, a.y, b'.x, b'.y, i * b.y, i * b.x);
    LinearPair(p, a.y, a.x, b'.x, b'.y, i * b.y, i * b.x);
    RotatedNumerators(i, a.x, a.y, b.x, b.y);
    RotatedEquation(p, i, c'.x, c.y, 1 + m', 1 - m, SumH(a.x, a.y, b.x, b.y), SumE(a.x, a.y, b'.x, b'.y));
    RotatedEquation(p, i, c'.y, c.x, 1 - m', 1 + m, SumE(a.x, a.y, b.x, b.y), SumH(a.x, a.y, b'.x, b'.y));
  }

  lemma RotatedNumerators(i: int, x1: int, y1: int, x: int, y: int)
    ensures x1 * (i * x) + y1 * (i * y) == i * SumH(x1, y1, x, y)
    ensures y1 * (i * x) + x1 * (i * y) == i * SumE(x1, y1, x, y)
  {
  }

  lemma LinearPair(p: int, u: int, v: int, x: int, y: int, x': int, y': int)
    requires Eq(p, x, x') && Eq(p, y, y')
    ensures Eq(p, u * y + x * v, u * y' + v * x')
  {
    hide Divides;
    EqScale(p, u, y, y');
    EqScale(p, v, x, x');
    EqAdd(p, u * y, u * y', v * x, v * x');
  }

  lemma RotatedEquation(p: int, i: int, c': int, c: int, den': int, den: int, n: int, n': int)
    requires Eq(p, c', i * c) && Eq(p, den', den) && Eq(p, c * den, n) && Eq(p, n', i * n)
    ensures Eq(p, c' * den', n')
  {
    hide Divides;
    EqMul(p, c', i * c, den', den);
    EqScale(p, i, c * den, n);
    assert (i * c) * den == i * (c * den);
    EqTrans(p, c' * den', i * (c * den), i * n);
    EqSym(p, n', i * n);
    EqTrans(p, c' * den', i * n, n');
  }

  /** (a + b) + c = a + (b + c) for all points of the curve. */
  lemma PlusAssociates(f: Params, a: Affine, b: Affine, c: Affine)
    requires f.Valid() && On(f, a) && On(f, b) && On(f, c)
    ensures Plus(f, Plus(f, a, b), c) == Plus(f, a, Plus(f, b, c))
  {
    hide Divides, NonSquare, Plus, OnCurve, Rotate, IsPrime;
    PlusOn(f, a, b);
    PlusOn(f, b, c);
    PlusOn(f, Plus(f, a, b), c);
    PlusOn(f, a, Plus(f, b, c));
    AssociativeX(f, a, b, c);
    RotateOn(f, c);
    AssociativeX(f, a, b, Rotate(f, c));
    PlusRotate(f, Plus(f, a, b), c);
    PlusRotate(f, b, c);
    PlusRotate(f, a, Plus(f, b, c));
    var l, r := Plus(f, Plus(f, a, b), c), Plus(f, a, Plus(f, b, c));
    RotateOn(f, l);
    RotateOn(f, r);
    RotateInjective(f, l.y, r.y, Rotate(f, l).x);
  }

  lemma RotateInjective(f: Params, y: int, y': int, x: int)
    requires f.Valid() && 0 <= y < f.p && 0 <= y' < f.p && Eq(f.p, x, f.i * y) && Eq(f.p, x, f.i * y')
    ensures y == y'
  {
    hide Divides, NonSquare;
    EqSym(f.p, x, f.i * y);
    EqTrans(f.p, f.i * y, x, f.i * y');
    RootOfMinusOneNonzero(f.p, f.i);
    EqCancel(f.p, f.i, y, y');
    EqSmall(f.p, y, y');
  }
}
