/** Amounts as decimal text. */
module AmountText {
  import opened Wrappers

  datatype TextError = DecimalsOutOfRange | NotANumber | TooManyDecimals

  function Pow10(n: nat): (r: nat)
    ensures r >= 1
  {
    if n == 0 then 1 else 10 * Pow10(n - 1)
  }

  function Digit(d: nat): char
    requires d < 10
  {
    '0' + d as char
  }

  predicate IsDigit(c: char) {
    '0' <= c <= '9'
  }

  predicate AllDigits(s: string) {
    forall i :: 0 <= i < |s| ==> IsDigit(s[i])
  }

  function Decimal(n: nat): string {
    if n < 10 then [Digit(n)] else Decimal(n / 10) + [Digit(n % 10)]
  }

  function SignedDecimal(k: int): string {
    if k < 0 then "-" + Decimal(-k) else Decimal(k)
  }

  /** The number a digit string denotes. */
  function Value(s: string): nat
    requires AllDigits(s)
  {
    if s == [] then 0 else 10 * Value(s[..|s| - 1]) + (s[|s| - 1] as int - '0' as int)
  }

  function Zeros(n: nat): string {
    seq(n, _ => '0')
  }

  function PadStart(s: string, n: nat): string {
    if |s| >= n then s else Zeros(n - |s|) + s
  }

  function PadEnd(s: string, n: nat): string {
    if |s| >= n then s else s + Zeros(n - |s|)
  }

  function StripZeros(s: string): string {
    if s != [] && s[|s| - 1] == '0' then StripZeros(s[..|s| - 1]) else s
  }

  /** White space as the language defines it. */
  predicate IsSpace(c: char) {
    var n := c as int;
    || 0x9 <= n <= 0xD || n == 0x20 || n == 0xA0 || n == 0x1680 || 0x2000 <= n <= 0x200A
    || n == 0x2028 || n == 0x2029 || n == 0x202F || n == 0x205F || n == 0x3000 || n == 0xFEFF
  }

  function Trim(s: string): string {
    if s == [] then s
    else if IsSpace(s[0]) then Trim(s[1..])
    else if IsSpace(s[|s| - 1]) then Trim(s[..|s| - 1])
    else s
  }

  /** Division and remainder of big integers truncate toward zero. */
  function Quotient(a: int, scale: nat): int
    requires scale > 0
  {
    if a >= 0 then a / scale else -(-a / scale)
  }

  function Format(amount: int, decimals: int): Result<string, TextError> {
    if decimals < 0 || decimals > 20 then Err(DecimalsOutOfRange)
    else
      var scale := Pow10(decimals);
      var whole := Quotient(amount, scale);
      var fractional := amount - whole * scale;
      if fractional == 0 then Ok(SignedDecimal(whole))
      else
        var fracStr := StripZeros(PadStart(SignedDecimal(fractional), decimals));
        Ok(if |fracStr| > 0 then SignedDecimal(whole) + "." + fracStr else SignedDecimal(whole))
  }

  /** The position of the first dot, or the length. */
  function FirstDot(s: string): (i: nat)
    ensures i <= |s|
  {
    if s == [] || s[0] == '.' then 0 else 1 + FirstDot(s[1..])
  }

  function Parse(text: string, decimals: int): Result<nat, TextError> {
    if decimals < 0 || decimals > 20 then Err(DecimalsOutOfRange)
    else
      var trimmed := Trim(text);
      var dot := FirstDot(trimmed);
      var whole := trimmed[..dot];
      if whole == [] || !AllDigits(whole) then Err(NotANumber)
      else if dot < |trimmed| && (trimmed[dot + 1..] == [] || !AllDigits(trimmed[dot + 1..])) then Err(NotANumber)
      else
        var frac := if dot < |trimmed| then trimmed[dot + 1..] else [];
        if |frac| > decimals then Err(TooManyDecimals)
        else
          var combined := whole + PadEnd(frac, decimals);
          assert AllDigits(combined);
          Ok(Value(combined))
  }

  // ---------------------------------------------------------------- digit strings

  lemma {:induction false} DecimalSpec(n: nat)
    ensures Decimal(n) != [] && AllDigits(Decimal(n)) && Value(Decimal(n)) == n
  {
    if n >= 10 {
      DecimalSpec(n / 10);
      assert Decimal(n)[..|Decimal(n)| - 1] == Decimal(n / 10);
    } else {
      assert Decimal(n)[..0] == [];
    }
  }

  lemma TenTimes(x: int, p: int, y: int)
    ensures 10 * (x * p + y) == x * (10 * p) + 10 * y
  {
  }

  lemma {:induction false} ValueOfSum(a: string, b: string)
    requires AllDigits(a) && AllDigits(b)
    ensures AllDigits(a + b) && Value(a + b) == Value(a) * Pow10(|b|) + Value(b)
    decreases |b|
  {
    if b == [] {
      assert a + b == a;
    } else {
      var c := b[..|b| - 1];
      assert (a + b)[..|a + b| - 1] == a + c;
      ValueOfSum(a, c);
      TenTimes(Value(a), Pow10(|c|), Value(c));
    }
  }

  lemma {:induction false} ValueOfZeros(n: nat)
    ensures AllDigits(Zeros(n)) && Value(Zeros(n)) == 0
  {
    if n > 0 {
      assert Zeros(n)[..n - 1] == Zeros(n - 1);
      ValueOfZeros(n - 1);
    }
  }

  lemma {:induction false} DecimalLength(n: nat, d: nat)
    requires n < Pow10(d) && d > 0
    ensures |Decimal(n)| <= d
  {
    if n >= 10 {
      DecimalLength(n / 10, d - 1);
    }
  }

  lemma PadStartSpec(n: nat, d: nat)
    requires n < Pow10(d) && d > 0
    ensures var s := PadStart(Decimal(n), d); |s| == d && AllDigits(s) && Value(s) == n
  {
    hide Decimal, Value, Pow10, Zeros;
    DecimalSpec(n);
    DecimalLength(n, d);
    PadDigits(Decimal(n), d);
  }

  /** Zeros in front change neither the digits nor the value. */
  lemma PadDigits(s: string, d: nat)
    requires AllDigits(s) && |s| <= d
    ensures |PadStart(s, d)| == d && AllDigits(PadStart(s, d)) && Value(PadStart(s, d)) == Value(s)
  {
    hide Value, Pow10;
    ValueOfZeros(d - |s|);
    ValueOfSum(Zeros(d - |s|), s);
  }

  /** Padding undoes the stripping. */
  lemma {:induction false} StripPad(s: string)
    ensures |StripZeros(s)| <= |s| && PadEnd(StripZeros(s), |s|) == s
    ensures StripZeros(s) == s[..|StripZeros(s)|]
  {
    if s != [] && s[|s| - 1] == '0' {
      var t := s[..|s| - 1];
      StripPad(t);
      var k := |s| - |StripZeros(t)|;
      assert s == t + "0";
      assert Zeros(k) == Zeros(k - 1) + "0";
    }
  }

  lemma {:induction false} FirstDotOf(a: string, b: string)
    requires forall i :: 0 <= i < |a| ==> a[i] != '.'
    ensures FirstDot(a) == |a| && FirstDot(a + "." + b) == |a|
  {
    if a != [] {
      FirstDotOf(a[1..], b);
      assert (a + "." + b)[1..] == a[1..] + "." + b;
    }
  }

  lemma TrimNothing(s: string)
    requires s != [] && !IsSpace(s[0]) && !IsSpace(s[|s| - 1])
    ensures Trim(s) == s
  {
  }

  // ---------------------------------------------------------------- the round trip

  /** Text without a fraction. */
  lemma ParseWhole(whole: nat, decimals: nat)
    requires decimals <= 20
    ensures Parse(Decimal(whole), decimals) == Ok(whole * Pow10(decimals))
  {
    var s := Decimal(whole);
    DecimalSpec(whole);
    TrimNothing(s);
    FirstDotOf(s, []);
    assert s[..|s|] == s;
    ValueOfZeros(decimals);
    ValueOfSum(s, Zeros(decimals));
    assert PadEnd([], decimals) == Zeros(decimals);
  }

  /** How text with a dot is cut. */
  lemma CutAtDot(w: string, f: string)
    requires w != [] && f != [] && !IsSpace(w[0]) && !IsSpace(f[|f| - 1]) && forall i :: 0 <= i < |w| ==> w[i] != '.'
    ensures var s := w + "." + f;
            Trim(s) == s && FirstDot(s) == |w| < |s| && s[..|w|] == w && s[|w| + 1..] == f
  {
    TrimNothing(w + "." + f);
    FirstDotOf(w, f);
  }

  /** Text with a fraction of at most the given number of digits. */
  lemma ParseFraction(whole: nat, frac: string, decimals: nat)
    requires decimals <= 20 && AllDigits(frac) && 0 < |frac| <= decimals
    ensures AllDigits(PadEnd(frac, decimals))
    ensures Parse(Decimal(whole) + "." + frac, decimals) == Ok(whole * Pow10(decimals) + Value(PadEnd(frac, decimals)))
  {
    hide Trim, FirstDot, Decimal, Value, Pow10;
    DecimalSpec(whole);
    CutAtDot(Decimal(whole), frac);
    ValueOfSum(Decimal(whole), PadEnd(frac, decimals));
  }

  lemma NonZeroDigits(s: string)
    requires AllDigits(s) && Value(s) > 0
    ensures StripZeros(s) != []
  {
    StripPad(s);
    ValueOfZeros(|s|);
    assert PadEnd([], |s|) == Zeros(|s|);
  }

  /** Text with a sign is not read. */
  lemma SignUnreadable(w: string, f: string, decimals: nat)
    requires w != [] && f != [] && !IsSpace(w[0]) && !IsSpace(f[|f| - 1]) && forall i :: 0 <= i < |w| ==> w[i] != '.'
    requires !AllDigits(f)
    ensures Parse(w + "." + f, decimals).Err?
  {
    hide Trim, FirstDot, Value;
    CutAtDot(w, f);
  }

  lemma MinusFraction(n: nat, decimals: nat)
    ensures var f := StripZeros(PadStart("-" + Decimal(n), decimals));
            f != [] && !AllDigits(f) && !IsSpace(f[|f| - 1])
  {
    hide Decimal;
    DecimalSpec(n);
    var text := "-" + Decimal(n);
    var padded := PadStart(text, decimals);
    var m := |padded| - |text|;
    assert padded[m] == '-';
    StripPad(padded);
    KeepsMinus(padded, m);
    var f := StripZeros(padded);
    assert f[m] == '-';
    assert f[|f| - 1] == padded[|f| - 1];
  }

  lemma SignedShape(k: int)
    ensures var w := SignedDecimal(k); w != [] && !IsSpace(w[0]) && forall i :: 0 <= i < |w| ==> w[i] != '.'
    ensures k < 0 ==> SignedDecimal(k)[0] == '-'
  {
    hide Decimal, Value;
    if k < 0 {
      DecimalSpec(-k);
    } else {
      DecimalSpec(k);
    }
  }

  /** A minus sign survives formatting, and makes the text unreadable. */
  lemma NegativeUnreadable(amount: int, decimals: nat)
    requires amount < 0 && decimals <= 20
    ensures Parse(Format(amount, decimals).value, decimals).Err?
  {
    hide Decimal, StripZeros, PadStart, Trim, FirstDot, Value;
    var scale := Pow10(decimals);
    var whole := Quotient(amount, scale);
    var fractional := amount - whole * scale;
    NegativeParts(amount, scale);
    SignedShape(whole);
    if fractional == 0 {
      MinusUnreadable(-whole, decimals);
    } else {
      MinusFraction(-fractional, decimals);
      SignUnreadable(SignedDecimal(whole), StripZeros(PadStart("-" + Decimal(-fractional), decimals)), decimals);
    }
  }

  lemma MinusUnreadable(n: nat, decimals: nat)
    ensures Parse("-" + Decimal(n), decimals).Err?
  {
    hide Value;
    DecimalSpec(n);
    var w := "-" + Decimal(n);
    TrimNothing(w);
    FirstDotOf(w, []);
    assert w[..|w|] == w && w[0] == '-';
  }

  lemma {:induction false} KeepsMinus(s: string, m: nat)
    requires m < |s| && s[m] == '-'
    ensures m < |StripZeros(s)|
  {
    if s[|s| - 1] == '0' {
      KeepsMinus(s[..|s| - 1], m);
    }
  }

  lemma NegativeParts(a: int, scale: nat)
    requires a < 0 && scale > 0
    ensures var w := Quotient(a, scale);
            w <= 0 && w * scale - a < scale && a - w * scale <= 0 && (a - w * scale == 0 ==> w < 0)
  {
    assert -a == scale * (-a / scale) + -a % scale;
  }

  lemma PositiveParts(a: nat, scale: nat)
    requires scale > 0
    ensures var w := Quotient(a, scale); w >= 0 && 0 <= a - w * scale < scale
  {
    assert a == scale * (a / scale) + a % scale;
  }

  lemma NonNegativeReadable(amount: nat, decimals: nat)
    requires decimals <= 20
    ensures Format(amount, decimals).Ok? && Parse(Format(amount, decimals).value, decimals) == Ok(amount)
  {
    hide Decimal, StripZeros, PadStart, Value, Parse, Pow10, AllDigits;
    var scale := Pow10(decimals);
    var whole := Quotient(amount, scale);
    var fractional := amount - whole * scale;
    PositiveParts(amount, scale);
    if fractional == 0 {
      ParseWhole(whole, decimals);
    } else {
      PositiveDecimals(fractional, decimals);
      PadStartSpec(fractional, decimals);
      StripPad(PadStart(Decimal(fractional), decimals));
      NonZeroDigits(PadStart(Decimal(fractional), decimals));
      StripDigits(PadStart(Decimal(fractional), decimals));
      ParseFraction(whole, StripZeros(PadStart(Decimal(fractional), decimals)), decimals);
    }
  }

  lemma PositiveDecimals(n: nat, d: nat)
    requires 0 < n < Pow10(d)
    ensures d > 0
  {
  }

  lemma StripDigits(s: string)
    requires AllDigits(s)
    ensures AllDigits(StripZeros(s))
  {
    StripPad(s);
  }

  /** Formatted amounts parse back to themselves exactly when they are not negative. */
  lemma FormatParse(amount: int, decimals: int)
    ensures Format(amount, decimals).Ok? <==> 0 <= decimals <= 20
    ensures 0 <= decimals <= 20 ==>
              (Parse(Format(amount, decimals).value, decimals) == Ok(amount) <==> amount >= 0)
  {
    hide Parse, Decimal, StripZeros, PadStart;
    if 0 <= decimals <= 20 {
      if amount < 0 {
        NegativeUnreadable(amount, decimals);
      } else {
        NonNegativeReadable(amount, decimals);
      }
    }
  }
}
