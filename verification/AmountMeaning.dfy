/** What the text of an amount means: which texts are read, as which number, and how amounts are written. */
module AmountMeaning {
  import opened Wrappers
  import opened AmountText

  /** Digits, or digits, a dot and digits. */
  ghost predicate Written(t: string, w: string, f: string) {
    w != [] && AllDigits(w) && AllDigits(f) && t == if f == [] then w else w + "." + f
  }

  /** w.f in units of 10^-d. */
  ghost predicate Means(w: string, f: string, d: nat, n: int) {
    AllDigits(w) && AllDigits(f) && |f| <= d && n == Value(w) * Pow10(d) + Value(f) * Pow10(d - |f|)
  }

  lemma ValuePadded(w: string, f: string, d: nat)
    requires AllDigits(w) && AllDigits(f) && |f| <= d
    ensures AllDigits(w + PadEnd(f, d)) && Means(w, f, d, Value(w + PadEnd(f, d)))
  {
    ValueOfZeros(d - |f|);
    ValueOfSum(f, Zeros(d - |f|));
    assert f + Zeros(0) == f;
    ValueOfSum(w, PadEnd(f, d));
  }

  /** What Parse sees of a text cut at its first dot. */
  lemma CutWritten(t: string, w: string, f: string)
    requires Written(t, w, f)
    ensures FirstDot(t) == |w| && t[..|w|] == w && (f == [] <==> |w| == |t|) && (f != [] ==> t[|w| + 1..] == f)
  {
    FirstDotOf(w, f);
  }

  lemma {:induction false} DotThere(t: string)
    ensures FirstDot(t) < |t| ==> t[FirstDot(t)] == '.'
  {
    if t != [] && t[0] != '.' {
      DotThere(t[1..]);
    }
  }

  /** A text is read exactly if, without the white space around it, it is digits or digits, a dot and at most as many
      digits as there are decimals; and then as the number these digits mean. */
  lemma ParseExactly(text: string, decimals: int, n: nat)
    ensures Parse(text, decimals) == Ok(n)
       <==> 0 <= decimals <= 20
            && exists w: string, f: string :: Written(Trim(text), w, f) && Means(w, f, decimals, n)
  {
    hide Trim, Value, Pow10;
    var t := Trim(text);
    if 0 <= decimals <= 20 {
      forall w: string, f: string | Written(t, w, f) && |f| <= decimals
        ensures Parse(text, decimals).Ok? && Means(w, f, decimals, Parse(text, decimals).value)
      {
        CutWritten(t, w, f);
        ValuePadded(w, f, decimals);
      }
      if Parse(text, decimals) == Ok(n) {
        DotThere(t);
        var dot := FirstDot(t);
        var w, f := t[..dot], if dot < |t| then t[dot + 1..] else [];
        assert Written(t, w, f);
        assert Means(w, f, decimals, n);
      }
    }
  }

  ghost predicate Spaces(s: string) {
    forall i :: 0 <= i < |s| ==> IsSpace(s[i])
  }

  /** Trimming takes away white space at both ends, and all of it. */
  lemma {:induction false} TrimSpec(s: string) returns (front: string, back: string)
    ensures s == front + Trim(s) + back && Spaces(front) && Spaces(back)
    ensures Trim(s) != [] ==> !IsSpace(Trim(s)[0]) && !IsSpace(Trim(s)[|Trim(s)| - 1])
    decreases |s|
  {
    front, back := [], [];
    if s == [] {
    } else if IsSpace(s[0]) {
      front, back := TrimSpec(s[1..]);
      front := [s[0]] + front;
    } else if IsSpace(s[|s| - 1]) {
      front, back := TrimSpec(s[..|s| - 1]);
      back := back + [s[|s| - 1]];
    }
  }

  /** No digit is written that could be left out. */
  ghost predicate Shortest(w: string, f: string) {
    w != [] && (|w| > 1 ==> w[0] != '0') && (f != [] ==> f[|f| - 1] != '0')
  }

  lemma {:induction false} DecimalShortest(n: nat)
    ensures Decimal(n) != [] && (n > 0 ==> Decimal(n)[0] != '0') && (n == 0 ==> Decimal(n) == "0")
  {
    if n >= 10 {
      DecimalShortest(n / 10);
      assert Decimal(n)[0] == Decimal(n / 10)[0];
    }
  }

  lemma {:induction false} StripLast(s: string)
    ensures StripZeros(s) != [] ==> StripZeros(s)[|StripZeros(s)| - 1] != '0'
  {
    if s != [] && s[|s| - 1] == '0' {
      StripLast(s[..|s| - 1]);
    }
  }

  /** Amounts that are not negative are written as the digits that mean them, none of which could be left out. */
  lemma FormatExactly(amount: nat, decimals: nat) returns (w: string, f: string)
    requires decimals <= 20
    ensures Format(amount, decimals).Ok? && Written(Format(amount, decimals).value, w, f)
    ensures Means(w, f, decimals, amount) && Shortest(w, f)
  {
    hide Decimal, StripZeros, PadStart, Value, Pow10;
    var scale := Pow10(decimals);
    var whole := Quotient(amount, scale);
    var fractional := amount - whole * scale;
    PositiveParts(amount, scale);
    DecimalSpec(whole);
    DecimalShortest(whole);
    w, f := Decimal(whole), [];
    if fractional == 0 {
      NoFraction(decimals);
    } else {
      PositiveDecimals(fractional, decimals);
      PadStartSpec(fractional, decimals);
      var padded := PadStart(Decimal(fractional), decimals);
      StripPad(padded);
      NonZeroDigits(padded);
      StripDigits(padded);
      StripLast(padded);
      f := StripZeros(padded);
      FractionValue(f, decimals);
    }
  }

  lemma NoFraction(d: nat)
    ensures Value([]) * Pow10(d) == 0
  {
  }

  lemma FractionValue(f: string, d: nat)
    requires AllDigits(f) && |f| <= d
    ensures AllDigits(PadEnd(f, d)) && Value(PadEnd(f, d)) == Value(f) * Pow10(d - |f|)
  {
    ValueOfZeros(d - |f|);
    ValueOfSum(f, Zeros(d - |f|));
    assert f + Zeros(0) == f;
  }
}
