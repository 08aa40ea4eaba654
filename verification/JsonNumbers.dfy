/** Number literals by the grammar of section 6 of RFC 8259, and the proof that the scanner takes
    exactly them. */
module JsonNumbers {
  import opened JsonText
  import opened Decimal

  /** An optional minus sign and digits without a needless zero in front. */
  predicate IsInteger(s: string) {
    var d := if s != "" && s[0] == '-' then s[1..] else s;
    d != "" && AllDigits(d) && (d[0] == '0' ==> d == "0")
  }

  /** Nothing, or a point and digits. */
  predicate IsFraction(s: string) {
    s == "" || (|s| > 1 && s[0] == '.' && AllDigits(s[1..]))
  }

  /** Nothing, or an e of either case, an optional sign and digits. */
  predicate IsExponent(s: string) {
    s == "" || (|s| > 1 && (s[0] == 'e' || s[0] == 'E') && AllDigits(ExponentDigits(s)) && ExponentDigits(s) != "")
  }

  function ExponentDigits(s: string): (d: string)
    requires |s| > 1
  {
    if s[1] == '+' || s[1] == '-' then s[2..] else s[1..]
  }

  /** Digits without a needless zero in front are printed by their value. */
  lemma {:induction false} DigitsArePrinted(d: string)
    requires d != "" && AllDigits(d) && (d[0] == '0' ==> d == "0")
    ensures PrintNat(NatValue(d)) == d && (NatValue(d) == 0 ==> d == "0")
  {
    var init, last := d[..|d| - 1], d[|d| - 1];
    if |d| == 1 {
      assert init == "" && d == [last];
      OneDigit(last);
    } else {
      assert init[0] == d[0];
      DigitsArePrinted(init);
      OneDigit(last);
      assert d == init + [last];
    }
  }

  lemma OneDigit(c: char)
    requires IsDigit(c)
    ensures 0 <= (c - '0') as int < 10 && Digit((c - '0') as int) == c
  {
  }

  /** Every integer literal but "-0" is the decimal text of an integer. */
  lemma IntegerIsPrinted(s: string) returns (i: int)
    requires IsInteger(s) && s != "-0"
    ensures s == PrintInt(i)
  {
    if s[0] == '-' {
      DigitsArePrinted(s[1..]);
      i := -(NatValue(s[1..]) as int);
      assert s == "-" + s[1..];
    } else {
      DigitsArePrinted(s);
      i := NatValue(s);
    }
  }

  predicate IsNumeralOf(s: string, i: string, f: string, e: string) {
    s == i + (f + e) && IsInteger(i) && IsFraction(f) && IsExponent(e)
  }

  ghost predicate IsNumeral(s: string) {
    exists i, f, e :: IsNumeralOf(s, i, f, e)
  }

  // ---------------------------------------------------------------- numerals are scanned

  predicate StopsDigits(rest: string) {
    rest == "" || !IsDigit(rest[0])
  }

  lemma {:induction false} DigitsThen(d: string, rest: string)
    requires AllDigits(d) && StopsDigits(rest)
    ensures Digits(d + rest) == |d|
  {
    if d == "" {
      assert d + rest == rest;
    } else {
      assert (d + rest)[1..] == d[1..] + rest;
      DigitsThen(d[1..], rest);
    }
  }

  lemma IntegerIsScanned(i: string, rest: string)
    requires IsInteger(i) && StopsDigits(rest)
    ensures IntPart(i + rest) == |i|
  {
    var sign := if i[0] == '-' then 1 else 0;
    var d := i[sign..];
    DropLocal(i, rest, sign);
    DigitsThen(d, rest);
    assert (i + rest)[0] == i[0] && (i + rest)[sign] == d[0];
  }

  lemma FractionIsScanned(f: string, rest: string)
    requires IsFraction(f) && StopsDigits(rest) && (rest == "" || rest[0] != '.')
    ensures FractionPart(f + rest) == |f|
  {
    if f == "" {
      assert f + rest == rest;
    } else {
      DropLocal(f, rest, 1);
      DigitsThen(f[1..], rest);
    }
  }

  lemma ExponentIsScanned(e: string)
    requires IsExponent(e)
    ensures ExponentPart(e) == |e|
  {
    if e != "" {
      var d := ExponentDigits(e);
      AllDigitsScanned(d);
      assert IsDigit(d[0]);
    }
  }

  lemma RealIsScanned(f: string, e: string)
    requires IsFraction(f) && IsExponent(e)
    ensures RealPart(f + e) == |f| + |e| && StopsDigits(f + e)
  {
    FractionIsScanned(f, e);
    ExponentIsScanned(e);
    assert (f + e)[|f|..] == e;
  }

  lemma NumeralIsScanned(s: string, i: string, f: string, e: string)
    requires IsNumeralOf(s, i, f, e)
    ensures IsNumber(s)
  {
    RealIsScanned(f, e);
    IntegerIsScanned(i, f + e);
    assert s[|i|..] == f + e;
  }

  // ---------------------------------------------------------------- what is scanned is a numeral

  lemma ScannedInteger(s: string)
    requires IntPart(s) >= 0
    ensures IsInteger(s[..IntPart(s)])
  {
    var n := IntPart(s);
    var sign := if s[0] == '-' then 1 else 0;
    var d := s[..n][sign..];
    assert d == s[sign..][..n - sign];
    if s[sign] != '0' {
      assert d == s[sign..][..Digits(s[sign..])];
    }
  }

  lemma ScannedFraction(s: string)
    requires FractionPart(s) >= 0
    ensures IsFraction(s[..FractionPart(s)])
  {
    var n := FractionPart(s);
    if n > 0 {
      assert s[..n][1..] == s[1..][..n - 1];
    }
  }

  lemma ScannedExponent(s: string)
    requires ExponentPart(s) == |s|
    ensures IsExponent(s)
  {
    if s != "" {
      var d := ExponentDigits(s);
      var sign := if |s| > 1 && (s[1] == '+' || s[1] == '-') then 1 else 0;
      assert d == s[1 + sign..] == d[..Digits(d)];
    }
  }

  lemma ScannedReal(t: string) returns (f: string, e: string)
    requires RealPart(t) == |t|
    ensures t == f + e && IsFraction(f) && IsExponent(e)
  {
    f, e := t[..FractionPart(t)], t[FractionPart(t)..];
    ScannedFraction(t);
    ScannedExponent(e);
  }

  lemma NumeralOfParts(i: string, f: string, e: string)
    requires IsInteger(i) && IsFraction(f) && IsExponent(e)
    ensures IsNumeral(i + (f + e))
  {
    assert IsNumeralOf(i + (f + e), i, f, e);
  }

  lemma ScannedParts(s: string)
    requires IsNumber(s)
    ensures 0 <= IntPart(s) && RealPart(s[IntPart(s)..]) == |s[IntPart(s)..]|
    ensures s == s[..IntPart(s)] + s[IntPart(s)..]
  {
  }

  lemma ScannedIsNumeral(s: string)
    requires IsNumber(s)
    ensures IsNumeral(s)
  {
    ScannedParts(s);
    var f, e := ScannedReal(s[IntPart(s)..]);
    ScannedInteger(s);
    NumeralOfParts(s[..IntPart(s)], f, e);
  }

  /** The scanner takes a text whole exactly when the grammar has it. */
  lemma NumberExactly(s: string)
    ensures IsNumber(s) <==> IsNumeral(s)
  {
    if IsNumber(s) {
      ScannedIsNumeral(s);
    }
    if i, f, e :| IsNumeralOf(s, i, f, e) {
      NumeralIsScanned(s, i, f, e);
    }
  }
}
