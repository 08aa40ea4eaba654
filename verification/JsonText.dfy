/** The parts JSON text is made of, RFC 8259, as encoding/json writes and scans them: white space,
    strings with their escapes, and number literals. */
module JsonText {
  import opened Decimal
  import opened Hex

  /** What a scan of some text gives: a value and the text after it, or a syntax error. */
  datatype Scan<+T> = Fail | Got(value: T, rest: string)

  predicate IsSpace(c: char) {
    c == ' ' || c == '\t' || c == '\r' || c == '\n'
  }

  function SkipSpace(s: string): (r: string)
    ensures |r| <= |s|
    ensures r == "" || !IsSpace(r[0])
    ensures (s == "" || !IsSpace(s[0])) ==> r == s
  {
    if s != "" && IsSpace(s[0]) then SkipSpace(s[1..]) else s
  }

  // ---------------------------------------------------------------- strings

  /** The `\u` form of a code unit. */
  function UnicodeEscape(n: nat): (s: string)
    requires n < 0x10000
    ensures |s| == 6
  {
    ['\\', 'u', HexDigit(n / 4096), HexDigit(n / 256 % 16), HexDigit(n / 16 % 16), HexDigit(n % 16)]
  }

  /** Characters `json.Marshal` does not write as they are: beside what RFC 8259 asks for, the ones
      that mean something in HTML or end a line in JavaScript. */
  predicate MustEscape(c: char) {
    c < ' ' || c == '"' || c == '\\' || c == '<' || c == '>' || c == '&' || c as int == 0x2028 || c as int == 0x2029
  }

  function EscapeChar(c: char): (s: string)
    ensures s != ""
  {
    if !MustEscape(c) then [c]
    else if c == '"' || c == '\\' then ['\\', c]
    else if c as int == 8 then "\\b"
    else if c as int == 12 then "\\f"
    else if c == '\n' then "\\n"
    else if c == '\r' then "\\r"
    else if c == '\t' then "\\t"
    else UnicodeEscape(c as int)
  }

  function Escape(s: string): (r: string) {
    if s == "" then "" else EscapeChar(s[0]) + Escape(s[1..])
  }

  /** A string as `json.Marshal` writes it. */
  function Quote(s: string): (r: string)
    ensures |r| >= 2 && r[0] == '"'
  {
    "\"" + Escape(s) + "\""
  }

  predicate IsUnicodeEscape(s: string) {
    |s| >= 6 && s[0] == '\\' && s[1] == 'u' && IsHex(s[2]) && IsHex(s[3]) && IsHex(s[4]) && IsHex(s[5])
  }

  function CodeUnit(s: string): (n: nat)
    requires IsUnicodeEscape(s)
    ensures n < 0x10000
  {
    HexValue(s[2]) * 4096 + HexValue(s[3]) * 256 + HexValue(s[4]) * 16 + HexValue(s[5])
  }

  predicate IsHighSurrogate(n: nat) { 0xD800 <= n < 0xDC00 }
  predicate IsLowSurrogate(n: nat) { 0xDC00 <= n < 0xE000 }

  const REPLACEMENT := 0xFFFD as char

  /** The character an escape at the head of s stands for. A surrogate pair is one character, a
      surrogate without its other half the replacement character. */
  function ScanEscape(s: string): (r: Scan<char>)
    requires s != "" && s[0] == '\\'
    ensures r.Got? ==> |r.rest| < |s|
  {
    if |s| < 2 then Fail
    else if s[1] == '"' || s[1] == '\\' || s[1] == '/' then Got(s[1], s[2..])
    else if s[1] == 'b' then Got(8 as char, s[2..])
    else if s[1] == 'f' then Got(12 as char, s[2..])
    else if s[1] == 'n' then Got('\n', s[2..])
    else if s[1] == 'r' then Got('\r', s[2..])
    else if s[1] == 't' then Got('\t', s[2..])
    else if !IsUnicodeEscape(s) then Fail
    else
      var n := CodeUnit(s);
      if IsHighSurrogate(n) && IsUnicodeEscape(s[6..]) && IsLowSurrogate(CodeUnit(s[6..])) then
        Got((0x10000 + (n - 0xD800) * 0x400 + (CodeUnit(s[6..]) - 0xDC00)) as char, s[12..])
      else if IsHighSurrogate(n) || IsLowSurrogate(n) then Got(REPLACEMENT, s[6..])
      else Got(n as char, s[6..])
  }

  /** The string whose opening quote has just been read. */
  function ScanString(s: string): (r: Scan<string>)
    ensures r.Got? ==> |r.rest| < |s|
    decreases |s|
  {
    if s == "" || s[0] < ' ' then Fail
    else if s[0] == '"' then Got("", s[1..])
    else
      var first := if s[0] == '\\' then ScanEscape(s) else Got(s[0], s[1..]);
      match first
      case Fail => Fail
      case Got(c, rest) =>
        match ScanString(rest)
        case Fail => Fail
        case Got(text, after) => Got([c] + text, after)
  }

  lemma CodeUnitRoundTrip(n: nat, rest: string)
    requires n < 0x10000
    ensures IsUnicodeEscape(UnicodeEscape(n) + rest) && CodeUnit(UnicodeEscape(n) + rest) == n
  {
    HexRoundTrip(n / 4096);
    HexRoundTrip(n / 256 % 16);
    HexRoundTrip(n / 16 % 16);
    HexRoundTrip(n % 16);
    assert n / 4096 == n / 16 / 16 / 16 && n / 256 == n / 16 / 16;
  }

  /** A character that is written as it is: no control character, quote or backslash, none that HTML
      reads, and none of the two that end a line in JavaScript. */
  predicate StandsAlone(c: char) {
    c as int >= 0x20 && c !in "\"\\<>&" && c as int != 0x2028 && c as int != 0x2029
  }

  /** Every quote and every backslash in t belongs to an escape, and t holds no control character and
      nothing HTML reads. */
  predicate OnlyEscaped(t: string)
    decreases |t|
  {
    if t == "" then true
    else if t[0] == '\\' then |t| > 1 && t[1] as int >= 0x20 && OnlyEscaped(t[2..])
    else StandsAlone(t[0]) && OnlyEscaped(t[1..])
  }

  lemma StandsAloneOrMustEscape(c: char)
    ensures StandsAlone(c) <==> !MustEscape(c)
  {
    var five := "\"\\<>&";
    assert five[0] == '"' && five[1] == '\\' && five[2] == '<' && five[3] == '>' && five[4] == '&';
  }

  /** Which escape a character is written with, and that no other character is. */
  lemma EscapesNamed(c: char)
    ensures StandsAlone(c) ==> EscapeChar(c) == [c]
    ensures c == '"' ==> EscapeChar(c) == "\\\""
    ensures c == '\\' ==> EscapeChar(c) == "\\\\"
    ensures c as int == 8 ==> EscapeChar(c) == "\\b"
    ensures c as int == 9 ==> EscapeChar(c) == "\\t"
    ensures c as int == 10 ==> EscapeChar(c) == "\\n"
    ensures c as int == 12 ==> EscapeChar(c) == "\\f"
    ensures c as int == 13 ==> EscapeChar(c) == "\\r"
    ensures !StandsAlone(c) && c != '"' && c != '\\' && c as int !in {8, 9, 10, 12, 13} ==>
              c as int < 0x10000 && EscapeChar(c) == UnicodeEscape(c as int)
  {
    StandsAloneOrMustEscape(c);
  }

  lemma {:induction false} PlainInFront(p: string, t: string)
    requires OnlyEscaped(t) && forall i :: 0 <= i < |p| ==> StandsAlone(p[i])
    ensures OnlyEscaped(p + t)
  {
    if p == "" {
      assert p + t == t;
    } else {
      assert (p + t)[1..] == p[1..] + t;
      PlainInFront(p[1..], t);
    }
  }

  lemma UnicodeEscapeShape(n: nat)
    requires n < 0x10000
    ensures var p := UnicodeEscape(n); p[0] == '\\' && p[1] == 'u' && forall i :: 2 <= i < |p| ==> StandsAlone(p[i])
  {
    var p := UnicodeEscape(n);
    forall i | 2 <= i < |p|
      ensures StandsAlone(p[i])
    {
      StandsAloneOrMustEscape(p[i]);
    }
  }

  lemma EscapeShape(c: char)
    requires MustEscape(c)
    ensures var p := EscapeChar(c);
            |p| >= 2 && p[0] == '\\' && p[1] >= ' ' && forall i :: 0 <= i < |p[2..]| ==> StandsAlone(p[2..][i])
  {
    if |EscapeChar(c)| != 2 {
      UnicodeEscapeShape(c as int);
    }
  }

  lemma EscapeInFront(c: char, t: string)
    requires OnlyEscaped(t)
    ensures OnlyEscaped(EscapeChar(c) + t)
  {
    var p := EscapeChar(c);
    if MustEscape(c) {
      EscapeShape(c);
      PlainInFront(p[2..], t);
      assert (p + t)[2..] == p[2..] + t;
    } else {
      StandsAloneOrMustEscape(c);
      PlainInFront(p, t);
    }
  }

  /** What stands between the quotes holds no control character, nothing HTML reads, and no quote or
      backslash but in escapes. */
  lemma {:induction false} EscapeIsPlain(s: string)
    ensures OnlyEscaped(Escape(s))
  {
    if s != "" {
      EscapeIsPlain(s[1..]);
      EscapeInFront(s[0], Escape(s[1..]));
    }
  }

  // ---------------------------------------------------------------- numbers

  /** How many digits s starts with. */
  function Digits(s: string): (n: nat)
    ensures n <= |s|
    ensures AllDigits(s[..n])
    ensures n < |s| ==> !IsDigit(s[n])
  {
    if s != "" && IsDigit(s[0]) then 1 + Digits(s[1..]) else 0
  }

  /** The length of the integer part at the head of s: no leading zero but zero itself. -1: there is none. */
  function IntPart(s: string): (n: int)
    ensures -1 <= n <= |s|
  {
    var sign := if s != "" && s[0] == '-' then 1 else 0;
    if sign == |s| || !IsDigit(s[sign]) then -1
    else if s[sign] == '0' then sign + 1
    else sign + Digits(s[sign..])
  }

  /** The length of the fraction at the head of s, 0 when there is none, -1 when it has no digit. */
  function FractionPart(s: string): (n: int)
    ensures -1 <= n <= |s|
  {
    if s == "" || s[0] != '.' then 0
    else
      var d := Digits(s[1..]);
      if d == 0 then -1 else 1 + d
  }

  /** The same for the exponent. */
  function ExponentPart(s: string): (n: int)
    ensures -1 <= n <= |s|
  {
    if s == "" || (s[0] != 'e' && s[0] != 'E') then 0
    else
      var sign := if |s| > 1 && (s[1] == '+' || s[1] == '-') then 1 else 0;
      var d := Digits(s[1 + sign..]);
      if d == 0 then -1 else 1 + sign + d
  }

  /** Fraction and exponent together. */
  function RealPart(s: string): (n: int)
    ensures -1 <= n <= |s|
  {
    var f := FractionPart(s);
    if f < 0 then -1
    else
      var e := ExponentPart(s[f..]);
      if e < 0 then -1 else f + e
  }

  /** The length of the number literal at the head of s, -1 when there is none. */
  function NumberPart(s: string): (n: int)
    ensures -1 <= n <= |s|
    ensures n != 0
  {
    var i := IntPart(s);
    if i < 0 then -1
    else
      var r := RealPart(s[i..]);
      if r < 0 then -1 else i + r
  }

  /** The whole of s is one JSON number literal. */
  predicate IsNumber(s: string) {
    s != "" && NumberPart(s) == |s|
  }

  predicate IsNumberChar(c: char) {
    IsDigit(c) || c == '+' || c == '-' || c == '.' || c == 'e' || c == 'E'
  }

  /** Text that cannot be the continuation of a number literal. */
  predicate EndsNumber(rest: string) {
    rest == "" || !IsNumberChar(rest[0])
  }

  lemma {:induction false} DigitsLocal(s: string, rest: string)
    requires EndsNumber(rest)
    ensures Digits(s + rest) == Digits(s)
  {
    if s == "" {
      assert s + rest == rest;
    } else {
      assert (s + rest)[1..] == s[1..] + rest;
      DigitsLocal(s[1..], rest);
    }
  }

  lemma IntPartLocal(s: string, rest: string)
    requires EndsNumber(rest)
    ensures IntPart(s + rest) == IntPart(s)
  {
    var sign := if s != "" && s[0] == '-' then 1 else 0;
    if s == "" {
      assert s + rest == rest;
    } else {
      assert (s + rest)[sign..] == s[sign..] + rest;
      DigitsLocal(s[sign..], rest);
    }
  }

  lemma FractionPartLocal(s: string, rest: string)
    requires EndsNumber(rest)
    ensures FractionPart(s + rest) == FractionPart(s)
  {
    if s == "" {
      assert s + rest == rest;
    } else {
      assert (s + rest)[1..] == s[1..] + rest;
      DigitsLocal(s[1..], rest);
    }
  }

  lemma ExponentPartLocal(s: string, rest: string)
    requires EndsNumber(rest)
    ensures ExponentPart(s + rest) == ExponentPart(s)
  {
    if s == "" {
      assert s + rest == rest;
    } else {
      var sign := if |s| > 1 && (s[1] == '+' || s[1] == '-') then 1 else 0;
      assert (s + rest)[1 + sign..] == s[1 + sign..] + rest;
      DigitsLocal(s[1 + sign..], rest);
    }
  }

  lemma RealPartLocal(s: string, rest: string)
    requires EndsNumber(rest)
    ensures RealPart(s + rest) == RealPart(s)
  {
    FractionPartLocal(s, rest);
    var f := FractionPart(s);
    if f >= 0 {
      assert (s + rest)[f..] == s[f..] + rest;
      ExponentPartLocal(s[f..], rest);
    }
  }

  /** A literal is scanned the same whatever non-number text follows it. */
  lemma NumberPartLocal(s: string, rest: string)
    requires EndsNumber(rest)
    ensures NumberPart(s + rest) == NumberPart(s)
  {
    IntPartLocal(s, rest);
    var i := IntPart(s);
    if i >= 0 {
      DropLocal(s, rest, i);
      RealPartLocal(s[i..], rest);
    }
  }

  lemma DropLocal(s: string, rest: string, i: nat)
    requires i <= |s|
    ensures (s + rest)[i..] == s[i..] + rest
  {
  }

  /** `strings.ContainsAny`. */
  predicate ContainsAny(s: string, chars: string) {
    exists i :: 0 <= i < |s| && s[i] in chars
  }

  predicate NumberCharsUpTo(s: string, n: int)
    requires n <= |s|
  {
    forall i :: 0 <= i < n ==> IsNumberChar(s[i])
  }

  lemma DigitChars(s: string, from: nat)
    requires from <= |s| && NumberCharsUpTo(s, from)
    ensures NumberCharsUpTo(s, from + Digits(s[from..]))
  {
    var d := s[from..];
    forall k | from <= k < from + Digits(d)
      ensures IsNumberChar(s[k])
    {
      assert s[k] == d[k - from] == d[..Digits(d)][k - from];
    }
  }

  lemma IntPartChars(s: string)
    ensures NumberCharsUpTo(s, IntPart(s))
  {
    var sign := if s != "" && s[0] == '-' then 1 else 0;
    DigitChars(s, sign);
  }

  lemma FractionPartChars(s: string)
    ensures NumberCharsUpTo(s, FractionPart(s))
  {
    if FractionPart(s) > 0 {
      DigitChars(s, 1);
    }
  }

  lemma ExponentPartChars(s: string)
    ensures NumberCharsUpTo(s, ExponentPart(s))
  {
    if ExponentPart(s) > 0 {
      var sign := if |s| > 1 && (s[1] == '+' || s[1] == '-') then 1 else 0;
      DigitChars(s, 1 + sign);
    }
  }

  lemma RealPartChars(s: string)
    ensures NumberCharsUpTo(s, RealPart(s))
  {
    FractionPartChars(s);
    var f := FractionPart(s);
    if f >= 0 {
      ExponentPartChars(s[f..]);
      assert forall k :: f <= k < |s| ==> s[k] == s[f..][k - f];
    }
  }

  /** A literal holds number characters only, so none of them is the n of an infinity. */
  lemma NumberChars(s: string)
    requires IsNumber(s)
    ensures NumberCharsUpTo(s, |s|)
  {
    IntPartChars(s);
    var i := IntPart(s);
    RealPartChars(s[i..]);
    assert forall k :: i <= k < |s| ==> s[k] == s[i..][k - i];
  }

  /** The decimal digits of an integer are a literal without fraction or exponent. */
  lemma PrintedIntIsNumber(i: int)
    ensures IsNumber(PrintInt(i)) && !ContainsAny(PrintInt(i), ".eE")
  {
    var s := PrintInt(i);
    var digits := PrintNat(if i < 0 then -i else i);
    var sign := if i < 0 then 1 else 0;
    assert s[sign..] == digits;
    AllDigitsScanned(digits);
    assert s[IntPart(s)..] == "";
  }

  lemma {:induction false} AllDigitsScanned(s: string)
    requires AllDigits(s)
    ensures Digits(s) == |s|
  {
    if s != "" {
      AllDigitsScanned(s[1..]);
    }
  }

  /** An integer literal stays a literal when ".0" is put behind it. */
  lemma PointZeroIsNumber(s: string)
    requires IsNumber(s) && !ContainsAny(s, ".eE")
    ensures IsNumber(s + ".0") && ContainsAny(s + ".0", ".eE")
  {
    var t := s + ".0";
    var i := IntPart(s);
    assert i == |s|;
    IntPartBeforePoint(s);
    assert t[i..] == ".0";
    assert Digits("0") == 1;
    assert ".0"[1..] == "0";
    assert t[i] == '.' && '.' in ".eE";
  }

  lemma {:induction false} DigitsBeforePoint(s: string)
    ensures Digits(s + ".0") == if Digits(s) == |s| then |s| else Digits(s)
  {
    if s == "" {
      assert s + ".0" == ".0";
    } else {
      assert (s + ".0")[1..] == s[1..] + ".0";
      DigitsBeforePoint(s[1..]);
    }
  }

  lemma IntPartBeforePoint(s: string)
    requires IntPart(s) == |s|
    ensures IntPart(s + ".0") == |s|
  {
    var sign := if s[0] == '-' then 1 else 0;
    assert (s + ".0")[sign..] == s[sign..] + ".0";
    DigitsBeforePoint(s[sign..]);
  }

  /** A literal begins with a digit or a minus sign. */
  lemma NumberStart(s: string)
    requires IsNumber(s)
    ensures IsDigit(s[0]) || s[0] == '-'
  {
  }
}
