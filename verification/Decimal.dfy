/** Integers in base ten, as strconv writes and reads them. */
module Decimal {
  import opened Wrappers

  const MIN_INT64 := -0x8000_0000_0000_0000
  const MAX_INT64 := 0x7FFF_FFFF_FFFF_FFFF

  predicate IsInt64(i: int) {
    MIN_INT64 <= i <= MAX_INT64
  }

  predicate IsDigit(c: char) {
    '0' <= c <= '9'
  }

  predicate AllDigits(s: string) {
    forall i :: 0 <= i < |s| ==> IsDigit(s[i])
  }

  function Digit(d: nat): (c: char)
    requires d < 10
    ensures IsDigit(c)
  {
    '0' + d as char
  }

  /** The digits of n, the first of them not a zero unless n is. */
  function PrintNat(n: nat): (s: string)
    ensures s != "" && AllDigits(s)
    ensures s[0] == '0' ==> s == "0"
    ensures s == "0" <==> n == 0
  {
    if n < 10 then [Digit(n)] else PrintNat(n / 10) + [Digit(n % 10)]
  }

  /** `strconv.FormatInt(i, 10)`. */
  function PrintInt(i: int): (s: string) {
    if i < 0 then "-" + PrintNat(-i) else PrintNat(i)
  }

  function NatValue(s: string): (n: nat)
    requires AllDigits(s)
  {
    if s == "" then 0 else 10 * NatValue(s[..|s| - 1]) + (s[|s| - 1] - '0') as int
  }

  /** The number a sign and digits name, of any size. */
  function IntValue(s: string): (r: Option<int>) {
    var digits := if s != "" && (s[0] == '-' || s[0] == '+') then s[1..] else s;
    if digits == "" || !AllDigits(digits) then None
    else
      var n: int := NatValue(digits);
      Some(if s[0] == '-' then -n else n)
  }

  /** `strconv.ParseInt(s, 10, 64)`: nothing outside int64. */
  function ParseInt(s: string): (r: Option<int>)
    ensures r.Some? ==> IsInt64(r.value)
  {
    match IntValue(s)
    case Some(i) => if IsInt64(i) then Some(i) else None
    case None => None
  }

  lemma {:induction false} NatRoundTrip(n: nat)
    ensures NatValue(PrintNat(n)) == n
  {
    if n >= 10 {
      NatRoundTrip(n / 10);
      var s := PrintNat(n);
      assert s[..|s| - 1] == PrintNat(n / 10);
    }
  }

  lemma SignedDigits(s: string)
    requires s != "" && AllDigits(s)
    ensures IntValue(s) == Some(NatValue(s) as int) && IntValue("-" + s) == Some(-(NatValue(s) as int))
  {
    assert IsDigit(s[0]);
    assert ("-" + s)[1..] == s;
  }

  lemma PrintedIntIsValued(i: int)
    ensures IntValue(PrintInt(i)) == Some(i)
  {
    var n: nat := if i < 0 then -i else i;
    NatRoundTrip(n);
    SignedDigits(PrintNat(n));
  }

  /** Printed decimal reads back exactly on all of int64, both ends included, and nothing printed
      from outside int64 is read at all. */
  lemma IntRoundTrip(i: int)
    ensures IsInt64(i) <==> -9223372036854775808 <= i <= 9223372036854775807
    ensures ParseInt(PrintInt(i)) == if IsInt64(i) then Some(i) else None
  {
    PrintedIntIsValued(i);
  }
}
