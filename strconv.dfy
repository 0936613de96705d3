/** Decimal rendering and parsing of 64-bit integers, as `strconv.Itoa` and
    `strconv.ParseInt(s, 10, 64)` do them on a 64-bit Go platform. */
module Strconv {
  import opened Bytes
  import opened Wrappers

  /** Go's `int64` (and `int` on a 64-bit platform). */
  type int64 = x: int | -0x8000_0000_0000_0000 <= x < 0x8000_0000_0000_0000

  const Zero: byte := 48
  const Plus: byte := 43
  const Minus: byte := 45

  predicate IsDigit(b: byte) { 48 <= b <= 57 }

  predicate AllDigits(d: seq<byte>) { forall i :: 0 <= i < |d| ==> IsDigit(d[i]) }

  /** The number a run of decimal digits denotes, most significant digit first. */
  function DigitsValue(d: seq<byte>): nat
    requires AllDigits(d)
  {
    if d == [] then 0 else DigitsValue(d[..|d| - 1]) * 10 + (d[|d| - 1] - Zero) as int
  }

  /** The decimal digits of n, most significant first. */
  function NatDigits(n: nat): (d: seq<byte>)
    ensures |d| >= 1
  {
    if n < 10 then [(48 + n) as byte] else NatDigits(n / 10) + [(48 + n % 10) as byte]
  }

  /** The digits of n are never empty, have no leading zero, are all decimal
      digits, and denote n. */
  lemma {:induction false} NatDigitsSpec(n: nat)
    ensures var d := NatDigits(n);
      && AllDigits(d) && (d[0] == Zero ==> n == 0) && DigitsValue(d) == n && LF !in d && CR !in d
  {
    if n >= 10 {
      NatDigitsSpec(n / 10);
      var d := NatDigits(n);
      assert d[..|d| - 1] == NatDigits(n / 10);
      assert forall i :: 0 <= i < |d| - 1 ==> d[i] == NatDigits(n / 10)[i];
    }
  }

  /** `strconv.Itoa`: a '-' for negative numbers, then the digits of the magnitude. */
  function Itoa(n: int): (r: seq<byte>)
    ensures |r| >= 1
  {
    if n < 0 then [Minus] + NatDigits(-n) else NatDigits(n)
  }

  /** Itoa starts with '-' exactly for negative numbers, is all digits
      otherwise, and never holds CR or LF. */
  lemma ItoaSpec(n: int)
    ensures var r := Itoa(n);
      && (r[0] == Minus <==> n < 0) && (n >= 0 ==> AllDigits(r)) && LF !in r && CR !in r
  {
    var m: int := if n < 0 then -n else n;
    NatDigitsSpec(m);
    if n < 0 {
      assert Itoa(n)[1..] == NatDigits(m);
    }
  }

  /** `strconv.ParseInt(s, 10, 64)`: an optional sign, then one or more decimal
      digits, and the value must fit in an int64. Go reports either a syntax or
      a range error; both are `None` here. */
  function ParseInt(s: seq<byte>): (r: Option<int64>)
    ensures r.Some? ==> |s| >= 1 && AllDigits(s[1..])
    ensures r.Some? ==> IsDigit(s[0]) || s[0] == Plus || s[0] == Minus
    ensures r.Some? ==> (r.value < 0 ==> s[0] == Minus)
  {
    if |s| == 0 then None
    else
      var digits := if s[0] == Plus || s[0] == Minus then s[1..] else s;
      if digits == [] || !AllDigits(digits) then None
      else
        var m: int := DigitsValue(digits);
        var n: int := if s[0] == Minus then -m else m;
        if -0x8000_0000_0000_0000 <= n < 0x8000_0000_0000_0000 then Some(n) else None
  }

  /** ParseInt undoes Itoa on every int64. */
  lemma ParseIntItoa(n: int64)
    ensures ParseInt(Itoa(n)) == Some(n)
  {
    var r := Itoa(n);
    if n < 0 {
      var magnitude: int := -(n as int);
      NatDigitsSpec(magnitude);
      var d := NatDigits(magnitude);
      assert r[1..] == d;
      assert DigitsValue(d) == magnitude;
    } else {
      NatDigitsSpec(n);
      var d := NatDigits(n);
      assert IsDigit(d[0]);
      assert DigitsValue(d) == n;
    }
  }

  /** A byte other than a digit anywhere after the first position makes ParseInt fail. */
  lemma ParseIntRejects(s: seq<byte>, i: nat)
    requires 1 <= i < |s| && !IsDigit(s[i])
    ensures ParseInt(s) == None
  {
  }
}
