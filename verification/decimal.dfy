/**
 * Decimal integers as `snprintf("%d")` writes them and, for unsigned digit
 * runs, as `sscanf("%d")` reads them.
 */
module Decimal {
  import opened Bytes
  import opened Wrappers

  const Minus: Byte := '-' as int

  predicate AllDigits(s: seq<Byte>)
  {
    forall i :: 0 <= i < |s| ==> IsDigit(s[i])
  }

  function DigitChar(d: int): Byte
    requires 0 <= d < 10
  {
    Zero + d
  }

  /** The decimal text of n, most significant digit first, with no leading zero. */
  function Digits(n: nat): (r: seq<Byte>)
    ensures |r| >= 1 && AllDigits(r)
    ensures r[0] == Zero <==> n == 0
    decreases n
  {
    if n < 10 then [DigitChar(n)] else Digits(n / 10) + [DigitChar(n % 10)]
  }

  /** `%d` of a C int: a minus sign for negative values, then the digits. */
  function FormatInt(n: int): (r: seq<Byte>)
    ensures |r| >= 1
    ensures n >= 0 ==> AllDigits(r)
    ensures n < 0 ==> |r| >= 2 && r[0] == Minus && AllDigits(r[1..])
  {
    if n < 0 then [Minus] + Digits(-n) else Digits(n)
  }

  /** The length of the run of decimal digits at the start of s. */
  function DigitRun(s: seq<Byte>): (k: nat)
    ensures k <= |s|
    ensures AllDigits(s[..k])
    ensures k < |s| ==> !IsDigit(s[k])
  {
    if s == [] || !IsDigit(s[0]) then 0 else 1 + DigitRun(s[1..])
  }

  /** 10 to the power k. */
  function Pow10(k: nat): (r: nat)
    ensures r >= 1
  {
    if k == 0 then 1 else 10 * Pow10(k - 1)
  }

  /** The number a run of decimal digits denotes; k digits denote less than 10^k. */
  function ValueOf(d: seq<Byte>): (r: nat)
    requires AllDigits(d)
    ensures r < Pow10(|d|)
  {
    if d == [] then 0 else 10 * ValueOf(d[..|d| - 1]) + (d[|d| - 1] - Zero)
  }

  /**
   * `%d` restricted to unsigned decimal digits: the value of the digit run
   * at the start of s and its length, or None when s does not start with
   * a digit.
   */
  function ScanNat(s: seq<Byte>): (r: Option<(nat, nat)>)
    ensures r.None? <==> (s == [] || !IsDigit(s[0]))
    ensures r.Some? ==> 1 <= r.value.1 <= |s| && AllDigits(s[..r.value.1])
    ensures r.Some? ==> r.value.1 == |s| || !IsDigit(s[r.value.1])
  {
    var k := DigitRun(s);
    if k == 0 then None else Some((ValueOf(s[..k]), k))
  }

  /** Reading back the digits of n gives n. */
  lemma {:induction false} ValueOfDigits(n: nat)
    ensures ValueOf(Digits(n)) == n
    decreases n
  {
    if n >= 10 {
      ValueOfDigits(n / 10);
      var d := Digits(n);
      assert d[..|d| - 1] == Digits(n / 10);
    }
  }

  /** The text `%d` writes for n stands for n: its digits, after the sign when n is negative, denote |n|. */
  lemma FormatIntValue(n: int)
    ensures n >= 0 ==> ValueOf(FormatInt(n)) == n
    ensures n < 0 ==> ValueOf(FormatInt(n)[1..]) == -n
  {
    if n < 0 {
      var d := Digits(-n);
      assert FormatInt(n) == [Minus] + d;
      assert ([Minus] + d)[1..] == d;
      ValueOfDigits(-n);
    } else {
      assert FormatInt(n) == Digits(n);
      ValueOfDigits(n);
    }
  }

  /** A digit run followed by a non-digit is read up to its end. */
  lemma {:induction false} DigitRunOf(d: seq<Byte>, rest: seq<Byte>)
    requires AllDigits(d)
    requires rest == [] || !IsDigit(rest[0])
    ensures DigitRun(d + rest) == |d|
    decreases |d|
  {
    if d != [] {
      assert (d + rest)[1..] == d[1..] + rest;
      DigitRunOf(d[1..], rest);
    }
  }

  /** Scanning what `%d` printed for a natural number n gives back n. */
  lemma ScanDigits(n: nat, rest: seq<Byte>)
    requires rest == [] || !IsDigit(rest[0])
    ensures ScanNat(Digits(n) + rest) == Some((n, |Digits(n)|))
  {
    var d := Digits(n);
    DigitRunOf(d, rest);
    assert (d + rest)[..|d|] == d;
    ValueOfDigits(n);
  }
}
