/**
 * Decimal numerals as Python writes them: str() of an int and str.zfill().
 * ReadInt reads a numeral back, so that padding can be shown to keep the value.
 */
module Numerals {

  predicate IsDigit(c: char) {
    '0' <= c <= '9'
  }

  predicate AllDigits(s: seq<char>) {
    forall i :: 0 <= i < |s| ==> IsDigit(s[i])
  }

  function DigitValue(c: char): nat
    requires IsDigit(c)
  {
    c as int - '0' as int
  }

  function DigitChar(d: nat): (c: char)
    requires d < 10
    ensures IsDigit(c) && DigitValue(c) == d
  {
    ('0' as int + d) as char
  }

  /** The number a string of decimal digits stands for; leading zeros are allowed. */
  function ValueOf(s: seq<char>): nat
    requires AllDigits(s)
  {
    if s == [] then 0 else ValueOf(s[..|s| - 1]) * 10 + DigitValue(s[|s| - 1])
  }

  /** Decimal digits of `n`, most significant first, no leading zero: Python's str() of a non-negative int. */
  function Decimal(n: nat): (s: seq<char>)
    ensures |s| >= 1 && AllDigits(s)
    ensures ValueOf(s) == n
  {
    if n < 10 then [DigitChar(n)]
    else
      var s := Decimal(n / 10) + [DigitChar(n % 10)];
      assert s[..|s| - 1] == Decimal(n / 10);
      s
  }

  /** str() writes no leading zero: the first digit is '0' only for 0 itself, which is the one-digit "0". */
  lemma {:induction false} DecimalCanonical(n: nat)
    ensures Decimal(n)[0] == '0' <==> n == 0
    ensures |Decimal(n)| == 1 || Decimal(n)[0] != '0'
    decreases n
  {
    if n >= 10 {
      DecimalCanonical(n / 10);
      assert Decimal(n)[0] == Decimal(n / 10)[0];
    }
  }

  /** A digit string worth zero is made of '0's only. */
  lemma {:induction false} ZeroDigits(s: seq<char>, i: int)
    requires AllDigits(s) && ValueOf(s) == 0 && 0 <= i < |s|
    ensures s[i] == '0'
    decreases |s|
  {
    if i < |s| - 1 {
      assert s[..|s| - 1][i] == s[i];
      ZeroDigits(s[..|s| - 1], i);
    }
  }

  /** Distinct numbers have distinct decimal forms. */
  lemma DecimalInjective(j: nat, k: nat)
    requires Decimal(j) == Decimal(k)
    ensures j == k
  {
  }

  /** Python's str() of any int. */
  function IntToString(n: int): (s: seq<char>)
    ensures |s| >= 1
  {
    if n < 0 then "-" + Decimal(-n) else Decimal(n)
  }

  function Zeros(k: nat): (z: seq<char>)
    ensures |z| == k && AllDigits(z)
    ensures forall i :: 0 <= i < k ==> z[i] == '0'
  {
    seq(k, _ => '0')
  }

  /** Python's str.zfill(width): zeros go after a leading sign, up to `width` characters. */
  function ZFill(s: seq<char>, width: int): (r: seq<char>)
    ensures |r| == if |s| >= width then |s| else width
  {
    if |s| >= width then s
    else if s != [] && (s[0] == '+' || s[0] == '-') then [s[0]] + Zeros(width - |s|) + s[1..]
    else Zeros(width - |s|) + s
  }

  /** An optional minus sign followed by at least one decimal digit. */
  predicate IsNumeral(s: seq<char>) {
    (|s| >= 2 && s[0] == '-' && AllDigits(s[1..])) || (s != [] && AllDigits(s))
  }

  /** The integer a numeral reads back as. */
  function ReadInt(s: seq<char>): int
    requires IsNumeral(s)
  {
    if s[0] == '-' then 0 - ValueOf(s[1..]) else ValueOf(s)
  }

  /** Leading zeros do not change the value of a string of digits. */
  lemma {:induction false} LeadingZeros(k: nat, t: seq<char>)
    requires AllDigits(t)
    ensures AllDigits(Zeros(k) + t) && ValueOf(Zeros(k) + t) == ValueOf(t)
  {
    var s := Zeros(k) + t;
    if t == [] {
      if k > 0 {
        assert s[..|s| - 1] == Zeros(k - 1);
        LeadingZeros(k - 1, []);
        assert Zeros(k - 1) + [] == Zeros(k - 1);
      }
    } else {
      assert s[..|s| - 1] == Zeros(k) + t[..|t| - 1];
      LeadingZeros(k, t[..|t| - 1]);
    }
  }

  /**
   * Zero-padding str(n) to `width` keeps a numeral that reads back as `n`, is as
   * long as `width` or str(n), whichever is longer, and carries a sign only when
   * `n` is negative.
   */
  lemma PaddedNumeral(n: int, width: int)
    ensures var r := ZFill(IntToString(n), width);
      IsNumeral(r) && ReadInt(r) == n &&
      |r| == (if width > |IntToString(n)| then width else |IntToString(n)|) &&
      (r[0] == '-' <==> n < 0)
  {
    if n < 0 {
      PaddedNegative(Decimal(-n), width);
    } else {
      PaddedDigits(Decimal(n), width);
    }
  }

  lemma PaddedDigits(d: seq<char>, width: int)
    requires d != [] && AllDigits(d)
    ensures var r := ZFill(d, width); IsNumeral(r) && ReadInt(r) == ValueOf(d) && AllDigits(r)
  {
    assert IsDigit(d[0]);
    var r := ZFill(d, width);
    if |d| < width {
      assert r == Zeros(width - |d|) + d;
      LeadingZeros(width - |d|, d);
    }
    assert AllDigits(r) && ValueOf(r) == ValueOf(d);
    assert IsDigit(r[0]);
  }

  lemma PaddedNegative(d: seq<char>, width: int)
    requires d != [] && AllDigits(d)
    ensures var r := ZFill("-" + d, width); IsNumeral(r) && ReadInt(r) == 0 - ValueOf(d) && r[0] == '-'
  {
    var s := "-" + d;
    assert s[0] == '-' && s[1..] == d;
    var r := ZFill(s, width);
    var t := if |s| < width then Zeros(width - |s|) + d else d;
    if |s| < width {
      assert r == ['-'] + (Zeros(width - |s|) + d);
      LeadingZeros(width - |s|, d);
    }
    assert r == ['-'] + t && r[1..] == t;
    assert AllDigits(t) && ValueOf(t) == ValueOf(d);
  }
}
