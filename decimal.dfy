/**
  Decimal text of integers, as the .NET integer format specifiers produce it
  with the invariant culture: `D1` (plain digits, no leading zeros), `D2`
  (left-padded with zeros to two digits) and the plain `{n}` interpolation of
  a possibly negative `int` (a leading '-').
*/
module Decimal {
  import opened Wrappers

  predicate IsDigit(c: char) {
    '0' <= c <= '9'
  }

  predicate AllDigits(s: string) {
    forall i :: 0 <= i < |s| ==> IsDigit(s[i])
  }

  function DigitChar(d: int): (c: char)
    requires 0 <= d < 10
    ensures IsDigit(c)
    ensures c == '0' <==> d == 0
  {
    ('0' as int + d) as char
  }

  function DigitValue(c: char): (d: int)
    requires IsDigit(c)
    ensures 0 <= d < 10 && DigitChar(d) == c
  {
    c as int - '0' as int
  }

  /** The shortest decimal text of `n`: one digit for 0..9, otherwise no leading zero. */
  function NatText(n: nat): (s: string)
    ensures 1 <= |s| && AllDigits(s)
    ensures |s| == 1 <==> n < 10
    ensures s[0] == '0' <==> n == 0
    decreases n
  {
    if n < 10 then [DigitChar(n)] else NatText(n / 10) + [DigitChar(n % 10)]
  }

  /** The number a digit string denotes, leading zeros included. */
  function ValueOf(s: string): nat
    requires AllDigits(s)
  {
    if s == [] then 0 else ValueOf(s[..|s| - 1]) * 10 + DigitValue(s[|s| - 1])
  }

  /** The texts `NatText` produces: non-empty digit strings without a leading zero. */
  predicate Canonical(s: string) {
    1 <= |s| && AllDigits(s) && (|s| > 1 ==> s[0] != '0')
  }

  /** Reading a non-negative decimal number back from its text. */
  function ParseNat(s: string): Option<nat> {
    if Canonical(s) then Some(ValueOf(s)) else None
  }

  lemma {:induction false} ValueOfNatText(n: nat)
    ensures ValueOf(NatText(n)) == n
    decreases n
  {
    if n < 10 {
      assert NatText(n)[..0] == [];
    } else {
      var t := NatText(n / 10);
      assert NatText(n)[..|NatText(n)| - 1] == t;
      ValueOfNatText(n / 10);
    }
  }

  /** The text of a number reads back as that number. */
  lemma NatTextRoundTrip(n: nat)
    ensures ParseNat(NatText(n)) == Some(n)
  {
    ValueOfNatText(n);
  }

  /** Every canonical digit string is the text of the number it denotes. */
  lemma {:induction false} NatTextOfValue(s: string)
    requires Canonical(s)
    ensures NatText(ValueOf(s)) == s
    decreases |s|
  {
    var last := s[|s| - 1];
    var p := s[..|s| - 1];
    if |s| == 1 {
      assert p == [];
      assert ValueOf(s) == DigitValue(last);
      assert s == [last];
    } else {
      assert p[0] == s[0];
      NatTextOfValue(p);
      var v := ValueOf(p);
      var d := DigitValue(last);
      assert v != 0;
      assert ValueOf(s) == v * 10 + d;
      assert (v * 10 + d) / 10 == v && (v * 10 + d) % 10 == d;
      assert s == p + [last];
    }
  }

  /** `ParseNat` accepts exactly the texts of numbers, and reads each back as its own number. */
  lemma ParseNatIffNatText(s: string, n: nat)
    ensures ParseNat(s) == Some(n) <==> s == NatText(n)
  {
    if s == NatText(n) {
      NatTextRoundTrip(n);
    }
    if ParseNat(s) == Some(n) {
      NatTextOfValue(s);
    }
  }

  /** The text of an `int`: its magnitude's digits, after a '-' when it is negative. */
  function IntText(i: int): (s: string)
    ensures 1 <= |s| && (s[0] == '-' <==> i < 0)
    ensures Canonical(if i < 0 then s[1..] else s)
    ensures i == 0 ==> s == "0"
  {
    if i < 0 then "-" + NatText(-i) else NatText(i)
  }

  /** Reading an `int` back from its text; "-0" is refused since no number prints as it. */
  function ParseInt(s: string): Option<int> {
    if 1 <= |s| && s[0] == '-' then
      match ParseNat(s[1..])
      case Some(n) =>
        var negated := -(n as int);
        if n > 0 then Some(negated) else None
      case None => None
    else
      match ParseNat(s)
      case Some(n) => Some(n)
      case None => None
  }

  /** The text of an integer reads back as that integer. */
  lemma IntTextRoundTrip(i: int)
    ensures ParseInt(IntText(i)) == Some(i)
  {
    var s := IntText(i);
    if i < 0 {
      var n: nat := -i;
      assert s[1..] == NatText(n);
      NatTextRoundTrip(n);
      assert 1 <= |s| && s[0] == '-' && ParseNat(s[1..]) == Some(n);
    } else {
      NatTextRoundTrip(i);
      assert s == NatText(i) && s[0] != '-';
    }
  }

  /** Whatever `ParseInt` accepts is the text of the integer it reads. */
  lemma ParsedIntIsText(s: string, i: int)
    requires ParseInt(s) == Some(i)
    ensures s == IntText(i)
  {
    if 1 <= |s| && s[0] == '-' {
      var n := ParseNat(s[1..]).value;
      NatTextOfValue(s[1..]);
      assert n > 0 && i == -(n as int);
      assert IntText(i) == "-" + NatText(n);
      assert s == "-" + s[1..];
    } else {
      NatTextOfValue(s);
      assert i >= 0 && IntText(i) == NatText(i);
    }
  }

  /** `ParseInt` accepts exactly the texts of integers, and reads each back as its own number. */
  lemma ParseIntIffIntText(s: string, i: int)
    ensures ParseInt(s) == Some(i) <==> s == IntText(i)
  {
    if s == IntText(i) {
      IntTextRoundTrip(i);
    }
    if ParseInt(s) == Some(i) {
      ParsedIntIsText(s, i);
    }
  }

  function Zeros(k: nat): (s: string)
    ensures |s| == k && AllDigits(s)
    ensures forall i :: 0 <= i < k ==> s[i] == '0'
  {
    if k == 0 then [] else Zeros(k - 1) + "0"
  }

  /** The `Dw` format: the text of `n`, left-padded with zeros to at least `width` characters. */
  function PaddedText(n: nat, width: nat): (s: string)
    ensures width <= |s| && |NatText(n)| <= |s|
    ensures |NatText(n)| < width ==> |s| == width
    ensures width <= |NatText(n)| ==> s == NatText(n)
  {
    var t := NatText(n);
    if |t| < width then Zeros(width - |t|) + t else t
  }

  lemma {:induction false} ValueOfZeros(k: nat)
    ensures ValueOf(Zeros(k)) == 0
  {
    if k > 0 {
      assert Zeros(k)[..k - 1] == Zeros(k - 1);
      ValueOfZeros(k - 1);
    }
  }

  /** Leading zeros do not change the number a digit string denotes. */
  lemma {:induction false} ValueOfLeadingZeros(k: nat, t: string)
    requires AllDigits(t)
    ensures AllDigits(Zeros(k) + t) && ValueOf(Zeros(k) + t) == ValueOf(t)
    decreases |t|
  {
    if t == [] {
      assert Zeros(k) + t == Zeros(k);
      ValueOfZeros(k);
    } else {
      var u := Zeros(k) + t;
      assert u[..|u| - 1] == Zeros(k) + t[..|t| - 1];
      ValueOfLeadingZeros(k, t[..|t| - 1]);
    }
  }

  /** Padding keeps the value, and gives exactly `width` characters when the number fits in them. */
  lemma PaddedTextReadsBack(n: nat, width: nat)
    ensures AllDigits(PaddedText(n, width)) && ValueOf(PaddedText(n, width)) == n
  {
    var t := NatText(n);
    ValueOfNatText(n);
    if |t| < width {
      var k := width - |t|;
      ZeroPadding(n, width);
      ValueOfLeadingZeros(k, t);
    } else {
      assert PaddedText(n, width) == t;
    }
  }

  lemma ZeroPadding(n: nat, width: nat)
    requires |NatText(n)| < width
    ensures PaddedText(n, width) == Zeros(width - |NatText(n)|) + NatText(n)
  {
  }

  /** Numbers below 100 have at most two digits. */
  lemma TwoDigitsAtMost(n: nat)
    requires n < 100
    ensures |NatText(n)| <= 2
  {
    if n >= 10 {
      assert n / 10 < 10;
    }
  }

  lemma ValueOfTwo(s: string)
    requires |s| == 2 && AllDigits(s)
    ensures ValueOf(s) == DigitValue(s[0]) * 10 + DigitValue(s[1])
  {
    var p := s[..1];
    assert p[..0] == [];
    assert ValueOf(p) == DigitValue(s[0]);
  }

  /** Every two-digit string is the `D2` text of the number it denotes. */
  lemma PaddedTwoOfValue(s: string)
    requires |s| == 2 && AllDigits(s)
    ensures ValueOf(s) < 100 && PaddedText(ValueOf(s), 2) == s
  {
    ValueOfTwo(s);
    var a, b := DigitValue(s[0]), DigitValue(s[1]);
    if a == 0 {
      assert NatText(b) == [s[1]];
      assert Zeros(1) == "0";
      assert s == "0" + [s[1]];
    } else {
      TwoDigitText(a, b);
      assert s == [s[0]] + [s[1]];
    }
  }

  lemma TwoDigitText(a: int, b: int)
    requires 1 <= a < 10 && 0 <= b < 10
    ensures NatText(a * 10 + b) == [DigitChar(a), DigitChar(b)]
  {
    LastDigit(a, b);
    NatTextOfMultiple(a, b);
    assert NatText(a) == [DigitChar(a)];
  }

  /** Appending a digit to a positive number appends its character to the text. */
  lemma NatTextOfMultiple(q: nat, d: int)
    requires 1 <= q && 0 <= d < 10
    requires (q * 10 + d) / 10 == q && (q * 10 + d) % 10 == d
    ensures NatText(q * 10 + d) == NatText(q) + [DigitChar(d)]
  {
  }

  lemma LastDigit(q: nat, d: int)
    requires 0 <= d < 10
    ensures (q * 10 + d) / 10 == q && (q * 10 + d) % 10 == d
  {
  }
}
