/** Decimal digit strings: the parts of ECMAScript's number-to-string
    (`toString`, `padStart`) and string-to-number (`Number`) conversions that
    the calculator applies to non-negative integers. */
module Decimal {

  predicate IsDigit(c: char) {
    '0' <= c <= '9'
  }

  predicate AllDigits(s: string) {
    forall i :: 0 <= i < |s| ==> IsDigit(s[i])
  }

  function DigitValue(c: char): (d: nat)
    requires IsDigit(c)
    ensures d < 10
  {
    c as int - '0' as int
  }

  function DigitChar(d: nat): (c: char)
    requires d < 10
    ensures IsDigit(c) && DigitValue(c) == d
  {
    ('0' as int + d) as char
  }

  /** The number a string of decimal digits denotes, as `Number(s)` reads it. */
  function Value(s: string): nat
    requires AllDigits(s)
  {
    if |s| == 0 then 0 else Value(s[..|s| - 1]) * 10 + DigitValue(s[|s| - 1])
  }

  /** `n.toString()`: the shortest decimal spelling of `n`; it reads back as `n`
      and has no leading zero. */
  function ToString(n: nat): (s: string)
    ensures 1 <= |s| && AllDigits(s)
    ensures Value(s) == n
    ensures s[0] == '0' <==> n == 0
    decreases n
  {
    if n < 10 then
      [DigitChar(n)]
    else
      var prefix := ToString(n / 10);
      var s := prefix + [DigitChar(n % 10)];
      assert s[..|s| - 1] == prefix;
      s
  }

  /** `s.padStart(width, fill)`: `s` preceded by enough copies of `fill` to
      reach `width` characters; `s` itself when it is already that long. */
  function PadStart(s: string, width: nat, fill: char): (r: string)
    ensures |r| == if |s| < width then width else |s|
    ensures r[|r| - |s|..] == s
    ensures forall i :: 0 <= i < |r| - |s| ==> r[i] == fill
  {
    if |s| < width then seq(width - |s|, _ => fill) + s else s
  }

  /** `n.toString().padStart(2, '0')`. */
  function Pad2(n: nat): string {
    PadStart(ToString(n), 2, '0')
  }

  /** `n.toString().padStart(4, '0')`. */
  function Pad4(n: nat): string {
    PadStart(ToString(n), 4, '0')
  }

  /** Leading zeros do not change the value of a digit string. */
  lemma {:induction false} ValueIgnoresLeadingZeros(zeros: string, s: string)
    requires forall i :: 0 <= i < |zeros| ==> zeros[i] == '0'
    requires AllDigits(s)
    ensures AllDigits(zeros + s)
    ensures Value(zeros + s) == Value(s)
    decreases |s|
  {
    var z := zeros + s;
    assert AllDigits(z) by {
      forall i | 0 <= i < |z| ensures IsDigit(z[i]) {
        if i < |zeros| { assert z[i] == zeros[i]; } else { assert z[i] == s[i - |zeros|]; }
      }
    }
    if |s| == 0 {
      assert z == zeros;
      AllZerosValue(zeros);
    } else {
      var init := s[..|s| - 1];
      assert z[..|z| - 1] == zeros + init;
      ValueIgnoresLeadingZeros(zeros, init);
    }
  }

  lemma {:induction false} AllZerosValue(zeros: string)
    requires forall i :: 0 <= i < |zeros| ==> zeros[i] == '0'
    ensures AllDigits(zeros) && Value(zeros) == 0
    decreases |zeros|
  {
    if |zeros| > 0 {
      AllZerosValue(zeros[..|zeros| - 1]);
    }
  }

  /** A number below `10^width` spells in at most `width` digits. */
  lemma {:induction false} ToStringFits(n: nat, width: nat)
    requires 1 <= width && n < Pow10(width)
    ensures |ToString(n)| <= width
    decreases n
  {
    if n >= 10 {
      ToStringFits(n / 10, width - 1);
    }
  }

  function Pow10(k: nat): (p: nat)
    ensures p >= 1
  {
    if k == 0 then 1 else 10 * Pow10(k - 1)
  }

  /** A zero-padded field of `width` digits holds exactly the padded number. */
  lemma PaddedValue(n: nat, width: nat)
    requires 1 <= width && n < Pow10(width)
    ensures var p := PadStart(ToString(n), width, '0');
      |p| == width && AllDigits(p) && Value(p) == n
  {
    ToStringFits(n, width);
    var s := ToString(n);
    var p := PadStart(s, width, '0');
    var zeros := p[..|p| - |s|];
    assert p == zeros + s;
    ValueIgnoresLeadingZeros(zeros, s);
  }

  lemma Pad2Value(n: nat)
    requires n < 100
    ensures |Pad2(n)| == 2 && AllDigits(Pad2(n)) && Value(Pad2(n)) == n
  {
    assert Pow10(2) == 100;
    PaddedValue(n, 2);
  }

  lemma Pad4Value(n: nat)
    requires n < 10000
    ensures |Pad4(n)| == 4 && AllDigits(Pad4(n)) && Value(Pad4(n)) == n
  {
    assert Pow10(4) == 10000;
    PaddedValue(n, 4);
  }

  lemma DigitCharOfValue(c: char)
    requires IsDigit(c)
    ensures DigitChar(DigitValue(c)) == c
  {
  }

  lemma ValueOfOne(s: string)
    requires |s| == 1 && AllDigits(s)
    ensures Value(s) == DigitValue(s[0])
  {
    assert s[..0] == [];
  }

  lemma ValueOfTwo(s: string)
    requires |s| == 2 && AllDigits(s)
    ensures Value(s) == 10 * DigitValue(s[0]) + DigitValue(s[1])
  {
    ValueOfOne(s[..1]);
  }

  /** Two-digit padding spells the tens digit and the units digit. */
  lemma Pad2Digits(n: nat)
    requires n < 100
    ensures Pad2(n) == [DigitChar(n / 10), DigitChar(n % 10)]
  {
    if n >= 10 {
      assert ToString(n) == ToString(n / 10) + [DigitChar(n % 10)];
    }
  }

  /** A two-digit string is the two-digit padding of its own value. */
  lemma TwoDigitText(t: string)
    requires |t| == 2 && AllDigits(t)
    ensures Value(t) < 100 && Pad2(Value(t)) == t
  {
    ValueOfTwo(t);
    var a := DigitValue(t[0]);
    var b := DigitValue(t[1]);
    assert (10 * a + b) / 10 == a && (10 * a + b) % 10 == b;
    Pad2Digits(Value(t));
    DigitCharOfValue(t[0]);
    DigitCharOfValue(t[1]);
  }

  /** A one-digit string is the decimal spelling of its own value. */
  lemma OneDigitText(t: string)
    requires |t| == 1 && AllDigits(t)
    ensures Value(t) < 10 && ToString(Value(t)) == t
  {
    ValueOfOne(t);
    DigitCharOfValue(t[0]);
  }
}
