/** Decimal digit strings: their numeric value, zero-padded and shortest
    renderings of numbers (what `${n}` and the `YYYY-MM-DD` fields produce),
    and the fact that numeric order is string order at equal width. */
module Decimal {
  import opened Optional
  import LexOrder

  predicate IsDigit(c: char) {
    '0' <= c <= '9'
  }

  predicate AllDigits(s: string) {
    forall i :: 0 <= i < |s| ==> IsDigit(s[i])
  }

  function DigitValue(c: char): nat
    requires IsDigit(c)
  {
    (c as int) - ('0' as int)
  }

  function DigitChar(n: nat): (c: char)
    requires n < 10
    ensures IsDigit(c) && DigitValue(c) == n
  {
    ('0' as int + n) as char
  }

  function Pow10(n: nat): (p: nat)
    ensures p >= 1
  {
    if n == 0 then 1 else 10 * Pow10(n - 1)
  }

  /** The number a digit string denotes, most significant digit first. */
  function Value(s: string): nat
    requires AllDigits(s)
  {
    if |s| == 0 then 0 else Value(s[..|s| - 1]) * 10 + DigitValue(s[|s| - 1])
  }

  lemma {:induction false} ValueBound(s: string)
    requires AllDigits(s)
    ensures Value(s) < Pow10(|s|)
  {
    if |s| > 0 {
      ValueBound(s[..|s| - 1]);
    }
  }

  /** `n` written with exactly `width` digits, leading zeros included. */
  function Padded(n: nat, width: nat): (s: string)
    requires n < Pow10(width)
    ensures |s| == width && AllDigits(s) && Value(s) == n
  {
    if width == 0 then ""
    else
      var s := Padded(n / 10, width - 1) + [DigitChar(n % 10)];
      assert s[..|s| - 1] == Padded(n / 10, width - 1);
      s
  }

  /** Writing out the value of a digit string at its own width gives the
      string back: a fixed-width digit string has one reading. */
  lemma {:induction false} PaddedValue(s: string)
    requires AllDigits(s)
    ensures Value(s) < Pow10(|s|) && Padded(Value(s), |s|) == s
  {
    ValueBound(s);
    if |s| > 0 {
      var init := s[..|s| - 1];
      PaddedValue(init);
      assert Value(s) / 10 == Value(init);
      assert s == init + [s[|s| - 1]];
    }
  }

  /** The shortest decimal rendering of `n`, as JavaScript's template
      literal `${n}` writes a non-negative safe integer (one below 2^53;
      from 10^21 on JavaScript switches to exponent notation). */
  function NatToString(n: nat): (s: string)
    ensures |s| >= 1 && AllDigits(s) && Value(s) == n
    ensures s[0] == '0' ==> n == 0 && s == "0"
  {
    if n < 10 then [DigitChar(n)]
    else
      var s := NatToString(n / 10) + [DigitChar(n % 10)];
      assert s[..|s| - 1] == NatToString(n / 10);
      s
  }

  /** `${i}` for a safe integer: a minus sign before the magnitude when
      negative.  Read back by `ParseNat`, the text gives the number. */
  function IntToString(i: int): (s: string)
    ensures |s| >= 1
    ensures s[0] == '-' <==> i < 0
    ensures i >= 0 ==> ParseNat(s) == Some(i)
    ensures i < 0 ==> ParseNat(s[1..]) == Some(-i)
  {
    if i < 0 then
      var s := "-" + NatToString(-i);
      assert s[1..] == NatToString(-i);
      s
    else NatToString(i)
  }

  /** The reading of a canonical decimal string: digits only, no leading
      zero unless the number is zero.  It is the inverse of `NatToString`. */
  function ParseNat(s: string): Option<nat> {
    if |s| >= 1 && AllDigits(s) && (s[0] != '0' || |s| == 1) then Some(Value(s)) else None
  }

  lemma NatToStringParses(n: nat)
    ensures ParseNat(NatToString(n)) == Some(n)
  {
  }

  /** Every canonical string is the rendering of the number it denotes, so
      `NatToString` is injective and the label text determines the count. */
  lemma {:induction false} ParseNatRenders(s: string)
    requires ParseNat(s).Some?
    ensures NatToString(ParseNat(s).value) == s
    decreases |s|
  {
    var n := Value(s);
    if |s| == 1 {
      assert s[..0] == [] && Value(s[..0]) == 0;
      assert n == DigitValue(s[0]);
      assert (s[0] as int) as char == s[0];
      assert s == [s[0]];
    } else {
      var init := s[..|s| - 1];
      assert init[0] == s[0];
      assert ParseNat(init) == Some(Value(init));
      ParseNatRenders(init);
      assert n / 10 == Value(init) && n % 10 == DigitValue(s[|s| - 1]);
      assert n >= 10 by {
        ValueNonZeroLead(init);
      }
      assert s == init + [s[|s| - 1]];
    }
  }

  /** A digit string with a non-zero first digit denotes at least one. */
  lemma {:induction false} ValueNonZeroLead(s: string)
    requires |s| >= 1 && AllDigits(s) && s[0] != '0'
    ensures Value(s) >= 1
  {
    if |s| > 1 {
      var init := s[..|s| - 1];
      assert init[0] == s[0];
      ValueNonZeroLead(init);
    }
  }

  lemma NatToStringInjective(m: nat, n: nat)
    requires NatToString(m) == NatToString(n)
    ensures m == n
  {
  }

  /** For digit strings of one width, string order is numeric order. */
  lemma {:induction false} LessIsNumericLess(a: string, b: string)
    requires |a| == |b| && AllDigits(a) && AllDigits(b)
    ensures LexOrder.Less(a, b) <==> Value(a) < Value(b)
    ensures a == b <==> Value(a) == Value(b)
    decreases |a|
  {
    if |a| > 0 {
      var k := |a| - 1;
      var a', b' := a[..k], b[..k];
      LessIsNumericLess(a', b');
      assert a == a' + [a[k]] && b == b' + [b[k]];
      LexOrder.ConcatEqualLength(a', [a[k]], b', [b[k]]);
      LexOrder.Connected(a, b);
      LexOrder.Asymmetric(a, b);
    }
  }
}
