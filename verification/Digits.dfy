/** Numerals in the bases 2 to 16, and the value of a string of digits in any base. */
module Digits {
  import opened Numbers

  const DIGIT_CHARS: string := "0123456789abcdef"

  /** The numeral of n, most significant digit first. */
  ghost function Numeral(n: nat, base: nat): (s: string)
    requires 2 <= base <= 16
    ensures |s| > 0
    ensures s[0] == '0' ==> n == 0
    ensures |s| == 1 <==> n < base
  {
    if n < base then [DIGIT_CHARS[n]] else
      Numeral(Quotient(n, base), base) + [DIGIT_CHARS[Remainder(n, base)]]
  }

  function Remainder(n: nat, base: nat): (r: nat)
    requires base > 0
    ensures r < base
  {
    n % base
  }

  function Quotient(n: nat, base: nat): (q: nat)
    requires base > 0
    ensures n == q * base + Remainder(n, base)
    ensures 2 <= base <= n ==> 0 < q < n
  {
    QuotientShrinks(n, base);
    n / base
  }

  lemma QuotientShrinks(n: nat, base: nat)
    requires base > 0
    ensures n / base >= 0 && n == (n / base) * base + n % base
    ensures 2 <= base <= n ==> 0 < n / base < n
  {
    var q := ModExists(n, base);
    AtLeastOnce(1 - q, base);
    if base > 1 {
      AtLeastOnce(q, base - 1);
    }
    assert q * (base - 1) == q * base - q;
  }

  /** The digit a character stands for, or -1. */
  function DigitValue(c: char): int {
    if '0' <= c <= '9' then c as int - '0' as int
    else if 'a' <= c <= 'z' then c as int - 'a' as int + 10
    else if 'A' <= c <= 'Z' then c as int - 'A' as int + 10
    else -1
  }

  /** Which characters stand for which digits, by their numbers: '0' to '9' for 0 to 9, and the
      letters of either case for 10 to 35. No other character is a digit of any base. */
  lemma DigitLaw(c: char)
    ensures 48 <= c as int <= 57 ==> DigitValue(c) == c as int - 48
    ensures 97 <= c as int <= 122 ==> DigitValue(c) == c as int - 87
    ensures 65 <= c as int <= 90 ==> DigitValue(c) == c as int - 55
    ensures DigitValue(c) < 0 || 48 <= c as int <= 57 || 97 <= c as int <= 122 || 65 <= c as int <= 90
  {
  }

  /** The digits that are printed, of all bases up to 16. */
  predicate LowerHex(c: char) {
    '0' <= c <= '9' || 'a' <= c <= 'f'
  }

  predicate IsDigit(c: char, base: int) {
    0 <= DigitValue(c) < base
  }

  ghost predicate AllDigits(s: string, base: int) {
    forall i :: 0 <= i < |s| ==> IsDigit(s[i], base)
  }

  /** The value of a string of digits, most significant digit first. */
  ghost function Value(s: string, base: int): int {
    if s == [] then 0 else Value(s[..|s| - 1], base) * base + DigitValue(s[|s| - 1])
  }

  lemma DigitCharValue(d: nat)
    requires d < 16
    ensures DigitValue(DIGIT_CHARS[d]) == d && LowerHex(DIGIT_CHARS[d])
  {
  }

  lemma {:induction false} NumeralDigits(n: nat, base: nat)
    requires 2 <= base <= 16
    ensures AllDigits(Numeral(n, base), base)
    ensures forall i :: 0 <= i < |Numeral(n, base)| ==> LowerHex(Numeral(n, base)[i])
  {
    if n < base {
      DigitCharValue(n);
    } else {
      NumeralDigits(Quotient(n, base), base);
      DigitCharValue(Remainder(n, base));
    }
  }

  lemma ValueSnoc(t: string, c: char, base: int)
    ensures Value(t + [c], base) == Value(t, base) * base + DigitValue(c)
  {
    assert (t + [c])[..|t|] == t;
  }

  /** The numeral of n has the value n... */
  lemma {:induction false} NumeralValue(n: nat, base: nat)
    requires 2 <= base <= 16
    ensures Value(Numeral(n, base), base) == n
  {
    if n < base {
      DigitCharValue(n);
      ValueSnoc([], DIGIT_CHARS[n], base);
    } else {
      NumeralValue(Quotient(n, base), base);
      DigitCharValue(Remainder(n, base));
      ValueSnoc(Numeral(Quotient(n, base), base), DIGIT_CHARS[Remainder(n, base)], base);
    }
  }

  lemma StepBound(v: int, base: nat, d: nat)
    requires v >= 0
    ensures v * base + d >= 0
    ensures v > 0 ==> v * base + d >= base
  {
    if v > 0 {
      AtLeastOnce(v, base + 1);
      assert (v - 1) * base >= 0;
    }
  }

  lemma {:induction false} ValueBound(s: string, base: nat)
    requires 2 <= base && AllDigits(s, base)
    ensures 0 <= Value(s, base)
    ensures s != [] && DigitValue(s[0]) > 0 ==> Value(s, base) > 0
    ensures |s| > 1 && DigitValue(s[0]) > 0 ==> Value(s, base) >= base
  {
    if s != [] {
      var t := s[..|s| - 1];
      ValueBound(t, base);
      assert IsDigit(s[|s| - 1], base);
      StepBound(Value(t, base), base, DigitValue(s[|s| - 1]));
    }
  }

  /** A numeral of the printed form: lower-case digits, no superfluous leading zero. */
  ghost predicate Minimal(s: string, base: nat) {
    && |s| > 0
    && AllDigits(s, base)
    && (forall i :: 0 <= i < |s| ==> LowerHex(s[i]))
    && (|s| > 1 ==> s[0] != '0')
  }

  lemma SingleDigit(s: string, base: nat)
    requires 2 <= base && Minimal(s, base)
    ensures |s| == 1 <==> Value(s, base) < base
  {
    assert LowerHex(s[0]) && IsDigit(s[0], base);
    assert DigitValue(s[0]) == 0 ==> s[0] == '0';
    ValueBound(s, base);
    if |s| == 1 {
      assert s == [] + [s[0]];
      ValueSnoc([], s[0], base);
    }
  }

  lemma InitMinimal(s: string, base: nat)
    requires Minimal(s, base) && |s| > 1
    ensures Minimal(s[..|s| - 1], base)
  {
    var t := s[..|s| - 1];
    assert forall i :: 0 <= i < |t| ==> t[i] == s[i];
  }

  lemma LastDigit(s: string, base: nat)
    requires Minimal(s, base)
    ensures var (t, c) := (s[..|s| - 1], s[|s| - 1]);
      && s == t + [c] && Value(s, base) == Value(t, base) * base + DigitValue(c)
      && IsDigit(c, base) && LowerHex(c)
  {
    ValueSnoc(s[..|s| - 1], s[|s| - 1], base);
    assert s == s[..|s| - 1] + [s[|s| - 1]];
  }

  lemma SameDigit(c: char, e: char)
    requires LowerHex(c) && LowerHex(e) && DigitValue(c) == DigitValue(e)
    ensures c == e
  {
  }

  lemma {:induction false} SameValueSameNumeral(s: string, t: string, base: nat)
    requires 2 <= base && Minimal(s, base) && Minimal(t, base) && Value(s, base) == Value(t, base)
    ensures s == t
    decreases |s|
  {
    SingleDigit(s, base);
    SingleDigit(t, base);
    LastDigit(s, base);
    LastDigit(t, base);
    var (s', c, t', e) := (s[..|s| - 1], s[|s| - 1], t[..|t| - 1], t[|t| - 1]);
    UniqueDivision(Value(s', base), DigitValue(c), Value(t', base), DigitValue(e), base);
    SameDigit(c, e);
    if |s| > 1 {
      InitMinimal(s, base);
      InitMinimal(t, base);
      SameValueSameNumeral(s', t', base);
    }
  }

  /** The numeral of n is the one minimal numeral with the value n. */
  lemma NumeralUnique(s: string, n: nat, base: nat)
    requires 2 <= base <= 16
    ensures s == Numeral(n, base) <==> Minimal(s, base) && Value(s, base) == n
  {
    NumeralValue(n, base);
    NumeralDigits(n, base);
    if Minimal(s, base) && Value(s, base) == n {
      SameValueSameNumeral(s, Numeral(n, base), base);
    }
  }

  // ----- Leading zeros -----

  ghost function Repeat(c: char, n: int): (s: string)
    ensures |s| == if n > 0 then n else 0
    ensures forall i :: 0 <= i < |s| ==> s[i] == c
  {
    if n <= 0 then [] else Repeat(c, n - 1) + [c]
  }

  lemma {:induction false} LeadingZeros(zeros: string, s: string, base: nat)
    requires forall i :: 0 <= i < |zeros| ==> zeros[i] == '0'
    ensures Value(zeros + s, base) == Value(s, base)
  {
    if s == [] {
      ZerosValue(zeros, base);
      assert zeros + s == zeros;
    } else {
      var t := zeros + s;
      LeadingZeros(zeros, s[..|s| - 1], base);
      assert t[..|t| - 1] == zeros + s[..|s| - 1];
    }
  }

  lemma {:induction false} ZerosValue(zeros: string, base: nat)
    requires forall i :: 0 <= i < |zeros| ==> zeros[i] == '0'
    ensures Value(zeros, base) == 0
  {
    if zeros != [] {
      ZerosValue(zeros[..|zeros| - 1], base);
    }
  }
}
