/** The numeral parser strtol. */
module Strtol {
  import opened Numbers
  import opened Digits

  const TWO_63: int := 0x8000_0000_0000_0000
  const TWO_64: int := 0x1_0000_0000_0000_0000

  /** The 64-bit two's-complement value of an integer. */
  function Wrap64(x: int): (w: int)
    ensures -TWO_63 <= w < TWO_63
    ensures -TWO_63 <= x < TWO_63 ==> w == x
  {
    (x + TWO_63) % TWO_64 - TWO_63
  }

  lemma WrapStep(x: int, base: int, d: int)
    ensures Wrap64(Wrap64(x) * base + d) == Wrap64(x * base + d)
  {
    var q := ModExists(x + TWO_63, TWO_64);
    var y := x * base + d + TWO_63;
    assert Wrap64(x) == x - q * TWO_64;
    assert Wrap64(x) * base == x * base - (q * base) * TWO_64;
    ModShift(y, -(q * base), TWO_64);
  }

  lemma WrapNegate(x: int)
    ensures Wrap64(-Wrap64(x)) == Wrap64(-x)
  {
    WrapStep(x, -1, 0);
  }

  /** The character at a place of a NUL-terminated string. */
  function CharAt(s: string, i: nat): char
    requires i <= |s|
  {
    if i < |s| then s[i] else '\0'
  }

  predicate Blank(c: char) {
    c == ' ' || c == '\t'
  }

  /** The end of the run of characters from i on that satisfy p. */
  ghost function RunEnd(s: string, i: nat, p: char -> bool): (e: nat)
    requires i <= |s|
    ensures i <= e <= |s| && (forall k :: i <= k < e ==> p(s[k])) && (e < |s| ==> !p(s[e]))
    decreases |s| - i
  {
    if i < |s| && p(s[i]) then RunEnd(s, i + 1, p) else i
  }

  lemma {:induction false} RunEndIs(s: string, i: nat, p: char -> bool, e: nat)
    requires i <= e <= |s| && (forall k :: i <= k < e ==> p(s[k])) && (e < |s| ==> !p(s[e]))
    ensures RunEnd(s, i, p) == e
    decreases e - i
  {
    if i < e {
      RunEndIs(s, i + 1, p, e);
    }
  }

  ghost function DigitIn(base: int): char -> bool {
    c => IsDigit(c, base)
  }

  /** Where the digits begin, and the base they are read in, after blanks and sign. */
  ghost function Prefix(s: string, i: nat, base: int): (int, nat)
    requires i <= |s|
  {
    if (base == 0 || base == 16) && CharAt(s, i) == '0' && CharAt(s, i + 1) == 'x' then (16, i + 2)
    else if base == 0 && CharAt(s, i) == '0' then (8, i + 1)
    else if base == 0 then (10, i)
    else (base, i)
  }

  /** What comes before the digits, blanks, a sign and a base prefix: whether the sign is minus,
      the base of the digits, and where they begin. */
  ghost function Start(s: string, base: int): (r: (bool, int, nat))
    ensures r.2 <= |s|
  {
    var i := RunEnd(s, 0, Blank);
    var (b, k) := Prefix(s, if CharAt(s, i) in {'+', '-'} then i + 1 else i, base);
    (CharAt(s, i) == '-', b, k)
  }

  /** What strtol returns, and where it stops: after as many digits as there are. */
  ghost function Parsed(s: string, base: int): (int, nat) {
    var (neg, b, k) := Start(s, base);
    var e := RunEnd(s, k, DigitIn(b));
    (Signed(neg, Value(s[k..e], b)), e)
  }

  ghost function Signed(neg: bool, v: int): int {
    Wrap64(if neg then -v else v)
  }

  lemma AppendDigit(s: string, start: nat, i: nat, b: int)
    requires start <= i < |s|
    ensures Wrap64(Wrap64(Value(s[start..i], b)) * b + DigitValue(s[i])) == Wrap64(Value(s[start..i + 1], b))
  {
    assert s[start..i + 1] == s[start..i] + [s[i]];
    ValueSnoc(s[start..i], s[i], b);
    WrapStep(Value(s[start..i], b), b, DigitValue(s[i]));
  }

  /** The digit loop of strtol. */
  method ReadDigits(s: string, start: nat, b: int) returns (val: int, i: nat)
    requires start <= |s|
    ensures i == RunEnd(s, start, DigitIn(b)) && val == Wrap64(Value(s[start..i], b))
  {
    val, i := 0, start;
    while true
      invariant start <= i <= |s|
      invariant forall k :: start <= k < i ==> DigitIn(b)(s[k])
      invariant val == Wrap64(Value(s[start..i], b))
      decreases |s| - i
    {
      var dig := DigitValue(CharAt(s, i));
      if dig < 0 || dig >= b {
        break;
      }
      AppendDigit(s, start, i, b);
      i, val := i + 1, Wrap64(val * b + dig);
    }
    RunEndIs(s, start, DigitIn(b), i);
  }

  /** The part of strtol before the digit loop. */
  method FindDigits(s: string, base: int) returns (neg: bool, b: int, i: nat)
    ensures (neg, b, i) == Start(s, base)
  {
    i := 0;
    while i < |s| && (s[i] == ' ' || s[i] == '\t')
      invariant 0 <= i <= |s| && forall k :: 0 <= k < i ==> Blank(s[k])
    {
      i := i + 1;
    }
    RunEndIs(s, 0, Blank, i);

    neg := false;
    if CharAt(s, i) == '+' {
      i := i + 1;
    } else if CharAt(s, i) == '-' {
      i, neg := i + 1, true;
    }

    b := base;
    if (base == 0 || base == 16) && CharAt(s, i) == '0' && CharAt(s, i + 1) == 'x' {
      i, b := i + 2, 16;
    } else if base == 0 && CharAt(s, i) == '0' {
      i, b := i + 1, 8;
    } else if base == 0 {
      b := 10;
    }
  }

  method Strtol(s: string, base: int) returns (r: int, endptr: nat)
    ensures (r, endptr) == Parsed(s, base)
  {
    var neg, b, start := FindDigits(s, base);
    var val;
    val, endptr := ReadDigits(s, start, b);
    WrapNegate(Value(s[start..endptr], b));
    r := if neg then Wrap64(-val) else val;
  }
}
