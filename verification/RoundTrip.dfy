/** Printing a number and parsing it back: exactly when strtol returns it. */
module RoundTrip {
  import opened Digits
  import opened Strtol
  import opened Format
  import opened FormatFields
  import opened FormatGrammar
  import opened FormatRender

  ghost predicate AllBlank(s: string) {
    forall i :: 0 <= i < |s| ==> Blank(s[i])
  }

  lemma DigitIsPlain(c: char, base: int)
    requires IsDigit(c, base) && base <= 16
    ensures !Blank(c) && c != '+' && c != '-' && c != 'x'
  {
  }

  // ----- What strtol makes of the printed shapes -----

  lemma DigitsToEnd(s: string, j: nat, ds: string, base: int)
    requires j <= |s| && s[j..] == ds && AllDigits(ds, base)
    ensures RunEnd(s, j, DigitIn(base)) == |s| && s[j..|s|] == ds
  {
    forall k | j <= k < |s| ensures DigitIn(base)(s[k]) {
      assert IsDigit(ds[k - j], base) && s[k] == s[j..][k - j];
    }
    RunEndIs(s, j, DigitIn(base), |s|);
  }

  /** Blanks, possibly a sign, and digits to the end. */
  lemma ParseDigits(s: string, blanks: string, sign: string, ds: string, base: nat)
    requires s == blanks + sign + ds && AllBlank(blanks) && (sign == "" || sign == "-" || sign == "+")
    requires 2 <= base <= 16 && |ds| > 0 && AllDigits(ds, base)
    ensures Parsed(s, base) == (Signed(sign == "-", Value(ds, base)), |s|)
  {
    var i, j := |blanks|, |blanks| + |sign|;
    assert s[j..] == ds;
    assert IsDigit(ds[0], base) && s[j] == ds[0];
    DigitIsPlain(ds[0], base);
    RunEndIs(s, 0, Blank, i);
    if |ds| > 1 {
      assert IsDigit(ds[1], base) && s[j + 1] == ds[1];
      DigitIsPlain(ds[1], base);
    }
    assert Start(s, base) == (sign == "-", base, j);
    DigitsToEnd(s, j, ds, base);
  }

  /** A minus sign that no digit follows: nothing is converted, and the sign is eaten. */
  lemma ParseStuck(s: string, base: nat)
    requires 2 <= base <= 16 && |s| > 1 && s[0] == '-' && (s[1] == ' ' || s[1] == '-')
    ensures Parsed(s, base) == (0, 1)
  {
    RunEndIs(s, 0, Blank, 0);
    assert Start(s, base) == (true, base, 1);
    RunEndIs(s, 1, DigitIn(base), 1);
    assert s[1..1] == [];
  }

  /** The pointer prefix: the digits begin behind it. */
  lemma PointerStart(s: string, base: int)
    requires |s| > 2 && s[0] == '0' && s[1] == 'x' && (base == 0 || base == 16)
    ensures Start(s, base) == (false, 16, 2)
  {
    RunEndIs(s, 0, Blank, 0);
  }

  /** The pointer prefix and digits to the end. */
  lemma ParsePointer(s: string, ds: string, base: int)
    requires s == "0x" + ds && (base == 0 || base == 16) && |ds| > 0 && AllDigits(ds, 16)
    ensures Parsed(s, base) == (Signed(false, Value(ds, 16)), |s|)
  {
    PointerStart(s, base);
    DigitsToEnd(s, 2, ds, 16);
  }

  /** The pointer prefix that no digit follows. */
  lemma ParsePointerStuck(s: string, base: int)
    requires |s| > 2 && s[0] == '0' && s[1] == 'x' && (s[2] == ' ' || s[2] == '-') && (base == 0 || base == 16)
    ensures Parsed(s, base) == (0, 2)
  {
    PointerStart(s, base);
    RunEndIs(s, 2, DigitIn(16), 2);
    assert s[2..2] == [];
  }

  // ----- Padded numerals -----

  /** Zero padding, or none, keeps a string of digits with the value of the number. */
  lemma ZeroPadded(n: nat, base: nat, width: int, padc: char)
    requires 2 <= base <= 16 && (padc == '0' || width <= |Numeral(n, base)|)
    ensures var s := NumField(n, base, width, padc);
      |s| > 0 && AllDigits(s, base) && Value(s, base) == n
  {
    var d := Numeral(n, base);
    NumeralDigits(n, base);
    NumeralValue(n, base);
    LeadingPad(Repeat(padc, width - |d|), d, base);
  }

  lemma LeadingPad(zeros: string, d: string, base: nat)
    requires base > 0 && AllDigits(d, base) && forall i :: 0 <= i < |zeros| ==> zeros[i] == '0'
    ensures AllDigits(zeros + d, base) && Value(zeros + d, base) == Value(d, base)
  {
    LeadingZeros(zeros, d, base);
  }

  lemma ParsedFits(s: string, base: int)
    ensures -TWO_63 <= Parsed(s, base).0 < TWO_63
  {
  }

  /** An unsigned number must fit a long, and the padding must not be of the pad character '-',
      which reads as a sign. */
  ghost predicate UnsignedReadsBack(n: nat, base: nat, width: int, padc: char)
    requires 2 <= base <= 16
  {
    n < TWO_63 && (padc != '-' || width <= |Numeral(n, base)| || (n == 0 && width == 2))
  }

  /** The sign of a negative number comes first, so that only zero padding parses on. */
  ghost predicate SignedReadsBack(v: int, width: int, padc: char) {
    || padc == '0'
    || width <= |Numeral(if v < 0 then -v else v, 10)|
    || (v >= 0 && padc == ' ')
    || (v == 0 && width == 2)
  }

  /** The same is true of the prefix of a pointer, which must fit a long as well. */
  ghost predicate PointerReadsBack(n: nat, width: int, padc: char) {
    n < TWO_63 && (padc == '0' || width <= |Numeral(n, 16)|)
  }

  lemma BlanksAndDigits(blanks: string, d: string, base: nat)
    requires 2 <= base <= 16 && AllBlank(blanks) && |d| > 0 && AllDigits(d, base) && 0 <= Value(d, base) < TWO_63
    ensures Parsed(blanks + d, base) == (Value(d, base), |blanks + d|)
  {
    assert blanks + d == blanks + "" + d;
    ParseDigits(blanks + d, blanks, "", d, base);
  }

  lemma SpacePadded(n: nat, base: nat, width: int)
    requires 2 <= base <= 16 && n < TWO_63
    ensures var s := NumField(n, base, width, ' '); Parsed(s, base) == (n, |s|)
  {
    NumeralDigits(n, base);
    NumeralValue(n, base);
    BlanksAndDigits(Repeat(' ', width - |Numeral(n, base)|), Numeral(n, base), base);
  }

  lemma DashPadded(n: nat, base: nat, width: int)
    requires 2 <= base <= 16 && n < TWO_63 && width > |Numeral(n, base)|
    ensures var s := NumField(n, base, width, '-'); Parsed(s, base) == (n, |s|) <==> n == 0 && width == 2
  {
    var (s, d) := (NumField(n, base, width, '-'), Numeral(n, base));
    if width - |d| == 1 {
      NumeralDigits(n, base);
      NumeralValue(n, base);
      assert s == "" + "-" + d;
      ParseDigits(s, "", "-", d, base);
    } else {
      ParseStuck(s, base);
    }
  }

  lemma UnsignedFits(n: nat, base: nat, width: int, padc: char)
    requires 2 <= base <= 16 && n < TWO_63 && (padc == ' ' || padc == '0' || padc == '-')
    ensures var s := NumField(n, base, width, padc);
      Parsed(s, base) == (n, |s|) <==> UnsignedReadsBack(n, base, width, padc)
  {
    if padc == '0' || width <= |Numeral(n, base)| {
      var s := NumField(n, base, width, padc);
      ZeroPadded(n, base, width, padc);
      assert s == "" + "" + s;
      ParseDigits(s, "", "", s, base);
    } else if padc == ' ' {
      SpacePadded(n, base, width);
    } else {
      DashPadded(n, base, width);
    }
  }

  /** Exactly when strtol gives back an unsigned number. */
  lemma UnsignedRoundTrip(n: nat, base: nat, width: int, padc: char)
    requires 2 <= base <= 16 && (padc == ' ' || padc == '0' || padc == '-')
    ensures var s := NumField(n, base, width, padc);
      Parsed(s, base) == (n, |s|) <==> UnsignedReadsBack(n, base, width, padc)
  {
    if n < TWO_63 {
      UnsignedFits(n, base, width, padc);
    } else {
      ParsedFits(NumField(n, base, width, padc), base);
    }
  }

  lemma PaddedHead(n: nat, base: nat, width: int, padc: char)
    requires 2 <= base <= 16 && width > |Numeral(n, base)|
    ensures |NumField(n, base, width, padc)| == width && NumField(n, base, width, padc)[0] == padc
  {
  }

  lemma MinusRoundTrip(v: int, n: nat, base: nat, width: int, padc: char)
    requires 2 <= base <= 16 && -TWO_63 <= v < 0 && n == -v && (padc == ' ' || padc == '0' || padc == '-')
    ensures var s := "-" + NumField(n, base, width, padc);
      Parsed(s, base) == (v, |s|) <==> padc == '0' || width <= |Numeral(n, base)|
  {
    var f := NumField(n, base, width, padc);
    var s := "-" + f;
    if padc == '0' || width <= |Numeral(n, base)| {
      ZeroPadded(n, base, width, padc);
      assert s == "" + "-" + f;
      ParseDigits(s, "", "-", f, base);
    } else {
      PaddedHead(n, base, width, padc);
      assert s[1] == f[0];
      ParseStuck(s, base);
    }
  }

  /** A negative number: the sign comes first, so that only zero padding parses on. */
  lemma NegativeRoundTrip(v: int, width: int, padc: char)
    requires -TWO_63 <= v < 0 && (padc == ' ' || padc == '0' || padc == '-')
    ensures var s := SignedField(v, width, padc);
      Parsed(s, 10) == (v, |s|) <==> padc == '0' || width <= |Numeral(-v, 10)|
  {
    MinusRoundTrip(v, -v, 10, width, padc);
  }

  /** Exactly when strtol gives back a signed decimal. */
  lemma SignedRoundTrip(v: int, width: int, padc: char)
    requires -TWO_63 <= v < TWO_63 && (padc == ' ' || padc == '0' || padc == '-')
    ensures var s := SignedField(v, width, padc);
      Parsed(s, 10) == (v, |s|) <==> SignedReadsBack(v, width, padc)
  {
    if v < 0 {
      NegativeRoundTrip(v, width, padc);
    } else {
      UnsignedRoundTrip(v, 10, width, padc);
    }
  }

  /** Exactly when strtol, told base 0 or 16, gives back a pointer. */
  lemma PointerRoundTrip(n: nat, width: int, padc: char, base: int)
    requires (padc == ' ' || padc == '0' || padc == '-') && (base == 0 || base == 16)
    ensures var s := PointerField(n, width, padc);
      Parsed(s, base) == (n, |s|) <==> PointerReadsBack(n, width, padc)
  {
    var (s, f) := (PointerField(n, width, padc), NumField(n, 16, width, padc));
    ParsedFits(s, base);
    if padc == '0' || width <= |Numeral(n, 16)| {
      ZeroPadded(n, 16, width, padc);
      ParsePointer(s, f, base);
    } else {
      assert s[2] == f[0] == padc;
      ParsePointerStuck(s, base);
    }
  }

  // ----- From a format to the number -----

  lemma FieldPad(ms: seq<Mod>, args: seq<Arg>)
    ensures var c := ApplyMods(NO_FIELD, ms, args).0.padc; c == ' ' || c == '0' || c == '-'
  {
    FlagsMeaning(NO_FIELD, ms, args);
    LastPadIs(ms, ' ');
  }

  lemma SignedText(ms: seq<Mod>, f: CStr, args: seq<Arg>)
    requires WellFormedMods(ms) && f == PieceText(Directive(ms, 'd'))
    ensures var (fld, rest) := ApplyMods(NO_FIELD, ms, args);
      Formatted(f, args) == SignedField(GetInt(NextInt(rest).0, fld.lflag), fld.width, fld.padc)
  {
    DirectiveFormat(ms, 'd', f, args);
  }

  lemma PointerText(ms: seq<Mod>, f: CStr, args: seq<Arg>)
    requires WellFormedMods(ms) && f == PieceText(Directive(ms, 'p'))
    ensures var (fld, rest) := ApplyMods(NO_FIELD, ms, args);
      Formatted(f, args) == PointerField(NextInt(rest).0 % TWO_64, fld.width, fld.padc)
  {
    DirectiveFormat(ms, 'p', f, args);
  }

  /** What "%d" with any modifiers prints parses back to the argument, as an int or a long, exactly
      under the condition on the field that the modifiers set. */
  lemma FormattedSigned(ms: seq<Mod>, f: CStr, args: seq<Arg>)
    requires WellFormedMods(ms) && f == PieceText(Directive(ms, 'd'))
    ensures var (fld, rest) := ApplyMods(NO_FIELD, ms, args);
      var (v, s) := (GetInt(NextInt(rest).0, fld.lflag), Formatted(f, args));
      Parsed(s, 10) == (v, |s|) <==> SignedReadsBack(v, fld.width, fld.padc)
  {
    var (fld, rest) := ApplyMods(NO_FIELD, ms, args);
    SignedText(ms, f, args);
    FieldPad(ms, args);
    SignedRoundTrip(GetInt(NextInt(rest).0, fld.lflag), fld.width, fld.padc);
  }

  /** The same for the unsigned conversions, each read in its base. */
  lemma FormattedUnsigned(ms: seq<Mod>, conv: char, f: CStr, args: seq<Arg>)
    requires conv == 'u' || conv == 'o' || conv == 'x'
    requires WellFormedMods(ms) && f == PieceText(Directive(ms, conv))
    ensures var (fld, rest) := ApplyMods(NO_FIELD, ms, args);
      var (n, s) := (GetUint(NextInt(rest).0, fld.lflag), Formatted(f, args));
      Parsed(s, BaseOf(conv)) == (n, |s|) <==> UnsignedReadsBack(n, BaseOf(conv), fld.width, fld.padc)
  {
    var (fld, rest) := ApplyMods(NO_FIELD, ms, args);
    DirectiveFormat(ms, conv, f, args);
    FieldPad(ms, args);
    UnsignedRoundTrip(GetUint(NextInt(rest).0, fld.lflag), BaseOf(conv), fld.width, fld.padc);
  }

  /** The same for pointers. */
  lemma FormattedPointer(ms: seq<Mod>, f: CStr, args: seq<Arg>, base: int)
    requires WellFormedMods(ms) && f == PieceText(Directive(ms, 'p')) && (base == 0 || base == 16)
    ensures var (fld, rest) := ApplyMods(NO_FIELD, ms, args);
      var (n, s) := (NextInt(rest).0 % TWO_64, Formatted(f, args));
      Parsed(s, base) == (n, |s|) <==> PointerReadsBack(n, fld.width, fld.padc)
  {
    var (fld, rest) := ApplyMods(NO_FIELD, ms, args);
    PointerText(ms, f, args);
    FieldPad(ms, args);
    PointerRoundTrip(NextInt(rest).0 % TWO_64, fld.width, fld.padc, base);
  }

  /** What the plain "%d" prints of an int parses back. */
  lemma PlainDecimalRoundTrip(v: int)
    requires -TWO_31 <= v < TWO_31
    ensures var s := Formatted(DECIMAL_FORMAT, [Num(v)]); Parsed(s, 10) == (v, |s|)
  {
    DecimalFormat(v);
    SignedRoundTrip(v, -1, ' ');
  }
}
