/** What formats print and strtol reads, written out in characters and numbers. */
module Literals {
  import opened Numbers
  import opened Digits
  import opened Strtol
  import opened Format
  import opened FormatGrammar
  import opened FormatRender
  import FormatStandard
  import opened RoundTrip

  // ----- Integers of either size -----

  lemma OnlyRemainder(v: int, r: int, m: int)
    requires 0 <= r < m && (v - r) % m == 0
    ensures v % m == r
  {
    var q := ModExists(v - r, m);
    assert v == r + q * m;
    ModShift(r, q, m);
    MulMod(0, m, r);
  }

  lemma OnlyWrapped(v: int, w: int, m: int)
    requires m > 0 && -m <= w < m && (v - w) % (2 * m) == 0
    ensures (v + m) % (2 * m) - m == w
  {
    OnlyRemainder(v + m, w + m, 2 * m);
  }

  lemma BareNumber(n: nat, base: nat)
    requires 2 <= base <= 16
    ensures NumField(n, base, -1, ' ') == Numeral(n, base)
  {
    assert "" + Numeral(n, base) == Numeral(n, base);
  }

  ghost function Decimal(w: int): string {
    if w < 0 then "-" + Numeral(-w, 10) else Numeral(w, 10)
  }

  lemma BareSigned(w: int)
    ensures SignedField(w, -1, ' ') == Decimal(w)
  {
    BareNumber(if w < 0 then -w else w, 10);
  }

  /** "%d" prints the int that is left of a number in 32 bits. */
  lemma PrintsInt(f: CStr, v: int, w: int)
    requires f == "%d" && -2147483648 <= w < 2147483648 && (v - w) % 4294967296 == 0
    ensures Formatted(f, [Num(v)]) == Decimal(w)
  {
    PlainFormat("", 'd', f, [Num(v)]);
    OnlyWrapped(v, w, 2147483648);
    NothingBefore(SignedField(w, -1, ' '));
    BareSigned(w);
  }

  /** The fields of a directive with the one modifier 'l'. */
  lemma LongField(args: seq<Arg>)
    ensures WellFormedMods([Long]) && ApplyMods(NO_FIELD, [Long], args) == (NO_FIELD.(lflag := 1), args)
  {
    var fld := NO_FIELD.(lflag := 1);
    assert ApplyMods(fld, [], args) == (fld, args);
    assert [Long][1..] == [];
  }

  lemma LongFormat(conv: char, f: CStr, args: seq<Arg>)
    requires IsConv(conv) && f == ['%', 'l', conv]
    ensures Formatted(f, args) == Convert(conv, NO_FIELD.(lflag := 1), args).0
  {
    LongField(args);
    assert ModsText([Long]) == "l" by {
      ModFirst(Long, []);
      assert [Long] == [Long] + [];
    }
    assert PieceText(Directive([Long], conv)) == ['%', 'l', conv];
    DirectiveFormat([Long], conv, f, args);
  }

  /** "%ld" prints the long that is left in 64 bits. */
  lemma PrintsLong(f: CStr, v: int, w: int)
    requires f == "%ld" && -9223372036854775808 <= w < 9223372036854775808 && (v - w) % 18446744073709551616 == 0
    ensures Formatted(f, [Num(v)]) == Decimal(w)
  {
    LongFormat('d', f, [Num(v)]);
    OnlyWrapped(v, w, 9223372036854775808);
    BareSigned(w);
  }

  /** "%u", "%o" and "%x" print the unsigned int that is left, in decimal, octal and hexadecimal. */
  lemma PrintsUnsigned(conv: char, f: CStr, v: int, n: nat)
    requires f == ['%', conv] && n < 4294967296 && (v - n) % 4294967296 == 0
    ensures conv == 'u' ==> Formatted(f, [Num(v)]) == Numeral(n, 10)
    ensures conv == 'o' ==> Formatted(f, [Num(v)]) == Numeral(n, 8)
    ensures conv == 'x' ==> Formatted(f, [Num(v)]) == Numeral(n, 16)
  {
    if conv == 'u' || conv == 'o' || conv == 'x' {
      PlainFormat("", conv, f, [Num(v)]);
      OnlyRemainder(v, n, 4294967296);
      BareNumber(n, BaseOf(conv));
      NothingBefore(Numeral(n, BaseOf(conv)));
    }
  }

  /** With 'l' the unsigned long that is left. */
  lemma PrintsUnsignedLong(conv: char, f: CStr, v: int, n: nat)
    requires f == ['%', 'l', conv] && n < 18446744073709551616 && (v - n) % 18446744073709551616 == 0
    ensures conv == 'u' ==> Formatted(f, [Num(v)]) == Numeral(n, 10)
    ensures conv == 'o' ==> Formatted(f, [Num(v)]) == Numeral(n, 8)
    ensures conv == 'x' ==> Formatted(f, [Num(v)]) == Numeral(n, 16)
  {
    if conv == 'u' || conv == 'o' || conv == 'x' {
      LongFormat(conv, f, [Num(v)]);
      OnlyRemainder(v, n, 18446744073709551616);
      BareNumber(n, BaseOf(conv));
    }
  }

  /** "%p" prints a prefix and all 64 bits. */
  lemma PrintsPointer(f: CStr, v: int, n: nat)
    requires f == "%p" && n < 18446744073709551616 && (v - n) % 18446744073709551616 == 0
    ensures Formatted(f, [Num(v)]) == "0x" + Numeral(n, 16)
  {
    PlainFormat("", 'p', f, [Num(v)]);
    OnlyRemainder(v, n, 18446744073709551616);
    BareNumber(n, 16);
    NothingBefore("0x" + Numeral(n, 16));
  }

  /** Every digit printed is a decimal digit or one of the letters a to f. */
  lemma DigitsPrinted(n: nat, base: nat)
    requires 2 <= base <= 16
    ensures forall c :: c in Numeral(n, base) ==> 48 <= c as int <= 57 || 97 <= c as int <= 102
  {
    NumeralDigits(n, base);
  }

  lemma HexOf255()
    ensures Numeral(255, 16) == "ff"
  {
    NumeralUnique("ff", 255, 16);
  }

  /** "%x" of 255. */
  lemma PrintsFf(f: CStr)
    requires f == "%x"
    ensures Formatted(f, [Num(255)]) == "ff"
  {
    HexOf255();
    PrintsUnsigned('x', f, 255, 255);
  }

  // ----- Flags -----

  /** The modifiers of a directive with a pad flag and the width 5. */
  lemma FlagAndFive(m: Mod, c: char, args: seq<Arg>)
    requires (m == Minus && c == '-') || (m == Zero && c == '0')
    ensures WellFormedMods([m, Number(5)]) && ModsText([m, Number(5)]) == [c, '5']
    ensures ApplyMods(NO_FIELD, [m, Number(5)], args) == (NO_FIELD.(padc := c, width := 5), args)
  {
    NumeralUnique("5", 5, 10);
    ModFirst(Number(5), []);
    ModFirst(m, [Number(5)] + []);
    assert [m, Number(5)] == [m] + ([Number(5)] + []);
    var fld := NO_FIELD.(padc := c);
    assert [m, Number(5)][1..] == [Number(5)] && [Number(5)][1..] == [];
    assert ApplyMods(fld.(width := 5), [], args) == (fld.(width := 5), args);
    assert ApplyMods(fld, [Number(5)], args) == (fld.(width := 5), args);
  }

  lemma FlagText(m: Mod, c: char, f: CStr, n: nat, d: string)
    requires ((m == Minus && c == '-') || (m == Zero && c == '0')) && f == ['%', c, '5', 'd']
    requires n < 2147483648 && d == Numeral(n, 10) && |d| == 2
    ensures Formatted(f, [Num(n)]) == [c, c, c] + d
  {
    FlagAndFive(m, c, [Num(n)]);
    assert PieceText(Directive([m, Number(5)], 'd')) == f;
    DirectiveFormat([m, Number(5)], 'd', f, [Num(n)]);
    assert Repeat(c, 3) == [c, c, c];
  }

  /** "%-5d" and "%05d" of 42. */
  lemma PrintsFlags(f: CStr, g: CStr)
    requires f == "%-5d" && g == "%05d"
    ensures Formatted(f, [Num(42)]) == "---42" && Formatted(g, [Num(42)]) == "00042"
  {
    FormatStandard.FortyTwo();
    FlagText(Minus, '-', f, 42, "42");
    FlagText(Zero, '0', g, 42, "42");
  }

  // ----- Characters, strings and the percent sign -----

  /** "%c" prints the low eight bits. */
  lemma PrintsChar(f: CStr, v: int, c: char)
    requires f == "%c" && c as int < 256 && (v - c as int) % 256 == 0
    ensures Formatted(f, [Num(v)]) == [c]
  {
    PlainFormat("", 'c', f, [Num(v)]);
    OnlyRemainder(v, c as int, 256);
  }

  /** "%%" prints one percent sign and takes no argument. */
  lemma PrintsPercent(f: CStr, args: seq<Arg>)
    requires f == "%%"
    ensures Formatted(f, args) == "%"
  {
    PlainFormat("", '%', f, args);
  }

  /** "%s" of NULL. */
  lemma PrintsNull(f: CStr)
    requires f == "%s"
    ensures Formatted(f, [Str(None)]) == "(null)"
  {
    PlainFormat("", 's', f, [Str(None)]);
    PlainText("(null)");
  }

  lemma AltField(args: seq<Arg>)
    ensures WellFormedMods([Alt]) && ApplyMods(NO_FIELD, [Alt], args) == (NO_FIELD.(alt := true), args)
  {
    var fld := NO_FIELD.(alt := true);
    assert ApplyMods(fld, [], args) == (fld, args);
    assert [Alt][1..] == [];
  }

  /** "%#s" prints a question mark for every character but the printable ones of ASCII. */
  lemma PrintsSanitized(f: CStr, s: CStr, r: string)
    requires f == "%#s" && |r| == |s|
    requires forall i :: 0 <= i < |s| ==> r[i] == if 32 <= s[i] as int <= 126 then s[i] else '?'
    ensures Formatted(f, [Str(Some(s))]) == r
  {
    AltField([Str(Some(s))]);
    assert ModsText([Alt]) == "#" by {
      ModFirst(Alt, []);
      assert [Alt] == [Alt] + [];
    }
    assert PieceText(Directive([Alt], 's')) == "%#s";
    DirectiveFormat([Alt], 's', f, [Str(Some(s))]);
    assert s[..|s|] == s;
    assert SanitizedText(s, true) == r;
    assert "" + r == r;
  }

  /** Any other character behind the percent sign makes no directive: both are printed. */
  lemma PrintsUnknown(c: char, f: CStr, args: seq<Arg>)
    requires f == ['%', c] && !('0' <= c <= '9') && c !in {'-', '.', '#', '*', 'l'}
    requires c !in {'c', 'e', 's', 'd', 'u', 'o', 'p', 'x', '%'}
    ensures Formatted(f, args) == ['%', c]
  {
    var p := Verbatim([], [c]);
    assert c == f[1] && c in f;
    PieceFirst(p, []);
    assert PieceText(p) == ['%', c];
    ParseIsUnique(f, [p] + []);
    RenderFirst(p, [], args);
  }

  /** A percent sign at the end prints itself. */
  lemma PrintsLonePercent(f: CStr, args: seq<Arg>)
    requires f == "%"
    ensures Formatted(f, args) == "%"
  {
    var p := Verbatim([], []);
    PieceFirst(p, []);
    assert PieceText(p) == "%";
    ParseIsUnique(f, [p] + []);
    RenderFirst(p, [], args);
  }

  // ----- Errors -----

  lemma ErrorFormat(f: CStr, v: int)
    requires f == "%e"
    ensures Formatted(f, [Num(v)]) == ErrorText(ErrorNumber(v))
  {
    PlainFormat("", 'e', f, [Num(v)]);
    NothingBefore(ErrorText(ErrorNumber(v)));
  }

  /** The sign of an error does not matter. */
  lemma ErrorSign(f: CStr, v: int)
    requires f == "%e" && -2147483648 < v < 2147483648
    ensures ErrorNumber(-v) == ErrorNumber(v) >= 0
    ensures Formatted(f, [Num(-v)]) == Formatted(f, [Num(v)])
  {
    ErrorFormat(f, v);
    ErrorFormat(f, -v);
  }

  /** The names of the errors, of either sign. */
  lemma PrintsErrorName(f: CStr, v: int)
    requires f == "%e"
    ensures v == 1 || v == -1 ==> Formatted(f, [Num(v)]) == "unspecified error"
    ensures v == 2 || v == -2 ==> Formatted(f, [Num(v)]) == "bad process"
    ensures v == 3 || v == -3 ==> Formatted(f, [Num(v)]) == "invalid parameter"
    ensures v == 4 || v == -4 ==> Formatted(f, [Num(v)]) == "out of memory"
    ensures v == 5 || v == -5 ==> Formatted(f, [Num(v)]) == "out of processes"
    ensures v == 6 || v == -6 ==> Formatted(f, [Num(v)]) == "segmentation fault"
    ensures v == 8 || v == -8 ==> Formatted(f, [Num(v)]) == "invalid elf file"
    ensures v == 9 || v == -9 ==> Formatted(f, [Num(v)]) == "process is killed"
    ensures v == 10 || v == -10 ==> Formatted(f, [Num(v)]) == "panic failure"
  {
    ErrorFormat(f, v);
  }

  lemma Magnitude(v: int)
    requires -2147483648 < v < 2147483648
    ensures ErrorNumber(v) == if v < 0 then -v else v
  {
  }

  lemma Unnamed(n: nat)
    requires n !in {1, 2, 3, 4, 5, 6, 8, 9, 10}
    ensures ErrorString(n) == None
  {
  }

  lemma NumberedText(n: nat)
    requires ErrorString(n) == None
    ensures ErrorText(n) == "error " + Numeral(n, 10)
  {
    BareSigned(n);
  }

  /** All other errors are printed by their numbers. */
  lemma PrintsErrorNumber(f: CStr, v: int)
    requires f == "%e" && -2147483648 < v < 2147483648
    ensures var n := if v < 0 then -v else v;
      n !in {1, 2, 3, 4, 5, 6, 8, 9, 10} ==> Formatted(f, [Num(v)]) == "error " + Numeral(n, 10)
  {
    var n := if v < 0 then -v else v;
    ErrorFormat(f, v);
    Magnitude(v);
    if n !in {1, 2, 3, 4, 5, 6, 8, 9, 10} {
      Unnamed(n);
      NumberedText(n);
    }
  }

  // ----- Numerals read -----

  lemma TwoDigitValue(c: char, d: char, base: int)
    ensures Value([c, d], base) == DigitValue(c) * base + DigitValue(d)
  {
    ValueSnoc("", c, base);
    assert "" + [c] == [c];
    ValueSnoc([c], d, base);
    assert [c] + [d] == [c, d];
  }

  lemma ReadsTwo(s: string, base: int)
    requires |s| == 2 && 2 <= base <= 16 && IsDigit(s[0], base) && IsDigit(s[1], base)
    ensures Parsed(s, base) == (DigitValue(s[0]) * base + DigitValue(s[1]), 2)
  {
    TwoDigitValue(s[0], s[1], base);
    assert s == [s[0], s[1]] && s == "" + "" + s;
    SmallProduct(DigitValue(s[0]), base, DigitValue(s[1]));
    ParseDigits(s, "", "", s, base);
  }

  lemma SmallProduct(c: int, base: int, d: int)
    requires 2 <= base <= 16 && 0 <= c < base && 0 <= d < base
    ensures 0 <= c * base + d < 256
  {
    assert c * base <= 15 * base by {
      assert (15 - c) * base >= 0;
    }
    assert c * base >= 0;
  }

  /** Hexadecimal digits of either case. */
  lemma ReadsHex()
    ensures Parsed("1F", 16) == (31, 2) && Parsed("1f", 16) == (31, 2)
  {
    ReadsTwo("1F", 16);
    ReadsTwo("1f", 16);
  }

  /** A tab is a blank, and either sign may follow. */
  lemma ReadsSigns()
    ensures Parsed("\t42", 10) == (42, 3) && Parsed("+42", 10) == (42, 3) && Parsed("-42", 10) == (-42, 3)
  {
    TwoDigitValue('4', '2', 10);
    ParseDigits("\t42", "\t", "", "42", 10);
    ParseDigits("+42", "", "+", "42", 10);
    ParseDigits("-42", "", "-", "42", 10);
  }
}
