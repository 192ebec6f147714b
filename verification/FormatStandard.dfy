/** How the directives compare with section 7.21.6.1 of ISO/IEC 9899:2011: exactly when a field comes
    out as the standard says. */
module FormatStandard {
  import opened Digits
  import opened Format
  import opened FormatGrammar
  import opened FormatRender
  import opened FormatFields

  // ----- A directive as the standard writes it -----

  /** Flags, width, a dot with a precision, and up to two times 'l'. The digits of a precision may
      begin with zeros; with no other digit behind them they are the precision 0. */
  datatype Spec = Spec(flags: seq<Mod>, width: Count, dot: bool, zeros: nat, precision: Count, longs: nat)

  ghost predicate Written(c: Count) {
    c.Fixed? ==> c.n > 0
  }

  ghost predicate ValidSpec(sp: Spec) {
    && (forall i :: 0 <= i < |sp.flags| ==> sp.flags[i] in {Minus, Zero, Alt})
    && Written(sp.width) && Written(sp.precision)
    && (!sp.dot ==> sp.zeros == 0 && sp.precision == NoCount)
    && (sp.precision == Given ==> sp.zeros == 0)
    && sp.longs <= 2
  }

  ghost function Copies(m: Mod, n: nat): (ms: seq<Mod>)
    ensures |ms| == n && forall i :: 0 <= i < n ==> ms[i] == m
  {
    if n == 0 then [] else [m] + Copies(m, n - 1)
  }

  ghost function DotMods(dot: bool): seq<Mod> {
    if dot then [Dot] else []
  }

  /** The modifiers that vprintfmt makes of such a directive: zeros after the dot are pad flags. */
  ghost function Mods(sp: Spec): seq<Mod> {
    sp.flags + (CountMods(sp.width) +
    (DotMods(sp.dot) + (Copies(Zero, sp.zeros) + (CountMods(sp.precision) + Copies(Long, sp.longs)))))
  }

  // ----- The field that the code makes of it -----

  lemma {:induction false} ApplyFlags(fld: Field, flags: seq<Mod>, ms: seq<Mod>, args: seq<Arg>)
    requires forall i :: 0 <= i < |flags| ==> flags[i] in {Minus, Zero, Alt}
    ensures ApplyMods(fld, flags + ms, args) ==
            ApplyMods(fld.(padc := LastPad(flags, fld.padc), alt := fld.alt || Alt in flags), ms, args)
    decreases |flags|
  {
    if flags == [] {
      assert flags + ms == ms;
    } else {
      var (m, tail) := (flags[0], flags[1..]);
      assert flags == [m] + tail && (flags + ms)[1..] == tail + ms;
      LastPadFirst(m, tail, fld.padc);
      ApplyFlags(ApplyMod(fld, m, args).0, tail, ms, args);
    }
  }

  lemma {:induction false} ApplyZeros(fld: Field, n: nat, ms: seq<Mod>, args: seq<Arg>)
    ensures ApplyMods(fld, Copies(Zero, n) + ms, args) ==
            ApplyMods(if n > 0 then fld.(padc := '0') else fld, ms, args)
    decreases n
  {
    if n == 0 {
      assert Copies(Zero, n) + ms == ms;
    } else {
      assert (Copies(Zero, n) + ms)[1..] == Copies(Zero, n - 1) + ms;
      ApplyZeros(fld.(padc := '0'), n - 1, ms, args);
    }
  }

  lemma {:induction false} ApplyLongs(fld: Field, n: nat, args: seq<Arg>)
    ensures ApplyMods(fld, Copies(Long, n), args) == (fld.(lflag := fld.lflag + n), args)
    decreases n
  {
    if n > 0 {
      assert Copies(Long, n)[1..] == Copies(Long, n - 1);
      ApplyLongs(fld.(lflag := fld.lflag + 1), n - 1, args);
    }
  }

  /** The pad character: zeros after the dot come last. */
  ghost function Pad(sp: Spec): char {
    if sp.zeros > 0 then '0' else LastPad(sp.flags, ' ')
  }

  /** Width and precision as given, read from the arguments where a star stands, and the arguments
      left for the conversion. */
  ghost function Width(sp: Spec, args: seq<Arg>): Option<int> {
    CountValue(sp.width, args).0
  }

  ghost function Precision(sp: Spec, args: seq<Arg>): Option<int> {
    CountValue(sp.precision, CountValue(sp.width, args).1).0
  }

  ghost function Rest(sp: Spec, args: seq<Arg>): seq<Arg> {
    CountValue(sp.precision, CountValue(sp.width, args).1).1
  }

  /** The width that the code pads to: a negative one is none. */
  ghost function CodeWidth(sp: Spec, args: seq<Arg>): nat {
    var w := Width(sp, args);
    if w.Some? && w.value >= 0 then w.value else 0
  }

  ghost function Set(fld: Field, v: Option<int>): Field {
    if v.Some? then SetNumber(fld, v.value) else fld
  }

  ghost function AfterDot(fld: Field, dot: bool): Field {
    if dot && fld.width < 0 then fld.(width := 0) else fld
  }

  ghost function SpecField(sp: Spec, args: seq<Arg>): Field {
    var fld0 := Field(LastPad(sp.flags, ' '), -1, -1, 0, Alt in sp.flags);
    var fld1 := AfterDot(Set(fld0, Width(sp, args)), sp.dot);
    Set(fld1.(padc := Pad(sp)), Precision(sp, args)).(lflag := sp.longs)
  }

  lemma SpecApplies(sp: Spec, args: seq<Arg>)
    requires ValidSpec(sp)
    ensures ApplyMods(NO_FIELD, Mods(sp), args) == (SpecField(sp, args), Rest(sp, args))
  {
    var tail := CountMods(sp.precision) + Copies(Long, sp.longs);
    var fld0 := Field(LastPad(sp.flags, ' '), -1, -1, 0, Alt in sp.flags);
    var fld1 := Set(fld0, Width(sp, args));
    var rest := CountValue(sp.width, args).1;
    var fld2 := AfterDot(fld1, sp.dot);
    ApplyFlags(NO_FIELD, sp.flags, CountMods(sp.width) + (DotMods(sp.dot) + (Copies(Zero, sp.zeros) + tail)), args);
    ApplyCount(fld0, sp.width, DotMods(sp.dot) + (Copies(Zero, sp.zeros) + tail), args);
    ApplyDot(fld1, sp.dot, Copies(Zero, sp.zeros) + tail, rest);
    ApplyZeros(fld2, sp.zeros, tail, rest);
    ApplyCount(fld2.(padc := Pad(sp)), sp.precision, Copies(Long, sp.longs), rest);
    ApplyLongs(Set(fld2.(padc := Pad(sp)), Precision(sp, args)), sp.longs, Rest(sp, args));
  }

  lemma SpecFieldIs(sp: Spec, args: seq<Arg>)
    requires ValidSpec(sp)
    ensures var fld := SpecField(sp, args);
      && fld.padc == Pad(sp) && fld.lflag == sp.longs && (fld.alt <==> Alt in sp.flags)
      && (if fld.width < 0 then 0 else fld.width) == CodeWidth(sp, args)
      && fld.precision == (if Precision(sp, args).Some? then Precision(sp, args).value else -1)
  {
  }

  // ----- What the standard asks for -----

  /** A negative width is the flag '-' and its magnitude. */
  ghost function StandardWidth(sp: Spec, args: seq<Arg>): nat {
    var w := Width(sp, args);
    if w.None? then 0 else if w.value < 0 then -w.value else w.value
  }

  ghost predicate LeftJustified(sp: Spec, args: seq<Arg>) {
    Minus in sp.flags || (Width(sp, args).Some? && Width(sp, args).value < 0)
  }

  /** A dot alone is the precision 0; a negative precision is none. */
  ghost function StandardPrecision(sp: Spec, args: seq<Arg>): Option<nat> {
    var p := Precision(sp, args);
    if !sp.dot then None
    else if p.None? then Some(0)
    else if p.value < 0 then None else Some(p.value)
  }

  /** The flag '0' counts for numbers without '-' and without a precision. */
  ghost predicate ZeroPads(sp: Spec, args: seq<Arg>) {
    Zero in sp.flags && !LeftJustified(sp, args) && StandardPrecision(sp, args).None?
  }

  ghost function StandardChar(d: nat): char
    requires d < 16
  {
    if d < 10 then ('0' as int + d) as char else ('a' as int + (d - 10)) as char
  }

  /** The number in the given base, with the letters abcdef for the digits from 10 on. */
  ghost function StandardNumeral(n: nat, base: nat): string
    requires 2 <= base <= 16
  {
    if n < base then [StandardChar(n)]
    else StandardNumeral(Quotient(n, base), base) + [StandardChar(Remainder(n, base))]
  }

  /** The digits, at least as many as the precision; no character for the value 0 with the precision
      0; and, where a leading zero is forced, one more zero if there is none. */
  ghost function StandardDigits(n: nat, base: nat, precision: Option<nat>, leadingZero: bool): string
    requires 2 <= base <= 16
  {
    var d := if n == 0 && precision == Some(0) then "" else StandardNumeral(n, base);
    var s := Repeat('0', (if precision.Some? then precision.value else 1) - |d|) + d;
    if leadingZero && (s == "" || s[0] != '0') then "0" + s else s
  }

  /** Sign or prefix and digits fill the width together: spaces go before or behind them, zeros
      between them. */
  ghost function StandardField(prefix: string, digits: string, width: nat, left: bool, zeros: bool): string {
    var n := width - |prefix| - |digits|;
    if left then prefix + digits + Repeat(' ', n)
    else if zeros then prefix + Repeat('0', n) + digits
    else Repeat(' ', n) + prefix + digits
  }

  ghost function StandardNumber(sp: Spec, args: seq<Arg>, prefix: string, n: nat, base: nat,
                                leadingZero: bool): string
    requires 2 <= base <= 16
  {
    StandardField(prefix, StandardDigits(n, base, StandardPrecision(sp, args), leadingZero),
                  StandardWidth(sp, args), LeftJustified(sp, args), ZeroPads(sp, args))
  }

  ghost function StandardSigned(sp: Spec, args: seq<Arg>): string {
    var v := GetInt(NextInt(Rest(sp, args)).0, sp.longs);
    StandardNumber(sp, args, if v < 0 then "-" else "", if v < 0 then -v else v, 10, false)
  }

  /** The flag '#' puts a zero before octal and a prefix before hexadecimal digits other than 0. */
  ghost function StandardUnsigned(sp: Spec, conv: char, args: seq<Arg>): string {
    var n := GetUint(NextInt(Rest(sp, args)).0, sp.longs);
    var alt := Alt in sp.flags;
    StandardNumber(sp, args, if conv == 'x' && alt && n != 0 then "0x" else "", n, BaseOf(conv), conv == 'o' && alt)
  }

  // ----- Numbers -----

  /** How many zeros the standard puts before the numeral. */
  ghost function ExtraZeros(n: nat, base: nat, precision: Option<nat>, leadingZero: bool): nat
    requires 2 <= base <= 16
  {
    var z := if precision.Some? then Max(0, precision.value - |Numeral(n, base)|) else 0;
    if leadingZero && z == 0 && n != 0 then 1 else z
  }

  ghost predicate NoDigits(n: nat, precision: Option<nat>, leadingZero: bool) {
    n == 0 && precision == Some(0) && !leadingZero
  }

  lemma SameChar(d: nat)
    requires d < 16
    ensures StandardChar(d) == DIGIT_CHARS[d]
  {
  }

  lemma {:induction false} SameNumeral(n: nat, base: nat)
    requires 2 <= base <= 16
    ensures StandardNumeral(n, base) == Numeral(n, base)
  {
    if n < base {
      SameChar(n);
    } else {
      SameNumeral(Quotient(n, base), base);
      SameChar(Remainder(n, base));
    }
  }

  lemma DigitsShape(n: nat, base: nat, precision: Option<nat>, leadingZero: bool)
    requires 2 <= base <= 16
    ensures StandardDigits(n, base, precision, leadingZero) ==
            if NoDigits(n, precision, leadingZero) then ""
            else Repeat('0', ExtraZeros(n, base, precision, leadingZero)) + Numeral(n, base)
  {
    ZeroNumeral(base);
    SameNumeral(n, base);
    if n != 0 || precision != Some(0) {
      SomeDigits(n, base, precision, leadingZero);
    } else {
      assert "0" + "" == "0" && Repeat('0', 0) + "" == "";
      assert Repeat('0', 0) + "0" == "0";
    }
  }

  lemma SomeDigits(n: nat, base: nat, precision: Option<nat>, leadingZero: bool)
    requires 2 <= base <= 16 && (n != 0 || precision != Some(0)) && (n == 0 ==> Numeral(n, base) == "0")
    ensures StandardDigits(n, base, precision, leadingZero) ==
            Repeat('0', ExtraZeros(n, base, precision, leadingZero)) + Numeral(n, base)
  {
    var d := Numeral(n, base);
    SameNumeral(n, base);
    RepeatMax('0', (if precision.Some? then precision.value else 1) - |d|);
    OneZero(d);
    assert Repeat('0', 0) + d == d;
  }

  lemma ZeroNumeral(base: nat)
    requires 2 <= base <= 16
    ensures Numeral(0, base) == "0"
  {
  }

  lemma RepeatMax(c: char, n: int)
    ensures Repeat(c, n) == Repeat(c, Max(0, n))
  {
  }

  lemma OneZero(s: string)
    ensures Repeat('0', 1) + s == "0" + s
  {
  }

  /** Spaces, prefix, zeros, numeral, spaces. */
  ghost function Layout(a: nat, prefix: string, z: nat, d: string, b: nat): string {
    (Repeat(' ', a) + prefix + Repeat('0', z)) + d + Repeat(' ', b)
  }

  lemma RepeatAdd(c: char, m: nat, n: nat)
    ensures Repeat(c, m) + Repeat(c, n) == Repeat(c, m + n)
  {
    assert |Repeat(c, m) + Repeat(c, n)| == |Repeat(c, m + n)|;
  }

  lemma Regroup(x: string, p: string, y: string, z: string, d: string, e: string)
    ensures (p + (z + d)) + e == ((("" + p) + z) + d) + e
    ensures (p + y) + (z + d) == ((("" + p) + (y + z)) + d) + ""
    ensures (x + p) + (z + d) == (((x + p) + z) + d) + ""
  {
    assert "" + p == p;
    assert p + (z + d) == (p + z) + d;
    assert (p + y) + (z + d) == (p + (y + z)) + d;
    assert (x + p) + (z + d) == ((x + p) + z) + d;
  }

  lemma FieldIsLayout(prefix: string, z: nat, d: string, width: nat, left: bool, zeros: bool)
    ensures var n := Max(0, width - |prefix| - z - |d|);
      StandardField(prefix, Repeat('0', z) + d, width, left, zeros) ==
      Layout(if left || zeros then 0 else n, prefix, if zeros && !left then n + z else z, d, if left then n else 0)
  {
    var n := Max(0, width - |prefix| - z - |d|);
    FieldPads(prefix, Repeat('0', z) + d, width, left, zeros, n);
    LayoutForms(prefix, z, d, n);
  }

  lemma FieldPads(prefix: string, body: string, width: nat, left: bool, zeros: bool, n: nat)
    requires n == Max(0, width - |prefix| - |body|)
    ensures StandardField(prefix, body, width, left, zeros) ==
            if left then prefix + body + Repeat(' ', n)
            else if zeros then prefix + Repeat('0', n) + body
            else Repeat(' ', n) + prefix + body
  {
    RepeatMax(' ', width - |prefix| - |body|);
    RepeatMax('0', width - |prefix| - |body|);
  }

  lemma LayoutForms(prefix: string, z: nat, d: string, n: nat)
    ensures prefix + (Repeat('0', z) + d) + Repeat(' ', n) == Layout(0, prefix, z, d, n)
    ensures prefix + Repeat('0', n) + (Repeat('0', z) + d) == Layout(0, prefix, n + z, d, 0)
    ensures Repeat(' ', n) + prefix + (Repeat('0', z) + d) == Layout(n, prefix, z, d, 0)
  {
    RepeatAdd('0', n, z);
    Regroup(Repeat(' ', n), prefix, Repeat('0', n), Repeat('0', z), d, Repeat(' ', n));
  }

  lemma SameBefore(x: string, y: string, d: string)
    ensures x + d == y + d <==> x == y
  {
    if x + d == y + d {
      assert x == (x + d)[..|x|] && y == (y + d)[..|y|];
    }
  }

  lemma EndsInSpace(x: string, d: string, b: nat, y: string)
    requires |d| > 0 && d[|d| - 1] != ' ' && b > 0
    ensures x + d != y + Repeat(' ', b)
  {
    var (l, r) := (x + d, y + Repeat(' ', b));
    assert l[|l| - 1] == d[|d| - 1] && r[|r| - 1] == ' ';
  }

  /** When the padding of the code, k characters between sign and numeral, is a spaces before the
      sign and z zeros behind it. */
  ghost predicate SamePads(sign: bool, k: nat, padc: char, a: nat, z: nat) {
    k == a + z && (k == 0 || (padc == '0' && a == 0) || (padc == ' ' && z == 0 && !sign))
  }

  lemma SameHeads(sign: bool, k: nat, padc: char, a: nat, z: nat)
    requires padc == ' ' || padc == '0' || padc == '-'
    ensures var s := if sign then "-" else "";
      s + Repeat(padc, k) == Repeat(' ', a) + s + Repeat('0', z) <==> SamePads(sign, k, padc, a, z)
  {
    var s := if sign then "-" else "";
    var (l, r) := (s + Repeat(padc, k), Repeat(' ', a) + s + Repeat('0', z));
    if SamePads(sign, k, padc, a, z) {
      assert |l| == |r| && forall i :: 0 <= i < |l| ==> l[i] == r[i];
    } else if k == a + z {
      if sign && a > 0 {
        assert l[0] == '-' && r[0] == ' ';
      } else if a > 0 && padc != ' ' {
        assert l[0] == padc && r[0] == ' ';
      } else {
        assert l[|l| - 1] == padc && r[|r| - 1] == '0';
      }
    } else {
      assert |l| != |r|;
    }
  }

  lemma HexPrefixDiffers(k: nat, padc: char, a: nat, z: nat)
    requires padc == ' ' || padc == '0' || padc == '-'
    ensures Repeat(padc, k) != Repeat(' ', a) + "0x" + Repeat('0', z)
  {
    var r := Repeat(' ', a) + "0x" + Repeat('0', z);
    assert r[a + 1] == 'x';
  }

  /** The field of the code and a layout of the standard with the same numeral. */
  lemma LayoutAgrees(sign: bool, prefix: string, k: nat, padc: char, a: nat, z: nat, d: string, b: nat)
    requires |d| > 0 && d[|d| - 1] != ' ' && (padc == ' ' || padc == '0' || padc == '-')
    requires if sign then prefix == "-" else prefix == "" || prefix == "0x"
    ensures var s := if sign then "-" else "";
      (s + Repeat(padc, k)) + d == Layout(a, prefix, z, d, b)
      <==>
      b == 0 && prefix == s && SamePads(sign, k, padc, a, z)
  {
    var s := if sign then "-" else "";
    var head := Repeat(' ', a) + prefix + Repeat('0', z);
    if b > 0 {
      EndsInSpace(s + Repeat(padc, k), d, b, head + d);
    } else {
      assert head + d + Repeat(' ', 0) == head + d;
      SameBefore(s + Repeat(padc, k), head, d);
      if prefix == "0x" {
        HexPrefixDiffers(k, padc, a, z);
        assert s + Repeat(padc, k) == Repeat(padc, k);
      } else {
        SameHeads(sign, k, padc, a, z);
      }
    }
  }

  /** No spaces are asked for behind the number, sign or prefix is that of the code, and what the
      code pads by is what the standard pads by, in the same place and of the same characters. */
  ghost predicate PadsMeet(sign: bool, prefix: string, k: nat, padc: char, left: bool, zeros: bool, pad: nat, z: nat) {
    && prefix == (if sign then "-" else "")
    && (left ==> pad == 0)
    && SamePads(sign, k, padc, if zeros then 0 else pad, if zeros then pad + z else z)
  }

  lemma PadsDecide(sign: bool, prefix: string, k: nat, padc: char, left: bool, zeros: bool, pad: nat, z: nat,
                   d: string, code: string, standard: string)
    requires |d| > 0 && d[|d| - 1] != ' ' && (padc == ' ' || padc == '0' || padc == '-') && !(left && zeros)
    requires if sign then prefix == "-" else prefix == "" || prefix == "0x"
    requires code == ((if sign then "-" else "") + Repeat(padc, k)) + d
    requires standard == Layout(if left || zeros then 0 else pad, prefix, if zeros then pad + z else z, d,
                                if left then pad else 0)
    ensures code == standard <==> PadsMeet(sign, prefix, k, padc, left, zeros, pad, z)
  {
    LayoutAgrees(sign, prefix, k, padc, if left || zeros then 0 else pad, if zeros then pad + z else z,
                 d, if left then pad else 0);
  }

  /** How much the standard pads, sign, prefix and precision reckoned in. */
  ghost function StandardPad(sp: Spec, args: seq<Arg>, prefix: string, n: nat, base: nat, leadingZero: bool): nat
    requires 2 <= base <= 16
  {
    Max(0, StandardWidth(sp, args) - |prefix| - ExtraZeros(n, base, StandardPrecision(sp, args), leadingZero)
           - |Numeral(n, base)|)
  }

  ghost function CodePad(sp: Spec, args: seq<Arg>, n: nat, base: nat): nat
    requires 2 <= base <= 16
  {
    Max(0, CodeWidth(sp, args) - |Numeral(n, base)|)
  }

  /** When a number comes out as the standard says: it has digits, and the paddings meet. */
  ghost predicate NumberMeets(sp: Spec, args: seq<Arg>, sign: bool, prefix: string, n: nat, base: nat,
                              leadingZero: bool)
    requires 2 <= base <= 16
  {
    && !NoDigits(n, StandardPrecision(sp, args), leadingZero)
    && PadsMeet(sign, prefix, CodePad(sp, args, n, base), Pad(sp), LeftJustified(sp, args), ZeroPads(sp, args),
                StandardPad(sp, args, prefix, n, base, leadingZero),
                ExtraZeros(n, base, StandardPrecision(sp, args), leadingZero))
  }

  lemma BlankField(s: string, width: nat, left: bool)
    requires |s| > 0 && s[|s| - 1] != ' '
    ensures s != StandardField("", "", width, left, false)
  {
    var r := StandardField("", "", width, left, false);
    assert r == Repeat(' ', width);
  }

  lemma LastOfNumeral(n: nat, base: nat)
    requires 2 <= base <= 16
    ensures var d := Numeral(n, base); d[|d| - 1] != ' '
  {
    NumeralDigits(n, base);
    var d := Numeral(n, base);
    assert IsDigit(d[|d| - 1], base);
  }

  lemma PadIs(sp: Spec)
    ensures Pad(sp) == ' ' || Pad(sp) == '0' || Pad(sp) == '-'
  {
    LastPadIs(sp.flags, ' ');
  }

  lemma CodeShape(sp: Spec, args: seq<Arg>, s: string, n: nat, base: nat, width: int)
    requires 2 <= base <= 16 && (if width < 0 then 0 else width) == CodeWidth(sp, args)
    ensures s + NumField(n, base, width, Pad(sp)) ==
            (s + Repeat(Pad(sp), CodePad(sp, args, n, base))) + Numeral(n, base)
  {
    var d := Numeral(n, base);
    RepeatMax(Pad(sp), width - |d|);
    assert s + (Repeat(Pad(sp), width - |d|) + d) == (s + Repeat(Pad(sp), width - |d|)) + d;
  }

  lemma StandardShape(sp: Spec, args: seq<Arg>, prefix: string, n: nat, base: nat, leadingZero: bool)
    requires 2 <= base <= 16 && !NoDigits(n, StandardPrecision(sp, args), leadingZero)
    ensures var (left, zeros) := (LeftJustified(sp, args), ZeroPads(sp, args));
      var z := ExtraZeros(n, base, StandardPrecision(sp, args), leadingZero);
      var pad := StandardPad(sp, args, prefix, n, base, leadingZero);
      StandardNumber(sp, args, prefix, n, base, leadingZero) ==
      Layout(if left || zeros then 0 else pad, prefix, if zeros then pad + z else z, Numeral(n, base),
             if left then pad else 0)
  {
    DigitsShape(n, base, StandardPrecision(sp, args), leadingZero);
    FieldIsLayout(prefix, ExtraZeros(n, base, StandardPrecision(sp, args), leadingZero), Numeral(n, base),
                  StandardWidth(sp, args), LeftJustified(sp, args), ZeroPads(sp, args));
  }

  lemma NoDigitsDiffer(sp: Spec, args: seq<Arg>, code: string, n: nat, base: nat, leadingZero: bool)
    requires 2 <= base <= 16 && NoDigits(n, StandardPrecision(sp, args), leadingZero)
    requires |code| > 0 && code[|code| - 1] != ' '
    ensures code != StandardNumber(sp, args, "", n, base, leadingZero)
  {
    DigitsShape(n, base, StandardPrecision(sp, args), leadingZero);
    BlankField(code, StandardWidth(sp, args), LeftJustified(sp, args));
  }

  lemma NumberAgrees(sp: Spec, args: seq<Arg>, sign: bool, prefix: string, n: nat, base: nat, leadingZero: bool,
                     width: int)
    requires 2 <= base <= 16 && (n == 0 ==> prefix == "")
    requires if sign then prefix == "-" else prefix == "" || prefix == "0x"
    requires (if width < 0 then 0 else width) == CodeWidth(sp, args)
    ensures (if sign then "-" else "") + NumField(n, base, width, Pad(sp)) ==
            StandardNumber(sp, args, prefix, n, base, leadingZero)
            <==> NumberMeets(sp, args, sign, prefix, n, base, leadingZero)
  {
    var code := (if sign then "-" else "") + NumField(n, base, width, Pad(sp));
    CodeShape(sp, args, if sign then "-" else "", n, base, width);
    LastOfNumeral(n, base);
    if NoDigits(n, StandardPrecision(sp, args), leadingZero) {
      NoDigitsDiffer(sp, args, code, n, base, leadingZero);
    } else {
      StandardShape(sp, args, prefix, n, base, leadingZero);
      PadIs(sp);
      PadsDecide(sign, prefix, CodePad(sp, args, n, base), Pad(sp), LeftJustified(sp, args), ZeroPads(sp, args),
                 StandardPad(sp, args, prefix, n, base, leadingZero),
                 ExtraZeros(n, base, StandardPrecision(sp, args), leadingZero),
                 Numeral(n, base), code, StandardNumber(sp, args, prefix, n, base, leadingZero));
    }
  }

  lemma SignedCode(sp: Spec, f: CStr, args: seq<Arg>)
    requires ValidSpec(sp) && f == PieceText(Directive(Mods(sp), 'd'))
    ensures var v := GetInt(NextInt(Rest(sp, args)).0, sp.longs);
      Formatted(f, args) ==
      (if v < 0 then "-" else "") + NumField(if v < 0 then -v else v, 10, SpecField(sp, args).width, Pad(sp))
  {
    SpecWellFormed(sp);
    DirectiveFormat(Mods(sp), 'd', f, args);
    SpecApplies(sp, args);
    SpecFieldIs(sp, args);
    SignApart(GetInt(NextInt(Rest(sp, args)).0, sp.longs), SpecField(sp, args).width, Pad(sp));
  }

  lemma SignApart(v: int, width: int, padc: char)
    ensures SignedField(v, width, padc) ==
            (if v < 0 then "-" else "") + NumField(if v < 0 then -v else v, 10, width, padc)
  {
    NothingBefore(NumField(if v < 0 then -v else v, 10, width, padc));
  }

  lemma UnsignedCode(sp: Spec, conv: char, f: CStr, args: seq<Arg>)
    requires conv == 'u' || conv == 'o' || conv == 'x'
    requires ValidSpec(sp) && f == PieceText(Directive(Mods(sp), conv))
    ensures Formatted(f, args) ==
            NumField(GetUint(NextInt(Rest(sp, args)).0, sp.longs), BaseOf(conv), SpecField(sp, args).width, Pad(sp))
  {
    SpecWellFormed(sp);
    DirectiveFormat(Mods(sp), conv, f, args);
    SpecApplies(sp, args);
    SpecFieldIs(sp, args);
  }

  /** Exactly when "%d", with any flags, width, precision and length, prints what the standard says. */
  lemma SignedMeetsStandard(sp: Spec, f: CStr, args: seq<Arg>)
    requires ValidSpec(sp) && f == PieceText(Directive(Mods(sp), 'd'))
    ensures var v := GetInt(NextInt(Rest(sp, args)).0, sp.longs);
      Formatted(f, args) == StandardSigned(sp, args) <==>
      NumberMeets(sp, args, v < 0, if v < 0 then "-" else "", if v < 0 then -v else v, 10, false)
  {
    var v := GetInt(NextInt(Rest(sp, args)).0, sp.longs);
    SignedCode(sp, f, args);
    SpecFieldIs(sp, args);
    NumberAgrees(sp, args, v < 0, if v < 0 then "-" else "", if v < 0 then -v else v, 10, false,
                 SpecField(sp, args).width);
  }

  /** The same for the unsigned conversions. */
  lemma UnsignedMeetsStandard(sp: Spec, conv: char, f: CStr, args: seq<Arg>)
    requires conv == 'u' || conv == 'o' || conv == 'x'
    requires ValidSpec(sp) && f == PieceText(Directive(Mods(sp), conv))
    ensures var (n, alt) := (GetUint(NextInt(Rest(sp, args)).0, sp.longs), Alt in sp.flags);
      Formatted(f, args) == StandardUnsigned(sp, conv, args) <==>
      NumberMeets(sp, args, false, if conv == 'x' && alt && n != 0 then "0x" else "", n, BaseOf(conv),
                  conv == 'o' && alt)
  {
    var (n, alt) := (GetUint(NextInt(Rest(sp, args)).0, sp.longs), Alt in sp.flags);
    UnsignedCode(sp, conv, f, args);
    SpecFieldIs(sp, args);
    NumberAgrees(sp, args, false, if conv == 'x' && alt && n != 0 then "0x" else "", n, BaseOf(conv),
                 conv == 'o' && alt, SpecField(sp, args).width);
    NothingBefore(NumField(n, BaseOf(conv), SpecField(sp, args).width, Pad(sp)));
  }

  lemma NoNumberBefore(ms: seq<Mod>, rest: seq<Mod>)
    requires (forall i :: 0 <= i < |ms| ==> !ms[i].Number?) && WellFormedMods(rest)
    ensures WellFormedMods(ms + rest)
  {
    var all := ms + rest;
    forall i | 0 <= i < |all| && all[i].Number?
      ensures all[i].value > 0 && (i + 1 < |all| ==> !all[i + 1].Number? && !all[i + 1].Zero?)
    {
      assert all[i] == rest[i - |ms|];
      assert i + 1 < |all| ==> all[i + 1] == rest[i + 1 - |ms|];
    }
  }

  lemma CountBefore(c: Count, rest: seq<Mod>)
    requires Written(c) && WellFormedMods(rest) && (rest != [] ==> !rest[0].Number? && !rest[0].Zero?)
    ensures WellFormedMods(CountMods(c) + rest)
  {
    if c.Fixed? {
      ModFirst(Number(c.n), rest);
    } else {
      NoNumberBefore(CountMods(c), rest);
    }
  }

  lemma SpecWellFormed(sp: Spec)
    requires ValidSpec(sp)
    ensures WellFormedMods(Mods(sp))
  {
    var longs := Copies(Long, sp.longs);
    var digits := Copies(Zero, sp.zeros) + (CountMods(sp.precision) + longs);
    CountBefore(sp.precision, longs);
    NoNumberBefore(Copies(Zero, sp.zeros), CountMods(sp.precision) + longs);
    NoNumberBefore(DotMods(sp.dot), digits);
    CountBefore(sp.width, DotMods(sp.dot) + digits);
    NoNumberBefore(sp.flags, CountMods(sp.width) + (DotMods(sp.dot) + digits));
  }

  // ----- Numbers without precision -----

  /** A directive with flags and at most a written width. */
  ghost predicate Simple(sp: Spec) {
    ValidSpec(sp) && !sp.dot && sp.width != Given
  }

  lemma {:induction false} PadOfFlags(flags: seq<Mod>)
    requires Minus !in flags
    ensures LastPad(flags, ' ') == if Zero in flags then '0' else ' '
    decreases |flags|
  {
    if flags != [] {
      var (init, last) := (flags[..|flags| - 1], flags[|flags| - 1]);
      assert flags == init + [last];
      PadOfFlags(init);
    }
  }

  lemma SimpleMeets(sp: Spec, args: seq<Arg>, sign: bool, n: nat, base: nat, leadingZero: bool)
    requires Simple(sp) && 2 <= base <= 16 && (leadingZero ==> n == 0)
    ensures NumberMeets(sp, args, sign, if sign then "-" else "", n, base, leadingZero) <==>
            CodeWidth(sp, args) <= |Numeral(n, base)| || (!sign && Minus !in sp.flags)
  {
    if Minus !in sp.flags {
      PadOfFlags(sp.flags);
    }
  }

  lemma SimpleOctal(sp: Spec, args: seq<Arg>, n: nat)
    requires Simple(sp) && n > 0
    ensures var (w, d) := (CodeWidth(sp, args), |Numeral(n, 8)|);
      NumberMeets(sp, args, false, "", n, 8, true) <==>
      w > d && Pad(sp) == '0' && (Minus !in sp.flags || w == d + 1)
  {
    if Minus !in sp.flags {
      PadOfFlags(sp.flags);
    }
  }

  /** "%d" with flags and width is right exactly when the width does not matter, or the number is not
      negative and there is no '-': the sign is not reckoned in, and '-' does not justify. */
  lemma SimpleSigned(sp: Spec, f: CStr, args: seq<Arg>)
    requires Simple(sp) && f == PieceText(Directive(Mods(sp), 'd'))
    ensures var v := GetInt(NextInt(args).0, sp.longs);
      Formatted(f, args) == StandardSigned(sp, args) <==>
      CodeWidth(sp, args) <= |Numeral(if v < 0 then -v else v, 10)| || (v >= 0 && Minus !in sp.flags)
  {
    var v := GetInt(NextInt(args).0, sp.longs);
    SignedMeetsStandard(sp, f, args);
    SimpleMeets(sp, args, v < 0, if v < 0 then -v else v, 10, false);
  }

  /** The unsigned conversions are right exactly when the width does not matter or there is no '-',
      and '#' asks for nothing; the zero it asks for in octal may be one that '0' pads by. */
  lemma SimpleUnsigned(sp: Spec, conv: char, f: CStr, args: seq<Arg>)
    requires conv == 'u' || conv == 'o' || conv == 'x'
    requires Simple(sp) && f == PieceText(Directive(Mods(sp), conv))
    ensures var n := GetUint(NextInt(args).0, sp.longs);
      var (w, d) := (CodeWidth(sp, args), |Numeral(n, BaseOf(conv))|);
      Formatted(f, args) == StandardUnsigned(sp, conv, args) <==>
      if conv == 'u' || Alt !in sp.flags || n == 0 then w <= d || Minus !in sp.flags
      else conv == 'o' && w > d && Pad(sp) == '0' && (Minus !in sp.flags || w == d + 1)
  {
    var n := GetUint(NextInt(args).0, sp.longs);
    UnsignedMeetsStandard(sp, conv, f, args);
    if conv == 'u' || Alt !in sp.flags || n == 0 {
      SimpleMeets(sp, args, false, n, BaseOf(conv), conv == 'o' && Alt in sp.flags);
    } else if conv == 'o' {
      SimpleOctal(sp, args, n);
    }
  }

  // ----- Strings and characters -----

  ghost function Justified(s: string, width: nat, left: bool): string {
    if left then s + Repeat(' ', width - |s|) else Repeat(' ', width - |s|) + s
  }

  /** A missing string, which the standard leaves undefined, is what the code prints for it. */
  ghost function StringOf(sp: Spec, args: seq<Arg>): string {
    var t := NextStr(Rest(sp, args)).0;
    if t.None? then "(null)" else t.value
  }

  ghost function StandardString(sp: Spec, args: seq<Arg>): string {
    var (s, p) := (StringOf(sp, args), StandardPrecision(sp, args));
    Justified(s[..Shown(s, if p.Some? then p.value else -1)], StandardWidth(sp, args), LeftJustified(sp, args))
  }

  ghost predicate AllSpaces(s: string) {
    forall i :: 0 <= i < |s| ==> s[i] == ' '
  }

  /** When a string comes out as the standard says. A dot with no number behind it hides the string
      in the standard and shows it in the code: it must be all spaces, and fill the width. Otherwise
      a negative width, which the code takes for none, and the zeros that it pads by after a '0'
      behind the dot must not matter. */
  ghost predicate StringMeets(sp: Spec, args: seq<Arg>) {
    var (s, p) := (StringOf(sp, args), Precision(sp, args));
    if sp.dot && p.None? then
      && AllSpaces(s) && Max(CodeWidth(sp, args), |s|) == StandardWidth(sp, args)
      && (sp.zeros == 0 || CodeWidth(sp, args) <= |s|)
    else
      (CodeWidth(sp, args) == StandardWidth(sp, args) && sp.zeros == 0)
      || StandardWidth(sp, args) <= Shown(s, if p.Some? then p.value else -1)
  }

  /** The code's field of the text t, padded with c or behind. */
  ghost function CodeText(t: string, width: int, padc: char): string {
    if padc != '-' then Repeat(padc, width - |t|) + t else t + Repeat(' ', width - |t|)
  }

  lemma HiddenAgrees(s: string, w: nat, padc: char, width: nat, left: bool)
    requires padc == ' ' || padc == '0' || padc == '-'
    ensures CodeText(s, w, padc) == Justified("", width, left) <==>
            AllSpaces(s) && Max(w, |s|) == width && (padc != '0' || w <= |s|)
  {
    var (l, r) := (CodeText(s, w, padc), Justified("", width, left));
    assert |l| == Max(w, |s|) && |r| == width && AllSpaces(r);
    assert padc == '0' && w > |s| ==> l[0] == '0';
    if l == r {
      forall i | 0 <= i < |s| ensures s[i] == ' ' {
        assert s[i] == if padc == '-' then l[i] else l[|l| - |s| + i];
      }
    } else if |l| == |r| {
      var i :| 0 <= i < |l| && l[i] != r[i];
    }
  }

  lemma ZerosDiffer(t: string, w: nat, left: bool)
    requires w > |t|
    ensures Repeat('0', w - |t|) + t != Justified(t, w, left)
  {
    var (z, b) := (Repeat('0', w - |t|), Repeat(' ', w - |t|));
    if left {
      assert multiset(z + t)['0'] == multiset(z)['0'] + multiset(t)['0'];
      assert multiset(t + b)['0'] == multiset(t)['0'] + multiset(b)['0'];
      assert z[0] in multiset(z) && '0' !in multiset(b);
    } else {
      assert (z + t)[0] == '0' && (b + t)[0] == ' ';
    }
  }

  /** w is the width of the code and width that of the standard: either the same or none. */
  lemma ShownAgrees(t: string, w: nat, padc: char, width: nat, left: bool)
    requires padc == ' ' || padc == '0' || padc == '-'
    requires w == width || w == 0
    requires padc != '0' && w == width ==> (left <==> padc == '-')
    ensures CodeText(t, w, padc) == Justified(t, width, left) <==> width <= |t| || (w == width && padc != '0')
  {
    assert "" + t == t && t + "" == t;
    if width <= |t| || (w == width && padc != '0') {
    } else if w == width {
      ZerosDiffer(t, w, left);
    } else {
      assert |CodeText(t, w, padc)| == |t| && |Justified(t, width, left)| == width;
    }
  }

  /** The pad character when the only flag is '-'. */
  lemma {:induction false} OnlyMinus(flags: seq<Mod>)
    requires forall i :: 0 <= i < |flags| ==> flags[i] == Minus
    ensures LastPad(flags, ' ') == if Minus in flags then '-' else ' '
  {
    assert flags != [] ==> flags[|flags| - 1] == Minus;
  }

  /** Exactly when "%s" prints what the standard says. The flags '0' and '#' and a length have no
      meaning in the standard here. */
  lemma StringMeetsStandard(sp: Spec, f: CStr, args: seq<Arg>)
    requires ValidSpec(sp) && sp.longs == 0 && f == PieceText(Directive(Mods(sp), 's'))
    requires forall i :: 0 <= i < |sp.flags| ==> sp.flags[i] == Minus
    ensures Formatted(f, args) == StandardString(sp, args) <==> StringMeets(sp, args)
  {
    StringFormat(sp, f, args);
    OnlyMinus(sp.flags);
    var (s, p) := (StringOf(sp, args), Precision(sp, args));
    var (w, width, left) := (CodeWidth(sp, args), StandardWidth(sp, args), LeftJustified(sp, args));
    if sp.dot && p.None? {
      assert s[..0] == "" && s[..|s|] == s;
      HiddenAgrees(s, w, Pad(sp), width, left);
    } else {
      ShownAgrees(s[..Shown(s, if p.Some? then p.value else -1)], w, Pad(sp), width, left);
    }
  }

  lemma StringFormat(sp: Spec, f: CStr, args: seq<Arg>)
    requires ValidSpec(sp) && Alt !in sp.flags && f == PieceText(Directive(Mods(sp), 's'))
    ensures var (s, p) := (StringOf(sp, args), Precision(sp, args));
      Formatted(f, args) == CodeText(s[..Shown(s, if p.Some? then p.value else -1)], CodeWidth(sp, args), Pad(sp))
  {
    SpecWellFormed(sp);
    DirectiveFormat(Mods(sp), 's', f, args);
    SpecApplies(sp, args);
    SpecFieldIs(sp, args);
    PlainField(StringOf(sp, args), SpecField(sp, args), CodeWidth(sp, args));
  }

  lemma PlainField(s: string, fld: Field, w: nat)
    requires !fld.alt && w == if fld.width < 0 then 0 else fld.width
    ensures StrField(s, fld) == CodeText(s[..Shown(s, fld.precision)], w, fld.padc)
  {
    var t := s[..Shown(s, fld.precision)];
    assert SanitizedText(t, false) == t;
    RepeatMax(fld.padc, fld.width - |t|);
    RepeatMax(fld.padc, w - |t|);
    RepeatMax(' ', fld.width - |t|);
    RepeatMax(' ', w - |t|);
  }

  /** "%c" ignores its width: it is right exactly when that is at most one. */
  lemma CharMeetsStandard(sp: Spec, f: CStr, args: seq<Arg>)
    requires ValidSpec(sp) && !sp.dot && sp.longs == 0 && f == PieceText(Directive(Mods(sp), 'c'))
    ensures Formatted(f, args) ==
            Justified([ToChar(NextInt(Rest(sp, args)).0)], StandardWidth(sp, args), LeftJustified(sp, args))
            <==> StandardWidth(sp, args) <= 1
  {
    var c := [ToChar(NextInt(Rest(sp, args)).0)];
    SpecWellFormed(sp);
    DirectiveFormat(Mods(sp), 'c', f, args);
    SpecApplies(sp, args);
    assert Formatted(f, args) == c;
    assert |Justified(c, StandardWidth(sp, args), LeftJustified(sp, args))| == Max(1, StandardWidth(sp, args));
    assert "" + c == c && c + "" == c;
  }

  // ----- Inputs on which they differ -----

  lemma FortyTwo()
    ensures Numeral(42, 10) == "42"
  {
    NumeralUnique("42", 42, 10);
  }

  lemma LeftOfTwo(n: nat, d: string)
    requires d == Numeral(n, 10) && |d| == 2
    ensures SignedField(n, 5, '-') == "---" + d && StandardField("", d, 5, true, false) == d + "   "
  {
    assert Repeat('-', 3) == "---" && Repeat(' ', 3) == "   ";
    assert "" + d == d;
  }

  /** "%-5d" of 42 pads in front, with the character of the flag. */
  lemma MinusDiffers()
    ensures SignedField(42, 5, '-') == "---42" && StandardField("", "42", 5, true, false) == "42   "
  {
    FortyTwo();
    LeftOfTwo(42, "42");
  }

  lemma SignOfTwo(v: int, d: string)
    requires v < 0 && d == Numeral(-v, 10) && |d| == 2
    ensures SignedField(v, 6, ' ') == "-" + ("    " + d) && StandardField("-", d, 6, false, false) == "   -" + d
  {
    assert Repeat(' ', 4) == "    " && Repeat(' ', 3) == "   ";
  }

  /** "%6d" of -42 comes out one character too long. */
  lemma SignDiffers()
    ensures SignedField(-42, 6, ' ') == "-    42" && StandardField("-", "42", 6, false, false) == "   -42"
  {
    FortyTwo();
    SignOfTwo(-42, "42");
  }

  lemma PrecisionOfTwo(n: nat, d: string)
    requires d == Numeral(n, 10) && |d| == 2 && n > 0
    ensures SignedField(n, 0, ' ') == d && StandardDigits(n, 10, Some(5), false) == "000" + d
  {
    assert Repeat('0', 3) == "000" && "" + d == d;
    SameNumeral(n, 10);
  }

  /** "%.5d" of 42 ignores the precision. */
  lemma PrecisionDiffers()
    ensures SignedField(42, 0, ' ') == "42" && StandardDigits(42, 10, Some(5), false) == "00042"
  {
    FortyTwo();
    PrecisionOfTwo(42, "42");
  }
}
