/**
 The formatter: a loop over the format that prints into a sink, a bounded buffer or the console.
 Each method prints exactly the text that module Format gives for its part of the format.
 */
module Printfmt {
  import opened Numbers
  import opened Digits
  import opened Strtol
  import opened Format
  import opened FormatGrammar
  import opened FormatRender

  /** What putch and its data stand for: the console, when there is no buffer, or the buffer of
      snprintf with the first unused place and the last place. Both count all characters. */
  class Sink {
    const data: array?<char>
    const ebuf: nat
    var buf: nat
    var cnt: nat
    var screen: string              // what the console was given
    ghost var put: string           // everything that was put
    ghost const initial: string     // what the buffer held at first

    ghost predicate Valid()
      reads this, data
    {
      cnt == |put| && if data == null then screen == put else Stored()
    }

    ghost predicate Stored()
      requires data != null
      reads this, data
    {
      && ebuf < data.Length == |initial|
      && buf == (if |put| < ebuf then |put| else ebuf)
      && data[..] == put[..buf] + initial[buf..]
    }

    constructor Buffer(data: array<char>, ebuf: nat)
      requires ebuf < data.Length
      ensures Valid() && put == [] && this.data == data && this.ebuf == ebuf && initial == data[..]
    {
      this.data, this.ebuf, this.buf, this.cnt, this.screen := data, ebuf, 0, 0, [];
      this.put, this.initial := [], data[..];
    }

    constructor Console()
      ensures Valid() && put == [] && data == null
    {
      this.data, this.ebuf, this.buf, this.cnt, this.screen := null, 0, 0, 0, [];
      this.put, this.initial := [], [];
    }

    /** sprintputch, or cputch. */
    method Put(ch: char)
      requires Valid()
      modifies this, data
      ensures Valid() && put == old(put) + [ch]
    {
      cnt := cnt + 1;
      put := put + [ch];
      if data == null {
        screen := screen + [ch];
      } else if buf < ebuf {
        data[buf] := ch;
        buf := buf + 1;
      }
    }

    /** Terminate the buffer. */
    method Finish() returns (r: nat)
      requires Valid() && data != null
      modifies data
      ensures r == |put| && data[..] == Bounded(put, ebuf + 1, initial)
    {
      data[buf] := '\0';
      r := cnt;
    }
  }

  /** The buffer after printing: as much of the text as fits in size - 1 places, a NUL, and from
      there on what it held before. */
  ghost function Bounded(out: string, size: nat, was: string): string
    requires 0 < size <= |was|
  {
    var n := if |out| < size - 1 then |out| else size - 1;
    out[..n] + ['\0'] + was[n + 1..]
  }

  /** Print n copies of a character. */
  method PutRepeat(b: Sink, c: char, n: int)
    requires b.Valid()
    modifies b, b.data
    ensures b.Valid() && b.put == old(b.put) + Repeat(c, n)
  {
    var width := n;
    ghost var k := 0;
    while width > 0
      invariant b.Valid() && b.put == old(b.put) + Repeat(c, k)
      invariant if n > 0 then k == n - width && 0 <= width <= n else k == 0 && width == n
    {
      b.Put(c);
      width, k := width - 1, k + 1;
    }
    assert n <= 0 ==> Repeat(c, n) == Repeat(c, 0);
  }

  lemma NumFieldStep(num: nat, base: nat, width: int, padc: char)
    requires 2 <= base <= 16
    ensures var d := DIGIT_CHARS[Remainder(num, base)];
      NumField(num, base, width, padc) ==
      (if num >= base then NumField(Quotient(num, base), base, width - 1, padc) else Repeat(padc, width - 1)) + [d]
  {
    if num >= base {
      Associate(Repeat(padc, width - |Numeral(num, base)|), Numeral(Quotient(num, base), base),
                [DIGIT_CHARS[Remainder(num, base)]]);
    } else {
      SmallRemainder(num, base);
    }
  }

  lemma Associate(a: string, b: string, c: string)
    ensures a + (b + c) == (a + b) + c
  {
  }

  lemma Associate3(a: string, b: string, c: string, d: string)
    ensures a + ((b + c) + d) == ((a + b) + c) + d
  {
  }

  lemma SmallRemainder(num: nat, base: nat)
    requires num < base
    ensures Remainder(num, base) == num
  {
    MulMod(0, base, num);
  }

  /** Print the more significant digits first, and the padding before the first of them. */
  method Printnum(b: Sink, num: nat, base: nat, width: int, padc: char)
    requires b.Valid() && 2 <= base <= 16
    modifies b, b.data
    ensures b.Valid() && b.put == old(b.put) + NumField(num, base, width, padc)
    decreases num
  {
    var result, mod := Quotient(num, base), Remainder(num, base);
    NumFieldStep(num, base, width, padc);
    if num >= base {
      Printnum(b, result, base, width - 1, padc);
    } else {
      PutRepeat(b, padc, width - 1);
    }
    b.Put(DIGIT_CHARS[mod]);
  }

  lemma SanitizedTake(s: string, i: nat, alt: bool)
    requires i <= |s|
    ensures SanitizedText(s, alt)[..i] == SanitizedText(s[..i], alt)
  {
  }

  /** The characters of a string, at most as many as the precision says, each counted off the
      width. */
  method PutBody(b: Sink, p: string, precision: int, alt: bool, width: int) returns (width': int)
    requires b.Valid()
    modifies b, b.data
    ensures b.Valid() && b.put == old(b.put) + SanitizedText(p[..Shown(p, precision)], alt)
    ensures width' == width - Shown(p, precision)
  {
    var i, left := 0, precision;
    ghost var shown := SanitizedText(p, alt);
    width' := width;
    while i < |p|
      invariant 0 <= i <= Shown(p, precision) && width' == width - i
      invariant if precision < 0 then left < 0 else left == precision - i
      invariant b.Valid() && b.put == old(b.put) + shown[..i]
    {
      if left >= 0 {
        left := left - 1;
        if left < 0 {
          break;
        }
      }
      assert shown[..i + 1] == shown[..i] + [shown[i]];
      b.Put(Sanitized(p[i], alt));
      i, width' := i + 1, width' - 1;
    }
    SanitizedTake(p, i, alt);
  }

  /** The field as the code builds it, with padding counts that may be negative. */
  lemma StrFieldParts(s: string, fld: Field, left: int, right: int)
    requires left == if fld.width > 0 && fld.padc != '-' then fld.width - Shown(s, fld.precision) else 0
    requires right == (if fld.width > 0 && fld.padc != '-' then (if left < 0 then left else 0) else fld.width)
                      - Shown(s, fld.precision)
    ensures StrField(s, fld)
         == (Repeat(fld.padc, left) + SanitizedText(s[..Shown(s, fld.precision)], fld.alt)) + Repeat(' ', right)
  {
    var body := SanitizedText(s[..Shown(s, fld.precision)], fld.alt);
    if fld.padc == '-' || fld.width <= 0 {
      assert Repeat(fld.padc, left) + body == body;
      assert fld.padc != '-' ==> Repeat(fld.padc, fld.width - |body|) + body == body + Repeat(' ', right);
    } else {
      assert Repeat(' ', right) == [];
    }
  }

  method PutString(b: Sink, p: string, fld: Field)
    requires b.Valid()
    modifies b, b.data
    ensures b.Valid() && b.put == old(b.put) + StrField(p, fld)
  {
    var width := fld.width;
    ghost var left := 0;
    if width > 0 && fld.padc != '-' {
      width := width - Shown(p, fld.precision);
      left := width;
      PutRepeat(b, fld.padc, width);
      width := if width < 0 then width else 0;
    }
    ghost var padded := b.put;
    assert padded == old(b.put) + Repeat(fld.padc, left);
    width := PutBody(b, p, fld.precision, fld.alt, width);
    PutRepeat(b, ' ', width);
    StrFieldParts(p, fld, left, width);
    Associate3(old(b.put), Repeat(fld.padc, left), SanitizedText(p[..Shown(p, fld.precision)], fld.alt),
               Repeat(' ', width));
  }

  // ----- Scanning the modifiers of a directive -----

  lemma ReadDigit(f: string, start: nat, e: nat)
    requires start <= e < |f| && '0' <= f[e] <= '9'
    ensures Value(f[start..e + 1], 10) == Value(f[start..e], 10) * 10 + (f[e] as int - '0' as int)
    ensures DigitIn(10)(f[e])
  {
    assert f[start..e + 1] == f[start..e] + [f[e]];
    ValueSnoc(f[start..e], f[e], 10);
    DecimalDigit(f[e]);
  }

  method ReadNumber(f: string, start: nat) returns (v: nat, e: nat)
    requires start < |f| && '0' <= f[start] <= '9'
    ensures e == DecimalEnd(f, start) && start < e && v == Value(f[start..e], 10)
  {
    v, e := 0, start;
    assert f[start..start] == [];
    while e < |f| && '0' <= f[e] <= '9'
      invariant start <= e <= |f| && v == Value(f[start..e], 10)
      invariant forall k :: start <= k < e ==> DigitIn(10)(f[k])
    {
      ReadDigit(f, start, e);
      v := v * 10 + (f[e] as int - '0' as int);
      e := e + 1;
    }
    if e < |f| {
      DecimalDigit(f[e]);
    }
    RunEndIs(f, start, DigitIn(10), e);
  }

  lemma ApplyFirst(fld: Field, m: Mod, ms: seq<Mod>, args: seq<Arg>)
    ensures var (fld', args') := ApplyMod(fld, m, args);
      ApplyMods(fld, [m] + ms, args) == ApplyMods(fld', ms, args')
  {
    assert ([m] + ms)[1..] == ms;
  }

  /** One turn of the switch on a modifier character. */
  method TakeModifier(f: string, i: nat, fld: Field, args: seq<Arg>) returns (fld': Field, ap: seq<Arg>, i': nat)
    requires i < |f| && IsModChar(f[i])
    ensures (fld', ap) == ApplyMod(fld, ModAt(f, i).0, args) && i' == ModAt(f, i).1
  {
    fld', ap, i' := fld, args, i + 1;
    match f[i] {
      case '-' =>
        fld' := fld'.(padc := '-');
      case '0' =>
        fld' := fld'.(padc := '0');
      case '*' =>
        var (v, rest) := NextInt(ap);
        ap := rest;
        fld' := SetNumber(fld', Wrap32(v));
      case '.' =>
        if fld'.width < 0 {
          fld' := fld'.(width := 0);
        }
      case '#' =>
        fld' := fld'.(alt := true);
      case 'l' =>
        fld' := fld'.(lflag := fld'.lflag + 1);
      case _ =>
        var v;
        v, i' := ReadNumber(f, i);
        fld' := SetNumber(fld', v);
    }
  }

  /** The switch is entered again until the character is not a modifier. */
  method ScanModifiers(f: string, start: nat, args: seq<Arg>) returns (fld: Field, ap: seq<Arg>, i: nat)
    requires start <= |f|
    ensures var (mods, j) := ModsAt(f, start); i == j && (fld, ap) == ApplyMods(NO_FIELD, mods, args)
  {
    fld, ap, i := NO_FIELD, args, start;
    while i < |f| && IsModChar(f[i])
      invariant i <= |f|
      invariant ModsAt(f, i).1 == ModsAt(f, start).1
      invariant ApplyMods(fld, ModsAt(f, i).0, ap) == ApplyMods(NO_FIELD, ModsAt(f, start).0, args)
      decreases |f| - i
    {
      ghost var (m, j) := ModAt(f, i);
      ApplyFirst(fld, m, ModsAt(f, j).0, ap);
      fld, ap, i := TakeModifier(f, i, fld, ap);
    }
  }

  // ----- Conversions -----

  /** Negating as an unsigned number gives the magnitude, that of the least number too. */
  lemma UnsignedNegation(v: int)
    requires -TWO_63 <= v < TWO_63
    ensures v >= 0 ==> v % TWO_64 == v
    ensures v < 0 ==> (TWO_64 - v % TWO_64) % TWO_64 == -v
  {
    if v < 0 {
      MulMod(-1, TWO_64, v + TWO_64);
      MulMod(0, TWO_64, -v);
    } else {
      MulMod(0, TWO_64, v);
    }
  }

  method Magnitude(v: int) returns (num: nat)
    requires -TWO_63 <= v < TWO_63
    ensures num == if v < 0 then -v else v
  {
    num := v % TWO_64;
    UnsignedNegation(v);
    if v < 0 {
      num := (TWO_64 - num) % TWO_64;
    }
  }

  method PutSigned(b: Sink, v: int, width: int, padc: char)
    requires b.Valid() && -TWO_63 <= v < TWO_63
    modifies b, b.data
    ensures b.Valid() && b.put == old(b.put) + SignedField(v, width, padc)
  {
    var num := Magnitude(v);
    if v < 0 {
      b.Put('-');
      Associate(old(b.put), "-", NumField(-v, 10, width, padc));
    }
    Printnum(b, num, 10, width, padc);
  }

  method PutErrorName(b: Sink, t: CStr)
    requires b.Valid()
    modifies b, b.data
    ensures b.Valid() && b.put == old(b.put) + t
    decreases true, 0
  {
    NameFormat(t);
    Vprintfmt(b, NAME_FORMAT, [Str(Some(t))]);
  }

  method PutErrorNumber(b: Sink, err: int)
    requires b.Valid() && -TWO_31 <= err < TWO_31
    modifies b, b.data
    ensures b.Valid() && b.put == old(b.put) + "error " + SignedField(err, -1, ' ')
    decreases true, 0
  {
    NumberFormat(err);
    Vprintfmt(b, NUMBER_FORMAT, [Num(err)]);
    Associate(old(b.put), "error ", SignedField(err, -1, ' '));
  }

  method PutNumberedError(b: Sink, err: int)
    requires b.Valid() && -TWO_31 <= err < TWO_31
    modifies b, b.data
    ensures b.Valid()
    ensures b.put == old(b.put) + ErrorText(err)
    decreases true, 1
  {
    match ErrorString(err) {
      case Some(t) =>
        PutErrorName(b, t);
      case None =>
        PutErrorNumber(b, err);
        Associate(old(b.put), "error ", SignedField(err, -1, ' '));
    }
  }

  /** The error conversion, which formats in turn. */
  method PutError(b: Sink, v: int)
    requires b.Valid()
    modifies b, b.data
    ensures b.Valid()
    ensures b.put == old(b.put) + ErrorText(ErrorNumber(v))
    decreases true, 2
  {
    var err := Wrap32(v);
    if err < 0 {
      err := Wrap32(-err);
    }
    PutNumberedError(b, err);
  }

  method PutPointer(b: Sink, num: nat, width: int, padc: char)
    requires b.Valid()
    modifies b, b.data
    ensures b.Valid() && b.put == old(b.put) + PointerField(num, width, padc)
  {
    b.Put('0');
    b.Put('x');
    Associate(old(b.put), "0x", NumField(num, 16, width, padc));
    Printnum(b, num, 16, width, padc);
  }

  method PutConversion(b: Sink, ch: char, fld: Field, args: seq<Arg>) returns (ap: seq<Arg>)
    requires b.Valid() && IsConv(ch)
    modifies b, b.data
    ensures b.Valid() && b.put == old(b.put) + Convert(ch, fld, args).0 && ap == Convert(ch, fld, args).1
    decreases ch == 'e', 3
  {
    var (v, afterInt) := NextInt(args);
    ap := afterInt;
    match ch {
      case 'c' =>
        b.Put(ToChar(v));
      case 'e' =>
        PutError(b, v);
      case 's' =>
        var (t, afterStr) := NextStr(args);
        ap := afterStr;
        PutString(b, if t.None? then "(null)" else t.value, fld);
      case 'd' =>
        PutSigned(b, GetInt(v, fld.lflag), fld.width, fld.padc);
      case 'u' =>
        Printnum(b, GetUint(v, fld.lflag), 10, fld.width, fld.padc);
      case 'o' =>
        Printnum(b, GetUint(v, fld.lflag), 8, fld.width, fld.padc);
      case 'p' =>
        PutPointer(b, v % TWO_64, fld.width, fld.padc);
      case 'x' =>
        Printnum(b, GetUint(v, fld.lflag), 16, fld.width, fld.padc);
      case _ =>
        ap := args;
        b.Put(ch);
    }
  }

  // ----- The main loop -----

  /** The inner loop: print up to the next '%' or the end. */
  method PutLiterals(b: Sink, f: string, start: nat) returns (i: nat)
    requires b.Valid() && start <= |f|
    modifies b, b.data
    ensures start <= i <= |f| && (i < |f| ==> f[i] == '%') && '%' !in f[start..i]
    ensures b.Valid() && b.put == old(b.put) + f[start..i]
  {
    i := start;
    while i < |f| && f[i] != '%'
      invariant start <= i <= |f| && forall k :: start <= k < i ==> f[k] != '%'
      invariant b.Valid() && b.put == old(b.put) + f[start..i]
    {
      b.Put(f[i]);
      assert f[start..i + 1] == f[start..i] + [f[i]];
      i := i + 1;
    }
  }

  /** The characters that the modifiers of a directive take up. */
  lemma {:induction false} ModifierChars(f: string, i: nat)
    requires i <= |f|
    ensures forall k :: i <= k < ModsAt(f, i).1 ==> IsModChar(f[k])
    decreases |f| - i
  {
    if i < |f| && IsModChar(f[i]) {
      var (m, j) := ModAt(f, i);
      ModifierChars(f, j);
      forall k | i <= k < j ensures IsModChar(f[k]) {
        if '1' <= f[i] <= '9' {
          assert DigitIn(10)(f[k]);
          DecimalDigit(f[k]);
        }
      }
    }
  }

  /** The back-up loop of the default case: from the character after the unrecognised one back to
      just after the directive's own '%'. */
  method BackUp(f: string, p: nat, j: nat) returns (i: nat)
    requires p < j <= |f| && f[p] == '%' && forall k :: p < k < j ==> f[k] != '%'
    ensures i == p + 1
  {
    i := j + 1;
    i := i - 1;
    while f[i - 1] != '%'
      invariant p < i <= j
      decreases i
    {
      i := i - 1;
    }
  }

  /** The text of an unrecognised directive is the stretch of the format that it takes up. */
  lemma VerbatimText(f: CStr, i: nat, mods: seq<Mod>, j: nat)
    requires i <= |f| && ModsAt(f, i) == (mods, j) && (j < |f| ==> !IsConv(f[j]))
    ensures var (piece, k) := DirectiveEnd(f, mods, j); PieceText(piece) == "%" + f[i..k]
  {
    ModsAtText(f, i);
    VerbatimSpells(f, i, mods, j);
  }

  lemma VerbatimSpells(f: string, i: nat, mods: seq<Mod>, j: nat)
    requires i <= j <= |f| && ModsText(mods) == f[i..j] && (j < |f| ==> !IsConv(f[j]))
    ensures var (piece, k) := DirectiveEnd(f, mods, j); PieceText(piece) == "%" + f[i..k]
  {
    EndPiece(f, mods, j);
    if j < |f| {
      assert f[i..j + 1] == f[i..j] + [f[j]];
    } else {
      assert f[i..j] + [] == f[i..j];
    }
  }

  /** There is no second '%' in it. */
  lemma VerbatimStretch(f: CStr, p: nat, mods: seq<Mod>, j: nat)
    requires p < |f| && ModsAt(f, p + 1) == (mods, j) && (j < |f| ==> !IsConv(f[j]))
    ensures forall k :: p < k < j ==> f[k] != '%'
    ensures '%' !in f[p + 1..DirectiveEnd(f, mods, j).1]
  {
    ModifierChars(f, p + 1);
  }

  lemma RenderVerbatim(piece: Piece, ps: seq<Piece>, args: seq<Arg>)
    requires piece.Verbatim?
    ensures Render([piece] + ps, args)
         == PieceText(piece) + Render(ps, ApplyMods(NO_FIELD, piece.mods, args).1)
  {
    RenderFirst(piece, ps, args);
  }

  /** An unrecognised directive: after its '%' has been printed, rescanning the rest of it as
      literal text prints it verbatim. */
  lemma RescanIsVerbatim(f: CStr, p: nat, k: nat, piece: Piece, args: seq<Arg>, rest: seq<Arg>)
    requires p < k <= |f| && PieceAt(f, p) == (piece, k) && piece.Verbatim?
    requires PieceText(piece) == "%" + f[p + 1..k] && '%' !in f[p + 1..k]
    requires rest == ApplyMods(NO_FIELD, piece.mods, args).1
    ensures Render(Parse(f, p), args) == "%" + Render(Parse(f, p + 1), rest)
    ensures HasError(Parse(f, p + 1)) ==> HasError(Parse(f, p))
  {
    ParseStep(f, p, piece, k);
    RenderVerbatim(piece, Parse(f, k), args);
    ParseLiterals(f, p + 1, k);
    RenderLiterals(f[p + 1..k], Parse(f, k), rest);
    Associate("%", f[p + 1..k], Render(Parse(f, k), rest));
    HasErrorLiterals(f[p + 1..k], Parse(f, k));
    HasErrorFirst(piece, Parse(f, k));
  }

  /** The default case of the switch. */
  method PutUnrecognised(b: Sink, f: CStr, p: nat, j: nat, ghost args: seq<Arg>, ap: seq<Arg>)
    returns (i: nat)
    requires b.Valid() && p < j <= |f| && f[p] == '%' && (j < |f| ==> !IsConv(f[j]))
    requires ModsAt(f, p + 1).1 == j && ap == ApplyMods(NO_FIELD, ModsAt(f, p + 1).0, args).1
    modifies b, b.data
    ensures i == p + 1 && b.Valid()
    ensures b.put + Render(Parse(f, i), ap) == old(b.put) + Render(Parse(f, p), args)
    ensures HasError(Parse(f, i)) ==> HasError(Parse(f, p))
  {
    ghost var mods := ModsAt(f, p + 1).0;
    ghost var (piece, k) := DirectiveEnd(f, mods, j);
    VerbatimText(f, p + 1, mods, j);
    VerbatimStretch(f, p, mods, j);
    RescanIsVerbatim(f, p, k, piece, args, ap);
    b.Put('%');
    i := BackUp(f, p, j);
    Associate(old(b.put), "%", Render(Parse(f, p + 1), ap));
  }

  lemma RenderDirective(f: CStr, p: nat, mods: seq<Mod>, j: nat, args: seq<Arg>)
    requires p < j < |f| && f[p] == '%' && ModsAt(f, p + 1) == (mods, j) && IsConv(f[j])
    ensures var (fld, ap) := ApplyMods(NO_FIELD, mods, args);
      var (out, rest) := Convert(f[j], fld, ap);
      Render(Parse(f, p), args) == out + Render(Parse(f, j + 1), rest)
    ensures HasError(Parse(f, p)) <==> f[j] == 'e' || HasError(Parse(f, j + 1))
  {
    var piece := Directive(mods, f[j]);
    ParseStep(f, p, piece, j + 1);
    RenderFirst(piece, Parse(f, j + 1), args);
    HasErrorFirst(piece, Parse(f, j + 1));
  }

  /** One directive, from its '%' on. */
  method PutDirective(b: Sink, f: CStr, p: nat, args: seq<Arg>) returns (i: nat, ap: seq<Arg>)
    requires b.Valid() && p < |f| && f[p] == '%'
    modifies b, b.data
    ensures p < i <= |f| && b.Valid()
    ensures b.put + Render(Parse(f, i), ap) == old(b.put) + Render(Parse(f, p), args)
    ensures HasError(Parse(f, i)) ==> HasError(Parse(f, p))
    decreases HasError(Parse(f, p)), 4
  {
    var fld;
    fld, ap, i := ScanModifiers(f, p + 1, args);
    if i < |f| && IsConv(f[i]) {
      RenderDirective(f, p, ModsAt(f, p + 1).0, i, args);
      ghost var out := Convert(f[i], fld, ap).0;
      ap := PutConversion(b, f[i], fld, ap);
      i := i + 1;
      Associate(old(b.put), out, Render(Parse(f, i), ap));
    } else {
      i := PutUnrecognised(b, f, p, i, args, ap);
    }
  }

  /** One turn of the main loop: literal text and, unless the format ends, a directive. */
  method PutStretch(b: Sink, f: CStr, start: nat, args: seq<Arg>) returns (i: nat, ap: seq<Arg>)
    requires b.Valid() && start < |f|
    modifies b, b.data
    ensures start < i <= |f| && b.Valid()
    ensures b.put + Render(Parse(f, i), ap) == old(b.put) + Render(Parse(f, start), args)
    ensures HasError(Parse(f, i)) ==> HasError(Parse(f, start))
    decreases HasError(Parse(f, start)), 5
  {
    i := PutLiterals(b, f, start);
    ap := args;
    ParseLiterals(f, start, i);
    RenderLiterals(f[start..i], Parse(f, i), ap);
    HasErrorLiterals(f[start..i], Parse(f, i));
    Associate(old(b.put), f[start..i], Render(Parse(f, i), ap));
    if i < |f| {
      i, ap := PutDirective(b, f, i, ap);
    }
  }

  /** Print a format with its arguments. */
  method Vprintfmt(b: Sink, f: CStr, args: seq<Arg>)
    requires b.Valid()
    modifies b, b.data
    ensures b.Valid() && b.put == old(b.put) + Formatted(f, args)
    decreases HasError(Parse(f, 0)), 6
  {
    var i, ap := 0, args;
    while i < |f|
      invariant 0 <= i <= |f| && b.Valid()
      invariant b.put + Render(Parse(f, i), ap) == old(b.put) + Render(Parse(f, 0), args)
      invariant HasError(Parse(f, i)) ==> HasError(Parse(f, 0))
      decreases |f| - i
    {
      i, ap := PutStretch(b, f, i, ap);
    }
    assert b.put + [] == b.put;
  }

  // ----- The bounded sink -----

  const E_INVAL: int := 3

  /** Print into a buffer of the given size. The result is the length of the whole text; the
      buffer holds as much of it as fits, a NUL, and from there on what it held before. */
  method Vsnprintf(str: array?<char>, size: nat, f: CStr, args: seq<Arg>) returns (r: int)
    requires str != null ==> size <= str.Length
    modifies if str == null then {} else {str}
    ensures str == null || size == 0 ==> r == -3 && (str != null ==> str[..] == old(str[..]))
    ensures str != null && size > 0 ==>
              r == |Formatted(f, args)| && str[..] == Bounded(Formatted(f, args), size, old(str[..]))
    ensures str != null && size > 0 ==>
              var n := if r < size - 1 then r else size - 1;
              str[..n] == Formatted(f, args)[..n] && str[n] == '\0' && str[n + 1..] == old(str[n + 1..])
  {
    if str == null || size == 0 {
      return -E_INVAL;
    }
    r := PutAll(str, size, f, args);
    BoundedParts(Formatted(f, args), size, old(str[..]));
  }

  lemma BoundedParts(out: string, size: nat, was: string)
    requires 0 < size <= |was|
    ensures var (s, n) := (Bounded(out, size, was), if |out| < size - 1 then |out| else size - 1);
      |s| == |was| && s[..n] == out[..n] && s[n] == '\0' && s[n + 1..] == was[n + 1..]
  {
  }

  method PutAll(str: array<char>, size: nat, f: CStr, args: seq<Arg>) returns (r: int)
    requires 0 < size <= str.Length
    modifies str
    ensures r == |Formatted(f, args)|
    ensures str[..] == Bounded(Formatted(f, args), size, old(str[..]))
  {
    var b := new Sink.Buffer(str, size - 1);
    Vprintfmt(b, f, args);
    assert [] + Formatted(f, args) == Formatted(f, args);
    r := b.Finish();
  }

  // ----- The console -----

  /** Print on the console: text is what it is given. */
  method Vcprintf(f: CStr, args: seq<Arg>) returns (cnt: nat, text: string)
    ensures text == Formatted(f, args) && cnt == |text|
  {
    var b := new Sink.Console();
    Vprintfmt(b, f, args);
    assert [] + Formatted(f, args) == Formatted(f, args);
    cnt, text := b.cnt, b.screen;
  }
}
