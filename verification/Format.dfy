/**
 What a format string means: its pieces, the fields that the modifiers of a directive set, and
 the text that each conversion renders.
 */
module Format {
  import opened Digits
  import opened Strtol

  datatype Option<+T> = None | Some(value: T)

  /** A C string: the characters before its terminating NUL. */
  type CStr = s: string | '\0' !in s witness []

  datatype Arg = Num(v: int) | Str(s: Option<CStr>)

  /** The next argument as an integer, and the rest. C leaves a missing or mistyped argument
      undefined; here it reads as zero. */
  function NextInt(args: seq<Arg>): (int, seq<Arg>) {
    if args == [] then (0, [])
    else (if args[0].Num? then args[0].v else 0, args[1..])
  }

  function NextStr(args: seq<Arg>): (Option<CStr>, seq<Arg>) {
    if args == [] then (None, [])
    else (if args[0].Str? then args[0].s else None, args[1..])
  }

  // ----- Integer arguments -----

  const TWO_31: int := 0x8000_0000
  const TWO_32: int := 0x1_0000_0000

  /** The 32-bit two's-complement value of an integer. */
  function Wrap32(x: int): (w: int)
    ensures -TWO_31 <= w < TWO_31
    ensures -TWO_31 <= x < TWO_31 ==> w == x
  {
    (x + TWO_31) % TWO_32 - TWO_31
  }

  function GetInt(v: int, lflag: nat): int {
    if lflag > 0 then Wrap64(v) else Wrap32(v)
  }

  function GetUint(v: int, lflag: nat): nat {
    if lflag > 0 then v % TWO_64 else v % TWO_32
  }

  /** The base of an integer conversion. */
  ghost function BaseOf(conv: char): nat {
    if conv == 'o' then 8 else if conv == 'x' then 16 else 10
  }

  function ToChar(v: int): char {
    (v % 256) as char
  }

  // ----- Pieces of a format -----

  datatype Mod = Minus | Zero | Number(value: nat) | Star | Dot | Alt | Long

  datatype Piece =
    | Literal(c: char)
    | Directive(mods: seq<Mod>, conv: char)
    | Verbatim(mods: seq<Mod>, bad: string)  // an unrecognised directive; bad is empty at the end

  predicate IsModChar(c: char) {
    c == '-' || c == '.' || c == '#' || c == '*' || c == 'l' || '0' <= c <= '9'
  }

  predicate IsConv(c: char) {
    || c == 'c' || c == 'e' || c == 's' || c == 'd' || c == 'u' || c == 'o' || c == 'p' || c == 'x'
    || c == '%'
  }

  ghost function DecimalEnd(f: string, i: nat): (e: nat)
    requires i <= |f|
    ensures i <= e <= |f|
  {
    RunEnd(f, i, DigitIn(10))
  }

  /** The modifier that begins at place i, and where it ends. */
  ghost function ModAt(f: string, i: nat): (r: (Mod, nat))
    requires i < |f| && IsModChar(f[i])
    ensures i < r.1 <= |f|
  {
    match f[i]
    case '-' => (Minus, i + 1)
    case '0' => (Zero, i + 1)
    case '*' => (Star, i + 1)
    case '.' => (Dot, i + 1)
    case '#' => (Alt, i + 1)
    case 'l' => (Long, i + 1)
    case _ =>
      var e := DecimalEnd(f, i);
      DecimalValue(f, i, e);
      (Number(Value(f[i..e], 10)), e)
  }

  lemma DecimalValue(f: string, i: nat, e: nat)
    requires i < |f| && '0' <= f[i] <= '9' && e == DecimalEnd(f, i)
    ensures i < e && Value(f[i..e], 10) >= 0
  {
    assert IsDigit(f[i], 10);
    assert AllDigits(f[i..e], 10) by {
      forall k | 0 <= k < e - i ensures IsDigit(f[i..e][k], 10) {
        assert DigitIn(10)(f[i + k]);
      }
    }
    ValueBound(f[i..e], 10);
  }

  /** The modifiers from place i on, and where they end. */
  ghost function ModsAt(f: string, i: nat): (r: (seq<Mod>, nat))
    requires i <= |f|
    ensures i <= r.1 <= |f|
    ensures r.1 < |f| ==> !IsModChar(f[r.1])
    decreases |f| - i
  {
    if i < |f| && IsModChar(f[i]) then
      var (m, j) := ModAt(f, i);
      var (ms, k) := ModsAt(f, j);
      ([m] + ms, k)
    else ([], i)
  }

  /** The piece that begins at place i, and where it ends. */
  ghost function PieceAt(f: string, i: nat): (r: (Piece, nat))
    requires i < |f|
    ensures i < r.1 <= |f|
  {
    if f[i] != '%' then (Literal(f[i]), i + 1)
    else var (mods, j) := ModsAt(f, i + 1); DirectiveEnd(f, mods, j)
  }

  /** The directive whose modifiers end at place j, and where it ends itself. */
  ghost function DirectiveEnd(f: string, mods: seq<Mod>, j: nat): (r: (Piece, nat))
    requires j <= |f|
    ensures j <= r.1 <= |f|
  {
    if j == |f| then (Verbatim(mods, []), j)
    else if IsConv(f[j]) then (Directive(mods, f[j]), j + 1)
    else (Verbatim(mods, [f[j]]), j + 1)
  }

  /** The pieces of the format from place i on. */
  ghost function Parse(f: string, i: nat): seq<Piece>
    requires i <= |f|
    decreases |f| - i
  {
    if i == |f| then []
    else
      var (p, k) := PieceAt(f, i);
      [p] + Parse(f, k)
  }

  // ----- The text of the pieces -----

  ghost function ModText(m: Mod): string {
    match m
    case Minus => "-"
    case Zero => "0"
    case Number(v) => Numeral(v, 10)
    case Star => "*"
    case Dot => "."
    case Alt => "#"
    case Long => "l"
  }

  ghost function ModsText(ms: seq<Mod>): string {
    if ms == [] then [] else ModText(ms[0]) + ModsText(ms[1..])
  }

  ghost function PieceText(p: Piece): string {
    match p
    case Literal(c) => [c]
    case Directive(mods, conv) => "%" + (ModsText(mods) + [conv])
    case Verbatim(mods, bad) => "%" + (ModsText(mods) + bad)
  }

  ghost function Text(ps: seq<Piece>): string {
    if ps == [] then [] else PieceText(ps[0]) + Text(ps[1..])
  }

  // ----- The fields of a directive -----

  datatype Field = Field(padc: char, width: int, precision: int, lflag: nat, alt: bool)

  const NO_FIELD: Field := Field(' ', -1, -1, 0, false)

  /** A number sets the width as long as that is negative, and the precision afterwards. */
  function SetNumber(fld: Field, v: int): Field {
    if fld.width < 0 then fld.(width := v, precision := -1) else fld.(precision := v)
  }

  ghost function ApplyMod(fld: Field, m: Mod, args: seq<Arg>): (Field, seq<Arg>) {
    match m
    case Minus => (fld.(padc := '-'), args)
    case Zero => (fld.(padc := '0'), args)
    case Number(v) => (SetNumber(fld, v), args)
    case Star => var (v, rest) := NextInt(args); (SetNumber(fld, Wrap32(v)), rest)
    case Dot => (if fld.width < 0 then fld.(width := 0) else fld, args)
    case Alt => (fld.(alt := true), args)
    case Long => (fld.(lflag := fld.lflag + 1), args)
  }

  ghost function ApplyMods(fld: Field, ms: seq<Mod>, args: seq<Arg>): (Field, seq<Arg>)
    decreases |ms|
  {
    if ms == [] then (fld, args)
    else var (fld', args') := ApplyMod(fld, ms[0], args); ApplyMods(fld', ms[1..], args')
  }

  // ----- Conversions -----

  /** A number padded on the left to the given width. */
  ghost function NumField(n: nat, base: nat, width: int, padc: char): string
    requires 2 <= base <= 16
  {
    var s := Numeral(n, base);
    Repeat(padc, width - |s|) + s
  }

  /** A minus sign comes before the padding and is not counted in the width. */
  ghost function SignedField(v: int, width: int, padc: char): string {
    if v < 0 then "-" + NumField(-v, 10, width, padc) else NumField(v, 10, width, padc)
  }

  ghost function PointerField(n: nat, width: int, padc: char): string {
    "0x" + NumField(n, 16, width, padc)
  }

  /** The number of characters shown of a string; a negative precision is no limit. */
  function Shown(s: string, precision: int): nat {
    if precision < 0 || |s| <= precision then |s| else precision
  }

  function Sanitized(c: char, alt: bool): char {
    if alt && (c < ' ' || c > '~') then '?' else c
  }

  ghost function SanitizedText(s: string, alt: bool): (r: string)
    ensures |r| == |s| && forall i :: 0 <= i < |s| ==> r[i] == Sanitized(s[i], alt)
  {
    if s == [] then [] else [Sanitized(s[0], alt)] + SanitizedText(s[1..], alt)
  }

  /** A string cut to the precision, padded on the left, or with the flag '-' on the right. */
  ghost function StrField(s: string, fld: Field): string {
    var body := SanitizedText(s[..Shown(s, fld.precision)], fld.alt);
    if fld.padc != '-' then Repeat(fld.padc, fld.width - |body|) + body
    else body + Repeat(' ', fld.width - |body|)
  }

  const MAXERROR: int := 24

  /** The entries of the error table. C leaves an index below zero, which only INT_MIN leads to,
      undefined; here it has no entry. */
  function ErrorEntry(err: int): Option<CStr>
    requires err <= MAXERROR
  {
    match err
    case 1 => Some("unspecified error")
    case 2 => Some("bad process")
    case 3 => Some("invalid parameter")
    case 4 => Some("out of memory")
    case 5 => Some("out of processes")
    case 6 => Some("segmentation fault")
    case 8 => Some("invalid elf file")
    case 9 => Some("process is killed")
    case 10 => Some("panic failure")
    case _ => None
  }

  function ErrorString(err: int): Option<CStr> {
    if err > MAXERROR then None else ErrorEntry(err)
  }

  /** The error number that an int stands for, whatever its sign. */
  function ErrorNumber(v: int): (err: int)
    ensures -TWO_31 <= err < TWO_31
  {
    if Wrap32(v) < 0 then Wrap32(-Wrap32(v)) else Wrap32(v)
  }

  ghost function ErrorText(err: int): string {
    match ErrorString(err)
    case Some(t) => t
    case None => "error " + SignedField(err, -1, ' ')
  }

  /** The text of a conversion, and the arguments left. */
  ghost function Convert(conv: char, fld: Field, args: seq<Arg>): (string, seq<Arg>) {
    var (v, afterInt) := NextInt(args);
    var (t, afterStr) := NextStr(args);
    match conv
    case 'c' => ([ToChar(v)], afterInt)
    case 'e' => (ErrorText(ErrorNumber(v)), afterInt)
    case 's' => (StrField(if t.None? then "(null)" else t.value, fld), afterStr)
    case 'd' => (SignedField(GetInt(v, fld.lflag), fld.width, fld.padc), afterInt)
    case 'u' => (NumField(GetUint(v, fld.lflag), 10, fld.width, fld.padc), afterInt)
    case 'o' => (NumField(GetUint(v, fld.lflag), 8, fld.width, fld.padc), afterInt)
    case 'x' => (NumField(GetUint(v, fld.lflag), 16, fld.width, fld.padc), afterInt)
    case 'p' => (PointerField(v % TWO_64, fld.width, fld.padc), afterInt)
    case _ => ([conv], args)
  }

  /** The text of one piece, and the arguments left. An unrecognised directive is printed as it
      stands, after its modifiers have taken their arguments. */
  ghost function RenderPiece(p: Piece, args: seq<Arg>): (string, seq<Arg>) {
    match p
    case Literal(c) => ([c], args)
    case Directive(mods, conv) =>
      var (fld, args') := ApplyMods(NO_FIELD, mods, args);
      Convert(conv, fld, args')
    case Verbatim(mods, _) =>
      var (_, args') := ApplyMods(NO_FIELD, mods, args);
      (PieceText(p), args')
  }

  /** The texts of the pieces one after the other, each consuming its arguments. */
  ghost function RenderWith(ps: seq<Piece>, args: seq<Arg>,
                            render: (Piece, seq<Arg>) -> (string, seq<Arg>)): string
    decreases |ps|
  {
    if ps == [] then []
    else
      var (out, args') := render(ps[0], args);
      out + RenderWith(ps[1..], args', render)
  }

  ghost function Render(ps: seq<Piece>, args: seq<Arg>): string {
    RenderWith(ps, args, RenderPiece)
  }

  /** What a format prints. */
  ghost function Formatted(f: CStr, args: seq<Arg>): string {
    Render(Parse(f, 0), args)
  }
}
