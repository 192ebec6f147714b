/** What the modifiers of a directive amount to, and how wide its field comes out. */
module FormatFields {
  import opened Digits
  import opened Format

  // ----- Flags -----

  /** The pad character: '-' and '0' are both pad flags, and the last one wins. */
  ghost function LastPad(ms: seq<Mod>, none: char): char {
    if ms == [] then none
    else if ms[|ms| - 1] == Minus then '-'
    else if ms[|ms| - 1] == Zero then '0'
    else LastPad(ms[..|ms| - 1], none)
  }

  ghost function Stars(ms: seq<Mod>): nat {
    if ms == [] then 0 else Stars(ms[1..]) + if ms[0] == Star then 1 else 0
  }

  ghost function Skip(args: seq<Arg>, n: nat): seq<Arg> {
    if n <= |args| then args[n..] else []
  }

  lemma {:induction false} LastPadFirst(m: Mod, ms: seq<Mod>, none: char)
    ensures LastPad([m] + ms, none) == LastPad(ms, if m == Minus then '-' else if m == Zero then '0' else none)
    decreases |ms|
  {
    var all := [m] + ms;
    if ms == [] {
      assert all == [m] && all[..0] == [];
    } else {
      assert all[..|all| - 1] == [m] + ms[..|ms| - 1];
      LastPadFirst(m, ms[..|ms| - 1], none);
    }
  }

  /** Wherever they stand, the pad flags, the long flags and '#' set their part of the field, and
      every star takes one argument. */
  lemma {:induction false} FlagsMeaning(fld: Field, ms: seq<Mod>, args: seq<Arg>)
    ensures var (r, rest) := ApplyMods(fld, ms, args);
      && r.padc == LastPad(ms, fld.padc)
      && r.lflag == fld.lflag + multiset(ms)[Long]
      && (r.alt <==> fld.alt || Alt in ms)
      && rest == Skip(args, Stars(ms))
    decreases |ms|
  {
    if ms != [] {
      var (m, tail) := (ms[0], ms[1..]);
      assert ms == [m] + tail;
      var (fld', args') := ApplyMod(fld, m, args);
      FlagsMeaning(fld', tail, args');
      LastPadFirst(m, tail, fld.padc);
      assert multiset(ms) == multiset{m} + multiset(tail);
    }
  }

  // ----- Width and precision -----

  ghost predicate IsFlag(m: Mod) {
    m == Minus || m == Zero || m == Alt || m == Long
  }

  ghost function NoFlags(ms: seq<Mod>): seq<Mod> {
    if ms == [] then []
    else if IsFlag(ms[0]) then NoFlags(ms[1..])
    else [ms[0]] + NoFlags(ms[1..])
  }

  ghost predicate SameNumbers(f: Field, g: Field) {
    f.width == g.width && f.precision == g.precision
  }

  /** Flags may stand anywhere among the numbers: they do not touch width and precision. So a
      '0' right after the dot is a pad flag and no part of the precision. */
  lemma {:induction false} FlagsKeepNumbers(f: Field, g: Field, ms: seq<Mod>, args: seq<Arg>)
    requires SameNumbers(f, g)
    ensures SameNumbers(ApplyMods(f, ms, args).0, ApplyMods(g, NoFlags(ms), args).0)
    decreases |ms|
  {
    if ms != [] {
      var (m, tail) := (ms[0], ms[1..]);
      var (f', args') := ApplyMod(f, m, args);
      if IsFlag(m) {
        FlagsKeepNumbers(f', g, tail, args');
      } else {
        FlagsKeepNumbers(f', ApplyMod(g, m, args).0, tail, args');
        assert ([m] + NoFlags(tail))[1..] == NoFlags(tail);
      }
    }
  }

  /** A width or a precision: none, a number, or a star, which takes an argument. */
  datatype Count = NoCount | Fixed(n: nat) | Given

  ghost function CountMods(c: Count): seq<Mod> {
    match c
    case NoCount => []
    case Fixed(n) => [Number(n)]
    case Given => [Star]
  }

  /** The value of a count, and the arguments left. */
  ghost function CountValue(c: Count, args: seq<Arg>): (Option<int>, seq<Arg>) {
    match c
    case NoCount => (None, args)
    case Fixed(n) => (Some(n), args)
    case Given => (Some(Wrap32(NextInt(args).0)), NextInt(args).1)
  }

  lemma ApplyCount(fld: Field, c: Count, ms: seq<Mod>, args: seq<Arg>)
    ensures var (v, rest) := CountValue(c, args);
      ApplyMods(fld, CountMods(c) + ms, args) ==
      ApplyMods(if v.Some? then SetNumber(fld, v.value) else fld, ms, rest)
  {
    if c == NoCount {
      assert CountMods(c) + ms == ms;
    } else {
      assert (CountMods(c) + ms)[1..] == ms;
    }
  }

  lemma ApplyDot(fld: Field, dot: bool, ms: seq<Mod>, args: seq<Arg>)
    ensures ApplyMods(fld, (if dot then [Dot] else []) + ms, args) ==
            ApplyMods(if dot && fld.width < 0 then fld.(width := 0) else fld, ms, args)
  {
    if dot {
      assert ([Dot] + ms)[1..] == ms;
    } else {
      assert [] + ms == ms;
    }
  }

  /** Width, dot and precision in the usual order, each number written out or taken from the
      arguments. A negative width counts as none, and so does a negative precision; a dot with no
      number behind it sets no precision. */
  lemma StandardNumbers(ms: seq<Mod>, width: Count, dot: bool, precision: Count, args: seq<Arg>)
    requires NoFlags(ms) == CountMods(width) + ((if dot then [Dot] else []) + CountMods(precision))
    requires precision != NoCount ==> dot
    ensures var (w, rest) := CountValue(width, args);
      var p := CountValue(precision, rest).0;
      var fld := ApplyMods(NO_FIELD, ms, args).0;
      && fld.width == (if w.Some? && (w.value >= 0 || !dot) then w.value else if dot then 0 else -1)
      && fld.precision == (if p.Some? then p.value else -1)
  {
    FlagsKeepNumbers(NO_FIELD, NO_FIELD, ms, args);
    var (w, rest) := CountValue(width, args);
    var fld := if w.Some? then SetNumber(NO_FIELD, w.value) else NO_FIELD;
    ApplyCount(NO_FIELD, width, (if dot then [Dot] else []) + CountMods(precision), args);
    ApplyDot(fld, dot, CountMods(precision), rest);
    var fld' := if dot && fld.width < 0 then fld.(width := 0) else fld;
    ApplyCount(fld', precision, [], rest);
    assert CountMods(precision) + [] == CountMods(precision);
  }

  /** The pad character is one of three. */
  lemma {:induction false} LastPadIs(ms: seq<Mod>, none: char)
    requires none == ' ' || none == '0' || none == '-'
    ensures var c := LastPad(ms, none); c == ' ' || c == '0' || c == '-'
    decreases |ms|
  {
    if ms != [] {
      LastPadIs(ms[..|ms| - 1], none);
    }
  }

  // ----- How wide a field is -----

  ghost function Max(a: int, b: int): int {
    if a < b then b else a
  }

  /** A string field has the greater of its width and the characters shown, which stand together
      with the padding on one side: the pad character before them, or spaces after them. */
  lemma StringLayout(s: string, fld: Field)
    ensures var (r, n) := (StrField(s, fld), Shown(s, fld.precision));
      var at := if fld.padc == '-' then 0 else |r| - n;
      && |r| == Max(fld.width, n)
      && (forall i :: 0 <= i < n ==> r[at + i] == Sanitized(s[i], fld.alt))
      && (forall i :: 0 <= i < |r| && !(at <= i < at + n) ==> r[i] == if fld.padc == '-' then ' ' else fld.padc)
  {
  }

  /** A number field has the greater of its width and the digits of the numeral, which stand at
      the end and have no leading zero of their own. */
  lemma NumberLayout(n: nat, base: nat, width: int, padc: char)
    requires 2 <= base <= 16
    ensures var (r, d) := (NumField(n, base, width, padc), Numeral(n, base));
      && |r| == Max(width, |d|)
      && r[|r| - |d|..] == d && Minimal(d, base) && Value(d, base) == n
      && (forall i :: 0 <= i < |r| - |d| ==> r[i] == padc)
  {
    NumeralUnique(Numeral(n, base), n, base);
  }
}
