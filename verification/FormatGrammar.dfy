/** The format grammar is unambiguous: parsing and spelling out are inverse to each other. */
module FormatGrammar {
  import opened Digits
  import opened Strtol
  import opened Format

  /** A number begins with a non-zero digit and takes in all digits that follow it. */
  ghost predicate WellFormedMods(ms: seq<Mod>) {
    forall i :: 0 <= i < |ms| && ms[i].Number? ==>
      ms[i].value > 0 && (i + 1 < |ms| ==> !ms[i + 1].Number? && !ms[i + 1].Zero?)
  }

  ghost predicate IsBad(bad: string) {
    |bad| == 1 && bad[0] != '\0' && !IsModChar(bad[0]) && !IsConv(bad[0])
  }

  ghost predicate WellFormedPiece(p: Piece, last: bool) {
    match p
    case Literal(c) => c != '%' && c != '\0'
    case Directive(mods, conv) => WellFormedMods(mods) && IsConv(conv)
    case Verbatim(mods, bad) => WellFormedMods(mods) && if bad == [] then last else IsBad(bad)
  }

  ghost predicate WellFormed(ps: seq<Piece>) {
    forall i :: 0 <= i < |ps| ==> WellFormedPiece(ps[i], i == |ps| - 1)
  }

  // ----- Taking lists and strings apart -----

  lemma Cut(f: string, i: nat, j: nat, k: nat)
    requires i <= j <= k <= |f|
    ensures f[i..k] == f[i..j] + f[j..k]
  {
  }

  lemma CutOne(f: string, i: nat)
    requires i < |f|
    ensures f[i..] == [f[i]] + f[i + 1..]
  {
  }

  lemma CutDirective(f: string, i: nat, j: nat)
    requires i + 1 <= j < |f|
    ensures f[i..] == [f[i]] + (f[i + 1..j] + [f[j]]) + f[j + 1..]
  {
  }

  lemma PieceFirst(p: Piece, ps: seq<Piece>)
    ensures Text([p] + ps) == PieceText(p) + Text(ps)
    ensures WellFormed([p] + ps) <==> WellFormedPiece(p, ps == []) && WellFormed(ps)
  {
    var all := [p] + ps;
    assert all[1..] == ps;
    if WellFormed(all) {
      assert WellFormedPiece(all[0], 0 == |all| - 1);
      forall i | 0 <= i < |ps| ensures WellFormedPiece(ps[i], i == |ps| - 1) {
        assert WellFormedPiece(all[i + 1], i + 1 == |all| - 1);
      }
    }
    if WellFormedPiece(p, ps == []) && WellFormed(ps) {
      forall i | 0 <= i < |all| ensures WellFormedPiece(all[i], i == |all| - 1) {
        if i > 0 {
          assert WellFormedPiece(ps[i - 1], i - 1 == |ps| - 1);
        }
      }
    }
  }

  lemma ModFirst(m: Mod, ms: seq<Mod>)
    ensures ModsText([m] + ms) == ModText(m) + ModsText(ms)
    ensures WellFormedMods([m] + ms)
       <==> WellFormedMods(ms) && (m.Number? ==> m.value > 0 && (ms != [] ==> !ms[0].Number? && !ms[0].Zero?))
  {
    assert ([m] + ms)[1..] == ms;
    FirstWellFormed(m, ms);
  }

  lemma FirstWellFormed(m: Mod, ms: seq<Mod>)
    ensures WellFormedMods([m] + ms)
       <==> WellFormedMods(ms) && (m.Number? ==> m.value > 0 && (ms != [] ==> !ms[0].Number? && !ms[0].Zero?))
  {
    var all := [m] + ms;
    assert forall i :: 0 <= i < |ms| ==> ms[i] == all[i + 1];
    if WellFormedMods(all) {
      assert all[0] == m;
    }
  }

  lemma ModsAtStep(f: string, i: nat, m: Mod, j: nat, ms: seq<Mod>, k: nat)
    requires i < |f| && IsModChar(f[i]) && ModAt(f, i) == (m, j) && ModsAt(f, j) == (ms, k)
    ensures ModsAt(f, i) == ([m] + ms, k)
  {
  }

  // ----- The text of a parse is the format -----

  lemma DecimalDigit(c: char)
    ensures IsDigit(c, 10) <==> '0' <= c <= '9'
    ensures '0' <= c <= '9' ==> LowerHex(c)
  {
  }

  lemma ModAtText(f: string, i: nat)
    requires i < |f| && IsModChar(f[i])
    ensures var (m, j) := ModAt(f, i);
      && ModText(m) == f[i..j]
      && (m.Number? ==> m.value > 0 && (j < |f| ==> !('0' <= f[j] <= '9')))
  {
    if '1' <= f[i] <= '9' {
      var e := DecimalEnd(f, i);
      var s := f[i..e];
      DecimalValue(f, i, e);
      forall k | 0 <= k < |s| ensures IsDigit(s[k], 10) && LowerHex(s[k]) {
        assert DigitIn(10)(f[i + k]);
        DecimalDigit(s[k]);
      }
      NumeralUnique(s, Value(s, 10), 10);
      ValueBound(s, 10);
      if e < |f| {
        DecimalDigit(f[e]);
      }
    }
  }

  lemma {:induction false} ModsAtText(f: string, i: nat)
    requires i <= |f|
    ensures var (ms, j) := ModsAt(f, i);
      && ModsText(ms) == f[i..j]
      && WellFormedMods(ms)
      && (i < |f| && !('0' <= f[i] <= '9') && |ms| > 0 ==> !ms[0].Number? && !ms[0].Zero?)
    decreases |f| - i
  {
    if i < |f| && IsModChar(f[i]) {
      var (m, k) := ModAt(f, i);
      var (ms, j) := ModsAt(f, k);
      ModAtText(f, i);
      ModsAtText(f, k);
      Cut(f, i, k, j);
      ModFirst(m, ms);
    } else {
      assert f[i..i] == [];
    }
  }

  lemma DirectiveEndText(f: string, i: nat, mods: seq<Mod>, j: nat)
    requires i < j <= |f| && f[i] == '%' && ModsText(mods) == f[i + 1..j] && WellFormedMods(mods)
    requires j < |f| ==> !IsModChar(f[j]) && f[j] != '\0'
    ensures var (p, k) := DirectiveEnd(f, mods, j);
      f[i..] == PieceText(p) + f[k..] && WellFormedPiece(p, k == |f|)
  {
    EndWellFormed(f, mods, j);
    EndPiece(f, mods, j);
    if j < |f| {
      MiddleText(f, i, j, ModsText(mods));
    } else {
      EndText(f, i, ModsText(mods));
    }
  }

  lemma EndPiece(f: string, mods: seq<Mod>, j: nat)
    requires j <= |f|
    ensures var (p, k) := DirectiveEnd(f, mods, j);
      if j < |f| then k == j + 1 && PieceText(p) == "%" + (ModsText(mods) + [f[j]])
      else k == j && PieceText(p) == "%" + (ModsText(mods) + [])
  {
  }

  lemma EndWellFormed(f: string, mods: seq<Mod>, j: nat)
    requires j <= |f| && WellFormedMods(mods) && (j < |f| ==> !IsModChar(f[j]) && f[j] != '\0')
    ensures var (p, k) := DirectiveEnd(f, mods, j); WellFormedPiece(p, k == |f|)
  {
  }

  /** A stretch from '%' through the character at j, and one from '%' to the end. */
  lemma MiddleText(f: string, i: nat, j: nat, ms: string)
    requires i < j < |f| && f[i] == '%' && ms == f[i + 1..j]
    ensures f[i..] == "%" + (ms + [f[j]]) + f[j + 1..]
  {
    CutDirective(f, i, j);
  }

  lemma EndText(f: string, i: nat, ms: string)
    requires i < |f| && f[i] == '%' && ms == f[i + 1..|f|]
    ensures f[i..] == "%" + (ms + []) + f[|f|..]
  {
    CutOne(f, i);
    assert f[i + 1..|f|] == f[i + 1..];
  }

  lemma PieceAtText(f: CStr, i: nat)
    requires i < |f|
    ensures var (p, k) := PieceAt(f, i);
      f[i..] == PieceText(p) + f[k..] && WellFormedPiece(p, k == |f|)
  {
    if f[i] == '%' {
      var (mods, j) := ModsAt(f, i + 1);
      ModsAtText(f, i + 1);
      assert j < |f| ==> f[j] in f;
      DirectiveEndText(f, i, mods, j);
    } else {
      CutOne(f, i);
      assert f[i] in f;
    }
  }

  /** Spelling out a parse gives the format back, and a parse is well formed. */
  lemma {:induction false} TextOfParse(f: CStr, i: nat)
    requires i <= |f|
    ensures Text(Parse(f, i)) == f[i..]
    ensures WellFormed(Parse(f, i))
    ensures Parse(f, i) == [] <==> i == |f|
    decreases |f| - i
  {
    if i < |f| {
      var (p, k) := PieceAt(f, i);
      PieceAtText(f, i);
      TextOfParse(f, k);
      PieceFirst(p, Parse(f, k));
    }
  }

  // ----- The parse of a text is what was spelt out -----

  lemma NumeralIsDecimal(v: nat)
    ensures forall k :: 0 <= k < |Numeral(v, 10)| ==> IsDigit(Numeral(v, 10)[k], 10)
    ensures v > 0 ==> '1' <= Numeral(v, 10)[0] <= '9'
    ensures Value(Numeral(v, 10), 10) == v
  {
    NumeralDigits(v, 10);
    NumeralValue(v, 10);
    assert IsDigit(Numeral(v, 10)[0], 10);
    DecimalDigit(Numeral(v, 10)[0]);
  }

  lemma SplitSlice(f: string, i: nat, k: nat, a: string, b: string)
    requires i <= k <= |f| && f[i..k] == a + b
    ensures var j := i + |a|; j <= k && f[i..j] == a && f[j..k] == b
    ensures |a| > 0 ==> f[i] == a[0]
  {
    var j := i + |a|;
    assert k - i == |a + b|;
    forall x | 0 <= x < |a| ensures f[i..j][x] == a[x] {
      assert f[i..k][x] == (a + b)[x];
    }
    forall x | 0 <= x < |b| ensures f[j..k][x] == b[x] {
      assert f[i..k][|a| + x] == (a + b)[|a| + x];
    }
  }

  /** No digit at place j, so that a number may end there. */
  ghost predicate ClearAt(f: string, j: nat) {
    j < |f| ==> !('0' <= f[j] <= '9')
  }

  lemma NumberAtOfText(f: string, i: nat, j: nat, v: nat)
    requires i <= j <= |f| && f[i..j] == Numeral(v, 10) && v > 0 && ClearAt(f, j)
    ensures i < j && IsModChar(f[i]) && ModAt(f, i) == (Number(v), j)
  {
    var s := Numeral(v, 10);
    NumeralIsDecimal(v);
    assert f[i] == f[i..j][0] == s[0];
    if j < |f| {
      DecimalDigit(f[j]);
    }
    forall k | i <= k < j ensures DigitIn(10)(f[k]) {
      assert f[k] == f[i..j][k - i] == s[k - i];
    }
    RunEndIs(f, i, DigitIn(10), j);
  }

  lemma ModAtOfText(f: string, i: nat, j: nat, m: Mod)
    requires i <= j <= |f| && f[i..j] == ModText(m)
    requires m.Number? ==> m.value > 0 && ClearAt(f, j)
    ensures i < j && IsModChar(f[i]) && ModAt(f, i) == (m, j)
  {
    if m.Number? {
      NumberAtOfText(f, i, j, m.value);
    } else {
      assert j == i + 1 && f[i] == f[i..j][0];
    }
  }

  lemma FirstModChar(f: string, i: nat, k: nat, ms: seq<Mod>)
    requires i <= k <= |f| && f[i..k] == ModsText(ms) && (k < |f| ==> !IsModChar(f[k]))
    ensures (ms != [] ==> !ms[0].Number? && !ms[0].Zero?) ==> ClearAt(f, i)
  {
    if ms != [] {
      SplitSlice(f, i, k, ModText(ms[0]), ModsText(ms[1..]));
    }
  }

  lemma {:induction false} ModsAtOfText(f: string, i: nat, k: nat, ms: seq<Mod>)
    requires i <= k <= |f| && f[i..k] == ModsText(ms) && (k < |f| ==> !IsModChar(f[k]))
    requires WellFormedMods(ms)
    ensures ModsAt(f, i) == (ms, k)
    decreases |ms|
  {
    if ms != [] {
      var (m, rest) := (ms[0], ms[1..]);
      assert ms == [m] + rest;
      ModFirst(m, rest);
      var j := i + |ModText(m)|;
      SplitSlice(f, i, k, ModText(m), ModsText(rest));
      FirstModChar(f, j, k, rest);
      ModAtOfText(f, i, j, m);
      ModsAtOfText(f, j, k, rest);
      ModsAtStep(f, i, m, j, rest, k);
    }
  }

  lemma TextParts(f: string, i: nat, k: nat, ms: string, tail: string)
    requires i <= k <= |f| && f[i..k] == "%" + (ms + tail)
    ensures i < k - |tail| && f[i] == '%' && f[i + 1..k - |tail|] == ms && f[k - |tail|..k] == tail
  {
    SplitSlice(f, i, k, "%", ms + tail);
    SplitSlice(f, i + 1, k, ms, tail);
  }

  function Tail(p: Piece): string
    requires !p.Literal?
  {
    if p.Directive? then [p.conv] else p.bad
  }

  lemma DirectiveEndOfText(f: string, j: nat, k: nat, p: Piece)
    requires !p.Literal? && j <= k <= |f| && f[j..k] == Tail(p) && WellFormedPiece(p, k == |f|)
    ensures j < |f| ==> !IsModChar(f[j])
    ensures DirectiveEnd(f, p.mods, j) == (p, k)
  {
    if Tail(p) != [] {
      assert f[j] == f[j..k][0] == Tail(p)[0];
      assert Tail(p) == [f[j]];
    }
  }

  lemma DirectiveParts(f: string, i: nat, k: nat, p: Piece) returns (j: nat)
    requires i <= k <= |f| && f[i..k] == PieceText(p) && !p.Literal? && WellFormedPiece(p, k == |f|)
    ensures i < j <= k && f[i] == '%' && f[i + 1..j] == ModsText(p.mods) && WellFormedMods(p.mods)
    ensures j < |f| ==> !IsModChar(f[j])
    ensures DirectiveEnd(f, p.mods, j) == (p, k)
  {
    j := k - |Tail(p)|;
    TextParts(f, i, k, ModsText(p.mods), Tail(p));
    DirectiveEndOfText(f, j, k, p);
  }

  lemma PieceOfText(f: string, i: nat, k: nat, p: Piece)
    requires i <= k <= |f| && f[i..k] == PieceText(p) && WellFormedPiece(p, k == |f|)
    ensures i < k && PieceAt(f, i) == (p, k)
  {
    if p.Literal? {
      assert f[i] == f[i..k][0];
    } else {
      var j := DirectiveParts(f, i, k, p);
      ModsAtOfText(f, i + 1, j, p.mods);
    }
  }

  lemma SplitTail(f: string, i: nat, a: string, b: string)
    requires i <= |f| && f[i..] == a + b
    ensures var j := i + |a|; j <= |f| && f[i..j] == a && f[j..] == b
  {
    assert f[i..] == f[i..|f|];
    SplitSlice(f, i, |f|, a, b);
    assert f[i + |a|..] == f[i + |a|..|f|];
  }

  lemma FirstPieceOfText(f: string, i: nat, p: Piece, rest: seq<Piece>) returns (k: nat)
    requires i <= |f| && WellFormed([p] + rest) && f[i..] == Text([p] + rest)
    ensures i < k <= |f| && f[i..k] == PieceText(p) && f[k..] == Text(rest)
    ensures WellFormedPiece(p, k == |f|) && WellFormed(rest)
  {
    PieceFirst(p, rest);
    k := i + |PieceText(p)|;
    SplitTail(f, i, PieceText(p), Text(rest));
    TextEmpty(rest);
  }

  lemma ParseStep(f: string, i: nat, p: Piece, k: nat)
    requires i < |f| && PieceAt(f, i) == (p, k)
    ensures Parse(f, i) == [p] + Parse(f, k)
  {
  }

  /** Parsing a spelt-out list of well-formed pieces gives the pieces back. */
  lemma {:induction false} ParseOfText(f: string, i: nat, ps: seq<Piece>)
    requires i <= |f| && WellFormed(ps) && f[i..] == Text(ps)
    ensures Parse(f, i) == ps
    decreases |ps|
  {
    if ps != [] {
      var (p, rest) := (ps[0], ps[1..]);
      assert ps == [p] + rest;
      var k := FirstPieceOfText(f, i, p, rest);
      PieceOfText(f, i, k, p);
      ParseOfText(f, k, rest);
      ParseStep(f, i, p, k);
    }
  }

  lemma TextEmpty(ps: seq<Piece>)
    ensures Text(ps) == [] <==> ps == []
  {
    if ps != [] {
      assert |PieceText(ps[0])| > 0;
    }
  }

  /** The pieces of a format are the only well-formed pieces that spell it. */
  lemma ParseIsUnique(f: CStr, ps: seq<Piece>)
    ensures WellFormed(ps) && Text(ps) == f <==> ps == Parse(f, 0)
  {
    TextOfParse(f, 0);
    assert f[0..] == f;
    if WellFormed(ps) && Text(ps) == f {
      ParseOfText(f, 0, ps);
    }
  }
}
