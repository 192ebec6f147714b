/** Facts about rendering: literal stretches, and the formats that the library itself uses. */
module FormatRender {
  import opened Format
  import opened FormatGrammar

  lemma RenderFirst(p: Piece, ps: seq<Piece>, args: seq<Arg>)
    ensures var (out, rest) := RenderPiece(p, args); Render([p] + ps, args) == out + Render(ps, rest)
  {
    assert ([p] + ps)[1..] == ps;
  }

  // ----- Literal stretches -----

  ghost function Literals(s: string): seq<Piece> {
    if s == [] then [] else [Literal(s[0])] + Literals(s[1..])
  }

  lemma LiteralsFirst(s: string, ps: seq<Piece>)
    ensures Literals([]) + ps == ps
    ensures s != [] ==> Literals(s) + ps == [Literal(s[0])] + (Literals(s[1..]) + ps)
  {
  }

  lemma FirstAndRest(s: string, t: string)
    requires s != []
    ensures s + t == [s[0]] + (s[1..] + t)
  {
  }

  lemma RenderWithFirst(p: Piece, ps: seq<Piece>, args: seq<Arg>,
                        render: (Piece, seq<Arg>) -> (string, seq<Arg>))
    ensures var (out, rest) := render(p, args);
      RenderWith([p] + ps, args, render) == out + RenderWith(ps, rest, render)
  {
    assert ([p] + ps)[1..] == ps;
  }

  lemma {:induction false} RenderWithLiterals(s: string, ps: seq<Piece>, args: seq<Arg>,
                                              render: (Piece, seq<Arg>) -> (string, seq<Arg>))
    requires forall c, a :: render(Literal(c), a) == ([c], a)
    ensures RenderWith(Literals(s) + ps, args, render) == s + RenderWith(ps, args, render)
    decreases |s|
  {
    LiteralsFirst(s, ps);
    if s != [] {
      RenderWithLiterals(s[1..], ps, args, render);
      RenderWithFirst(Literal(s[0]), Literals(s[1..]) + ps, args, render);
      FirstAndRest(s, RenderWith(ps, args, render));
    }
  }

  lemma RenderLiterals(s: string, ps: seq<Piece>, args: seq<Arg>)
    ensures Render(Literals(s) + ps, args) == s + Render(ps, args)
  {
    RenderWithLiterals(s, ps, args, RenderPiece);
  }

  lemma {:induction false} TextLiterals(s: string, ps: seq<Piece>)
    requires '%' !in s && '\0' !in s && WellFormed(ps)
    ensures Text(Literals(s) + ps) == s + Text(ps) && WellFormed(Literals(s) + ps)
    decreases |s|
  {
    LiteralsFirst(s, ps);
    if s != [] {
      assert s[0] in s && forall c :: c in s[1..] ==> c in s;
      TextLiterals(s[1..], ps);
      PieceFirst(Literal(s[0]), Literals(s[1..]) + ps);
      FirstAndRest(s, Text(ps));
    }
  }

  /** A stretch without '%' parses into literals, wherever it lies in the format. */
  lemma {:induction false} ParseLiterals(f: string, i: nat, k: nat)
    requires i <= k <= |f| && '%' !in f[i..k]
    ensures Parse(f, i) == Literals(f[i..k]) + Parse(f, k)
    decreases k - i
  {
    if i == k {
      assert f[i..k] == [];
    } else {
      assert f[i] == f[i..k][0] && f[i..k][1..] == f[i + 1..k];
      ParseLiterals(f, i + 1, k);
    }
  }

  // ----- Directives -----

  ghost predicate IsErrorPiece(p: Piece) {
    p.Directive? && p.conv == 'e'
  }

  /** The format has an error directive, the one that formats in turn. */
  ghost predicate HasError(ps: seq<Piece>) {
    exists i :: 0 <= i < |ps| && IsErrorPiece(ps[i])
  }

  lemma HasErrorFirst(p: Piece, ps: seq<Piece>)
    ensures HasError([p] + ps) <==> IsErrorPiece(p) || HasError(ps)
  {
    var all := [p] + ps;
    if i :| 0 <= i < |ps| && IsErrorPiece(ps[i]) {
      assert IsErrorPiece(all[i + 1]);
    }
    if IsErrorPiece(p) {
      assert IsErrorPiece(all[0]);
    }
    if i :| 0 <= i < |all| && IsErrorPiece(all[i]) {
      assert i == 0 || IsErrorPiece(ps[i - 1]);
    }
  }

  lemma {:induction false} HasErrorLiterals(s: string, ps: seq<Piece>)
    ensures HasError(Literals(s) + ps) <==> HasError(ps)
    decreases |s|
  {
    if s == [] {
      assert Literals(s) + ps == ps;
    } else {
      var rest := Literals(s[1..]) + ps;
      assert Literals(s) + ps == [Literal(s[0])] + rest;
      HasErrorFirst(Literal(s[0]), rest);
      HasErrorLiterals(s[1..], ps);
    }
  }

  /** Literal text followed by one plain directive. */
  lemma PlainFormat(s: string, conv: char, f: CStr, args: seq<Arg>)
    requires '%' !in s && '\0' !in s && IsConv(conv) && f == s + ['%', conv]
    ensures Parse(f, 0) == Literals(s) + [Directive([], conv)]
    ensures Formatted(f, args) == s + Convert(conv, NO_FIELD, args).0
    ensures HasError(Parse(f, 0)) <==> conv == 'e'
  {
    var d := Directive([], conv);
    PieceFirst(d, []);
    assert [d] + [] == [d];
    assert PieceText(d) == ['%', conv];
    TextLiterals(s, [d]);
    ParseIsUnique(f, Literals(s) + [d]);
    RenderLiterals(s, [d], args);
    RenderFirst(d, [], args);
    HasErrorLiterals(s, [d]);
    HasErrorFirst(d, []);
  }

  /** One directive with any modifiers. */
  lemma DirectiveFormat(ms: seq<Mod>, conv: char, f: CStr, args: seq<Arg>)
    requires WellFormedMods(ms) && IsConv(conv) && f == PieceText(Directive(ms, conv))
    ensures var (fld, rest) := ApplyMods(NO_FIELD, ms, args);
      Formatted(f, args) == Convert(conv, fld, rest).0
  {
    var d := Directive(ms, conv);
    PieceFirst(d, []);
    ParseIsUnique(f, [d] + []);
    RenderFirst(d, [], args);
  }

  /** Two plain directives one after the other. */
  lemma PairFormat(conv: char, conv': char, f: CStr, args: seq<Arg>)
    requires IsConv(conv) && IsConv(conv') && f == ['%', conv, '%', conv']
    ensures var (out, rest) := Convert(conv, NO_FIELD, args);
      Formatted(f, args) == out + Convert(conv', NO_FIELD, rest).0
  {
    var (d, e) := (Directive([], conv), Directive([], conv'));
    var rest := Convert(conv, NO_FIELD, args).1;
    PieceFirst(e, []);
    PieceFirst(d, [e] + []);
    assert PieceText(d) == ['%', conv] && PieceText(e) == ['%', conv'];
    ParseIsUnique(f, [d] + ([e] + []));
    RenderFirst(d, [e] + [], args);
    RenderFirst(e, [], rest);
  }

  /** A directive with modifiers and a plain one, with literal text behind each. */
  lemma FramedFormat(ms: seq<Mod>, conv: char, mid: string, conv': char, tail: string, f: CStr, args: seq<Arg>)
    requires WellFormedMods(ms) && IsConv(conv) && IsConv(conv') && '%' !in mid + tail && '\0' !in mid + tail
    requires f == PieceText(Directive(ms, conv)) + (mid + (['%', conv'] + tail))
    ensures var (fld, rest) := ApplyMods(NO_FIELD, ms, args);
      var (out, rest') := Convert(conv, fld, rest);
      Formatted(f, args) == out + (mid + (Convert(conv', NO_FIELD, rest').0 + tail))
  {
    var (d, e) := (Directive(ms, conv), Directive([], conv'));
    var (fld, rest) := ApplyMods(NO_FIELD, ms, args);
    var rest' := Convert(conv, fld, rest).1;
    assert PieceText(e) == ['%', conv'];
    assert forall c :: c in mid || c in tail ==> c in mid + tail;
    var ends := Literals(tail) + [];
    TextLiterals(tail, []);
    PieceFirst(e, ends);
    TextLiterals(mid, [e] + ends);
    PieceFirst(d, Literals(mid) + ([e] + ends));
    assert tail + Text([]) == tail;
    ParseIsUnique(f, [d] + (Literals(mid) + ([e] + ends)));
    RenderFirst(d, Literals(mid) + ([e] + ends), args);
    RenderLiterals(mid, [e] + ends, rest');
    RenderFirst(e, ends, rest');
    RenderLiterals(tail, [], Convert(conv', NO_FIELD, rest').1);
    assert tail + "" == tail;
  }

  lemma PlainText(s: string)
    ensures SanitizedText(s, false) == s && StrField(s, NO_FIELD) == s
  {
    assert SanitizedText(s, false) == s;
    assert s[..|s|] == s;
  }

  const NUMBER_FORMAT: CStr := "error %d"
  const NAME_FORMAT: CStr := "%s"
  const DECIMAL_FORMAT: CStr := "%d"

  /** The two formats that the error conversion falls back on. */
  lemma NumberFormat(err: int)
    requires -TWO_31 <= err < TWO_31
    ensures Formatted(NUMBER_FORMAT, [Num(err)]) == "error " + SignedField(err, -1, ' ')
    ensures !HasError(Parse(NUMBER_FORMAT, 0))
  {
    PlainFormat("error ", 'd', NUMBER_FORMAT, [Num(err)]);
  }

  lemma DecimalFormat(v: int)
    requires -TWO_31 <= v < TWO_31
    ensures Formatted(DECIMAL_FORMAT, [Num(v)]) == SignedField(v, -1, ' ')
  {
    PlainFormat("", 'd', DECIMAL_FORMAT, [Num(v)]);
    NothingBefore(SignedField(v, -1, ' '));
  }

  lemma NothingBefore(s: string)
    ensures "" + s == s
  {
  }

  lemma NameFormat(t: CStr)
    ensures Formatted(NAME_FORMAT, [Str(Some(t))]) == t
    ensures !HasError(Parse(NAME_FORMAT, 0))
  {
    PlainFormat("", 's', NAME_FORMAT, [Str(Some(t))]);
    PlainText(t);
  }
}
