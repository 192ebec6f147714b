/** How strtol compares with section 7.22.1.4 of ISO/IEC 9899:2011: exactly when its value and end
    are those of the standard. */
module StrtolStandard {
  import opened Digits
  import opened Strtol

  // ----- What the standard asks for -----

  /** The white-space characters of isspace in the "C" locale. */
  predicate Space(c: char) {
    c == ' ' || ('\t' <= c <= '\r')
  }

  ghost function AfterSign(s: string, i: nat): (j: nat)
    requires i <= |s|
    ensures i <= j <= |s|
  {
    if CharAt(s, i) in {'+', '-'} then i + 1 else i
  }

  function LowerCase(c: char): char {
    if 'A' <= c <= 'Z' then (c as int + 32) as char else c
  }

  /** The digit that a character stands for: letters from a (or A) through z (or Z) are 10 to 35. */
  ghost function StandardDigit(c: char): int {
    var l := LowerCase(c) as int;
    if 48 <= l <= 57 then l - 48 else if 97 <= l <= 122 then l - 87 else -1
  }

  ghost function StandardIn(base: int): char -> bool {
    c => 0 <= StandardDigit(c) < base
  }

  ghost function StandardValue(s: string, base: int): int {
    if s == [] then 0 else StandardValue(s[..|s| - 1], base) * base + StandardDigit(s[|s| - 1])
  }

  /** Does a digit of the base stand at place k? */
  ghost predicate DigitAt(s: string, k: nat, base: int) {
    k < |s| && 0 <= StandardDigit(s[k]) < base
  }

  ghost predicate PrefixAt(s: string, j: nat, base: int, x: char) {
    (base == 0 || base == 16) && j + 1 < |s| && s[j] == '0' && s[j + 1] == x
  }

  /** The prefix counts only when a hexadecimal digit follows it, in either case of the x. */
  ghost predicate HexPrefix(s: string, j: nat, base: int) {
    (PrefixAt(s, j, base, 'x') || PrefixAt(s, j, base, 'X')) && DigitAt(s, j + 2, 16)
  }

  ghost function BaseAt(s: string, j: nat, base: int): int
    requires j <= |s|
  {
    if base != 0 then base else if CharAt(s, j) == '0' then 8 else 10
  }

  /** A value too large or too small for a long becomes the nearest one. */
  ghost function Clamp(v: int): int {
    if v >= TWO_63 then TWO_63 - 1 else if v < -TWO_63 then -TWO_63 else v
  }

  ghost function Negated(neg: bool, v: int): int {
    if neg then -v else v
  }

  /** The digits from k on, or no conversion when there is none: then the end is the start. */
  ghost function StandardDigits(s: string, neg: bool, k: nat, b: int): (int, nat)
    requires k <= |s|
  {
    var e := RunEnd(s, k, StandardIn(b));
    if e == k then (0, 0) else (Clamp(Negated(neg, StandardValue(s[k..e], b))), e)
  }

  /** The number behind a sign. */
  ghost function StandardFrom(s: string, neg: bool, j: nat, base: int): (int, nat)
    requires j <= |s|
  {
    if HexPrefix(s, j, base) then StandardDigits(s, neg, j + 2, 16)
    else StandardDigits(s, neg, j, BaseAt(s, j, base))
  }

  /** The value and the end that the standard asks for. */
  ghost function Standard(s: string, base: int): (int, nat) {
    var i := RunEnd(s, 0, Space);
    StandardFrom(s, CharAt(s, i) == '-', AfterSign(s, i), base)
  }

  // ----- When the code meets it -----

  /** The digits from k on have a value that fits a long, or one that wraps to the nearest. */
  ghost predicate Fits(s: string, neg: bool, k: nat, b: int)
    requires k <= |s|
  {
    var v := Negated(neg, StandardValue(s[k..RunEnd(s, k, StandardIn(b))], b));
    -TWO_63 <= v < TWO_63
    || (v >= TWO_63 && v % TWO_64 == TWO_63 - 1)
    || (v < -TWO_63 && v % TWO_64 == TWO_63)
  }

  /** What follows blanks and sign decides: a prefix in lower case needs a digit behind it, one in
      upper case must have none, and without any digit there must be no blank and no sign. */
  ghost predicate MeetsFrom(s: string, neg: bool, j: nat, base: int)
    requires j <= |s|
  {
    if PrefixAt(s, j, base, 'x') then DigitAt(s, j + 2, 16) && Fits(s, neg, j + 2, 16)
    else if PrefixAt(s, j, base, 'X') then !DigitAt(s, j + 2, 16)
    else if DigitAt(s, j, BaseAt(s, j, base)) then Fits(s, neg, j, BaseAt(s, j, base))
    else j == 0
  }

  ghost predicate NumberAt(s: string, j: nat, base: int)
    requires j <= |s|
  {
    DigitAt(s, j, BaseAt(s, j, base))
  }

  /** White space other than blanks must come first and have no number behind it. */
  ghost predicate Meets(s: string, base: int) {
    var i := RunEnd(s, 0, Blank);
    if i < |s| && Space(s[i]) then i == 0 && !NumberAt(s, AfterSign(s, RunEnd(s, 0, Space)), base)
    else MeetsFrom(s, CharAt(s, i) == '-', AfterSign(s, i), base)
  }

  // ----- The digits -----

  lemma SameDigit(c: char)
    ensures StandardDigit(c) == DigitValue(c)
  {
  }

  lemma SameRun(s: string, k: nat, b: int)
    requires k <= |s|
    ensures RunEnd(s, k, StandardIn(b)) == RunEnd(s, k, DigitIn(b))
  {
    var e := RunEnd(s, k, DigitIn(b));
    forall c ensures StandardIn(b)(c) == DigitIn(b)(c) {
      SameDigit(c);
    }
    RunEndIs(s, k, StandardIn(b), e);
  }

  lemma {:induction false} SameValue(s: string, b: int)
    ensures StandardValue(s, b) == Value(s, b)
  {
    if s != [] {
      SameValue(s[..|s| - 1], b);
      SameDigit(s[|s| - 1]);
    }
  }

  ghost function CodeDigits(s: string, neg: bool, k: nat, b: int): (int, nat)
    requires k <= |s|
  {
    var e := RunEnd(s, k, DigitIn(b));
    (Signed(neg, Value(s[k..e], b)), e)
  }

  lemma WrapIsClamp(v: int)
    ensures Wrap64(v) == Clamp(v) <==>
      || -TWO_63 <= v < TWO_63
      || (v >= TWO_63 && v % TWO_64 == TWO_63 - 1)
      || (v < -TWO_63 && v % TWO_64 == TWO_63)
  {
  }

  lemma NoRun(s: string, k: nat, b: int)
    requires k <= |s|
    ensures RunEnd(s, k, DigitIn(b)) == k <==> !DigitAt(s, k, b)
    ensures RunEnd(s, k, StandardIn(b)) == k <==> !DigitAt(s, k, b)
  {
    SameRun(s, k, b);
  }

  lemma DigitsAgree(s: string, neg: bool, k: nat, b: int)
    requires k <= |s|
    ensures CodeDigits(s, neg, k, b) == StandardDigits(s, neg, k, b) <==>
      if DigitAt(s, k, b) then Fits(s, neg, k, b) else k == 0
  {
    var e := RunEnd(s, k, DigitIn(b));
    NoRun(s, k, b);
    SameRun(s, k, b);
    SameValue(s[k..e], b);
    if e == k {
      assert s[k..k] == [];
    } else {
      WrapIsClamp(Negated(neg, Value(s[k..e], b)));
    }
  }

  /** Reading an octal number from behind its leading zero makes no difference. */
  lemma LeadingZero(s: string, neg: bool, j: nat)
    requires j < |s| && s[j] == '0'
    ensures CodeDigits(s, neg, j + 1, 8) == CodeDigits(s, neg, j, 8)
  {
    var e := RunEnd(s, j + 1, DigitIn(8));
    assert DigitIn(8)(s[j]);
    assert RunEnd(s, j, DigitIn(8)) == e;
    assert s[j..e] == "0" + s[j + 1..e];
    LeadingZeros("0", s[j + 1..e], 8);
  }

  // ----- The three kinds of input -----

  /** Another white-space character after the blanks: the code stops there, the standard reads on. */
  lemma OtherSpace(s: string, base: int)
    requires base == 0 || 2 <= base <= 36
    requires var i := RunEnd(s, 0, Blank); i < |s| && Space(s[i])
    ensures Parsed(s, base) == (0, RunEnd(s, 0, Blank))
    ensures RunEnd(s, 0, Space) > RunEnd(s, 0, Blank)
  {
    var i := RunEnd(s, 0, Blank);
    var b := Start(s, base).1;
    assert Start(s, base) == (false, b, i) && !IsDigit(s[i], b);
    RunEndIs(s, i, DigitIn(b), i);
    assert s[i..i] == [];
    if RunEnd(s, 0, Space) <= i {
      assert Space(s[RunEnd(s, 0, Space)]);
    }
  }

  lemma StandardEnd(s: string, base: int)
    requires base == 0 || 2 <= base <= 36
    ensures var i := RunEnd(s, 0, Space);
      var j := AfterSign(s, i);
      if NumberAt(s, j, base) then Standard(s, base).1 > i else Standard(s, base) == (0, 0)
  {
    var j := AfterSign(s, RunEnd(s, 0, Space));
    NoRun(s, j, BaseAt(s, j, base));
    if HexPrefix(s, j, base) {
      NoRun(s, j + 2, 16);
    }
  }

  /** No other white space: the code skips what the standard skips. */
  lemma SameStart(s: string)
    requires var i := RunEnd(s, 0, Blank); !(i < |s| && Space(s[i]))
    ensures RunEnd(s, 0, Space) == RunEnd(s, 0, Blank)
  {
    RunEndIs(s, 0, Space, RunEnd(s, 0, Blank));
  }

  /** What the code reads from behind blanks and sign. */
  ghost function CodeFrom(s: string, neg: bool, j: nat, base: int): (int, nat)
    requires j <= |s|
  {
    if PrefixAt(s, j, base, 'x') then CodeDigits(s, neg, j + 2, 16)
    else CodeDigits(s, neg, j, BaseAt(s, j, base))
  }

  lemma PrefixReads(s: string, neg: bool, j: nat, base: int)
    requires j <= |s|
    ensures var (b, k) := Prefix(s, j, base); k <= |s| && CodeDigits(s, neg, k, b) == CodeFrom(s, neg, j, base)
  {
    if base == 0 && CharAt(s, j) == '0' && !PrefixAt(s, j, base, 'x') {
      LeadingZero(s, neg, j);
    }
  }

  lemma CodeReads(s: string, base: int)
    ensures var i := RunEnd(s, 0, Blank);
      Parsed(s, base) == CodeFrom(s, CharAt(s, i) == '-', AfterSign(s, i), base)
  {
    var i := RunEnd(s, 0, Blank);
    PrefixReads(s, CharAt(s, i) == '-', AfterSign(s, i), base);
  }

  /** A single digit and the end of the number right behind it. */
  lemma JustDigit(s: string, k: nat, b: int)
    requires DigitAt(s, k, b) && !DigitAt(s, k + 1, b)
    ensures StandardDigits(s, false, k, b) == (Clamp(StandardDigit(s[k])), k + 1)
    ensures CodeDigits(s, false, k, b) == (StandardDigit(s[k]), k + 1)
  {
    SameDigit(s[k]);
    OneRun(s, k, b);
    OneValue(s[k], b);
    assert s[k..k + 1] == [s[k]];
  }

  lemma OneRun(s: string, k: nat, b: int)
    requires DigitAt(s, k, b) && !DigitAt(s, k + 1, b)
    ensures RunEnd(s, k, DigitIn(b)) == RunEnd(s, k, StandardIn(b)) == k + 1
  {
    SameDigit(s[k]);
    NoRun(s, k + 1, b);
    RunEndIs(s, k, DigitIn(b), k + 1);
    SameRun(s, k, b);
  }

  lemma OneValue(c: char, b: int)
    ensures Value([c], b) == StandardValue([c], b) == StandardDigit(c)
  {
    SameDigit(c);
    SameValue([c], b);
    assert "" + [c] == [c];
    ValueSnoc("", c, b);
  }

  /** A zero has no sign. */
  lemma JustZero(s: string, neg: bool, j: nat, b: int)
    requires j < |s| && s[j] == '0' && b >= 1 && !DigitAt(s, j + 1, b)
    ensures StandardDigits(s, neg, j, b) == (0, j + 1)
    ensures CodeDigits(s, neg, j, b) == (0, j + 1)
  {
    OneRun(s, j, b);
    OneValue(s[j], b);
    assert s[j..j + 1] == [s[j]];
  }

  lemma PrefixAgrees(s: string, neg: bool, j: nat, base: int)
    requires PrefixAt(s, j, base, 'x')
    ensures CodeFrom(s, neg, j, base) == StandardFrom(s, neg, j, base) <==> MeetsFrom(s, neg, j, base)
  {
    DigitsAgree(s, neg, j + 2, 16);
    if !DigitAt(s, j + 2, 16) {
      JustZero(s, neg, j, BaseAt(s, j, base));
    }
  }

  lemma UpperPrefixAgrees(s: string, neg: bool, j: nat, base: int)
    requires PrefixAt(s, j, base, 'X')
    ensures CodeFrom(s, neg, j, base) == StandardFrom(s, neg, j, base) <==> MeetsFrom(s, neg, j, base)
  {
    JustZero(s, neg, j, BaseAt(s, j, base));
    NoRun(s, j + 2, 16);
  }

  lemma NumberAgrees(s: string, neg: bool, j: nat, base: int)
    requires j <= |s|
    ensures CodeFrom(s, neg, j, base) == StandardFrom(s, neg, j, base) <==> MeetsFrom(s, neg, j, base)
  {
    if PrefixAt(s, j, base, 'x') {
      PrefixAgrees(s, neg, j, base);
    } else if PrefixAt(s, j, base, 'X') {
      UpperPrefixAgrees(s, neg, j, base);
    } else {
      DigitsAgree(s, neg, j, BaseAt(s, j, base));
    }
  }

  /** Exactly when strtol returns the value, and the end, that the standard asks for. */
  lemma MeetsStandard(s: string, base: int)
    requires base == 0 || 2 <= base <= 36
    ensures Parsed(s, base) == Standard(s, base) <==> Meets(s, base)
  {
    var i := RunEnd(s, 0, Blank);
    if i < |s| && Space(s[i]) {
      OtherSpace(s, base);
      StandardEnd(s, base);
    } else {
      SameStart(s);
      CodeReads(s, base);
      NumberAgrees(s, CharAt(s, i) == '-', AfterSign(s, i), base);
    }
  }

  // ----- Inputs on which they differ -----

  /** A blank, a sign or a prefix with no number behind it is eaten. */
  lemma EatsWithoutNumber()
    ensures Parsed(" ", 10) == (0, 1) && Standard(" ", 10) == (0, 0)
    ensures Parsed("-", 10) == (0, 1) && Standard("-", 10) == (0, 0)
    ensures Parsed("0x", 16) == (0, 2) && Standard("0x", 16) == (0, 1)
  {
    BlankEaten(" ");
    MinusEaten("-");
    PrefixEaten("0x");
  }

  lemma EmptyRead(s: string, neg: bool, k: nat, b: int)
    requires k <= |s| && !DigitAt(s, k, b)
    ensures CodeDigits(s, neg, k, b) == (0, k)
  {
    NoRun(s, k, b);
    assert s[k..k] == [];
  }

  lemma BlankEaten(s: string)
    requires |s| == 1 && s[0] == ' '
    ensures Parsed(s, 10) == (0, 1) && Standard(s, 10) == (0, 0)
  {
    RunEndIs(s, 0, Blank, 1);
    RunEndIs(s, 0, Space, 1);
    CodeReads(s, 10);
    EmptyRead(s, false, 1, 10);
    StandardEnd(s, 10);
  }

  lemma MinusEaten(s: string)
    requires |s| == 1 && s[0] == '-'
    ensures Parsed(s, 10) == (0, 1) && Standard(s, 10) == (0, 0)
  {
    RunEndIs(s, 0, Blank, 0);
    SameStart(s);
    CodeReads(s, 10);
    EmptyRead(s, true, 1, 10);
    StandardEnd(s, 10);
  }

  lemma PrefixEaten(s: string)
    requires |s| == 2 && s[0] == '0' && s[1] == 'x'
    ensures Parsed(s, 16) == (0, 2) && Standard(s, 16) == (0, 1)
  {
    RunEndIs(s, 0, Blank, 0);
    SameStart(s);
    CodeReads(s, 16);
    EmptyRead(s, false, 2, 16);
    JustZero(s, false, 0, 16);
  }

  lemma UpperPrefixRead(s: string)
    requires |s| == 3 && s[0] == '0' && s[1] == 'X' && s[2] == '1'
    ensures Parsed(s, 16) == (0, 1) && Standard(s, 16) == (1, 3)
  {
    RunEndIs(s, 0, Blank, 0);
    SameStart(s);
    CodeReads(s, 16);
    JustZero(s, false, 0, 16);
    JustDigit(s, 2, 16);
  }

  lemma NewlineRead(s: string)
    requires |s| == 2 && s[0] == '\n' && s[1] == '1'
    ensures Parsed(s, 10) == (0, 0) && Standard(s, 10) == (1, 2)
  {
    RunEndIs(s, 0, Blank, 0);
    RunEndIs(s, 0, Space, 1);
    OtherSpace(s, 10);
    JustDigit(s, 1, 10);
  }

  /** The upper-case prefix and white space other than blanks are not recognised. */
  lemma StopsEarly()
    ensures Parsed("0X1", 16) == (0, 1) && Standard("0X1", 16) == (1, 3)
    ensures Parsed("\n1", 10) == (0, 0) && Standard("\n1", 10) == (1, 2)
  {
    UpperPrefixRead("0X1");
    NewlineRead("\n1");
  }

  /** What becomes of a string of nothing but digits. */
  lemma WholeNumeral(s: string, base: nat)
    requires 2 <= base <= 10 && |s| > 0 && AllDigits(s, base)
    ensures Parsed(s, base) == (Wrap64(Value(s, base)), |s|)
    ensures Standard(s, base) == (Clamp(Value(s, base)), |s|)
  {
    assert IsDigit(s[0], base);
    RunEndIs(s, 0, Blank, 0);
    RunEndIs(s, 0, Space, 0);
    forall k | 0 <= k < |s| ensures DigitIn(base)(s[k]) {
      assert IsDigit(s[k], base);
    }
    RunEndIs(s, 0, DigitIn(base), |s|);
    SameRun(s, 0, base);
    SameValue(s, base);
    assert s[0..|s|] == s;
  }

  lemma WrapsAround()
    ensures Wrap64(9223372036854775808) == -9223372036854775808
    ensures Clamp(9223372036854775808) == 9223372036854775807
  {
  }

  /** The least number that is too large wraps to the least long. */
  lemma Overflows(s: string)
    requires |s| > 0 && AllDigits(s, 10) && Value(s, 10) == 9223372036854775808
    ensures Parsed(s, 10) == (-9223372036854775808, |s|) && Standard(s, 10) == (9223372036854775807, |s|)
  {
    WholeNumeral(s, 10);
    WrapsAround();
  }

  // ----- Digits of either case -----

  ghost predicate SameLetter(c: char, d: char) {
    c != d && LowerCase(c) == LowerCase(d)
  }

  /** May the case of the letter at place i change? Not where it is the x of a prefix. */
  ghost predicate FreeCase(s: string, base: int, i: nat) {
    var j := AfterSign(s, RunEnd(s, 0, Blank));
    i != j + 1 || !(PrefixAt(s, j, base, 'x') || PrefixAt(s, j, base, 'X'))
  }

  lemma SameRuns(s: string, t: string, k: nat, p: char -> bool)
    requires |s| == |t| && k <= |s| && forall i :: 0 <= i < |s| ==> p(s[i]) == p(t[i])
    ensures RunEnd(s, k, p) == RunEnd(t, k, p)
  {
    RunEndIs(t, k, p, RunEnd(s, k, p));
  }

  lemma {:induction false} SameValues(s: string, t: string, base: int)
    requires |s| == |t| && forall i :: 0 <= i < |s| ==> DigitValue(s[i]) == DigitValue(t[i])
    ensures Value(s, base) == Value(t, base)
    decreases |s|
  {
    if s != [] {
      SameValues(s[..|s| - 1], t[..|t| - 1], base);
    }
  }

  lemma LetterOfNothing(c: char, d: char)
    requires SameLetter(c, d)
    ensures DigitValue(c) == DigitValue(d)
    ensures !Blank(c) && !Blank(d) && c != '+' && c != '-' && c != '0' && d != '+' && d != '-' && d != '0'
  {
  }

  ghost predicate CaseOnly(s: string, t: string, base: int) {
    |s| == |t| &&
    forall i :: 0 <= i < |s| ==> s[i] == t[i] || (SameLetter(s[i], t[i]) && FreeCase(s, base, i))
  }

  lemma CaseAt(s: string, t: string, base: int, i: nat)
    requires CaseOnly(s, t, base) && i < |s|
    ensures DigitValue(s[i]) == DigitValue(t[i]) && Blank(s[i]) == Blank(t[i])
    ensures (s[i] == '+' <==> t[i] == '+') && (s[i] == '-' <==> t[i] == '-') && (s[i] == '0' <==> t[i] == '0')
    ensures !FreeCase(s, base, i) ==> s[i] == t[i]
    ensures FreeCase(s, base, i) && t[i] == 'x' && s[i] != 'x' ==> s[i] == 'X'
  {
    if s[i] != t[i] {
      LetterOfNothing(s[i], t[i]);
    }
  }

  lemma SameStarts(s: string, t: string, base: int)
    requires CaseOnly(s, t, base)
    ensures Start(s, base) == Start(t, base)
  {
    forall i | 0 <= i < |s| ensures Blank(s[i]) == Blank(t[i]) {
      CaseAt(s, t, base, i);
    }
    SameRuns(s, t, 0, Blank);
    var i := RunEnd(s, 0, Blank);
    var j := AfterSign(s, i);
    if i < |s| {
      CaseAt(s, t, base, i);
    }
    if j < |s| {
      CaseAt(s, t, base, j);
    }
    if j + 1 < |s| {
      CaseAt(s, t, base, j + 1);
    }
  }

  /** The case of letters does not matter, but for the letter of a prefix. */
  lemma CaseDoesNotMatter(s: string, t: string, base: int)
    requires CaseOnly(s, t, base)
    ensures Parsed(s, base) == Parsed(t, base)
  {
    SameStarts(s, t, base);
    forall i | 0 <= i < |s| ensures DigitValue(s[i]) == DigitValue(t[i]) {
      CaseAt(s, t, base, i);
    }
    var (neg, b, k) := Start(s, base);
    SameRuns(s, t, k, DigitIn(b));
    var e := RunEnd(s, k, DigitIn(b));
    SameValues(s[k..e], t[k..e], b);
  }
}
