/** The process tree of the forktree program, under every interleaving of its processes. */
module ForkTree {
  import opened Numbers
  import opened Digits
  import opened Format
  import opened FormatGrammar
  import opened FormatRender
  import opened Printfmt
  import opened Strtol

  // ----- The name of a child -----

  ghost predicate Binary(s: string) {
    forall i :: 0 <= i < |s| ==> s[i] == '0' || s[i] == '1'
  }

  const CHILD_FORMAT: CStr := "%s%c"

  lemma ChildNameFormat(cur: CStr, branch: char)
    requires branch as int < 256
    ensures Formatted(CHILD_FORMAT, [Str(Some(cur)), Num(branch as int)]) == cur + [branch]
  {
    PairFormat('s', 'c', CHILD_FORMAT, [Str(Some(cur)), Num(branch as int)]);
    PlainText(cur);
  }

  // ----- The printed line -----

  const LINE_FORMAT: CStr := "%04x: I am '%s'\n"

  /** The line that a process with the given number and name prints. */
  ghost function Line(pid: nat, cur: CStr): string {
    Formatted(LINE_FORMAT, [Num(pid), Str(Some(cur))])
  }

  lemma LineIs(pid: nat, cur: CStr)
    requires pid < TWO_31
    ensures Line(pid, cur) == NumField(pid, 16, 4, '0') + (": I am '" + (cur + "'\n"))
  {
    var ms := [Zero, Number(4)];
    var args := [Num(pid), Str(Some(cur))];
    LineModifiers();
    FramedFormat(ms, 'x', ": I am '", 's', "'\n", LINE_FORMAT, args);
    PidField(ms, args, pid);
    PlainText(cur);
  }

  /** Printing the line. */
  method PrintLine(pid: nat, cur: CStr) returns (cnt: nat, line: string)
    requires pid < TWO_31
    ensures line == NumField(pid, 16, 4, '0') + (": I am '" + (cur + "'\n")) && cnt == |line|
  {
    LineIs(pid, cur);
    cnt, line := Vcprintf(LINE_FORMAT, [Num(pid), Str(Some(cur))]);
  }

  lemma LineModifiers()
    ensures WellFormedMods([Zero, Number(4)])
    ensures LINE_FORMAT == PieceText(Directive([Zero, Number(4)], 'x')) + (": I am '" + (['%', 's'] + "'\n"))
  {
    ZeroFour();
    assert PieceText(Directive([Zero, Number(4)], 'x')) == "%04x";
    assert ": I am '" + (['%', 's'] + "'\n") == ": I am '%s'\n";
  }

  lemma ZeroFour()
    ensures WellFormedMods([Zero, Number(4)]) && ModsText([Zero, Number(4)]) == "04"
  {
    NumeralUnique("4", 4, 10);
    ModFirst(Number(4), []);
    ModFirst(Zero, [Number(4)] + []);
    assert [Zero, Number(4)] == [Zero] + ([Number(4)] + []);
  }

  lemma PidField(ms: seq<Mod>, args: seq<Arg>, pid: nat)
    requires ms == [Zero, Number(4)] && |args| == 2 && args[0] == Num(pid) && pid < TWO_31
    ensures var (fld, rest) := ApplyMods(NO_FIELD, ms, args);
      Convert('x', fld, rest) == (NumField(pid, 16, 4, '0'), args[1..])
  {
    var fld := NO_FIELD.(padc := '0');
    assert ms[1..] == [Number(4)] && [Number(4)][1..] == [];
    assert ApplyMods(fld.(width := 4), [], args) == (fld.(width := 4), args);
    assert ApplyMods(fld, [Number(4)], args) == (fld.(width := 4), args);
    assert ApplyMods(NO_FIELD, ms, args) == (fld.(width := 4), args);
    assert GetUint(pid, 0) == pid;
  }

  lemma HexField(pid: nat)
    ensures var s := NumField(pid, 16, 4, '0'); ':' !in s && Value(s, 16) == pid
  {
    var d := Numeral(pid, 16);
    NumeralDigits(pid, 16);
    NumeralValue(pid, 16);
    NoColon(d);
    NoColon(Repeat('0', 4 - |d|));
    LeadingZeros(Repeat('0', 4 - |d|), d, 16);
  }

  lemma NoColon(d: string)
    requires AllDigits(d, 16)
    ensures ':' !in d
  {
    forall i | 0 <= i < |d| ensures d[i] != ':' {
      assert IsDigit(d[i], 16);
    }
  }

  /** What stands before the first colon decides where it is. */
  lemma FirstColon(a: string, x: string, b: string, y: string)
    requires ':' !in a && ':' !in b && a + (":" + x) == b + (":" + y)
    ensures a == b && x == y
  {
    var s := a + (":" + x);
    assert s[|a|] == ':' && s[|b|] == ':';
    assert s[..|a|] == a && s[..|b|] == b;
    RunEndIs(s, 0, c => c != ':', |a|);
    RunEndIs(s, 0, c => c != ':', |b|);
    assert s[|a| + 1..] == x && s[|b| + 1..] == y;
  }

  lemma SameEnds(p: string, x: string, y: string, e: string)
    requires p + (x + e) == p + (y + e)
    ensures x == y
  {
    var (l, r) := (p + (x + e), p + (y + e));
    assert l[|p|..|l| - |e|] == x && r[|p|..|r| - |e|] == y;
  }

  /** A line tells the number and the name of the process that printed it. */
  lemma LineTells(pid: nat, cur: CStr, pid': nat, cur': CStr)
    requires pid < TWO_31 && pid' < TWO_31
    ensures Line(pid, cur) == Line(pid', cur') <==> pid == pid' && cur == cur'
  {
    if Line(pid, cur) == Line(pid', cur') {
      LineIs(pid, cur);
      LineIs(pid', cur');
      HexField(pid);
      HexField(pid');
      LineParts(NumField(pid, 16, 4, '0'), cur, NumField(pid', 16, 4, '0'), cur');
    }
  }

  lemma LineParts(a: string, cur: string, b: string, cur': string)
    requires ':' !in a && ':' !in b
    requires a + (": I am '" + (cur + "'\n")) == b + (": I am '" + (cur' + "'\n"))
    ensures a == b && cur == cur'
  {
    var (x, y) := (" I am '" + (cur + "'\n"), " I am '" + (cur' + "'\n"));
    assert ": I am '" + (cur + "'\n") == ":" + x && ": I am '" + (cur' + "'\n") == ":" + y;
    FirstColon(a, x, b, y);
    SameEnds(" I am '", cur, cur', "'\n");
  }

  // ----- Processes -----

  /** Where a process stands: before the print and the two forks of forktree, back from it, after
      the yield of a child, or gone. */
  datatype Pc = AtPrint | AtChild0 | AtChild1 | Returned | Yielded | Exited

  datatype Process = Process(cur: string, pc: Pc, isMain: bool)

  datatype State = State(procs: seq<Process>, out: seq<string>)

  const INIT: State := State([Process("", AtPrint, true)], [])

  /** A step of one process; main returns without the yield of a child. */
  function Advance(p: Process): Process {
    p.(pc := match p.pc
             case AtPrint => AtChild0
             case AtChild0 => AtChild1
             case AtChild1 => Returned
             case Returned => if p.isMain then Exited else Yielded
             case Yielded => Exited
             case Exited => Exited)
  }

  /** What that step prints. */
  function Printed(p: Process): seq<string> {
    if p.pc == AtPrint then [p.cur] else []
  }

  /** The process that it forks, unless the name of its own has full length. */
  function Forked(depth: nat, p: Process): seq<Process> {
    if p.pc == AtChild0 && |p.cur| < depth then [Process(p.cur + ['0'], AtPrint, false)]
    else if p.pc == AtChild1 && |p.cur| < depth then [Process(p.cur + ['1'], AtPrint, false)]
    else []
  }

  /** The name of a child, written in a buffer that holds every name: nothing is cut off. */
  method ForkChild(depth: nat, p: Process) returns (forked: seq<Process>)
    requires (p.pc == AtChild0 || p.pc == AtChild1) && '\0' !in p.cur
    ensures forked == Forked(depth, p)
  {
    var nxt := new char[depth + 1];
    if |p.cur| >= depth {
      return [];
    }
    var branch := if p.pc == AtChild0 then '0' else '1';
    ChildNameFormat(p.cur, branch);
    var r := Vsnprintf(nxt, depth + 1, CHILD_FORMAT, [Str(Some(p.cur)), Num(branch as int)]);
    assert nxt[..r] == p.cur + [branch] && nxt[r] == '\0';
    return [Process(nxt[..r], AtPrint, false)];
  }

  function Step(depth: nat, st: State, i: nat): State
    requires i < |st.procs|
  {
    State(st.procs[i := Advance(st.procs[i])] + Forked(depth, st.procs[i]), st.out + Printed(st.procs[i]))
  }

  /** Any order in which a scheduler may run processes that have not exited. */
  ghost predicate IsSchedule(depth: nat, st: State, schedule: seq<nat>)
    decreases |schedule|
  {
    schedule == [] ||
    (schedule[0] < |st.procs| && st.procs[schedule[0]].pc != Exited &&
     IsSchedule(depth, Step(depth, st, schedule[0]), schedule[1..]))
  }

  ghost function Run(depth: nat, st: State, schedule: seq<nat>): State
    requires IsSchedule(depth, st, schedule)
    decreases |schedule|
  {
    if schedule == [] then st else Run(depth, Step(depth, st, schedule[0]), schedule[1..])
  }

  ghost predicate Quiescent(st: State) {
    forall i :: 0 <= i < |st.procs| ==> st.procs[i].pc == Exited
  }

  // ----- Sums over the processes -----

  ghost function Sum(f: Process -> nat, ps: seq<Process>): nat {
    if ps == [] then 0 else Sum(f, ps[..|ps| - 1]) + f(ps[|ps| - 1])
  }

  lemma SumAppend(f: Process -> nat, ps: seq<Process>, p: Process)
    ensures Sum(f, ps + [p]) == Sum(f, ps) + f(p)
  {
    assert (ps + [p])[..|ps|] == ps;
  }

  lemma {:induction false} SumUpdate(f: Process -> nat, ps: seq<Process>, i: nat, p: Process)
    requires i < |ps|
    ensures Sum(f, ps[i := p]) + f(ps[i]) == Sum(f, ps) + f(p)
  {
    var (n, qs) := (|ps| - 1, ps[i := p]);
    if i == n {
      assert qs[..n] == ps[..n];
    } else {
      assert qs[..n] == ps[..n][i := p];
      SumUpdate(f, ps[..n], i, p);
    }
  }

  /** What a step changes in a sum over the processes. */
  lemma StepSum(f: Process -> nat, depth: nat, st: State, i: nat)
    requires i < |st.procs|
    ensures Sum(f, Step(depth, st, i).procs) + f(st.procs[i]) ==
            Sum(f, st.procs) + f(Advance(st.procs[i])) + Sum(f, Forked(depth, st.procs[i]))
  {
    var (p, qs) := (Advance(st.procs[i]), st.procs[i := Advance(st.procs[i])]);
    var forked := Forked(depth, st.procs[i]);
    SumUpdate(f, st.procs, i, p);
    if forked == [] {
      assert qs + forked == qs;
    } else {
      SumAppend(f, qs, forked[0]);
      SumAppend(f, [], forked[0]);
      assert forked == [forked[0]] == [] + [forked[0]];
    }
  }

  lemma {:induction false} SumZero(f: Process -> nat, ps: seq<Process>)
    requires forall i :: 0 <= i < |ps| ==> f(ps[i]) == 0
    ensures Sum(f, ps) == 0
  {
    if ps != [] {
      SumZero(f, ps[..|ps| - 1]);
    }
  }

  lemma {:induction false} SumPositive(f: Process -> nat, ps: seq<Process>, i: nat)
    requires i < |ps|
    ensures Sum(f, ps) >= f(ps[i])
  {
    if i < |ps| - 1 {
      SumPositive(f, ps[..|ps| - 1], i);
    }
  }

  // ----- Which names are printed -----

  /** How often t occurs in the tree of names below s: once for a binary extension of s. */
  ghost function InTree(depth: nat, s: string, t: string): nat {
    if |s| <= |t| <= depth && t[..|s|] == s && Binary(t[|s|..]) then 1 else 0
  }

  lemma TreeBranches(depth: nat, s: string, t: string)
    requires |s| <= depth
    ensures |s| < depth ==>
              InTree(depth, s, t) ==
              (if t == s then 1 else 0) + InTree(depth, s + ['0'], t) + InTree(depth, s + ['1'], t)
    ensures |s| == depth ==> InTree(depth, s, t) == if t == s then 1 else 0
  {
    if |s| < |t| {
      BranchIs(s, '0', t);
      BranchIs(s, '1', t);
      var (a, b) := (t[|s|..], t[|s| + 1..]);
      assert forall k :: 0 <= k < |b| ==> a[k + 1] == b[k];
      assert Binary(a) <==> (a[0] == '0' || a[0] == '1') && Binary(b) by {
        assert forall k :: 0 < k < |a| ==> a[k] == b[k - 1];
      }
    }
  }

  lemma BranchIs(s: string, c: char, t: string)
    requires |s| < |t|
    ensures t[..|s| + 1] == s + [c] <==> t[..|s|] == s && t[|s|] == c
  {
    assert t[..|s| + 1] == t[..|s|] + [t[|s|]];
  }

  /** How often t has yet to be printed by a process or its future descendants. */
  ghost function Due(depth: nat, t: string, p: Process): nat {
    match p.pc
    case AtPrint => InTree(depth, p.cur, t)
    case AtChild0 => if |p.cur| < depth then InTree(depth, p.cur + ['0'], t) + InTree(depth, p.cur + ['1'], t) else 0
    case AtChild1 => if |p.cur| < depth then InTree(depth, p.cur + ['1'], t) else 0
    case _ => 0
  }

  ghost predicate NamesFit(depth: nat, ps: seq<Process>) {
    forall i :: 0 <= i < |ps| ==> |ps[i].cur| <= depth
  }

  /** What has been printed and what is still to be printed make up the whole tree. */
  ghost predicate Conserved(depth: nat, st: State, t: string) {
    NamesFit(depth, st.procs) &&
    multiset(st.out)[t] + Sum(p => Due(depth, t, p), st.procs) == InTree(depth, "", t)
  }

  lemma DueStep(depth: nat, t: string, p: Process)
    requires |p.cur| <= depth
    ensures Due(depth, t, p) ==
            multiset(Printed(p))[t] + Due(depth, t, Advance(p)) + Sum(q => Due(depth, t, q), Forked(depth, p))
  {
    TreeBranches(depth, p.cur, t);
    if Forked(depth, p) != [] {
      SumAppend(q => Due(depth, t, q), [], Forked(depth, p)[0]);
      assert Forked(depth, p) == [] + [Forked(depth, p)[0]];
    }
  }

  lemma StepConserves(depth: nat, st: State, i: nat, t: string)
    requires Conserved(depth, st, t) && i < |st.procs|
    ensures Conserved(depth, Step(depth, st, i), t)
  {
    StepSum(p => Due(depth, t, p), depth, st, i);
    DueStep(depth, t, st.procs[i]);
  }

  lemma {:induction false} RunConserves(depth: nat, st: State, schedule: seq<nat>, t: string)
    requires IsSchedule(depth, st, schedule) && Conserved(depth, st, t)
    ensures Conserved(depth, Run(depth, st, schedule), t)
    decreases |schedule|
  {
    if schedule != [] {
      StepConserves(depth, st, schedule[0], t);
      RunConserves(depth, Step(depth, st, schedule[0]), schedule[1..], t);
    }
  }

  /** Every process has a binary name of at most the full length. */
  ghost predicate NamesBinary(depth: nat, ps: seq<Process>) {
    forall i :: 0 <= i < |ps| ==> Binary(ps[i].cur) && |ps[i].cur| <= depth
  }

  lemma {:induction false} RunNames(depth: nat, st: State, schedule: seq<nat>)
    requires IsSchedule(depth, st, schedule) && NamesBinary(depth, st.procs)
    ensures NamesBinary(depth, Run(depth, st, schedule).procs)
    decreases |schedule|
  {
    if schedule != [] {
      RunNames(depth, Step(depth, st, schedule[0]), schedule[1..]);
    }
  }

  /** Under every schedule, whatever a process is about to fork, ForkChild can be called for it:
      its name is a string without NUL, and that of the child fits the buffer. */
  lemma NoTruncation(depth: nat, schedule: seq<nat>)
    requires IsSchedule(depth, INIT, schedule)
    ensures var ps := Run(depth, INIT, schedule).procs;
      forall i :: 0 <= i < |ps| ==>
        && Binary(ps[i].cur) && '\0' !in ps[i].cur && |ps[i].cur| <= depth
        && forall q :: q in Forked(depth, ps[i]) ==> |q.cur| < depth + 1
  {
    RunNames(depth, INIT, schedule);
  }

  // ----- How many processes and steps there are -----

  /** How many descendants a process has yet to fork, itself or through its children. */
  ghost function Unborn(depth: nat, p: Process): nat {
    if |p.cur| > depth then 0
    else match p.pc
         case AtPrint => Pow2(depth - |p.cur| + 1) - 2
         case AtChild0 => Pow2(depth - |p.cur| + 1) - 2
         case AtChild1 => Pow2(depth - |p.cur|) - 1
         case _ => 0
  }

  ghost function Unprinted(p: Process): nat {
    if p.pc == AtPrint then 1 else 0
  }

  /** How many steps a process has left of its own. */
  ghost function OwnSteps(p: Process): nat {
    match p.pc
    case AtPrint => if p.isMain then 4 else 5
    case AtChild0 => if p.isMain then 3 else 4
    case AtChild1 => if p.isMain then 2 else 3
    case Returned => if p.isMain then 1 else 2
    case Yielded => 1
    case Exited => 0
  }

  ghost function StepsLeft(depth: nat, st: State): nat {
    Sum(OwnSteps, st.procs) + 5 * Sum(p => Unborn(depth, p), st.procs)
  }

  ghost predicate Counted(depth: nat, st: State) {
    NamesFit(depth, st.procs) &&
    |st.procs| + Sum(p => Unborn(depth, p), st.procs) == Pow2(depth + 1) - 1 &&
    |st.out| + Sum(Unprinted, st.procs) == |st.procs|
  }

  lemma UnbornStep(depth: nat, p: Process)
    requires |p.cur| <= depth
    ensures Unborn(depth, p) ==
            Unborn(depth, Advance(p)) + |Forked(depth, p)| + Sum(q => Unborn(depth, q), Forked(depth, p))
  {
    ForkedUnborn(depth, p);
  }

  lemma ForkedUnborn(depth: nat, p: Process)
    ensures Forked(depth, p) == [] ==> Sum(q => Unborn(depth, q), Forked(depth, p)) == 0
    ensures Forked(depth, p) != [] ==>
              |p.cur| < depth && |Forked(depth, p)| == 1 &&
              Sum(q => Unborn(depth, q), Forked(depth, p)) == Pow2(depth - |p.cur|) - 2
  {
    if Forked(depth, p) != [] {
      var q := Forked(depth, p)[0];
      SumAppend(q => Unborn(depth, q), [], q);
      assert Forked(depth, p) == [] + [q] && depth - |q.cur| + 1 == depth - |p.cur|;
    }
  }

  lemma ForkedSums(depth: nat, p: Process)
    ensures Sum(Unprinted, Forked(depth, p)) == |Forked(depth, p)|
    ensures Sum(OwnSteps, Forked(depth, p)) == 5 * |Forked(depth, p)|
  {
    if Forked(depth, p) != [] {
      SumAppend(Unprinted, [], Forked(depth, p)[0]);
      SumAppend(OwnSteps, [], Forked(depth, p)[0]);
      assert Forked(depth, p) == [] + [Forked(depth, p)[0]];
    }
  }

  /** A step keeps the totals and is one of those left. */
  lemma StepCounts(depth: nat, st: State, i: nat)
    requires Counted(depth, st) && i < |st.procs| && st.procs[i].pc != Exited
    ensures Counted(depth, Step(depth, st, i))
    ensures StepsLeft(depth, Step(depth, st, i)) == StepsLeft(depth, st) - 1
  {
    StepSum(p => Unborn(depth, p), depth, st, i);
    StepSum(Unprinted, depth, st, i);
    StepSum(OwnSteps, depth, st, i);
    UnbornStep(depth, st.procs[i]);
    ForkedSums(depth, st.procs[i]);
  }

  lemma {:induction false} RunCounts(depth: nat, st: State, schedule: seq<nat>)
    requires IsSchedule(depth, st, schedule) && Counted(depth, st)
    ensures Counted(depth, Run(depth, st, schedule))
    ensures |schedule| + StepsLeft(depth, Run(depth, st, schedule)) == StepsLeft(depth, st)
    decreases |schedule|
  {
    if schedule != [] {
      StepCounts(depth, st, schedule[0]);
      RunCounts(depth, Step(depth, st, schedule[0]), schedule[1..]);
    }
  }

  lemma InitCounted(depth: nat)
    ensures Counted(depth, INIT) && StepsLeft(depth, INIT) == 5 * (Pow2(depth + 1) - 1) - 1
    ensures forall t :: Conserved(depth, INIT, t)
  {
    var p := INIT.procs[0];
    assert INIT.procs == [] + [p];
    SumAppend(q => Unborn(depth, q), [], p);
    SumAppend(Unprinted, [], p);
    SumAppend(OwnSteps, [], p);
    forall t
      ensures Conserved(depth, INIT, t)
    {
      SumAppend(q => Due(depth, t, q), [], p);
    }
  }

  lemma QuiescentMeans(depth: nat, st: State)
    ensures Quiescent(st) <==> StepsLeft(depth, st) == 0
    ensures Quiescent(st) ==>
              Sum(Unprinted, st.procs) == 0 && Sum(p => Unborn(depth, p), st.procs) == 0
  {
    if Quiescent(st) {
      SumZero(OwnSteps, st.procs);
      SumZero(Unprinted, st.procs);
      SumZero(p => Unborn(depth, p), st.procs);
    } else {
      var i :| 0 <= i < |st.procs| && st.procs[i].pc != Exited;
      SumPositive(OwnSteps, st.procs, i);
    }
  }

  // ----- The theorems -----

  /** Under every schedule and at every moment, no name has been printed twice and every name is a
      binary string of at most the full length. */
  lemma NeverTwice(depth: nat, schedule: seq<nat>, t: string)
    requires IsSchedule(depth, INIT, schedule)
    ensures multiset(Run(depth, INIT, schedule).out)[t] <= if Binary(t) && |t| <= depth then 1 else 0
  {
    InitCounted(depth);
    RunConserves(depth, INIT, schedule, t);
  }

  /** When all processes have exited, under every schedule, each binary string of at most the full
      length has been printed exactly once and nothing else has, by that many processes. */
  lemma Complete(depth: nat, schedule: seq<nat>)
    requires IsSchedule(depth, INIT, schedule) && Quiescent(Run(depth, INIT, schedule))
    ensures forall t ::
              multiset(Run(depth, INIT, schedule).out)[t] == if Binary(t) && |t| <= depth then 1 else 0
    ensures |Run(depth, INIT, schedule).out| == |Run(depth, INIT, schedule).procs| == Pow2(depth + 1) - 1
  {
    var end := Run(depth, INIT, schedule);
    InitCounted(depth);
    RunCounts(depth, INIT, schedule);
    QuiescentMeans(depth, end);
    forall t
      ensures multiset(end.out)[t] == if Binary(t) && |t| <= depth then 1 else 0
    {
      RunConserves(depth, INIT, schedule, t);
      SumZero(p => Due(depth, t, p), end.procs);
    }
  }

  /** All schedules end, and all that cannot go on have the same length. */
  lemma SameLength(depth: nat, schedule: seq<nat>)
    requires IsSchedule(depth, INIT, schedule)
    ensures |schedule| <= 5 * (Pow2(depth + 1) - 1) - 1
    ensures Quiescent(Run(depth, INIT, schedule)) <==> |schedule| == 5 * (Pow2(depth + 1) - 1) - 1
  {
    InitCounted(depth);
    RunCounts(depth, INIT, schedule);
    QuiescentMeans(depth, Run(depth, INIT, schedule));
  }

  /** The lines printed, when the k-th print is by the process with the k-th of the given numbers. */
  ghost function Lines(out: seq<string>, pids: seq<nat>): seq<string>
    requires |out| == |pids| && forall k :: 0 <= k < |out| ==> '\0' !in out[k]
  {
    seq(|out|, k requires 0 <= k < |out| => Line(pids[k], out[k]))
  }

  /** So each binary string of at most the full length is the name in exactly one printed line,
      whatever numbers the processes have, and no other string is the name in any. */
  lemma CompleteLines(depth: nat, schedule: seq<nat>, pids: seq<nat>, t: CStr)
    requires IsSchedule(depth, INIT, schedule) && Quiescent(Run(depth, INIT, schedule))
    requires |pids| == |Run(depth, INIT, schedule).out| && forall k :: 0 <= k < |pids| ==> pids[k] < TWO_31
    ensures forall k :: 0 <= k < |pids| ==> '\0' !in Run(depth, INIT, schedule).out[k]
    ensures var lines := Lines(Run(depth, INIT, schedule).out, pids);
      if Binary(t) && |t| <= depth then
        exists k :: 0 <= k < |lines| && IsLineOf(lines[k], t) &&
                    forall j :: 0 <= j < |lines| && j != k ==> !IsLineOf(lines[j], t)
      else forall k :: 0 <= k < |lines| ==> !IsLineOf(lines[k], t)
  {
    var out := Run(depth, INIT, schedule).out;
    Complete(depth, schedule);
    BinaryNames(depth, out);
    OneLine(depth, out, pids, t);
  }

  lemma BinaryNames(depth: nat, out: seq<string>)
    requires forall t :: multiset(out)[t] == if Binary(t) && |t| <= depth then 1 else 0
    ensures forall k :: 0 <= k < |out| ==> '\0' !in out[k]
  {
    forall k | 0 <= k < |out| ensures '\0' !in out[k] {
      assert out[k] in multiset(out);
      assert Binary(out[k]);
    }
  }

  lemma OneLine(depth: nat, out: seq<string>, pids: seq<nat>, t: CStr)
    requires multiset(out)[t] == if Binary(t) && |t| <= depth then 1 else 0
    requires |out| == |pids| && forall k :: 0 <= k < |out| ==> '\0' !in out[k]
    requires forall k :: 0 <= k < |pids| ==> pids[k] < TWO_31
    ensures var lines := Lines(out, pids);
      if Binary(t) && |t| <= depth then
        exists k :: 0 <= k < |lines| && IsLineOf(lines[k], t) &&
                    forall j :: 0 <= j < |lines| && j != k ==> !IsLineOf(lines[j], t)
      else forall k :: 0 <= k < |lines| ==> !IsLineOf(lines[k], t)
  {
    var lines := Lines(out, pids);
    forall k | 0 <= k < |out| ensures IsLineOf(lines[k], t) <==> out[k] == t {
      NameOfLine(pids[k], out[k], t);
    }
    if Binary(t) && |t| <= depth {
      var k := OnlyPlace(out, t);
      assert IsLineOf(lines[k], t);
    } else {
      assert t !in multiset(out);
    }
  }

  ghost predicate IsLineOf(line: string, t: CStr) {
    exists pid: nat :: pid < TWO_31 && line == Line(pid, t)
  }

  lemma NameOfLine(pid: nat, cur: CStr, t: CStr)
    requires pid < TWO_31
    ensures IsLineOf(Line(pid, cur), t) <==> cur == t
  {
    if q: nat :| q < TWO_31 && Line(pid, cur) == Line(q, t) {
      LineTells(pid, cur, q, t);
    }
  }

  lemma {:induction false} OnlyPlace<T>(s: seq<T>, t: T) returns (k: nat)
    requires multiset(s)[t] == 1
    ensures k < |s| && s[k] == t && forall j :: 0 <= j < |s| && j != k ==> s[j] != t
  {
    assert t in multiset(s);
    k :| 0 <= k < |s| && s[k] == t;
    assert s == s[..k] + ([t] + s[k + 1..]);
    assert multiset(s) == multiset(s[..k]) + multiset([t]) + multiset(s[k + 1..]);
    forall j | 0 <= j < |s| && j != k ensures s[j] != t {
      assert if j < k then s[j] in multiset(s[..k]) else s[j] in multiset(s[k + 1..]) by {
        assert if j < k then s[j] == s[..k][j] else s[j] == s[k + 1..][j - k - 1];
      }
    }
  }

  // ----- Parents first -----

  ghost predicate ParentIn(s: string, out: seq<string>) {
    s != "" ==> s[..|s| - 1] in out
  }

  /** Every name is printed after that of its parent. */
  ghost predicate ParentsFirst(out: seq<string>) {
    forall k :: 0 <= k < |out| ==> ParentIn(out[k], out[..k])
  }

  ghost predicate Announced(st: State) {
    forall i :: 0 <= i < |st.procs| ==>
      if st.procs[i].pc == AtPrint then ParentIn(st.procs[i].cur, st.out) else st.procs[i].cur in st.out
  }

  lemma StepAnnounces(depth: nat, st: State, i: nat)
    requires ParentsFirst(st.out) && Announced(st) && i < |st.procs|
    ensures ParentsFirst(Step(depth, st, i).out) && Announced(Step(depth, st, i))
  {
    var (p, st') := (st.procs[i], Step(depth, st, i));
    forall k | 0 <= k < |st'.out|
      ensures ParentIn(st'.out[k], st'.out[..k])
    {
      assert st'.out[..k] == st.out[..k];
      assert st.out[..|st.out|] == st.out;
    }
    forall j | 0 <= j < |st'.procs|
      ensures var q := st'.procs[j];
              if q.pc == AtPrint then ParentIn(q.cur, st'.out) else q.cur in st'.out
    {
      if j == |st.procs| {
        var q := st'.procs[j];
        assert q.cur[..|q.cur| - 1] == p.cur;
      }
    }
  }

  lemma {:induction false} RunAnnounces(depth: nat, st: State, schedule: seq<nat>)
    requires IsSchedule(depth, st, schedule) && ParentsFirst(st.out) && Announced(st)
    ensures ParentsFirst(Run(depth, st, schedule).out)
    decreases |schedule|
  {
    if schedule != [] {
      StepAnnounces(depth, st, schedule[0]);
      RunAnnounces(depth, Step(depth, st, schedule[0]), schedule[1..]);
    }
  }

  /** Under every schedule a process prints its name before any of its descendants does. */
  lemma AlwaysParentsFirst(depth: nat, schedule: seq<nat>)
    requires IsSchedule(depth, INIT, schedule)
    ensures ParentsFirst(Run(depth, INIT, schedule).out)
  {
    RunAnnounces(depth, INIT, schedule);
  }
}
