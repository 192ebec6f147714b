/** Families of disjoint rings: any sequence of list operations refines the same operations on a
    family of sequences. */
module RingFamily {
  import opened Ring

  datatype Op<T> =
    | Init(e: T)
    | AddBefore(at: T, e: T)
    | AddAfter(at: T, e: T)
    | Del(e: T)
    | DelInit(e: T)

  // ----- The abstract family -----

  type Family<T> = seq<seq<T>>

  /** Where an entry lives: the index of its ring and its place in the ring. */
  ghost predicate At<T>(f: Family<T>, e: T, r: nat, i: nat) {
    r < |f| && i < |f[r]| && f[r][i] == e
  }

  ghost predicate Live<T>(f: Family<T>, e: T) {
    exists r, i :: At(f, e, r, i)
  }

  /** Every live entry is in exactly one ring, at exactly one place, and no ring is empty. */
  ghost predicate Partitioned<T>(f: Family<T>) {
    && (forall r :: 0 <= r < |f| ==> |f[r]| > 0 && NoRepeats(f[r]))
    && (forall r, q :: 0 <= r < q < |f| ==> Entries(f[r]) !! Entries(f[q]))
  }

  lemma OnePlace<T>(f: Family<T>, e: T, r: nat, i: nat, q: nat, j: nat)
    requires Partitioned(f) && At(f, e, r, i) && At(f, e, q, j)
    ensures r == q && i == j
  {
    assert e in Entries(f[r]) && e in Entries(f[q]);
  }

  /** An entry that may be linked in: one in no ring, or one alone in its ring, as list_init and
      list_del_init leave it. */
  ghost predicate Free<T>(f: Family<T>, e: T) {
    !Live(f, e) || [e] in f
  }

  ghost predicate Enabled<T>(f: Family<T>, op: Op<T>) {
    match op
    case Init(e) => Free(f, e)
    case AddBefore(at, e) => Live(f, at) && Free(f, e) && at != e
    case AddAfter(at, e) => Live(f, at) && Free(f, e) && at != e
    case Del(e) => Live(f, e)
    case DelInit(e) => Live(f, e)
  }

  /** The family without the one-entry ring of e. */
  ghost function Forget<T>(f: Family<T>, e: T): Family<T> {
    if f == [] then [] else (if f[0] == [e] then [] else [f[0]]) + Forget(f[1..], e)
  }

  /** The rings that an operation leaves or changes: an entry to be linked in gives up the ring
      that it was alone in. */
  ghost function Base<T>(f: Family<T>, op: Op<T>): Family<T> {
    if op.Del? || op.DelInit? then f else Forget(f, op.e)
  }

  /** The entry to add next to, or the one to delete, is there, and an entry to add is not. */
  ghost predicate Ready<T>(f: Family<T>, op: Op<T>) {
    if op.Init? then !Live(f, op.e)
    else Live(f, Subject(op)) && (op.AddBefore? || op.AddAfter? ==> !Live(f, op.e))
  }

  ghost predicate Placed<T>(f: Family<T>, op: Op<T>, r: nat, i: nat) {
    Ready(f, op) && (op.Init? || At(f, Subject(op), r, i))
  }

  /** The effect of an operation whose subject, the entry to add next to or the one to delete,
      is the i-th of ring r. */
  ghost function StepAt<T>(f: Family<T>, op: Op<T>, r: nat, i: nat): Family<T>
    requires op.Init? || (r < |f| && i < |f[r]|)
  {
    match op
    case Init(e) => f + [[e]]
    case AddBefore(_, e) => f[r := InsertAt(f[r], i, e)]
    case AddAfter(_, e) => f[r := InsertAt(f[r], i + 1, e)]
    case Del(e) => if |f[r]| == 1 then f else f[r := RemoveAt(f[r], i)]
    case DelInit(e) => if |f[r]| == 1 then f else f[r := RemoveAt(f[r], i)] + [[e]]
  }

  ghost function Subject<T>(op: Op<T>): T {
    if op.AddBefore? || op.AddAfter? then op.at else op.e
  }

  ghost function Effect<T>(f: Family<T>, op: Op<T>): Family<T>
    requires Ready(f, op)
  {
    if op.Init? then StepAt(f, op, 0, 0)
    else var r, i :| At(f, Subject(op), r, i); StepAt(f, op, r, i)
  }

  ghost function Step<T>(f: Family<T>, op: Op<T>): Family<T>
    requires Partitioned(f) && Enabled(f, op)
  {
    BaseReady(f, op);
    Effect(Base(f, op), op)
  }

  // ----- Every step keeps the partition -----

  /** An entry of one ring is live, and in no other ring. */
  lemma InOneRing<T>(f: Family<T>, e: T, r: nat, q: nat)
    requires Partitioned(f) && r < |f| && q < |f| && r != q
    ensures e in f[r] ==> Live(f, e) && e !in f[q]
  {
    if e in f[r] {
      var i :| 0 <= i < |f[r]| && f[r][i] == e;
      assert At(f, e, r, i);
      assert e in Entries(f[r]) && (e in f[q] <==> e in Entries(f[q]));
    }
  }

  lemma ReplaceKeeps<T>(f: Family<T>, r: nat, s: seq<T>)
    requires Partitioned(f) && r < |f| && |s| > 0 && NoRepeats(s)
    requires forall e :: e in s ==> e in f[r] || !Live(f, e)
    ensures Partitioned(f[r := s])
  {
    var g := f[r := s];
    forall q, p | 0 <= q < p < |g| ensures Entries(g[q]) !! Entries(g[p]) {
      forall e | e in Entries(g[q]) ensures e !in Entries(g[p]) {
        InOneRing(f, e, q, p);
        InOneRing(f, e, p, q);
      }
    }
  }

  lemma AppendKeeps<T>(f: Family<T>, e: T)
    requires Partitioned(f) && (forall i :: 0 <= i < |f| ==> e !in f[i])
    ensures Partitioned(f + [[e]])
  {
    var g := f + [[e]];
    forall q, p | 0 <= q < p < |g| ensures Entries(g[q]) !! Entries(g[p]) {
      forall x | x in Entries(g[q]) ensures x !in Entries(g[p]) {
        if p < |f| {
          InOneRing(f, x, q, p);
        }
      }
    }
  }

  lemma NotLive<T>(f: Family<T>, e: T, r: nat)
    requires !Live(f, e) && r < |f|
    ensures e !in f[r]
  {
    forall i | 0 <= i < |f[r]| ensures f[r][i] != e {
      assert At(f, f[r][i], r, i);
    }
  }

  /** The result of deleting the i-th entry of ring r, which is not alone, is partitioned, and the
      deleted entry is in no ring of it. */
  lemma RemoveKeeps<T>(f: Family<T>, r: nat, i: nat)
    requires Partitioned(f) && r < |f| && i < |f[r]| && |f[r]| > 1
    ensures var (e, g) := (f[r][i], f[r := RemoveAt(f[r], i)]);
      Partitioned(g) && forall q :: 0 <= q < |g| ==> e !in g[q]
  {
    var s := RemoveAt(f[r], i);
    InsertedNoRepeats(s, i, f[r][i], f[r]);
    forall e | e in s ensures e in f[r] {
      var k :| 0 <= k < |s| && s[k] == e;
      assert e == f[r][if k < i then k else k + 1];
    }
    ReplaceKeeps(f, r, s);
    forall q | 0 <= q < |f| && q != r ensures f[r][i] !in f[q] {
      InOneRing(f, f[r][i], r, q);
    }
  }

  lemma InsertKeeps<T>(f: Family<T>, r: nat, i: nat, e: T)
    requires Partitioned(f) && r < |f| && i <= |f[r]| && !Live(f, e)
    ensures e !in f[r] && Partitioned(f[r := InsertAt(f[r], i, e)])
  {
    var s := InsertAt(f[r], i, e);
    NotLive(f, e, r);
    InsertedNoRepeats(f[r], i, e, s);
    ReplaceKeeps(f, r, s);
  }

  /** The effect of an operation at its place keeps the partition. */
  lemma StepAtKeeps<T>(f: Family<T>, op: Op<T>, r: nat, i: nat)
    requires Partitioned(f) && Placed(f, op, r, i)
    ensures Partitioned(StepAt(f, op, r, i))
  {
    match op
    case Init(e) =>
      forall q | 0 <= q < |f| ensures e !in f[q] {
        NotLive(f, e, q);
      }
      AppendKeeps(f, e);
    case AddBefore(_, e) =>
      InsertKeeps(f, r, i, e);
    case AddAfter(_, e) =>
      InsertKeeps(f, r, i + 1, e);
    case Del(e) =>
      if |f[r]| > 1 {
        RemoveKeeps(f, r, i);
      }
    case DelInit(e) =>
      if |f[r]| > 1 {
        RemoveKeeps(f, r, i);
        AppendKeeps(f[r := RemoveAt(f[r], i)], e);
      }
  }

  lemma {:induction false} AllOfMembers<T>(f: Family<T>, x: T)
    ensures x in AllOf(f) <==> exists q :: 0 <= q < |f| && x in f[q]
  {
    if f != [] {
      AllOfMembers(f[1..], x);
      if q :| 0 <= q < |f| && x in f[q] {
        assert q == 0 || x in f[1..][q - 1];
      }
    }
  }

  lemma ReplacedEntries<T>(f: Family<T>, r: nat, s: seq<T>, x: T)
    requires Partitioned(f) && r < |f|
    ensures x in AllOf(f[r := s]) <==> x in s || (x in AllOf(f) && x !in f[r])
  {
    var g := f[r := s];
    AllOfMembers(f, x);
    AllOfMembers(g, x);
    if q :| 0 <= q < |f| && x in f[q] {
      if q != r {
        InOneRing(f, x, q, r);
        assert x in g[q];
      }
    }
    if q :| 0 <= q < |g| && x in g[q] {
      if q != r {
        InOneRing(f, x, q, r);
        assert x in f[q];
      }
    }
    assert x in s ==> x in g[r];
  }

  lemma AppendedEntries<T>(f: Family<T>, e: T, x: T)
    ensures x in AllOf(f + [[e]]) <==> x in AllOf(f) || x == e
  {
    var g := f + [[e]];
    AllOfMembers(f, x);
    AllOfMembers(g, x);
    if q :| 0 <= q < |f| && x in f[q] {
      assert x in g[q];
    }
    assert e in g[|f|];
  }

  lemma InsertedMembers<T>(s: seq<T>, i: nat, e: T, t: seq<T>, x: T)
    requires Inserted(s, i, e, t)
    ensures x in t <==> x in s || x == e
  {
    if k :| 0 <= k < |s| && s[k] == x {
      assert t[if k < i then k else k + 1] == x;
    }
  }

  /** Which entries are live after the effect of an operation. */
  lemma StepAtEntries<T>(f: Family<T>, op: Op<T>, r: nat, i: nat)
    requires Partitioned(f) && Placed(f, op, r, i)
    ensures forall x :: x in AllOf(StepAt(f, op, r, i)) ==>
              x in AllOf(f) + {op.e} && (op.Del? && |f[r]| > 1 ==> x != op.e)
    ensures forall x :: x in AllOf(f) + {op.e} && !(op.Del? && |f[r]| > 1 && x == op.e) ==>
              x in AllOf(StepAt(f, op, r, i))
  {
    forall x | x in AllOf(StepAt(f, op, r, i)) ensures x in AllOf(f) + {op.e} && (op.Del? && |f[r]| > 1 ==> x != op.e) {
      StepEntry(f, op, r, i, x);
    }
    forall x | x in AllOf(f) + {op.e} && !(op.Del? && |f[r]| > 1 && x == op.e) ensures x in AllOf(StepAt(f, op, r, i)) {
      StepEntry(f, op, r, i, x);
    }
  }

  lemma StepEntry<T>(f: Family<T>, op: Op<T>, r: nat, i: nat, x: T)
    requires Partitioned(f) && Placed(f, op, r, i)
    ensures x in AllOf(StepAt(f, op, r, i)) <==>
      if op.Del? then x in AllOf(f) && (|f[r]| == 1 || x != op.e) else x in AllOf(f) || x == op.e
  {
    match op
    case Init(e) =>
      AppendedEntries(f, e, x);
    case AddBefore(_, e) =>
      AddedEntry(f, r, i, e, x);
    case AddAfter(_, e) =>
      AddedEntry(f, r, i + 1, e, x);
    case Del(e) =>
      if |f[r]| > 1 {
        RemovedEntry(f, r, i, x);
      }
    case DelInit(e) =>
      assert e in f[r];
      if |f[r]| > 1 {
        RemovedEntry(f, r, i, x);
        AppendedEntries(f[r := RemoveAt(f[r], i)], e, x);
      }
  }

  lemma AddedEntry<T>(f: Family<T>, r: nat, i: nat, e: T, x: T)
    requires Partitioned(f) && r < |f| && i <= |f[r]|
    ensures x in AllOf(f[r := InsertAt(f[r], i, e)]) <==> x in AllOf(f) || x == e
  {
    var s := InsertAt(f[r], i, e);
    ReplacedEntries(f, r, s, x);
    InsertedMembers(f[r], i, e, s, x);
  }

  lemma RemovedEntry<T>(f: Family<T>, r: nat, i: nat, x: T)
    requires Partitioned(f) && r < |f| && i < |f[r]|
    ensures x in AllOf(f[r := RemoveAt(f[r], i)]) <==> x in AllOf(f) && x != f[r][i]
  {
    var s := RemoveAt(f[r], i);
    ReplacedEntries(f, r, s, x);
    InsertedMembers(s, i, f[r][i], f[r], x);
    InsertedNoRepeats(s, i, f[r][i], f[r]);
  }

  /** The effect does not depend on the choice of place: there is only one. */
  lemma EffectIsStepAt<T>(f: Family<T>, op: Op<T>, r: nat, i: nat)
    requires Partitioned(f) && Placed(f, op, r, i)
    ensures Effect(f, op) == StepAt(f, op, if op.Init? then 0 else r, if op.Init? then 0 else i)
  {
    if !op.Init? {
      var q, j :| At(f, Subject(op), q, j) && Effect(f, op) == StepAt(f, op, q, j);
      OnePlace(f, Subject(op), r, i, q, j);
    }
  }

  // ----- Forgetting a one-entry ring -----

  lemma {:induction false} ForgetMembers<T>(f: Family<T>, e: T, s: seq<T>)
    ensures s in Forget(f, e) <==> s in f && s != [e]
  {
    if f != [] {
      ForgetMembers(f[1..], e, s);
      assert f == [f[0]] + f[1..];
    }
  }

  lemma {:induction false} ForgetKeeps<T>(f: Family<T>, e: T)
    requires Partitioned(f)
    ensures Partitioned(Forget(f, e))
  {
    if f != [] {
      var (g, rest) := (Forget(f, e), Forget(f[1..], e));
      ForgetKeeps(f[1..], e);
      forall q | 0 <= q < |rest| ensures Entries(f[0]) !! Entries(rest[q]) {
        ForgetMembers(f[1..], e, rest[q]);
      }
      assert f[0] == [e] ==> g == rest;
      assert f[0] != [e] ==> g == [f[0]] + rest;
    }
  }

  lemma LiveMembers<T>(f: Family<T>, x: T)
    ensures Live(f, x) <==> x in AllOf(f)
  {
    AllOfMembers(f, x);
    if x in AllOf(f) {
      var q :| 0 <= q < |f| && x in f[q];
      var i :| 0 <= i < |f[q]| && f[q][i] == x;
      assert At(f, x, q, i);
    }
  }

  /** An entry that is alone in one ring is in no other. */
  lemma LoneRing<T>(f: Family<T>, e: T, s: seq<T>)
    requires Partitioned(f) && Free(f, e) && s in f && e in s
    ensures s == [e]
  {
    AllOfMembers(f, e);
    LiveMembers(f, e);
    var q, r :| 0 <= q < |f| && f[q] == s && 0 <= r < |f| && f[r] == [e];
    if q != r {
      InOneRing(f, e, q, r);
    }
  }

  lemma ForgetEntries<T>(f: Family<T>, e: T, x: T)
    requires Partitioned(f) && Free(f, e)
    ensures x in AllOf(Forget(f, e)) <==> x in AllOf(f) && x != e
  {
    var g := Forget(f, e);
    AllOfMembers(f, x);
    AllOfMembers(g, x);
    if q :| 0 <= q < |f| && x in f[q] && x != e {
      ForgetMembers(f, e, f[q]);
      assert f[q] in g;
    }
    if q :| 0 <= q < |g| && x in g[q] {
      ForgetMembers(f, e, g[q]);
      if x == e {
        LoneRing(f, e, g[q]);
      }
    }
  }

  /** What is left of the family is partitioned, and the operation can take effect on it. */
  lemma BaseReady<T>(f: Family<T>, op: Op<T>)
    requires Partitioned(f) && Enabled(f, op)
    ensures Partitioned(Base(f, op)) && Ready(Base(f, op), op)
  {
    if !op.Del? && !op.DelInit? {
      var g := Base(f, op);
      ForgetKeeps(f, op.e);
      LiveMembers(g, op.e);
      ForgetEntries(f, op.e, op.e);
      if !op.Init? {
        LiveMembers(f, op.at);
        LiveMembers(g, op.at);
        ForgetEntries(f, op.e, op.at);
      }
    }
  }

  lemma PlaceOf<T>(f: Family<T>, op: Op<T>) returns (r: nat, i: nat)
    requires Partitioned(f) && Ready(f, op)
    ensures Placed(f, op, r, i)
    ensures Effect(f, op) == StepAt(f, op, r, i)
  {
    r, i := 0, 0;
    if !op.Init? {
      r, i :| At(f, Subject(op), r, i);
    }
    EffectIsStepAt(f, op, r, i);
  }

  // ----- What every step keeps -----

  /** Every operation keeps every live entry in exactly one ring. */
  lemma StepKeeps<T>(f: Family<T>, op: Op<T>)
    requires Partitioned(f) && Enabled(f, op)
    ensures Partitioned(Step(f, op))
  {
    BaseReady(f, op);
    var r, i := PlaceOf(Base(f, op), op);
    StepAtKeeps(Base(f, op), op, r, i);
  }

  /** Deleting an entry that is not alone ends its life, adding or initialising one begins it;
      no other entry comes or goes. */
  lemma StepEntries<T>(f: Family<T>, op: Op<T>, x: T)
    requires Partitioned(f) && Enabled(f, op)
    ensures x in AllOf(Step(f, op)) <==>
      if op.Del? && x == op.e then [x] in f else x in AllOf(f) || x == op.e
  {
    var g := Base(f, op);
    BaseReady(f, op);
    var r, i := PlaceOf(g, op);
    StepEntry(g, op, r, i, x);
    if op.Del? {
      LiveMembers(f, op.e);
      AloneMeans(f, r, i);
    } else if op.DelInit? {
      LiveMembers(f, op.e);
    } else {
      ForgetEntries(f, op.e, x);
    }
  }

  /** A ring in which an operation names no entry stays in the family as it is. */
  lemma UnnamedStays<T>(f: Family<T>, op: Op<T>, s: seq<T>)
    requires Partitioned(f) && Enabled(f, op) && s in f && Subject(op) !in s && op.e !in s
    ensures s in Step(f, op)
  {
    var g := Base(f, op);
    BaseReady(f, op);
    assert s in g by {
      ForgetMembers(f, op.e, s);
    }
    var r, i := PlaceOf(g, op);
    var q :| 0 <= q < |g| && g[q] == s;
    assert StepAt(g, op, r, i)[q] == s;
  }

  /** Initialising an entry, or deleting it with list_del_init, leaves it ready to be added. */
  lemma FreeAgain<T>(f: Family<T>, op: Op<T>)
    requires Partitioned(f) && Enabled(f, op) && (op.Init? || op.DelInit?)
    ensures Partitioned(Step(f, op)) && Free(Step(f, op), op.e)
    ensures forall at :: Live(f, at) && at != op.e ==>
              Enabled(Step(f, op), AddBefore(at, op.e)) && Enabled(Step(f, op), AddAfter(at, op.e))
  {
    var g := Base(f, op);
    StepKeeps(f, op);
    BaseReady(f, op);
    var r, i := PlaceOf(g, op);
    assert [op.e] in Step(f, op) by {
      assert op.Init? || |g[r]| > 1 ==> Step(f, op)[|Step(f, op)| - 1] == [op.e];
      assert op.DelInit? && |g[r]| == 1 ==> g[r] == [op.e];
    }
    forall at | Live(f, at) && at != op.e ensures Live(Step(f, op), at) {
      LiveMembers(f, at);
      StepEntries(f, op, at);
      LiveMembers(Step(f, op), at);
    }
  }

  lemma AloneMeans<T>(f: Family<T>, r: nat, i: nat)
    requires Partitioned(f) && r < |f| && i < |f[r]|
    ensures |f[r]| == 1 <==> [f[r][i]] in f
  {
    if |f[r]| == 1 {
      assert f[r] == [f[r][i]];
    }
    if [f[r][i]] in f {
      LoneRing(f, f[r][i], f[r]);
    }
  }

  // ----- Runs -----

  ghost predicate IsRun<T>(f: Family<T>, ops: seq<Op<T>>)
    requires Partitioned(f)
    decreases |ops|
  {
    ops == [] || (Enabled(f, ops[0]) && (StepKeeps(f, ops[0]); IsRun(Step(f, ops[0]), ops[1..])))
  }

  ghost function Final<T>(f: Family<T>, ops: seq<Op<T>>): Family<T>
    requires Partitioned(f) && IsRun(f, ops)
    decreases |ops|
  {
    if ops == [] then f else
      StepKeeps(f, ops[0]);
      Final(Step(f, ops[0]), ops[1..])
  }

  // ----- The links refine the family -----

  ghost function AllOf<T>(f: Family<T>): (s: set<T>)
    ensures forall r, e :: 0 <= r < |f| && e in f[r] ==> e in s
  {
    if f == [] then {} else Entries(f[0]) + AllOf(f[1..])
  }

  /** The links of all live entries spell out the family. */
  ghost predicate Holds(f: Family<ListEntry>)
    reads AllOf(f)
  {
    Partitioned(f) && forall r :: 0 <= r < |f| ==> IsRing(f[r])
  }

  /** A ring none of whose entries may have changed is still a ring. */
  lemma KeptRing(s: seq<ListEntry>, h: Memory, h': Memory)
    requires RingIn(s, h) && h.Keys == h'.Keys && forall e :: e in s ==> e in h && h'[e] == h[e]
    ensures RingIn(s, h')
  {
    forall i | 0 <= i < |s| ensures LinkedAt(s, h', i) {
      assert LinkedAt(s, h, i);
    }
  }

  /** All rings of f but ring r are still rings when only entries of ring r, and e, may have
      changed since the links were as in h. */
  lemma OthersKept(f: Family<ListEntry>, r: nat, e: ListEntry, h: Memory)
    requires Partitioned(f) && h.Keys == AllOf(f) + {e}
    requires forall q :: 0 <= q < |f| ==> RingIn(f[q], h)
    requires forall x :: x in h && (r >= |f| || x !in f[r]) && x != e ==> Snapshot(h.Keys)[x] == h[x]
    requires forall q :: 0 <= q < |f| && q != r ==> e !in f[q]
    ensures forall q :: 0 <= q < |f| && q != r ==> IsRing(f[q])
  {
    forall q | 0 <= q < |f| && q != r ensures IsRing(f[q]) {
      forall x | x in f[q] ensures x in h && Snapshot(h.Keys)[x] == h[x] {
        if r < |f| {
          InOneRing(f, x, q, r);
        }
      }
      KeptRing(f[q], h, Snapshot(h.Keys));
      RingAt(f[q], Snapshot(h.Keys));
    }
  }

  /** The links of a family, as a snapshot. */
  lemma HeldIn(f: Family<ListEntry>, h: Memory)
    requires Holds(f) && AllOf(f) <= h.Keys && h == Snapshot(h.Keys)
    ensures forall q :: 0 <= q < |f| ==> RingIn(f[q], h)
  {
    forall q | 0 <= q < |f| ensures RingIn(f[q], h) {
      RingAt(f[q], h);
    }
  }

  method PerformAdd(op: Op<ListEntry>, ghost f: Family<ListEntry>, ghost r: nat, ghost i: nat)
    requires Holds(f) && Placed(f, op, r, i) && (op.AddBefore? || op.AddAfter?)
    modifies AllOf(f) + {op.e}
    ensures Holds(StepAt(f, op, r, i))
    ensures op.AddBefore? ==> op.e.next == op.at && op.at.prev == op.e
    ensures op.AddAfter? ==> op.e.prev == op.at && op.at.next == op.e
  {
    ghost var all := AllOf(f) + {op.e};
    ghost var h := Snapshot(all);
    HeldIn(f, h);
    StepAtKeeps(f, op, r, i);
    forall q | 0 <= q < |f| ensures op.e !in f[q] {
      NotLive(f, op.e, q);
    }
    if op.AddBefore? {
      ListAddBefore(op.at, op.e, f[r], i);
    } else {
      ListAddAfter(op.at, op.e, f[r], i);
    }
    OthersKept(f, r, op.e, h);
  }

  method PerformDel(op: Op<ListEntry>, ghost f: Family<ListEntry>, ghost r: nat, ghost i: nat)
    requires Holds(f) && Placed(f, op, r, i) && (op.Del? || op.DelInit?)
    modifies AllOf(f) + {op.e}
    ensures Holds(StepAt(f, op, r, i))
  {
    ghost var all := AllOf(f) + {op.e};
    ghost var h := Snapshot(all);
    HeldIn(f, h);
    StepAtKeeps(f, op, r, i);
    forall q | 0 <= q < |f| && q != r ensures op.e !in f[q] {
      InOneRing(f, op.e, r, q);
    }
    if op.Del? {
      ListDel(op.e, f[r], i);
    } else {
      if |f[r]| == 1 {
        AloneInRing(f[r], i);
      }
      ListDelInit(op.e, f[r], i);
    }
    OthersKept(f, r, op.e, h);
  }

  lemma AloneInRing<T>(s: seq<T>, i: nat)
    requires i < |s| && |s| == 1
    ensures s == [s[i]]
  {
  }

  method PerformInit(op: Op<ListEntry>, ghost f: Family<ListEntry>)
    requires Holds(f) && Ready(f, op) && op.Init?
    modifies op.e
    ensures Holds(f + [[op.e]])
  {
    ghost var all := AllOf(f) + {op.e};
    ghost var h := Snapshot(all);
    HeldIn(f, h);
    StepAtKeeps(f, op, 0, 0);
    forall q | 0 <= q < |f| ensures op.e !in f[q] {
      NotLive(f, op.e, q);
    }
    ListInit(op.e);
    OthersKept(f, |f|, op.e, h);
  }

  /** Giving up a one-entry ring changes no link. */
  lemma BaseHolds(f: Family<ListEntry>, op: Op<ListEntry>)
    requires Holds(f) && Enabled(f, op)
    ensures Holds(Base(f, op)) && Ready(Base(f, op), op)
    ensures AllOf(Base(f, op)) <= AllOf(f) <= AllOf(Base(f, op)) + {op.e}
  {
    var g := Base(f, op);
    BaseReady(f, op);
    if !op.Del? && !op.DelInit? {
      forall r | 0 <= r < |g| ensures IsRing(g[r]) {
        ForgetMembers(f, op.e, g[r]);
      }
      forall x | x in AllOf(f) + AllOf(g) ensures x in AllOf(g) <==> x in AllOf(f) && x != op.e {
        ForgetEntries(f, op.e, x);
      }
    }
  }

  /** One operation on the links performs the step of the abstract family. */
  method Perform(op: Op<ListEntry>, ghost f: Family<ListEntry>) returns (ghost f': Family<ListEntry>)
    requires Holds(f) && Enabled(f, op)
    modifies AllOf(f) + {op.e}
    ensures f' == Step(f, op) && Holds(f')
    ensures op.AddBefore? ==> op.e.next == op.at && op.at.prev == op.e
    ensures op.AddAfter? ==> op.e.prev == op.at && op.at.next == op.e
    ensures AllOf(f') <= AllOf(f) + {op.e}
  {
    ghost var g := Base(f, op);
    BaseHolds(f, op);
    ghost var r, i := PlaceOf(g, op);
    StepAtEntries(g, op, r, i);
    f' := StepAt(g, op, r, i);
    match op {
      case Init(_) => PerformInit(op, g);
      case AddBefore(_, _) => PerformAdd(op, g, r, i);
      case AddAfter(_, _) => PerformAdd(op, g, r, i);
      case Del(_) => PerformDel(op, g, r, i);
      case DelInit(_) => PerformDel(op, g, r, i);
    }
  }

  ghost function Touched<T>(ops: seq<Op<T>>): set<T> {
    set op | op in ops :: op.e
  }

  /** Any sequence of operations on the links performs the run of the abstract family. */
  method PerformAll(ops: seq<Op<ListEntry>>, ghost f: Family<ListEntry>)
    requires Holds(f) && IsRun(f, ops)
    modifies AllOf(f) + Touched(ops)
    ensures Holds(Final(f, ops))
    decreases |ops|
  {
    if ops != [] {
      assert ops[0] in ops;
      ghost var f' := Perform(ops[0], f);
      PerformAll(ops[1..], f');
    }
  }
}
