/** Circular doubly linked lists: each operation on the links refines one on sequences. */
module Ring {

  class ListEntry {
    var prev: ListEntry?
    var next: ListEntry?

    constructor () {}
  }

  // ----- Rings as sequences -----

  ghost function After(i: nat, n: nat): nat {
    if i + 1 == n then 0 else i + 1
  }

  ghost function Before(i: nat, n: nat): int {
    if i == 0 then n - 1 else i - 1
  }

  ghost predicate NoRepeats<T>(s: seq<T>) {
    forall i, j :: 0 <= i < j < |s| ==> s[i] != s[j]
  }

  ghost function InsertAt<T>(s: seq<T>, i: nat, e: T): (t: seq<T>)
    requires i <= |s|
    ensures Inserted(s, i, e, t)
  {
    s[..i] + [e] + s[i..]
  }

  ghost function RemoveAt<T>(s: seq<T>, i: nat): (t: seq<T>)
    requires i < |s|
    ensures Inserted(t, i, s[i], s)
  {
    s[..i] + s[i + 1..]
  }

  /** t is s with e as an additional i-th element. */
  ghost predicate Inserted<T>(s: seq<T>, i: nat, e: T, t: seq<T>) {
    && i <= |s| && |t| == |s| + 1
    && t[i] == e
    && (forall k {:trigger s[k]} :: 0 <= k < |s| ==> s[k] == if k < i then t[k] else t[k + 1])
    && (forall k {:trigger t[k]} :: 0 <= k < |t| && k != i ==> t[k] == if k < i then s[k] else s[k - 1])
  }

  /** Removing undoes inserting, and inserting again undoes removing. */
  lemma InsertRemove<T>(s: seq<T>, i: nat, e: T)
    ensures i <= |s| ==> RemoveAt(InsertAt(s, i, e), i) == s
    ensures i < |s| ==> InsertAt(RemoveAt(s, i), i, s[i]) == s
  {
  }

  // ----- Links -----

  datatype Links = Links(prev: ListEntry?, next: ListEntry?)

  type Memory = map<ListEntry, Links>

  ghost function Snapshot(es: set<ListEntry>): Memory
    reads es
  {
    map e | e in es :: Links(e.prev, e.next)
  }

  ghost function Entries<T>(s: seq<T>): set<T> {
    set e | e in s
  }

  /** The i-th entry is linked both ways to its two neighbours. */
  ghost predicate LinkedAt(s: seq<ListEntry>, h: Memory, i: nat)
    requires i < |s|
  {
    s[i] in h && h[s[i]] == Links(s[Before(i, |s|)], s[After(i, |s|)])
  }

  ghost predicate RingIn(s: seq<ListEntry>, h: Memory) {
    |s| > 0 && NoRepeats(s) && forall i :: 0 <= i < |s| ==> LinkedAt(s, h, i)
  }

  /** The entries of s are linked in a ring in this order: next and prev lead from each entry to
      its neighbours and close up at the ends. */
  ghost predicate IsRing(s: seq<ListEntry>)
    reads s
  {
    RingIn(s, Snapshot(Entries(s)))
  }

  /** How the links change when e is linked in as the i-th entry of t. */
  ghost predicate LinkedIn(t: seq<ListEntry>, i: nat, e: ListEntry, h: Memory, h': Memory)
    requires i < |t| && |t| > 1
  {
    var (p, n) := (t[Before(i, |t|)], t[After(i, |t|)]);
    && h.Keys == h'.Keys && p in h && n in h && e in h
    && h'[e] == Links(p, n)
    && h'[p].next == e && h'[n].prev == e
    && (p != n ==> h'[p].prev == h[p].prev && h'[n].next == h[n].next)
    && forall x :: x in h && x != e && x != p && x != n ==> h'[x] == h[x]
  }

  lemma LinkedInAt(s: seq<ListEntry>, i: nat, e: ListEntry, t: seq<ListEntry>, h: Memory, h': Memory, k: nat)
    requires RingIn(s, h) && Inserted(s, i, e, t) && NoRepeats(t) && e in h && LinkedIn(t, i, e, h, h')
    requires k < |t|
    ensures LinkedAt(t, h', k)
  {
    if k != i {
      var j := if k < i then k else k - 1;
      assert LinkedAt(s, h, j);
      assert t[k] == s[j];
    }
  }

  lemma LinkedInRing(s: seq<ListEntry>, i: nat, e: ListEntry, t: seq<ListEntry>, h: Memory, h': Memory)
    requires RingIn(s, h) && Inserted(s, i, e, t) && e in h && e !in s && LinkedIn(t, i, e, h, h')
    ensures RingIn(t, h')
  {
    assert NoRepeats(t) by { InsertedNoRepeats(s, i, e, t); }
    forall k | 0 <= k < |t| ensures LinkedAt(t, h', k) {
      LinkedInAt(s, i, e, t, h, h', k);
    }
  }

  lemma InsertedNoRepeats<T>(s: seq<T>, i: nat, e: T, t: seq<T>)
    requires Inserted(s, i, e, t)
    ensures NoRepeats(t) <==> NoRepeats(s) && e !in s
  {
    if NoRepeats(t) {
      assert forall k :: 0 <= k < |s| ==> s[k] == t[if k < i then k else k + 1];
    }
  }

  /** How the links change when the neighbours of the i-th entry of t are linked to each other. */
  ghost predicate LinkedOut(t: seq<ListEntry>, i: nat, h: Memory, h': Memory)
    requires i < |t|
  {
    var (p, n) := (t[Before(i, |t|)], t[After(i, |t|)]);
    && h.Keys == h'.Keys && p in h && n in h
    && h'[p].next == n && h'[n].prev == p
    && (p != n ==> h'[p].prev == h[p].prev && h'[n].next == h[n].next)
    && forall x :: x in h && x != p && x != n ==> h'[x] == h[x]
  }

  lemma LinkedOutAt(s: seq<ListEntry>, i: nat, e: ListEntry, t: seq<ListEntry>, h: Memory, h': Memory, k: nat)
    requires RingIn(t, h) && Inserted(s, i, e, t) && LinkedOut(t, i, h, h')
    requires k < |s|
    ensures LinkedAt(s, h', k)
  {
    var j := if k < i then k else k + 1;
    assert LinkedAt(t, h, j);
    assert s[k] == t[j];
  }

  lemma LinkedOutRing(s: seq<ListEntry>, i: nat, e: ListEntry, t: seq<ListEntry>, h: Memory, h': Memory)
    requires RingIn(t, h) && Inserted(s, i, e, t) && |s| > 0 && LinkedOut(t, i, h, h')
    ensures RingIn(s, h')
  {
    InsertedNoRepeats(s, i, e, t);
    forall k | 0 <= k < |s| ensures LinkedAt(s, h', k) {
      LinkedOutAt(s, i, e, t, h, h', k);
    }
  }

  /** The ring can be read off any snapshot that covers it. */
  lemma RingAt(s: seq<ListEntry>, h: Memory)
    requires Entries(s) <= h.Keys && h == Snapshot(h.Keys)
    ensures IsRing(s) <==> RingIn(s, h)
  {
    var g := Snapshot(Entries(s));
    assert forall i :: 0 <= i < |s| ==> (LinkedAt(s, g, i) <==> LinkedAt(s, h, i));
  }

  lemma Neighbours(s: seq<ListEntry>, i: nat)
    requires IsRing(s) && i < |s|
    ensures s[i].prev == s[Before(i, |s|)] && s[i].next == s[After(i, |s|)]
  {
    assert LinkedAt(s, Snapshot(Entries(s)), i);
  }

  // ----- The primitives, on the links alone -----

  method ListInit(elm: ListEntry)
    modifies elm
    ensures elm.prev == elm.next == elm
    ensures IsRing([elm])
  {
    elm.next := elm;
    elm.prev := elm.next;
  }

  method LinkBetween(elm: ListEntry, prev: ListEntry, next: ListEntry)
    modifies elm, prev`next, next`prev
    ensures elm.next == next && elm.prev == prev
    ensures prev != elm ==> prev.next == elm
    ensures next != elm ==> next.prev == elm
  {
    next.prev := elm;
    prev.next := elm;
    elm.next := next;
    elm.prev := prev;
  }

  method LinkAcross(prev: ListEntry, next: ListEntry)
    modifies prev`next, next`prev
    ensures prev.next == next && next.prev == prev
  {
    prev.next := next;
    next.prev := prev;
  }

  // ----- The operations, on the ring s in which the given entry is the i-th -----

  /** The neighbours of an entry inserted before the i-th. */
  lemma BeforeNeighbours<T>(s: seq<T>, i: nat, e: T)
    requires i < |s|
    ensures var t := InsertAt(s, i, e);
      t[Before(i, |t|)] == s[Before(i, |s|)] && t[After(i, |t|)] == s[i]
  {
  }

  method ListAddBefore(listelm: ListEntry, elm: ListEntry, ghost s: seq<ListEntry>, ghost i: nat)
    requires IsRing(s) && i < |s| && s[i] == listelm && elm !in s
    modifies elm, s
    ensures IsRing(InsertAt(s, i, elm))
    ensures elm.next == listelm && listelm.prev == elm
  {
    ghost var t, all := InsertAt(s, i, elm), Entries(s) + {elm};
    ghost var h := Snapshot(all);
    RingAt(s, h);
    Neighbours(s, i);
    BeforeNeighbours(s, i, elm);
    LinkBetween(elm, listelm.prev, listelm);
    LinkedInRing(s, i, elm, t, h, Snapshot(all));
    RingAt(t, Snapshot(all));
  }

  /** The neighbours of an entry inserted after the i-th. */
  lemma BetweenNeighbours<T>(s: seq<T>, i: nat, e: T)
    requires i < |s|
    ensures var t := InsertAt(s, i + 1, e);
      t[Before(i + 1, |t|)] == s[i] && t[After(i + 1, |t|)] == s[After(i, |s|)]
  {
  }

  method ListAddAfter(listelm: ListEntry, elm: ListEntry, ghost s: seq<ListEntry>, ghost i: nat)
    requires IsRing(s) && i < |s| && s[i] == listelm && elm !in s
    modifies elm, s
    ensures IsRing(InsertAt(s, i + 1, elm))
    ensures elm.prev == listelm && listelm.next == elm
  {
    ghost var t, all := InsertAt(s, i + 1, elm), Entries(s) + {elm};
    ghost var h := Snapshot(all);
    RingAt(s, h);
    Neighbours(s, i);
    BetweenNeighbours(s, i, elm);
    var next := listelm.next;
    LinkBetween(elm, listelm, next);
    LinkedInRing(s, i + 1, elm, t, h, Snapshot(all));
    RingAt(t, Snapshot(all));
  }

  method ListAdd(listelm: ListEntry, elm: ListEntry, ghost s: seq<ListEntry>, ghost i: nat)
    requires IsRing(s) && i < |s| && s[i] == listelm && elm !in s
    modifies elm, s
    ensures IsRing(InsertAt(s, i + 1, elm))
  {
    ListAddAfter(listelm, elm, s, i);
  }

  /** Unlinking leaves the links of the entry itself alone. An entry that is alone stays a
      ring of its own. */
  method ListDel(listelm: ListEntry, ghost s: seq<ListEntry>, ghost i: nat)
    requires IsRing(s) && i < |s| && s[i] == listelm
    modifies s
    ensures listelm.prev == old(listelm.prev) && listelm.next == old(listelm.next)
    ensures IsRing(if |s| == 1 then s else RemoveAt(s, i))
  {
    ghost var all := Entries(s);
    ghost var h := Snapshot(all);
    RingAt(s, h);
    Neighbours(s, i);
    LinkAcross(listelm.prev, listelm.next);
    if |s| > 1 {
      LinkedOutRing(RemoveAt(s, i), i, listelm, s, h, Snapshot(all));
      RingAt(RemoveAt(s, i), Snapshot(all));
    }
  }

  method ListDelInit(listelm: ListEntry, ghost s: seq<ListEntry>, ghost i: nat)
    requires IsRing(s) && i < |s| && s[i] == listelm
    modifies s
    ensures IsRing([listelm])
    ensures |s| > 1 ==> IsRing(RemoveAt(s, i))
  {
    ListDel(listelm, s, i);
    ListInit(listelm);
  }

  /** The emptiness test recognises exactly the entries that are alone in their ring. */
  method ListEmpty(list: ListEntry, ghost s: seq<ListEntry>, ghost i: nat) returns (empty: bool)
    requires IsRing(s) && i < |s| && s[i] == list
    ensures empty <==> |s| == 1
  {
    Neighbours(s, i);
    empty := list.next == list;
  }

  method ListNext(listelm: ListEntry, ghost s: seq<ListEntry>, ghost i: nat) returns (e: ListEntry?)
    requires IsRing(s) && i < |s| && s[i] == listelm
    ensures e == s[After(i, |s|)] && e.prev == listelm
  {
    Neighbours(s, i);
    Neighbours(s, After(i, |s|));
    e := listelm.next;
  }

  method ListPrev(listelm: ListEntry, ghost s: seq<ListEntry>, ghost i: nat) returns (e: ListEntry?)
    requires IsRing(s) && i < |s| && s[i] == listelm
    ensures e == s[Before(i, |s|)] && e.next == listelm
  {
    Neighbours(s, i);
    Neighbours(s, Before(i, |s|));
    e := listelm.prev;
  }

  /** After list_del the emptiness test is true of the deleted entry exactly when it was alone. */
  method DeletedLooksEmpty(listelm: ListEntry, ghost s: seq<ListEntry>, ghost i: nat) returns (empty: bool)
    requires IsRing(s) && i < |s| && s[i] == listelm
    modifies s
    ensures empty <==> |s| == 1
  {
    Neighbours(s, i);
    ListDel(listelm, s, i);
    empty := listelm.next == listelm;
  }

  // ----- Operations that undo each other -----

  twostate lemma SameRingSameLinks(s: seq<ListEntry>)
    requires old(IsRing(s)) && IsRing(s)
    ensures forall e :: e in s ==> e.prev == old(e.prev) && e.next == old(e.next)
  {
    var (g, h) := (old(Snapshot(Entries(s))), Snapshot(Entries(s)));
    forall i | 0 <= i < |s| ensures s[i].prev == old(s[i].prev) && s[i].next == old(s[i].next) {
      assert LinkedAt(s, g, i) && LinkedAt(s, h, i);
    }
  }

  /** Adding an entry and deleting it again restores every link of the ring. */
  method AddThenDel(listelm: ListEntry, elm: ListEntry, after: bool, ghost s: seq<ListEntry>, ghost i: nat)
    requires IsRing(s) && i < |s| && s[i] == listelm && elm !in s
    modifies elm, s
    ensures IsRing(s)
    ensures forall e :: e in s ==> e.prev == old(e.prev) && e.next == old(e.next)
  {
    ghost var k := if after then i + 1 else i;
    if after {
      ListAddAfter(listelm, elm, s, i);
    } else {
      ListAddBefore(listelm, elm, s, i);
    }
    InsertRemove(s, k, elm);
    ListDel(elm, InsertAt(s, k, elm), k);
    SameRingSameLinks(s);
  }

  /** Deleting an entry and adding it again after its old predecessor restores every link of the
      ring, also when the entry is alone and its own predecessor. */
  method DelThenAdd(elm: ListEntry, ghost s: seq<ListEntry>, ghost i: nat)
    requires IsRing(s) && i < |s| && s[i] == elm
    modifies s
    ensures forall e :: e in s ==> e.prev == old(e.prev) && e.next == old(e.next)
  {
    Neighbours(s, i);
    var p := elm.prev;
    ListDel(elm, s, i);
    if p == elm {
      LinkBetween(elm, p, p.next);
    } else {
      ghost var rest := RemoveAt(s, i);
      ReAdd(p, elm, rest, i, s);
      SameRingSameLinks(s);
    }
  }

  method ReAdd(p: ListEntry, elm: ListEntry, ghost rest: seq<ListEntry>, ghost i: nat, ghost s: seq<ListEntry>)
    requires IsRing(rest) && Inserted(rest, i, elm, s) && elm !in rest && p == s[Before(i, |s|)]
    modifies elm, rest
    ensures IsRing(s)
  {
    ghost var j := if i == 0 then |rest| - 1 else i - 1;
    ListAddAfter(p, elm, rest, j);
    if i == 0 {
      Rotated(rest, elm, s);
    } else {
      InsertedSame(rest, i, elm, s);
    }
  }

  lemma InsertedSame<T>(s: seq<T>, i: nat, e: T, t: seq<T>)
    requires Inserted(s, i, e, t)
    ensures t == InsertAt(s, i, e)
  {
    var u := InsertAt(s, i, e);
    assert forall k :: 0 <= k < |t| ==> t[k] == u[k];
  }

  /** A ring may be read from any of its entries. */
  lemma Rotated(rest: seq<ListEntry>, e: ListEntry, s: seq<ListEntry>)
    requires IsRing(InsertAt(rest, |rest|, e)) && Inserted(rest, 0, e, s)
    ensures IsRing(s)
  {
    var t := InsertAt(rest, |rest|, e);
    var (g, h) := (Snapshot(Entries(t)), Snapshot(Entries(s)));
    InsertedNoRepeats(rest, |rest|, e, t);
    InsertedNoRepeats(rest, 0, e, s);
    forall k | 0 <= k < |s| ensures LinkedAt(s, h, k) {
      assert LinkedAt(t, g, Before(k, |s|));
    }
  }
}
