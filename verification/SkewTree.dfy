/**
 The value-level skew heap: binary trees whose elements are compared by a strict
 order, the self-adjusting merge, and the cost of whole runs of operations.
 */
module SkewTree {
  import opened Numbers

  /** What the heap stores: an identity with the key it is compared by. */
  datatype Item<N, K> = Item(id: N, key: K)

  datatype Tree<N, K> = Leaf | Node(left: Tree<N, K>, elem: Item<N, K>, right: Tree<N, K>)

  ghost function Elems<N, K>(t: Tree<N, K>): multiset<Item<N, K>> {
    if t.Leaf? then multiset{} else Elems(t.left) + multiset{t.elem} + Elems(t.right)
  }

  ghost function Size<N, K>(t: Tree<N, K>): nat {
    if t.Leaf? then 0 else Size(t.left) + 1 + Size(t.right)
  }

  // ----- Order -----

  /** What the heap needs of its comparator: a strict weak order of the keys. */
  ghost predicate StrictWeakOrder<K(!new)>(less: (K, K) -> bool) {
    && (forall x, y :: less(x, y) ==> !less(y, x))
    && (forall x, y, z :: !less(x, y) && !less(y, z) ==> !less(x, z))
  }

  /** No element of the tree is smaller than x. */
  ghost predicate Above<N, K>(x: Item<N, K>, t: Tree<N, K>, less: (K, K) -> bool) {
    t.Leaf? || (!less(t.elem.key, x.key) && Above(x, t.left, less) && Above(x, t.right, less))
  }

  ghost predicate HeapOrdered<N, K>(t: Tree<N, K>, less: (K, K) -> bool) {
    t.Leaf? ||
    (HeapOrdered(t.left, less) && HeapOrdered(t.right, less) &&
     Above(t.elem, t.left, less) && Above(t.elem, t.right, less))
  }

  lemma {:induction false} AboveMember<N, K>(x: Item<N, K>, t: Tree<N, K>, less: (K, K) -> bool, y: Item<N, K>)
    requires Above(x, t, less) && y in Elems(t)
    ensures !less(y.key, x.key)
  {
    if y != t.elem {
      AboveMember(x, if y in Elems(t.left) then t.left else t.right, less, y);
    }
  }

  /** A bound below the root of an ordered heap is a bound below all of it. */
  lemma {:induction false} AboveWeaken<N, K(!new)>(x: Item<N, K>, y: Item<N, K>, t: Tree<N, K>, less: (K, K) -> bool)
    requires StrictWeakOrder(less) && !less(y.key, x.key) && Above(y, t, less)
    ensures Above(x, t, less)
  {
    if t.Node? {
      AboveWeaken(x, y, t.left, less);
      AboveWeaken(x, y, t.right, less);
    }
  }

  /** The root of an ordered heap is a minimum of its elements. */
  lemma {:induction false} RootIsMinimum<N, K(!new)>(t: Tree<N, K>, less: (K, K) -> bool, y: Item<N, K>)
    requires StrictWeakOrder(less) && HeapOrdered(t, less) && y in Elems(t)
    ensures !less(y.key, t.elem.key)
  {
    if y == t.elem {
    } else if y in Elems(t.left) {
      AboveMember(t.elem, t.left, less, y);
    } else {
      AboveMember(t.elem, t.right, less, y);
    }
  }

  // ----- Operations -----

  /** Merge two heaps: the smaller root stays, its children swap, and the old right child is
      merged on. On a tie the root of b stays on top. */
  ghost function Merge<N, K>(a: Tree<N, K>, b: Tree<N, K>, less: (K, K) -> bool): (r: Tree<N, K>)
    decreases Size(a) + Size(b)
  {
    if a.Leaf? then b
    else if b.Leaf? then a
    else if less(a.elem.key, b.elem.key) then Node(Merge(a.right, b, less), a.elem, a.left)
    else Node(Merge(a, b.right, less), b.elem, b.left)
  }

  ghost function Insert<N, K>(t: Tree<N, K>, x: Item<N, K>, less: (K, K) -> bool): Tree<N, K> {
    Merge(t, Node(Leaf, x, Leaf), less)
  }

  /** Replace the subtree rooted at x by the merge of its two children. */
  ghost function Remove<N, K>(t: Tree<N, K>, x: Item<N, K>, less: (K, K) -> bool): Tree<N, K>
    requires x in Elems(t)
  {
    if x == t.elem then Merge(t.left, t.right, less)
    else if x in Elems(t.left) then Node(Remove(t.left, x, less), t.elem, t.right)
    else Node(t.left, t.elem, Remove(t.right, x, less))
  }

  lemma {:induction false} MergeElems<N, K>(a: Tree<N, K>, b: Tree<N, K>, less: (K, K) -> bool)
    ensures Elems(Merge(a, b, less)) == Elems(a) + Elems(b)
    ensures Size(Merge(a, b, less)) == Size(a) + Size(b)
    decreases Size(a) + Size(b)
  {
    if a.Node? && b.Node? {
      if less(a.elem.key, b.elem.key) {
        MergeElems(a.right, b, less);
      } else {
        MergeElems(a, b.right, less);
      }
    }
  }

  lemma InsertElems<N, K>(t: Tree<N, K>, x: Item<N, K>, less: (K, K) -> bool)
    ensures Elems(Insert(t, x, less)) == Elems(t) + multiset{x}
    ensures Size(Insert(t, x, less)) == Size(t) + 1
  {
    var single := Node(Leaf, x, Leaf);
    assert Elems(single.left) == multiset{} && Size(single.left) == 0;
    assert Elems(single) == multiset{x};
    MergeElems(t, single, less);
  }

  lemma {:induction false} AboveMerge<N, K>(x: Item<N, K>, a: Tree<N, K>, b: Tree<N, K>, less: (K, K) -> bool)
    requires Above(x, a, less) && Above(x, b, less)
    ensures Above(x, Merge(a, b, less), less)
    decreases Size(a) + Size(b)
  {
    if a.Node? && b.Node? {
      if less(a.elem.key, b.elem.key) {
        AboveMerge(x, a.right, b, less);
      } else {
        AboveMerge(x, a, b.right, less);
      }
    }
  }

  lemma {:induction false} MergeOrdered<N, K(!new)>(a: Tree<N, K>, b: Tree<N, K>, less: (K, K) -> bool)
    requires StrictWeakOrder(less) && HeapOrdered(a, less) && HeapOrdered(b, less)
    ensures HeapOrdered(Merge(a, b, less), less)
    decreases Size(a) + Size(b)
  {
    if a.Node? && b.Node? {
      if less(a.elem.key, b.elem.key) {
        MergeOrdered(a.right, b, less);
        assert Above(a.elem, b, less) by {
          AboveWeaken(a.elem, b.elem, b.left, less);
          AboveWeaken(a.elem, b.elem, b.right, less);
        }
        AboveMerge(a.elem, a.right, b, less);
      } else {
        MergeOrdered(a, b.right, less);
        assert Above(b.elem, a, less) by {
          AboveWeaken(b.elem, a.elem, a.left, less);
          AboveWeaken(b.elem, a.elem, a.right, less);
        }
        AboveMerge(b.elem, a, b.right, less);
      }
    }
  }

  lemma {:induction false} RemoveSize<N, K>(t: Tree<N, K>, x: Item<N, K>, less: (K, K) -> bool)
    requires x in Elems(t)
    ensures Size(Remove(t, x, less)) == Size(t) - 1
  {
    if x == t.elem {
      MergeElems(t.left, t.right, less);
    } else if x in Elems(t.left) {
      RemoveSize(t.left, x, less);
    } else {
      RemoveSize(t.right, x, less);
    }
  }

  lemma TakeOne<N, K>(l: multiset<Item<N, K>>, e: Item<N, K>, r: multiset<Item<N, K>>, x: Item<N, K>)
    ensures x in l ==> (l - multiset{x}) + multiset{e} + r == (l + multiset{e} + r) - multiset{x}
    ensures x in r ==> l + multiset{e} + (r - multiset{x}) == (l + multiset{e} + r) - multiset{x}
    ensures l + r == (l + multiset{e} + r) - multiset{e}
  {
  }

  lemma {:induction false} RemoveElems<N, K>(t: Tree<N, K>, x: Item<N, K>, less: (K, K) -> bool)
    requires x in Elems(t)
    ensures Elems(Remove(t, x, less)) == Elems(t) - multiset{x}
  {
    var Node(l, e, r) := t;
    TakeOne(Elems(l), e, Elems(r), x);
    if x == e {
      MergeElems(l, r, less);
    } else if x in Elems(l) {
      RemoveElems(l, x, less);
    } else {
      RemoveElems(r, x, less);
    }
  }

  lemma {:induction false} AboveRemove<N, K>(y: Item<N, K>, t: Tree<N, K>, x: Item<N, K>, less: (K, K) -> bool)
    requires x in Elems(t) && Above(y, t, less)
    ensures Above(y, Remove(t, x, less), less)
  {
    if x == t.elem {
      AboveMerge(y, t.left, t.right, less);
    } else if x in Elems(t.left) {
      AboveRemove(y, t.left, x, less);
    } else {
      AboveRemove(y, t.right, x, less);
    }
  }

  lemma {:induction false} RemoveOrdered<N, K(!new)>(t: Tree<N, K>, x: Item<N, K>, less: (K, K) -> bool)
    requires StrictWeakOrder(less) && HeapOrdered(t, less) && x in Elems(t)
    ensures HeapOrdered(Remove(t, x, less), less)
  {
    if x == t.elem {
      MergeOrdered(t.left, t.right, less);
    } else if x in Elems(t.left) {
      RemoveOrdered(t.left, x, less);
      AboveRemove(t.elem, t.left, x, less);
    } else {
      RemoveOrdered(t.right, x, less);
      AboveRemove(t.elem, t.right, x, less);
    }
  }

  // ----- Draining: the heap sorts -----

  /** The elements in the order in which repeatedly removing the root returns them. */
  ghost function Drain<N, K>(t: Tree<N, K>, less: (K, K) -> bool): seq<Item<N, K>>
    decreases Size(t)
  {
    if t.Leaf? then [] else
      RemoveSize(t, t.elem, less);
      [t.elem] + Drain(Remove(t, t.elem, less), less)
  }

  ghost predicate Sorted<N, K>(s: seq<Item<N, K>>, less: (K, K) -> bool) {
    forall i, j :: 0 <= i < j < |s| ==> !less(s[j].key, s[i].key)
  }

  lemma Prepend<N, K>(x: Item<N, K>, s: seq<Item<N, K>>, less: (K, K) -> bool, all: multiset<Item<N, K>>)
    requires Sorted(s, less) && x in all && multiset(s) == all - multiset{x}
    ensures multiset([x] + s) == all
    ensures (forall y :: y in all ==> !less(y.key, x.key)) ==> Sorted([x] + s, less)
  {
    assert forall j :: 0 <= j < |s| ==> s[j] in multiset(s);
  }

  lemma {:induction false} DrainSorts<N, K(!new)>(t: Tree<N, K>, less: (K, K) -> bool)
    requires StrictWeakOrder(less) && HeapOrdered(t, less)
    ensures multiset(Drain(t, less)) == Elems(t)
    ensures Sorted(Drain(t, less), less)
    decreases Size(t)
  {
    if t.Node? {
      var rest := Remove(t, t.elem, less);
      RemoveSize(t, t.elem, less);
      RemoveElems(t, t.elem, less);
      RemoveOrdered(t, t.elem, less);
      DrainSorts(rest, less);
      Prepend(t.elem, Drain(rest, less), less, Elems(t));
      forall y | y in Elems(t) ensures !less(y.key, t.elem.key) {
        RootIsMinimum(t, less, y);
      }
    }
  }

  // ----- Cost of one operation -----

  /** The number of calls of merge, the outermost one included. */
  ghost function MergeCalls<N, K>(a: Tree<N, K>, b: Tree<N, K>, less: (K, K) -> bool): nat
    decreases Size(a) + Size(b)
  {
    if a.Leaf? || b.Leaf? then 1
    else if less(a.elem.key, b.elem.key) then 1 + MergeCalls(a.right, b, less)
    else 1 + MergeCalls(a, b.right, less)
  }

  /** The length of the right spine. */
  ghost function Spine<N, K>(t: Tree<N, K>): nat {
    if t.Leaf? then 0 else 1 + Spine(t.right)
  }

  /** Merging walks down both right spines until one of them ends, one call for each entry met and
      one for the end. */
  lemma {:induction false} MergeWalksSpines<N, K>(a: Tree<N, K>, b: Tree<N, K>, less: (K, K) -> bool)
    ensures MergeCalls(a, b, less) <= Spine(a) + Spine(b) + 1
    ensures MergeCalls(a, b, less) >= 1 + if Spine(a) < Spine(b) then Spine(a) else Spine(b)
    decreases Size(a) + Size(b)
  {
    if a.Node? && b.Node? {
      if less(a.elem.key, b.elem.key) {
        MergeWalksSpines(a.right, b, less);
      } else {
        MergeWalksSpines(a, b.right, less);
      }
    }
  }

  ghost function RemoveCalls<N, K>(t: Tree<N, K>, x: Item<N, K>, less: (K, K) -> bool): nat
    requires x in Elems(t)
  {
    if x == t.elem then MergeCalls(t.left, t.right, less)
    else if x in Elems(t.left) then RemoveCalls(t.left, x, less)
    else RemoveCalls(t.right, x, less)
  }

  /** Floor of the base-2 logarithm. */
  ghost function Lg(n: nat): nat {
    if n <= 1 then 0 else 1 + Lg(n / 2)
  }

  lemma {:induction false} LgPow2(n: nat)
    ensures n < Pow2(Lg(n) + 1)
    ensures n > 0 ==> Pow2(Lg(n)) <= n
  {
    if n > 1 {
      LgPow2(n / 2);
    }
  }

  /** 1 for a node whose right subtree outweighs the left one. */
  ghost function Heavy<N, K>(l: Tree<N, K>, r: Tree<N, K>): nat {
    if Size(r) > Size(l) then 1 else 0
  }

  /** The potential: the number of nodes whose right subtree outweighs the left one. */
  ghost function Potential<N, K>(t: Tree<N, K>): nat {
    if t.Leaf? then 0
    else Potential(t.left) + Potential(t.right) + Heavy(t.left, t.right)
  }

  /** Swapping in a grown right child m: a heavy right child becomes a light one, so that the
      potential it releases pays for the call. */
  lemma SwapPays<N, K>(l: Tree<N, K>, e: Item<N, K>, r: Tree<N, K>, m: Tree<N, K>)
    requires Size(r) <= Size(m)
    ensures var before, after := Potential(Node(l, e, r)), Potential(Node(m, e, l));
      if Size(r) > Size(l) then 1 + after + Potential(r) <= Potential(m) + before
      else after + Potential(r) <= 1 + Potential(m) + before
  {
    assert if Size(r) > Size(l) then Heavy(m, l) + 1 == Heavy(l, r) else Heavy(m, l) <= 1;
  }

  /** Merging pays for its own calls up to two logarithms: with i and j bounding the
      logarithms of the sizes, every light right child passed uses up one of them. */
  lemma {:induction false} MergeAmortised<N, K>
    (a: Tree<N, K>, b: Tree<N, K>, less: (K, K) -> bool, i: nat, j: nat)
    requires Size(a) + 1 < Pow2(i + 1) && Size(b) + 1 < Pow2(j + 1)
    ensures MergeCalls(a, b, less) + Potential(Merge(a, b, less))
         <= Potential(a) + Potential(b) + 1 + 2 * (i + j)
    decreases Size(a) + Size(b)
  {
    match (a, b)
    case (Leaf, _) =>
    case (_, Leaf) =>
    case (Node(al, x, ar), Node(bl, y, br)) =>
      if less(x.key, y.key) {
        MergeElems(ar, b, less);
        SwapPays(al, x, ar, Merge(ar, b, less));
        MergeAmortised(ar, b, less, if Size(ar) <= Size(al) then i - 1 else i, j);
      } else {
        MergeElems(a, br, less);
        SwapPays(bl, y, br, Merge(a, br, less));
        MergeAmortised(a, br, less, i, if Size(br) <= Size(bl) then j - 1 else j);
      }
  }

  lemma InsertAmortised<N, K>(t: Tree<N, K>, x: Item<N, K>, less: (K, K) -> bool, k: nat)
    requires Size(t) + 1 < Pow2(k + 1)
    ensures MergeCalls(t, Node(Leaf, x, Leaf), less) + Potential(Insert(t, x, less))
         <= Potential(t) + 3 + 2 * k
  {
    var single := Node(Leaf, x, Leaf);
    assert Size(single) == 1 && Potential(single) == 0 && Pow2(2) == 4;
    MergeAmortised(t, single, less, k, 1);
  }

  /** Merging the two children of one node: the smaller one has a smaller logarithm. */
  lemma SiblingsAmortised<N, K>(l: Tree<N, K>, r: Tree<N, K>, less: (K, K) -> bool, k: nat)
    requires Size(l) + Size(r) + 2 < Pow2(k + 1)
    ensures MergeCalls(l, r, less) + Potential(Merge(l, r, less)) + 1
         <= Potential(l) + Potential(r) + 4 * k
  {
    if Size(l) <= Size(r) {
      MergeAmortised(l, r, less, k - 1, k);
    } else {
      MergeAmortised(l, r, less, k, k - 1);
    }
  }

  /** A node whose left child shrinks by one turns right-heavy only if it was balanced. */
  lemma ShrinkLeft<N, K>(l: Tree<N, K>, e: Item<N, K>, r: Tree<N, K>, c: Tree<N, K>)
    requires Size(c) == Size(l) - 1
    ensures var before, after := Potential(Node(l, e, r)), Potential(Node(c, e, r));
      if Size(l) <= Size(r) then after + Potential(l) <= 1 + before + Potential(c)
      else after + Potential(l) <= before + Potential(c)
  {
    assert Heavy(c, r) <= if Size(l) <= Size(r) then 1 + Heavy(l, r) else Heavy(l, r);
  }

  /** A node whose right child shrinks never turns right-heavy. */
  lemma ShrinkRight<N, K>(l: Tree<N, K>, e: Item<N, K>, r: Tree<N, K>, c: Tree<N, K>)
    requires Size(c) <= Size(r)
    ensures Potential(Node(l, e, c)) + Potential(r) <= Potential(Node(l, e, r)) + Potential(c)
  {
    assert Heavy(l, c) <= Heavy(l, r);
  }

  /** Removing any node. Each ancestor shrinks by one, and only one that was balanced can turn
      right-heavy by that, so at most a logarithm of them do. */
  lemma {:induction false} RemoveAmortised<N, K>(t: Tree<N, K>, x: Item<N, K>, less: (K, K) -> bool, k: nat)
    requires x in Elems(t) && Size(t) + 1 < Pow2(k + 1)
    ensures RemoveCalls(t, x, less) + Potential(Remove(t, x, less)) + 1 <= Potential(t) + 4 * k
  {
    var Node(l, e, r) := t;
    if x == e {
      SiblingsAmortised(l, r, less, k);
    } else if x in Elems(l) {
      var k' := if Size(l) <= Size(r) then k - 1 else k;
      RemoveSize(l, x, less);
      ShrinkLeft(l, e, r, Remove(l, x, less));
      RemoveAmortised(l, x, less, k');
    } else {
      RemoveSize(r, x, less);
      ShrinkRight(l, e, r, Remove(r, x, less));
      RemoveAmortised(r, x, less, k);
    }
  }

  // ----- Runs -----

  datatype Op<N, K> = Add(elem: Item<N, K>) | Drop(elem: Item<N, K>)

  /** An element is added only when absent and dropped only when present. */
  ghost predicate Enabled<N, K>(t: Tree<N, K>, op: Op<N, K>) {
    match op
    case Add(x) => x !in Elems(t)
    case Drop(x) => x in Elems(t)
  }

  ghost function Apply<N, K>(t: Tree<N, K>, op: Op<N, K>, less: (K, K) -> bool): Tree<N, K>
    requires Enabled(t, op)
  {
    match op
    case Add(x) => Insert(t, x, less)
    case Drop(x) => Remove(t, x, less)
  }

  ghost function Calls<N, K>(t: Tree<N, K>, op: Op<N, K>, less: (K, K) -> bool): nat
    requires Enabled(t, op)
  {
    match op
    case Add(x) => MergeCalls(t, Node(Leaf, x, Leaf), less)
    case Drop(x) => RemoveCalls(t, x, less)
  }

  ghost predicate IsRun<N, K>(t: Tree<N, K>, ops: seq<Op<N, K>>, less: (K, K) -> bool)
    decreases |ops|
  {
    ops == [] || (Enabled(t, ops[0]) && IsRun(Apply(t, ops[0], less), ops[1..], less))
  }

  ghost function Final<N, K>(t: Tree<N, K>, ops: seq<Op<N, K>>, less: (K, K) -> bool): Tree<N, K>
    requires IsRun(t, ops, less)
    decreases |ops|
  {
    if ops == [] then t else Final(Apply(t, ops[0], less), ops[1..], less)
  }

  ghost function TotalCalls<N, K>(t: Tree<N, K>, ops: seq<Op<N, K>>, less: (K, K) -> bool): nat
    requires IsRun(t, ops, less)
    decreases |ops|
  {
    if ops == [] then 0
    else Calls(t, ops[0], less) + TotalCalls(Apply(t, ops[0], less), ops[1..], less)
  }

  /** The heap never holds more than n elements during the run. */
  ghost predicate Within<N, K>(t: Tree<N, K>, ops: seq<Op<N, K>>, less: (K, K) -> bool, n: nat)
    requires IsRun(t, ops, less)
    decreases |ops|
  {
    Size(t) <= n && (ops == [] || Within(Apply(t, ops[0], less), ops[1..], less, n))
  }

  /** The abstract priority queue: the set of elements present, after one operation... */
  ghost function Update<N, K>(present: set<Item<N, K>>, op: Op<N, K>): set<Item<N, K>> {
    match op
    case Add(x) => present + {x}
    case Drop(x) => present - {x}
  }

  /** ...and after all of them. */
  ghost function Contents<N, K>(present: set<Item<N, K>>, ops: seq<Op<N, K>>): set<Item<N, K>>
    decreases |ops|
  {
    if ops == [] then present else Contents(Update(present, ops[0]), ops[1..])
  }

  /** t holds each element of s exactly once and nothing else. */
  ghost predicate Holds<N, K(!new)>(t: Tree<N, K>, s: set<Item<N, K>>) {
    Elems(t) == multiset(s)
  }

  lemma AddOne<N, K>(s: set<Item<N, K>>, x: Item<N, K>)
    ensures x !in s ==> multiset(s) + multiset{x} == multiset(s + {x})
    ensures x in s ==> multiset(s) - multiset{x} == multiset(s - {x})
  {
  }

  /** One operation keeps the order and does to the elements what the priority queue does. */
  lemma ApplyRefines<N, K(!new)>(t: Tree<N, K>, s: set<Item<N, K>>, op: Op<N, K>, less: (K, K) -> bool)
    requires StrictWeakOrder(less) && HeapOrdered(t, less) && Holds(t, s) && Enabled(t, op)
    ensures HeapOrdered(Apply(t, op, less), less)
    ensures Holds(Apply(t, op, less), Update(s, op))
  {
    AddOne(s, op.elem);
    match op
    case Add(x) =>
      InsertElems(t, x, less);
      MergeOrdered(t, Node(Leaf, x, Leaf), less);
    case Drop(x) =>
      RemoveElems(t, x, less);
      RemoveOrdered(t, x, less);
  }

  lemma HeldMinimum<N, K(!new)>(t: Tree<N, K>, s: set<Item<N, K>>, less: (K, K) -> bool)
    requires StrictWeakOrder(less) && HeapOrdered(t, less) && Holds(t, s)
    ensures t.Leaf? <==> s == {}
    ensures t.Node? ==> t.elem in s && forall x :: x in s ==> !less(x.key, t.elem.key)
  {
    if t.Node? {
      assert t.elem in Elems(t);
      forall x | x in s ensures !less(x.key, t.elem.key) {
        RootIsMinimum(t, less, x);
      }
    } else {
      assert forall x :: x in s ==> x in Elems(t);
    }
  }

  lemma {:induction false} RunRefines<N, K(!new)>
    (t: Tree<N, K>, s: set<Item<N, K>>, ops: seq<Op<N, K>>, less: (K, K) -> bool)
    requires StrictWeakOrder(less) && HeapOrdered(t, less) && Holds(t, s) && IsRun(t, ops, less)
    ensures HeapOrdered(Final(t, ops, less), less)
    ensures Holds(Final(t, ops, less), Contents(s, ops))
    decreases |ops|
  {
    if ops != [] {
      ApplyRefines(t, s, ops[0], less);
      RunRefines(Apply(t, ops[0], less), Update(s, ops[0]), ops[1..], less);
    }
  }

  /** Every run refines the abstract priority queue, and the root is always a minimum. */
  lemma RunRefinesPriorityQueue<N, K(!new)>(ops: seq<Op<N, K>>, less: (K, K) -> bool)
    requires StrictWeakOrder(less) && IsRun(Leaf, ops, less)
    ensures var t := Final(Leaf, ops, less);
      && HeapOrdered(t, less)
      && Holds(t, Contents({}, ops))
      && (t.Leaf? <==> Contents({}, ops) == {})
      && (t.Node? ==> t.elem in Contents({}, ops) &&
                      forall x :: x in Contents({}, ops) ==> !less(x.key, t.elem.key))
  {
    RunRefines(Leaf, {}, ops, less);
    HeldMinimum(Final(Leaf, ops, less), Contents({}, ops), less);
  }

  /** One operation costs at most four logarithms, paid for by the potential. */
  lemma OpAmortised<N, K>(t: Tree<N, K>, op: Op<N, K>, less: (K, K) -> bool, n: nat, k: nat)
    requires Enabled(t, op) && Size(t) <= n < Pow2(k + 1) && Size(Apply(t, op, less)) <= n
    ensures Calls(t, op, less) + Potential(Apply(t, op, less)) <= Potential(t) + 4 * (1 + k)
  {
    match op
    case Add(x) =>
      InsertElems(t, x, less);
      InsertAmortised(t, x, less, k);
    case Drop(x) =>
      RemoveAmortised(t, x, less, k + 1);
  }

  lemma OneMore(m: nat, c: nat)
    ensures (m + 1) * c == c + m * c
  {
  }

  lemma {:induction false} RunAmortised<N, K>
    (t: Tree<N, K>, ops: seq<Op<N, K>>, less: (K, K) -> bool, n: nat, k: nat, c: nat)
    requires IsRun(t, ops, less) && Within(t, ops, less, n) && n < Pow2(k + 1) && c == 4 * (1 + k)
    ensures TotalCalls(t, ops, less) + Potential(Final(t, ops, less)) <= Potential(t) + |ops| * c
    decreases |ops|
  {
    if ops != [] {
      OpAmortised(t, ops[0], less, n, k);
      RunAmortised(Apply(t, ops[0], less), ops[1..], less, n, k, c);
      OneMore(|ops| - 1, c);
    }
  }

  /** Any m operations from the empty heap make at most 4 m (1 + lg n) merge calls. */
  lemma AmortisedBound<N, K>(ops: seq<Op<N, K>>, less: (K, K) -> bool, n: nat)
    requires IsRun(Leaf, ops, less) && Within(Leaf, ops, less, n)
    ensures TotalCalls(Leaf, ops, less) <= |ops| * (4 * (1 + Lg(n)))
  {
    LgPow2(n);
    RunAmortised(Leaf, ops, less, n, Lg(n), 4 * (1 + Lg(n)));
  }
}
