/**
 The skew heap as the kernel library stores it: entries linked by parent, left and right
 pointers that merge, insert and remove overwrite in place. Every method is tied to the
 value-level operation of module SkewTree that it performs.
 */
module SkewHeap {
  import opened SkewTree

  class Entry<K> {
    var key: K
    var parent: Entry?<K>
    var left: Entry?<K>
    var right: Entry?<K>

    constructor (key: K)
      ensures this.key == key
    {
      this.key := key;
    }
  }

  /** The comparator's only use: is the first key strictly smaller? */
  ghost function Less<K>(cmp: (K, K) -> int): (K, K) -> bool {
    (x, y) => cmp(x, y) == -1
  }

  ghost function Nodes<K>(t: Tree<Entry<K>, K>): set<Entry<K>> {
    if t.Leaf? then {} else Nodes(t.left) + {t.elem.id} + Nodes(t.right)
  }

  ghost function Root<K>(t: Tree<Entry<K>, K>): Entry?<K> {
    if t.Leaf? then null else t.elem.id
  }

  // ----- Links and shapes -----

  datatype Links<K> = Links(key: K, parent: Entry?<K>, left: Entry?<K>, right: Entry?<K>)

  type Memory<K> = map<Entry<K>, Links<K>>

  ghost function Snapshot<K>(ns: set<Entry<K>>): Memory<K>
    reads ns
  {
    map n | n in ns :: Links(n.key, n.parent, n.left, n.right)
  }

  /** The links in h spell out the tree t: child and parent links agree, keys are the recorded
      ones, and no entry occurs twice. The parent of the root is left open. */
  ghost predicate ShapeIn<K>(t: Tree<Entry<K>, K>, h: Memory<K>) {
    t.Node? ==>
      var n := t.elem.id;
      && n in h && h[n].key == t.elem.key
      && h[n].left == Root(t.left) && h[n].right == Root(t.right)
      && n !in Nodes(t.left) && n !in Nodes(t.right) && Nodes(t.left) !! Nodes(t.right)
      && ShapeIn(t.left, h) && ShapeIn(t.right, h)
      && (t.left.Node? ==> h[t.left.elem.id].parent == n)
      && (t.right.Node? ==> h[t.right.elem.id].parent == n)
  }

  ghost predicate Shape<K>(t: Tree<Entry<K>, K>)
    reads Nodes(t)
  {
    ShapeIn(t, Snapshot(Nodes(t)))
  }

  /** A whole heap, held by its root pointer. */
  ghost predicate IsHeap<K>(t: Tree<Entry<K>, K>, root: Entry?<K>)
    reads Nodes(t)
  {
    Shape(t) && Root(t) == root && (t.Node? ==> t.elem.id.parent == null)
  }

  ghost function ItemOf<K>(n: Entry<K>): Item<Entry<K>, K>
    reads n
  {
    Item(n, n.key)
  }

  lemma {:induction false} ItemsAreNodes<K>(t: Tree<Entry<K>, K>, n: Entry<K>)
    requires Shape(t)
    ensures n in Nodes(t) <==> ItemOf(n) in Elems(t)
  {
    if t.Node? {
      ChildShapes(t, Snapshot(Nodes(t)));
      ItemsAreNodes(t.left, n);
      ItemsAreNodes(t.right, n);
    }
  }

  lemma {:induction false} ShapeDomain<K>(t: Tree<Entry<K>, K>, h: Memory<K>)
    requires ShapeIn(t, h)
    ensures Nodes(t) <= h.Keys
  {
    if t.Node? {
      ShapeDomain(t.left, h);
      ShapeDomain(t.right, h);
    }
  }

  lemma {:induction false} SameShape<K>(t: Tree<Entry<K>, K>, h: Memory<K>, h': Memory<K>)
    requires ShapeIn(t, h)
    requires forall n :: n in Nodes(t) && n in h ==> n in h' && h'[n] == h[n]
    ensures ShapeIn(t, h')
  {
    if t.Node? {
      SameShape(t.left, h, h');
      SameShape(t.right, h, h');
    }
  }

  /** The parent of the root is no part of the shape. */
  lemma RootParentFree<K>(t: Tree<Entry<K>, K>, h: Memory<K>, h': Memory<K>)
    requires ShapeIn(t, h) && Nodes(t) <= h.Keys && h.Keys == h'.Keys
    requires forall n :: n in Nodes(t) ==> h'[n] == h[n] || (n == Root(t) && h'[n] == h[n].(parent := h'[n].parent))
    ensures ShapeIn(t, h')
  {
    if t.Node? {
      SameShape(t.left, h, h');
      SameShape(t.right, h, h');
    }
  }

  /** The shape of a tree can be read off any snapshot that covers it. */
  lemma ShapeAt<K>(t: Tree<Entry<K>, K>, h: Memory<K>)
    requires Nodes(t) <= h.Keys && h == Snapshot(h.Keys)
    ensures Shape(t) <==> ShapeIn(t, h)
  {
    if ShapeIn(t, h) {
      SameShape(t, h, Snapshot(Nodes(t)));
    } else if Shape(t) {
      SameShape(t, Snapshot(Nodes(t)), h);
    }
  }

  /** The children of a well-shaped node are well shaped. */
  lemma ChildShapes<K>(t: Tree<Entry<K>, K>, h: Memory<K>)
    requires t.Node? && Shape(t) && Nodes(t) <= h.Keys && h == Snapshot(h.Keys)
    ensures Shape(t.left) && Shape(t.right) && ShapeIn(t, h)
  {
    ShapeAt(t, h);
    ShapeAt(t.left, h);
    ShapeAt(t.right, h);
  }

  /** What the links of a well-shaped node lead to. */
  lemma Children<K>(t: Tree<Entry<K>, K>)
    requires t.Node? && Shape(t)
    ensures Shape(t.left) && Shape(t.right)
    ensures t.elem == ItemOf(t.elem.id) && t.elem.id.left == Root(t.left) && t.elem.id.right == Root(t.right)
    ensures t.elem.id !in Nodes(t.left) && t.elem.id !in Nodes(t.right) && Nodes(t.left) !! Nodes(t.right)
    ensures t.left.Node? ==> t.left.elem.id.parent == t.elem.id
  {
    ChildShapes(t, Snapshot(Nodes(t)));
  }

  /** Hanging m below the root of t on the left and t's old left subtree on the right. */
  lemma SwappedShape<K>(t: Tree<Entry<K>, K>, h: Memory<K>, h': Memory<K>)
    requires t.Node? && t.elem.id in h && h.Keys == h'.Keys && h[t.elem.id].key == t.elem.key
    requires ShapeIn(t.left, h) && ShapeIn(t.right, h)
    requires t.elem.id !in Nodes(t.left) && t.elem.id !in Nodes(t.right) && Nodes(t.left) !! Nodes(t.right)
    requires t.right.Node? ==> h[t.right.elem.id].parent == t.elem.id
    requires h'[t.elem.id] == h[t.elem.id].(left := Root(t.left), right := Root(t.right))
    requires t.left.Node? ==> h'[t.left.elem.id] == h[t.left.elem.id].(parent := t.elem.id)
    requires forall n :: n in h && n != t.elem.id && n != Root(t.left) ==> h'[n] == h[n]
    ensures ShapeIn(t, h')
  {
    ShapeDomain(t.left, h);
    SameShape(t.right, h, h');
    RootParentFree(t.left, h, h');
  }

  // ----- Operations -----

  method Init<K>(a: Entry<K>)
    modifies a`left, a`right, a`parent
    ensures a.left == a.right == a.parent == null
  {
    a.left := null;
    a.right := null;
    a.parent := null;
  }

  /** Hang the merged subtree l below n on the left and n's old left subtree on the right, so
      that n becomes the root of t. */
  method SwapIn<K>(n: Entry<K>, l: Entry?<K>, ghost t: Tree<Entry<K>, K>)
    requires t.Node? && t.elem == ItemOf(n)
    requires Shape(t.left) && Root(t.left) == l
    requires Shape(t.right) && Root(t.right) == n.left
    requires t.right.Node? ==> t.right.elem.id.parent == n
    requires n !in Nodes(t.left) && n !in Nodes(t.right) && Nodes(t.left) !! Nodes(t.right)
    modifies n`left, n`right, Nodes(t.left)`parent
    ensures Shape(t)
  {
    ghost var h := Snapshot(Nodes(t));
    ShapeAt(t.left, h);
    ShapeAt(t.right, h);
    var rest := n.left;
    n.left := l;
    n.right := rest;
    if l != null {
      l.parent := n;
    }
    SwappedShape(t, h, Snapshot(Nodes(t)));
  }

  /** r is the root of the merge of ta and tb, laid out in the pointers of their entries. */
  ghost predicate Merged<K>(ta: Tree<Entry<K>, K>, tb: Tree<Entry<K>, K>,
                            cmp: (K, K) -> int, r: Entry?<K>)
    reads Nodes(SkewTree.Merge(ta, tb, Less(cmp)))
  {
    var t := SkewTree.Merge(ta, tb, Less(cmp));
    Shape(t) && Root(t) == r && Nodes(t) == Nodes(ta) + Nodes(tb)
  }

  /** Merge two disjoint heaps in place. Their roots may hang below other entries. */
  method Merge<K>(a: Entry?<K>, b: Entry?<K>, cmp: (K, K) -> int,
                  ghost ta: Tree<Entry<K>, K>, ghost tb: Tree<Entry<K>, K>)
    returns (r: Entry?<K>, ghost calls: nat)
    requires Shape(ta) && Root(ta) == a
    requires Shape(tb) && Root(tb) == b
    requires Nodes(ta) !! Nodes(tb)
    modifies Nodes(ta)`parent, Nodes(ta)`left, Nodes(ta)`right
    modifies Nodes(tb)`parent, Nodes(tb)`left, Nodes(tb)`right
    ensures Merged(ta, tb, cmp, r)
    ensures r == a || r == b
    ensures r != null ==> r.parent == old(r.parent)
    ensures calls == MergeCalls(ta, tb, Less(cmp))
    decreases Size(ta) + Size(tb), 1
  {
    if a == null {
      r, calls := b, 1;
    } else if b == null {
      r, calls := a, 1;
    } else if cmp(a.key, b.key) == -1 {
      r, calls := MergeBelowFirst(a, b, cmp, ta, tb);
    } else {
      r, calls := MergeBelowSecond(a, b, cmp, ta, tb);
    }
  }

  /** Merge two heaps while a third one is left alone. */
  method MergeBeside<K>(a: Entry?<K>, b: Entry?<K>, cmp: (K, K) -> int, ghost ta: Tree<Entry<K>, K>,
                        ghost tb: Tree<Entry<K>, K>, ghost other: Tree<Entry<K>, K>)
    returns (r: Entry?<K>, ghost calls: nat)
    requires Shape(ta) && Root(ta) == a
    requires Shape(tb) && Root(tb) == b
    requires Nodes(ta) !! Nodes(tb)
    requires Shape(other) && Nodes(other) !! Nodes(ta) + Nodes(tb)
    modifies Nodes(ta)`parent, Nodes(ta)`left, Nodes(ta)`right
    modifies Nodes(tb)`parent, Nodes(tb)`left, Nodes(tb)`right
    ensures Merged(ta, tb, cmp, r)
    ensures Shape(other)
    ensures calls == MergeCalls(ta, tb, Less(cmp))
    decreases Size(ta) + Size(tb), 2
  {
    ghost var h := Snapshot(Nodes(other));
    r, calls := Merge(a, b, cmp, ta, tb);
    SameShape(other, h, Snapshot(Nodes(other)));
  }

  /** The branch of Merge in which a is strictly smaller and stays on top. */
  method MergeBelowFirst<K>(a: Entry<K>, b: Entry<K>, cmp: (K, K) -> int,
                            ghost ta: Tree<Entry<K>, K>, ghost tb: Tree<Entry<K>, K>)
    returns (r: Entry<K>, ghost calls: nat)
    requires Shape(ta) && Root(ta) == a
    requires Shape(tb) && Root(tb) == b
    requires Nodes(ta) !! Nodes(tb)
    requires cmp(a.key, b.key) == -1
    modifies Nodes(ta)`parent, Nodes(ta)`left, Nodes(ta)`right
    modifies Nodes(tb)`parent, Nodes(tb)`left, Nodes(tb)`right
    ensures Merged(ta, tb, cmp, r)
    ensures r == a && r.parent == old(r.parent)
    ensures calls == MergeCalls(ta, tb, Less(cmp))
    decreases Size(ta) + Size(tb), 0
  {
    ghost var t := Tree.Node(SkewTree.Merge(ta.right, tb, Less(cmp)), ta.elem, ta.left);
    Children(ta);
    var l;
    l, calls := MergeBeside(a.right, b, cmp, ta.right, tb, ta.left);
    SwapIn(a, l, t);
    return a, calls + 1;
  }

  /** The other branch of Merge: b stays on top, on ties too. */
  method MergeBelowSecond<K>(a: Entry<K>, b: Entry<K>, cmp: (K, K) -> int,
                             ghost ta: Tree<Entry<K>, K>, ghost tb: Tree<Entry<K>, K>)
    returns (r: Entry<K>, ghost calls: nat)
    requires Shape(ta) && Root(ta) == a
    requires Shape(tb) && Root(tb) == b
    requires Nodes(ta) !! Nodes(tb)
    requires cmp(a.key, b.key) != -1
    modifies Nodes(ta)`parent, Nodes(ta)`left, Nodes(ta)`right
    modifies Nodes(tb)`parent, Nodes(tb)`left, Nodes(tb)`right
    ensures Merged(ta, tb, cmp, r)
    ensures r == b && r.parent == old(r.parent)
    ensures calls == MergeCalls(ta, tb, Less(cmp))
    decreases Size(ta) + Size(tb), 0
  {
    ghost var t := Tree.Node(SkewTree.Merge(ta, tb.right, Less(cmp)), tb.elem, tb.left);
    Children(tb);
    var l;
    l, calls := MergeBeside(a, b.right, cmp, ta, tb.right, tb.left);
    SwapIn(b, l, t);
    return b, calls + 1;
  }

  method Insert<K>(a: Entry?<K>, b: Entry<K>, cmp: (K, K) -> int, ghost t: Tree<Entry<K>, K>)
    returns (r: Entry?<K>, ghost t': Tree<Entry<K>, K>, ghost calls: nat)
    requires IsHeap(t, a) && b !in Nodes(t)
    modifies Nodes(t)`parent, Nodes(t)`left, Nodes(t)`right, b`parent, b`left, b`right
    ensures t' == SkewTree.Insert(t, ItemOf(b), Less(cmp))
    ensures IsHeap(t', r) && Nodes(t') == Nodes(t) + {b}
    ensures ItemOf(b) == old(ItemOf(b))
    ensures calls == MergeCalls(t, Tree.Node(Leaf, ItemOf(b), Leaf), Less(cmp))
  {
    ghost var h := Snapshot(Nodes(t));
    Init(b);
    SameShape(t, h, Snapshot(Nodes(t)));
    ghost var single := Tree.Node(Leaf, ItemOf(b), Leaf);
    assert Nodes(single.left) == {} && Nodes(single) == {b};
    r, calls := Merge(a, b, cmp, t, single);
    t' := SkewTree.Merge(t, single, Less(cmp));
  }

  // ----- Removing a node -----

  /** The way from the root of a tree to one of its nodes. */
  datatype Path = Here | GoLeft(rest: Path) | GoRight(rest: Path)

  ghost predicate Leads<N, K>(p: Path, t: Tree<N, K>) {
    t.Node? && match p
               case Here => true
               case GoLeft(q) => Leads(q, t.left)
               case GoRight(q) => Leads(q, t.right)
  }

  /** The subtree at the end of the path. */
  ghost function At<K>(t: Tree<Entry<K>, K>, p: Path): (s: Tree<Entry<K>, K>)
    requires Leads(p, t)
    ensures s.Node? && Nodes(s) <= Nodes(t)
  {
    match p
    case Here => t
    case GoLeft(q) => At(t.left, q)
    case GoRight(q) => At(t.right, q)
  }

  /** The node before the end of the path. */
  ghost function Before<K>(t: Tree<Entry<K>, K>, p: Path): (n: Entry<K>)
    requires Leads(p, t) && p != Here
    ensures n in Nodes(t)
  {
    if p.rest == Here then t.elem.id
    else if p.GoLeft? then Before(t.left, p.rest) else Before(t.right, p.rest)
  }

  ghost predicate EndsLeft(p: Path)
    requires p != Here
  {
    if p.rest == Here then p.GoLeft? else EndsLeft(p.rest)
  }

  /** t with m in place of the subtree at the end of the path. */
  ghost function Graft<K>(t: Tree<Entry<K>, K>, p: Path, m: Tree<Entry<K>, K>): Tree<Entry<K>, K>
    requires Leads(p, t)
  {
    match p
    case Here => m
    case GoLeft(q) => Tree.Node(Graft(t.left, q, m), t.elem, t.right)
    case GoRight(q) => Tree.Node(t.left, t.elem, Graft(t.right, q, m))
  }

  ghost function PathTo<K>(t: Tree<Entry<K>, K>, x: Item<Entry<K>, K>): (p: Path)
    requires x in Elems(t)
    ensures Leads(p, t) && At(t, p).elem == x
  {
    if x == t.elem then Here
    else if x in Elems(t.left) then GoLeft(PathTo(t.left, x))
    else GoRight(PathTo(t.right, x))
  }

  lemma {:induction false} RemoveIsGraft<K>(t: Tree<Entry<K>, K>, x: Item<Entry<K>, K>, less: (K, K) -> bool)
    requires x in Elems(t)
    ensures var s := At(t, PathTo(t, x));
      SkewTree.Remove(t, x, less) == Graft(t, PathTo(t, x), SkewTree.Merge(s.left, s.right, less))
    ensures var s := At(t, PathTo(t, x)); RemoveCalls(t, x, less) == MergeCalls(s.left, s.right, less)
  {
    if x == t.elem {
    } else if x in Elems(t.left) {
      RemoveIsGraft(t.left, x, less);
    } else {
      RemoveIsGraft(t.right, x, less);
    }
  }

  /** The parent pointer at the end of a path leads back to the node before it. */
  lemma {:induction false} ParentLeadsBack<K>(t: Tree<Entry<K>, K>, p: Path, h: Memory<K>)
    requires ShapeIn(t, h) && Leads(p, t)
    ensures Nodes(t) <= h.Keys && ShapeIn(At(t, p), h)
    ensures p != Here ==>
              var (b, n) := (At(t, p).elem.id, Before(t, p));
              h[b].parent == n && n !in Nodes(At(t, p)) && (h[n].left == b <==> EndsLeft(p))
  {
    match p
    case Here =>
      ShapeDomain(t, h);
    case GoLeft(q) =>
      ShapeDomain(t.right, h);
      ParentLeadsBack(t.left, q, h);
    case GoRight(q) =>
      ShapeDomain(t.left, h);
      ParentLeadsBack(t.right, q, h);
  }

  lemma {:induction false} GraftNodes<K>(t: Tree<Entry<K>, K>, p: Path, m: Tree<Entry<K>, K>, b: Entry<K>, h: Memory<K>)
    requires ShapeIn(t, h) && Leads(p, t) && At(t, p).elem.id == b && Nodes(m) == Nodes(At(t, p)) - {b}
    ensures Nodes(Graft(t, p, m)) == Nodes(t) - {b}
  {
    match p
    case Here =>
    case GoLeft(q) =>
      GraftNodes(t.left, q, m, b, h);
      assert b in Nodes(At(t.left, q));
    case GoRight(q) =>
      GraftNodes(t.right, q, m, b, h);
      assert b in Nodes(At(t.right, q));
  }

  /** Redirecting the one child pointer at the end of the path to m, whose nodes are those below
      the node b removed there, makes the pointers spell out the graft. */
  lemma {:induction false} GraftShape<K>
    (t: Tree<Entry<K>, K>, p: Path, m: Tree<Entry<K>, K>, b: Entry<K>, h: Memory<K>, h': Memory<K>)
    requires ShapeIn(t, h) && h.Keys == h'.Keys && Leads(p, t) && p != Here && At(t, p).elem.id == b
    requires ShapeIn(m, h') && Nodes(m) == Nodes(At(t, p)) - {b}
    requires m.Node? ==> h'[m.elem.id].parent == Before(t, p)
    requires var n := Before(t, p);
      n in h && h'[n] == if EndsLeft(p) then h[n].(left := Root(m)) else h[n].(right := Root(m))
    requires forall n :: n in Nodes(t) && n !in Nodes(At(t, p)) && n in h && n != Before(t, p) ==> h'[n] == h[n]
    ensures ShapeIn(Graft(t, p, m), h') && Root(Graft(t, p, m)) == Root(t)
    ensures h'[t.elem.id].parent == h[t.elem.id].parent
  {
    match p
    case GoLeft(q) =>
      SameShape(t.right, h, h');
      GraftNodes(t.left, q, m, b, h);
      if q != Here {
        GraftShape(t.left, q, m, b, h, h');
      }
    case GoRight(q) =>
      SameShape(t.left, h, h');
      GraftNodes(t.right, q, m, b, h);
      if q != Here {
        GraftShape(t.right, q, m, b, h, h');
      }
  }

  /** The path to b and what the links of b lead to. */
  lemma Locate<K>(t: Tree<Entry<K>, K>, b: Entry<K>) returns (path: Path)
    requires Shape(t) && b in Nodes(t)
    ensures ItemOf(b) in Elems(t) && path == PathTo(t, ItemOf(b)) && At(t, path).elem == ItemOf(b)
    ensures var s := At(t, path);
            Shape(s.left) && Shape(s.right) && Root(s.left) == b.left && Root(s.right) == b.right
            && b !in Nodes(s.left) && b !in Nodes(s.right) && Nodes(s.left) !! Nodes(s.right)
    ensures path != Here ==>
              b.parent == Before(t, path) && b.parent !in Nodes(At(t, path))
              && (b.parent.left == b <==> EndsLeft(path))
  {
    ItemsAreNodes(t, b);
    path := PathTo(t, ItemOf(b));
    var (s, h) := (At(t, path), Snapshot(Nodes(t)));
    ParentLeadsBack(t, path, h);
    ShapeAt(s, h);
    ChildShapes(s, h);
  }

  /** Merge two heaps that lie among the entries of all: the rest of these keep their links. */
  method MergeWithin<K>(a: Entry?<K>, b: Entry?<K>, cmp: (K, K) -> int, ghost ta: Tree<Entry<K>, K>,
                        ghost tb: Tree<Entry<K>, K>, ghost all: set<Entry<K>>)
    returns (r: Entry?<K>, ghost calls: nat)
    requires Shape(ta) && Root(ta) == a
    requires Shape(tb) && Root(tb) == b
    requires Nodes(ta) !! Nodes(tb)
    modifies Nodes(ta)`parent, Nodes(ta)`left, Nodes(ta)`right
    modifies Nodes(tb)`parent, Nodes(tb)`left, Nodes(tb)`right
    ensures Merged(ta, tb, cmp, r)
    ensures calls == MergeCalls(ta, tb, Less(cmp))
    ensures forall n :: n in all && n !in Nodes(ta) + Nodes(tb) ==> Snapshot(all)[n] == old(Snapshot(all))[n]
  {
    r, calls := Merge(a, b, cmp, ta, tb);
  }

  /** What is to take the place of b, and the two subtrees that it is merged from. */
  lemma Remaining<K>(t: Tree<Entry<K>, K>, b: Entry<K>, path: Path, less: (K, K) -> bool)
    returns (m: Tree<Entry<K>, K>)
    requires Shape(t) && b in Nodes(t) && ItemOf(b) in Elems(t) && path == PathTo(t, ItemOf(b))
    ensures var s := At(t, path);
      && Shape(s.left) && Shape(s.right) && Root(s.left) == b.left && Root(s.right) == b.right
      && Nodes(s.left) !! Nodes(s.right) && Nodes(s.left) + Nodes(s.right) == Nodes(s) - {b}
      && m == SkewTree.Merge(s.left, s.right, less)
      && RemoveCalls(t, ItemOf(b), less) == MergeCalls(s.left, s.right, less)
    ensures Graft(t, path, m) == SkewTree.Remove(t, ItemOf(b), less)
  {
    var s := At(t, path);
    var _ := Locate(t, b);
    m := SkewTree.Merge(s.left, s.right, less);
    RemoveIsGraft(t, ItemOf(b), less);
  }

  /** Merge the two subtrees below b. Nothing else in the heap changes. */
  method MergeChildren<K>(b: Entry<K>, cmp: (K, K) -> int, ghost t: Tree<Entry<K>, K>, ghost path: Path)
    returns (rep: Entry?<K>, ghost m: Tree<Entry<K>, K>, ghost calls: nat)
    requires Shape(t) && b in Nodes(t)
    requires ItemOf(b) in Elems(t) && path == PathTo(t, ItemOf(b))
    modifies Nodes(t)`parent, Nodes(t)`left, Nodes(t)`right
    ensures old(ItemOf(b)) in Elems(t) && Leads(path, t)
    ensures Shape(m) && Root(m) == rep && Nodes(m) == Nodes(At(t, path)) - {b}
    ensures Graft(t, path, m) == SkewTree.Remove(t, old(ItemOf(b)), Less(cmp))
    ensures calls == RemoveCalls(t, old(ItemOf(b)), Less(cmp))
    ensures forall n :: n in Nodes(t) && n !in Nodes(m) ==> Snapshot(Nodes(t))[n] == old(Snapshot(Nodes(t)))[n]
  {
    ghost var s := At(t, path);
    m := Remaining(t, b, path, Less(cmp));
    rep, calls := MergeWithin(b.left, b.right, cmp, s.left, s.right, Nodes(t));
  }

  /** The links after m took the place of the subtree of b below p, if there is a p. */
  lemma SpliceShape<K>(t: Tree<Entry<K>, K>, path: Path, m: Tree<Entry<K>, K>, b: Entry<K>,
                       h: Memory<K>, h0: Memory<K>, h': Memory<K>)
    requires ShapeIn(t, h) && Leads(path, t) && h.Keys == h0.Keys == h'.Keys == Nodes(t)
    requires At(t, path).elem.id == b && Nodes(m) == Nodes(At(t, path)) - {b} && ShapeIn(m, h0)
    requires forall n :: n in Nodes(t) && n !in Nodes(m) ==> h0[n] == h[n]
    requires path != Here ==> Before(t, path) !in Nodes(At(t, path))
    requires forall n :: n in Nodes(t) ==>
      h'[n] == if n == Root(m) then h0[n].(parent := if path == Here then null else Before(t, path))
               else if path == Here || n != Before(t, path) then h0[n]
               else if EndsLeft(path) then h0[n].(left := Root(m)) else h0[n].(right := Root(m))
    ensures ShapeIn(Graft(t, path, m), h') && Nodes(Graft(t, path, m)) == Nodes(t) - {b}
    ensures path != Here ==> Root(Graft(t, path, m)) == Root(t) && h'[t.elem.id].parent == h[t.elem.id].parent
  {
    GraftNodes(t, path, m, b, h);
    RootParentFree(m, h0, h');
    if path != Here {
      GraftShape(t, path, m, b, h, h');
    }
  }

  /** Hang rep below p in the place of b, if there is a p. */
  method Relink<K>(a: Entry<K>, b: Entry<K>, p: Entry?<K>, rep: Entry?<K>, ghost all: set<Entry<K>>)
    returns (r: Entry?<K>)
    requires p != null ==> p != rep
    modifies (if rep == null then {} else {rep})`parent
    modifies (if p == null then {} else {p})`left, (if p == null then {} else {p})`right
    ensures r == if p != null then a else rep
    ensures forall n :: n in all ==>
              var links := old(Snapshot(all))[n];
              Snapshot(all)[n] ==
              if n == rep then links.(parent := p)
              else if n != p then links
              else if links.left == b then links.(left := rep) else links.(right := rep)
  {
    if rep != null {
      rep.parent := p;
    }
    if p != null {
      if p.left == b {
        p.left := rep;
      } else {
        p.right := rep;
      }
      r := a;
    } else {
      r := rep;
    }
  }

  /** Put rep, the root of m, in the place of b. Everything outside m is as it was in h. */
  method Splice<K>(a: Entry<K>, b: Entry<K>, p: Entry?<K>, rep: Entry?<K>,
                   ghost t: Tree<Entry<K>, K>, ghost path: Path, ghost m: Tree<Entry<K>, K>,
                   ghost h: Memory<K>)
    returns (r: Entry?<K>)
    requires ShapeIn(t, h) && Leads(path, t) && h.Keys == Nodes(t) && Root(t) == a && h[a].parent == null
    requires At(t, path).elem.id == b && Nodes(m) == Nodes(At(t, path)) - {b}
    requires Shape(m) && Root(m) == rep
    requires if path == Here then p == null else
               p == Before(t, path) && p !in Nodes(At(t, path)) && (p.left == b <==> EndsLeft(path))
    requires forall n :: n in Nodes(t) && n !in Nodes(m) ==> Snapshot(Nodes(t))[n] == h[n]
    modifies Nodes(m)`parent, (if p == null then {} else {p})`left, (if p == null then {} else {p})`right
    ensures IsHeap(Graft(t, path, m), r)
    ensures Nodes(Graft(t, path, m)) == Nodes(t) - {b}
  {
    ghost var h0 := Snapshot(Nodes(t));
    ShapeAt(m, h0);
    r := Relink(a, b, p, rep, Nodes(t));
    ghost var h' := Snapshot(Nodes(t));
    SpliceShape(t, path, m, b, h, h0, h');
    ShapeAt(Graft(t, path, m), h');
  }

  /** Remove any entry of the heap. Its own three links are left as they were. */
  method Remove<K>(a: Entry<K>, b: Entry<K>, cmp: (K, K) -> int, ghost t: Tree<Entry<K>, K>)
    returns (r: Entry?<K>, ghost t': Tree<Entry<K>, K>, ghost calls: nat)
    requires IsHeap(t, a) && b in Nodes(t)
    modifies Nodes(t)`parent, Nodes(t)`left, Nodes(t)`right
    ensures old(ItemOf(b)) in Elems(t)
    ensures t' == SkewTree.Remove(t, old(ItemOf(b)), Less(cmp))
    ensures IsHeap(t', r) && Nodes(t') == Nodes(t) - {b}
    ensures b.parent == old(b.parent) && b.left == old(b.left) && b.right == old(b.right)
    ensures calls == RemoveCalls(t, old(ItemOf(b)), Less(cmp))
  {
    ghost var path := Locate(t, b);
    ghost var h := Snapshot(Nodes(t));
    var p := b.parent;
    var rep;
    ghost var m;
    rep, m, calls := MergeChildren(b, cmp, t, path);
    r := Splice(a, b, p, rep, t, path, m, h);
    t' := Graft(t, path, m);
  }

  // ----- Runs of operations -----

  ghost function Touched<K>(cmds: seq<Op<Entry<K>, K>>): set<Entry<K>> {
    set c | c in cmds :: c.elem.id
  }

  /** What makes up the commands of a client of the heap: an entry is added only while it is not
      in the heap. Its key may be another one each time. */
  ghost predicate AddsFresh<K>(t: Tree<Entry<K>, K>, cmds: seq<Op<Entry<K>, K>>, less: (K, K) -> bool)
    requires IsRun(t, cmds, less)
    decreases |cmds|
  {
    cmds == [] ||
    ((cmds[0].Add? ==> cmds[0].elem.id !in Nodes(t)) &&
     AddsFresh(Apply(t, cmds[0], less), cmds[1..], less))
  }

  /** The items of a heap are its entries with the keys that these hold. */
  lemma {:induction false} ItemsKeepKeys<K>(t: Tree<Entry<K>, K>, x: Item<Entry<K>, K>)
    requires Shape(t) && x in Elems(t)
    ensures x.id in Nodes(t) && x == ItemOf(x.id)
  {
    ChildShapes(t, Snapshot(Nodes(t)));
    if x in Elems(t.left) {
      ItemsKeepKeys(t.left, x);
    } else if x in Elems(t.right) {
      ItemsKeepKeys(t.right, x);
    }
  }

  /** Give the entry a key and insert it, or remove it. */
  method PerformOne<K>(root: Entry?<K>, op: Op<Entry<K>, K>, cmp: (K, K) -> int, ghost t: Tree<Entry<K>, K>)
    returns (r: Entry?<K>, ghost t': Tree<Entry<K>, K>, ghost calls: nat)
    requires IsHeap(t, root) && Enabled(t, op) && (op.Add? ==> op.elem.id !in Nodes(t))
    modifies (Nodes(t) + {op.elem.id})`parent, (Nodes(t) + {op.elem.id})`left, (Nodes(t) + {op.elem.id})`right
    modifies op.elem.id`key
    ensures t' == Apply(t, op, Less(cmp)) && IsHeap(t', r) && Nodes(t') <= Nodes(t) + {op.elem.id}
    ensures calls == Calls(t, op, Less(cmp))
  {
    match op
    case Add(x) =>
      x.id.key := x.key;
      r, t', calls := Insert(root, x.id, cmp, t);
    case Drop(x) =>
      ItemsKeepKeys(t, x);
      r, t', calls := Remove(root, x.id, cmp, t);
  }

  /** A client that inserts and removes entries one after the other. */
  method Perform<K>(root: Entry?<K>, cmds: seq<Op<Entry<K>, K>>, cmp: (K, K) -> int,
                    ghost t: Tree<Entry<K>, K>)
    returns (r: Entry?<K>, ghost calls: nat)
    requires IsHeap(t, root) && IsRun(t, cmds, Less(cmp)) && AddsFresh(t, cmds, Less(cmp))
    modifies (Nodes(t) + Touched(cmds))`parent, (Nodes(t) + Touched(cmds))`left, (Nodes(t) + Touched(cmds))`right
    modifies Touched(cmds)`key
    ensures IsHeap(Final(t, cmds, Less(cmp)), r)
    ensures calls == TotalCalls(t, cmds, Less(cmp))
    decreases |cmds|
  {
    if cmds == [] {
      return root, 0;
    }
    var next;
    ghost var t', here;
    assert cmds[0] in cmds;
    next, t', here := PerformOne(root, cmds[0], cmp, t);
    r, calls := Perform(next, cmds[1..], cmp, t');
    calls := here + calls;
  }

  /** Any run from the empty heap, in which entries may come back with other keys: the returned
      root is a minimum of what is present, by the keys that the entries now hold, and m operations
      on at most n entries at a time make at most 4 m (1 + lg n) calls of merge. */
  method RunFromEmpty<K(!new)>(cmds: seq<Op<Entry<K>, K>>, cmp: (K, K) -> int, ghost n: nat)
    returns (r: Entry?<K>, ghost calls: nat)
    requires StrictWeakOrder(Less(cmp))
    requires IsRun(Leaf, cmds, Less(cmp)) && AddsFresh(Leaf, cmds, Less(cmp)) && Within(Leaf, cmds, Less(cmp), n)
    modifies Touched(cmds)
    ensures r == null <==> Contents({}, cmds) == {}
    ensures r != null ==> ItemOf(r) in Contents({}, cmds)
    ensures forall x :: x in Contents({}, cmds) ==>
              r != null && x == ItemOf(x.id) && cmp(x.key, r.key) != -1
    ensures calls <= |cmds| * (4 * (1 + Lg(n)))
  {
    assert Nodes<K>(Leaf) == {};
    r, calls := Perform(null, cmds, cmp, Leaf);
    RunRefinesPriorityQueue(cmds, Less(cmp));
    AmortisedBound(cmds, Less(cmp), n);
    ghost var t := Final(Leaf, cmds, Less(cmp));
    if r != null {
      ItemsAreNodes(t, r);
    }
    forall x | x in Contents({}, cmds) ensures x == ItemOf(x.id) {
      ItemsKeepKeys(t, x);
    }
  }

  ghost function Ids<K>(s: seq<Item<Entry<K>, K>>): (r: seq<Entry<K>>)
    ensures |r| == |s| && forall i :: 0 <= i < |s| ==> r[i] == s[i].id
  {
    if s == [] then [] else [s[0].id] + Ids(s[1..])
  }

  lemma {:induction false} DrainIds<K>(t: Tree<Entry<K>, K>, less: (K, K) -> bool, x: Item<Entry<K>, K>)
    requires x in Drain(t, less)
    ensures x in Elems(t)
    decreases Size(t)
  {
    RemoveSize(t, t.elem, less);
    if x != t.elem {
      RemoveElems(t, t.elem, less);
      DrainIds(SkewTree.Remove(t, t.elem, less), less, x);
    }
  }

  /** The entries of a heap hold the keys of the drained items. */
  ghost predicate HoldKeys<K>(s: seq<Item<Entry<K>, K>>)
    reads Ids(s)
  {
    forall i :: 0 <= i < |s| ==> s[i].id.key == s[i].key
  }

  lemma DrainKeys<K>(t: Tree<Entry<K>, K>, less: (K, K) -> bool)
    requires Shape(t)
    ensures HoldKeys(Drain(t, less))
  {
    var s := Drain(t, less);
    forall i | 0 <= i < |s| ensures s[i].id.key == s[i].key {
      DrainIds(t, less, s[i]);
      ItemsKeepKeys(t, s[i]);
    }
  }

  ghost predicate SortedByKey<K>(s: seq<Entry<K>>, less: (K, K) -> bool)
    reads s
  {
    forall i, j :: 0 <= i < j < |s| ==> !less(s[j].key, s[i].key)
  }

  lemma SortedEntries<K>(s: seq<Item<Entry<K>, K>>, less: (K, K) -> bool)
    requires Sorted(s, less) && HoldKeys(s)
    ensures SortedByKey(Ids(s), less)
  {
  }

  /** A client that takes the root off until the heap is empty: it gets the entries in the order
      of the drained heap, each of them once. No key changes. */
  method TakeEach<K>(root: Entry?<K>, cmp: (K, K) -> int, ghost t: Tree<Entry<K>, K>,
                     ghost s: seq<Item<Entry<K>, K>>)
    returns (out: seq<Entry<K>>)
    requires IsHeap(t, root)
    modifies Nodes(t)`parent, Nodes(t)`left, Nodes(t)`right
    ensures out == Ids(Drain(t, Less(cmp)))
    ensures old(HoldKeys(s)) ==> HoldKeys(s)
    ensures multiset(out) == multiset(Nodes(t))
    decreases Size(t)
  {
    if root == null {
      return [];
    }
    var first: Entry<K> := root;
    var next;
    ghost var t', calls;
    RemoveSize(t, t.elem, Less(cmp));
    next, t', calls := Remove(first, first, cmp, t);
    var rest := TakeEach(next, cmp, t', s);
    out := [first] + rest;
    FirstAndOthers(first, rest, Nodes(t), Nodes(t'));
  }

  lemma FirstAndOthers<T>(x: T, rest: seq<T>, all: set<T>, others: set<T>)
    requires x in all && others == all - {x} && multiset(rest) == multiset(others)
    ensures multiset([x] + rest) == multiset(all)
  {
    assert multiset(all) == multiset{x} + multiset(others);
  }

  /** From an ordered heap that client gets all entries sorted by their keys. */
  method TakeAll<K(!new)>(root: Entry?<K>, cmp: (K, K) -> int, ghost t: Tree<Entry<K>, K>)
    returns (out: seq<Entry<K>>)
    requires IsHeap(t, root) && StrictWeakOrder(Less(cmp)) && HeapOrdered(t, Less(cmp))
    modifies Nodes(t)`parent, Nodes(t)`left, Nodes(t)`right
    ensures SortedByKey(out, Less(cmp))
    ensures multiset(out) == multiset(Nodes(t))
  {
    ghost var s := Drain(t, Less(cmp));
    DrainSorts(t, Less(cmp));
    DrainKeys(t, Less(cmp));
    out := TakeEach(root, cmp, t, s);
    SortedEntries(s, Less(cmp));
  }
}
