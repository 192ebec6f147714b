/** The memory and string functions: moving bytes within one memory, and comparing. */
module CString {
  import opened Numbers

  type byte = x: int | 0 <= x < 256

  // ----- memmove and memcpy -----

  /** The memory m after the n bytes at src have been moved to dst. */
  ghost function Moved(m: seq<byte>, dst: nat, src: nat, n: nat): (r: seq<byte>)
    requires dst + n <= |m| && src + n <= |m|
  {
    m[..dst] + m[src..src + n] + m[dst + n..]
  }

  /** dst lies inside the source, after its start. */
  predicate Ahead(dst: nat, src: nat, n: nat) {
    src < dst && src + n > dst
  }

  /** Which old byte a front-to-back copy leaves at place k of the destination: when dst is
      ahead, the first dst - src bytes of the source repeat. */
  ghost function Origin(dst: nat, src: nat, n: nat, k: nat): (o: nat)
    requires dst <= k < dst + n
    ensures src <= o < src + n
  {
    if Ahead(dst, src, n) then src + (k - dst) % (dst - src) else src + (k - dst)
  }

  /** A byte that was itself copied earlier comes from the same place as that one. */
  lemma OriginStep(dst: nat, src: nat, n: nat, k: nat)
    requires Ahead(dst, src, n) && dst <= k < dst + n
    ensures if k - dst < dst - src then Origin(dst, src, n, k) == src + (k - dst)
            else Origin(dst, src, n, k) == Origin(dst, src, n, src + (k - dst))
  {
    var d := dst - src;
    if k - dst < d {
      MulMod(0, d, k - dst);
    } else {
      ModShift(k - dst - d, 1, d);
    }
  }

  /** What a front-to-back copy leaves in the memory m. */
  ghost function Copied(m: seq<byte>, dst: nat, src: nat, n: nat): (r: seq<byte>)
    requires dst + n <= |m| && src + n <= |m|
    ensures |r| == |m|
    ensures forall k :: 0 <= k < |m| ==> r[k] == if dst <= k < dst + n then m[Origin(dst, src, n, k)] else m[k]
  {
    seq(|m|, k requires 0 <= k < |m| => if dst <= k < dst + n then m[Origin(dst, src, n, k)] else m[k])
  }

  method Memcpy(mem: array<byte>, dst: nat, src: nat, n: nat) returns (r: nat)
    requires dst + n <= mem.Length && src + n <= mem.Length
    modifies mem
    ensures r == dst && mem[..] == Copied(old(mem[..]), dst, src, n)
  {
    ghost var m := mem[..];
    var s, d := src, dst;
    var left := n;
    while left > 0
      invariant 0 <= left <= n && s == src + (n - left) && d == dst + (n - left)
      invariant forall k :: dst <= k < d ==> mem[k] == m[Origin(dst, src, n, k)]
      invariant forall k :: 0 <= k < mem.Length && !(dst <= k < d) ==> mem[k] == m[k]
    {
      left := left - 1;
      if Ahead(dst, src, n) {
        OriginStep(dst, src, n, d);
      }
      mem[d] := mem[s];
      d, s := d + 1, s + 1;
    }
    r := dst;
  }

  lemma MovedIs(r: seq<byte>, m: seq<byte>, dst: nat, src: nat, n: nat)
    requires dst + n <= |m| == |r| && src + n <= |m|
    requires forall k :: dst <= k < dst + n ==> r[k] == m[src + (k - dst)]
    requires forall k :: 0 <= k < |r| && !(dst <= k < dst + n) ==> r[k] == m[k]
    ensures r == Moved(m, dst, src, n)
  {
    assert |Moved(m, dst, src, n)| == |r|;
  }

  method Memmove(mem: array<byte>, dst: nat, src: nat, n: nat) returns (r: nat)
    requires dst + n <= mem.Length && src + n <= mem.Length
    modifies mem
    ensures r == dst && mem[..] == Moved(old(mem[..]), dst, src, n)
  {
    if src < dst && src + n > dst {
      MoveBackwards(mem, dst, src, n);
    } else {
      MoveForwards(mem, dst, src, n);
    }
    r := dst;
  }

  method MoveBackwards(mem: array<byte>, dst: nat, src: nat, n: nat)
    requires src <= dst && dst + n <= mem.Length
    modifies mem
    ensures mem[..] == Moved(old(mem[..]), dst, src, n)
  {
    ghost var m := mem[..];
    var s, d := src + n, dst + n;
    var left := n;
    while left > 0
      invariant 0 <= left <= n && s == src + left && d == dst + left
      invariant forall k :: d <= k < dst + n ==> mem[k] == m[src + (k - dst)]
      invariant forall k :: 0 <= k < mem.Length && !(d <= k < dst + n) ==> mem[k] == m[k]
    {
      left := left - 1;
      d, s := d - 1, s - 1;
      mem[d] := mem[s];
    }
    MovedIs(mem[..], m, dst, src, n);
  }

  method MoveForwards(mem: array<byte>, dst: nat, src: nat, n: nat)
    requires (dst <= src || src + n <= dst) && dst + n <= mem.Length && src + n <= mem.Length
    modifies mem
    ensures mem[..] == Moved(old(mem[..]), dst, src, n)
  {
    ghost var m := mem[..];
    var s, d := src, dst;
    var left := n;
    while left > 0
      invariant 0 <= left <= n && s == src + (n - left) && d == dst + (n - left)
      invariant forall k :: dst <= k < d ==> mem[k] == m[src + (k - dst)]
      invariant forall k :: 0 <= k < mem.Length && !(dst <= k < d) ==> mem[k] == m[k]
    {
      left := left - 1;
      mem[d] := mem[s];
      d, s := d + 1, s + 1;
    }
    MovedIs(mem[..], m, dst, src, n);
  }

  lemma {:induction false} Periodic(m: seq<byte>, dst: nat, src: nat, n: nat, k: nat)
    requires dst + n <= |m| && src + n <= |m| && Ahead(dst, src, n) && dst <= k < dst + n
    requires forall j :: dst <= j < src + n ==> m[j] == m[j - (dst - src)]
    ensures m[Origin(dst, src, n, k)] == m[k - (dst - src)]
  {
    OriginStep(dst, src, n, k);
    if k - dst >= dst - src {
      Periodic(m, dst, src, n, k - (dst - src));
    }
  }

  lemma PeriodicExactly(m: seq<byte>, dst: nat, src: nat, n: nat)
    requires dst + n <= |m| && src + n <= |m| && Ahead(dst, src, n)
    ensures (forall k :: dst <= k < dst + n ==> m[Origin(dst, src, n, k)] == m[src + (k - dst)])
       <==> (forall k :: dst <= k < src + n ==> m[k] == m[k - (dst - src)])
  {
    var d := dst - src;
    if forall k :: dst <= k < dst + n ==> m[Origin(dst, src, n, k)] == m[src + (k - dst)] {
      forall k | dst <= k < src + n ensures m[k] == m[k - d] {
        OriginStep(dst, src, n, k + d);
        assert m[Origin(dst, src, n, k)] == m[src + (k - dst)];
        assert m[Origin(dst, src, n, k + d)] == m[src + (k + d - dst)];
      }
    }
    if forall k :: dst <= k < src + n ==> m[k] == m[k - d] {
      forall k | dst <= k < dst + n ensures m[Origin(dst, src, n, k)] == m[src + (k - dst)] {
        Periodic(m, dst, src, n, k);
      }
    }
  }

  lemma CopiedIsMoved(m: seq<byte>, dst: nat, src: nat, n: nat)
    requires dst + n <= |m| && src + n <= |m|
    ensures Copied(m, dst, src, n) == Moved(m, dst, src, n)
       <==> forall k :: dst <= k < dst + n ==> m[Origin(dst, src, n, k)] == m[src + (k - dst)]
  {
    var (c, r) := (Copied(m, dst, src, n), Moved(m, dst, src, n));
    assert forall k :: dst <= k < dst + n ==> r[k] == m[src + (k - dst)];
    assert forall k :: dst <= k < dst + n ==> c[k] == m[Origin(dst, src, n, k)];
    if forall k :: dst <= k < dst + n ==> c[k] == r[k] {
      MovedIs(c, m, dst, src, n);
    }
  }

  /** On given contents the plain copy agrees with the move exactly when the source repeats with
      the period dst - src. */
  lemma CopyAgrees(m: seq<byte>, dst: nat, src: nat, n: nat)
    requires dst + n <= |m| && src + n <= |m| && Ahead(dst, src, n)
    ensures Copied(m, dst, src, n) == Moved(m, dst, src, n) <==>
            forall k :: dst <= k < src + n ==> m[k] == m[k - (dst - src)]
  {
    CopiedIsMoved(m, dst, src, n);
    PeriodicExactly(m, dst, src, n);
  }

  lemma ForwardSafe(m: seq<byte>, dst: nat, src: nat, n: nat)
    requires dst + n <= |m| && src + n <= |m| && !Ahead(dst, src, n)
    ensures Copied(m, dst, src, n) == Moved(m, dst, src, n)
  {
    CopiedIsMoved(m, dst, src, n);
  }

  /** A memory that the plain copy gets wrong: one byte marks the start of the destination. */
  lemma ForwardUnsafe(size: nat, dst: nat, src: nat, n: nat) returns (m: seq<byte>)
    requires dst + n <= size && src + n <= size && Ahead(dst, src, n)
    ensures |m| == size && Copied(m, dst, src, n) != Moved(m, dst, src, n)
  {
    m := seq(size, k => if k == dst then 1 else 0);
    CopyAgrees(m, dst, src, n);
    assert m[dst] != m[dst - (dst - src)];
  }

  /** The plain copy is right for all contents exactly when memmove takes the forward branch. */
  lemma ForwardExactlyWhenSafe(size: nat, dst: nat, src: nat, n: nat)
    requires dst + n <= size && src + n <= size
    ensures (forall m: seq<byte> :: |m| == size ==> Copied(m, dst, src, n) == Moved(m, dst, src, n))
            <==> !Ahead(dst, src, n)
  {
    if Ahead(dst, src, n) {
      var m := ForwardUnsafe(size, dst, src, n);
      assert |m| == size;
    } else {
      forall m: seq<byte> | |m| == size ensures Copied(m, dst, src, n) == Moved(m, dst, src, n) {
        ForwardSafe(m, dst, src, n);
      }
    }
  }

  // ----- Strings -----

  /** The string at a pointer: what comes before the first NUL, or all of it when there is none. */
  ghost function Str(s: seq<byte>): (r: seq<byte>)
    ensures |r| <= |s| && r == s[..|r|] && 0 !in r
    ensures |r| < |s| ==> s[|r|] == 0
    decreases |s|
  {
    if s == [] || s[0] == 0 then [] else [s[0]] + Str(s[1..])
  }

  ghost function Take(s: seq<byte>, n: nat): seq<byte> {
    if n <= |s| then s[..n] else s
  }

  /** The pointer may be read up to a NUL, or for n bytes. */
  predicate Readable(s: seq<byte>, n: nat) {
    n <= |s| || 0 in s
  }

  lemma {:induction false} StrUpTo(s: seq<byte>, k: nat)
    requires k <= |s| && 0 !in s[..k]
    ensures k <= |Str(s)|
    ensures k < |s| ==> (s[k] == 0 <==> |Str(s)| == k)
    ensures 0 in s ==> |Str(s)| < |s|
    decreases |s|
  {
    if k > 0 {
      assert s[0] == s[..k][0];
      assert s[1..][..k - 1] == s[..k][1..];
      StrUpTo(s[1..], k - 1);
      assert 0 in s ==> 0 in s[1..];
    } else if s != [] && s[0] != 0 {
      StrUpTo(s[1..], 0);
      assert 0 in s ==> 0 in s[1..];
    }
  }

  method Strnlen(s: seq<byte>, len: nat) returns (cnt: nat)
    requires Readable(s, len)
    ensures cnt == |Take(Str(s), len)|
  {
    cnt := 0;
    StrUpTo(s, 0);
    while cnt < len && s[cnt] != 0
      invariant cnt <= len && cnt <= |Str(s)| && (cnt < len ==> cnt < |s|)
    {
      StrUpTo(s, cnt);
      cnt := cnt + 1;
    }
    if cnt < len {
      StrUpTo(s, cnt);
    }
  }

  /** The byte of the old memory m that a front-to-back copy brings to place k. */
  ghost function Fed(m: seq<byte>, dst: nat, src: nat, len: nat, k: nat): byte
    requires dst <= k < dst + len
  {
    var o := Origin(dst, src, len, k);
    if o < |m| then m[o] else 0
  }

  /** The copy brings its first NUL to place e, or none at all when e is the end. */
  ghost predicate Fetched(m: seq<byte>, dst: nat, src: nat, len: nat, e: nat) {
    && dst <= e <= dst + len
    && (forall k :: dst <= k < e ==> Fed(m, dst, src, len, k) != 0)
    && (e < dst + len ==> Fed(m, dst, src, len, e) == 0)
  }

  /** The memory when the copy has come to place p: the string up to e, NULs from there to p, and
      what was there before in all other places. */
  ghost predicate Filled(m: seq<byte>, now: seq<byte>, dst: nat, src: nat, len: nat, e: nat, p: nat) {
    && dst <= e <= p <= dst + len <= |m| == |now|
    && (forall k :: dst <= k < e ==> now[k] == Fed(m, dst, src, len, k) != 0)
    && (forall k :: e <= k < p ==> now[k] == 0)
    && (forall k :: 0 <= k < |m| && !(dst <= k < p) ==> now[k] == m[k])
    && (e < p ==> Fed(m, dst, src, len, e) == 0)
  }

  lemma FedInside(m: seq<byte>, dst: nat, src: nat, len: nat, e: nat)
    requires dst <= e < dst + len <= |m| && src <= |m| && Readable(m[src..], len)
    requires forall k :: dst <= k < e ==> Fed(m, dst, src, len, k) != 0
    ensures src + (e - dst) < |m|
  {
    if !Ahead(dst, src, len) && 0 in m[src..] {
      var j :| 0 <= j < |m| - src && m[src..][j] == 0;
      assert j < len ==> Fed(m, dst, src, len, dst + j) == 0;
    }
  }

  /** Reading where the string goes on, also when that place has been overwritten. */
  lemma NextByte(m: seq<byte>, now: seq<byte>, dst: nat, src: nat, len: nat, e: nat, p: nat)
    requires Filled(m, now, dst, src, len, e, p) && p < dst + len && src + (e - dst) < |m|
    ensures now[src + (e - dst)] == if e < p then 0 else Fed(m, dst, src, len, p)
  {
    if Ahead(dst, src, len) {
      OriginStep(dst, src, len, e);
    }
  }

  lemma FilledStep(m: seq<byte>, now: seq<byte>, now': seq<byte>, dst: nat, src: nat, len: nat, e: nat, p: nat)
    requires Filled(m, now, dst, src, len, e, p) && p < dst + len && |now'| == |now|
    requires now'[p] == if e < p then 0 else Fed(m, dst, src, len, p)
    requires forall k :: 0 <= k < |now| && k != p ==> now'[k] == now[k]
    ensures Filled(m, now', dst, src, len, if now'[p] != 0 then e + 1 else e, p + 1)
  {
  }

  /** Copy at most len bytes of a string and fill up with NULs; no NUL is added when the string
      has len bytes or more. Both lie in one memory and may overlap. The string ends at place e. */
  method Strncpy(mem: array<byte>, dst: nat, src: nat, len: nat) returns (r: nat, ghost e: nat)
    requires dst + len <= mem.Length && src <= mem.Length && Readable(mem[src..], len)
    modifies mem
    ensures r == dst
    ensures Fetched(old(mem[..]), dst, src, len, e)
    ensures Filled(old(mem[..]), mem[..], dst, src, len, e, dst + len)
  {
    ghost var m := mem[..];
    assert m[src..] == mem[src..];
    var p, from, left := dst, src, len;
    e := dst;
    while left > 0
      invariant 0 <= left <= len && p == dst + (len - left) && from == src + (e - dst)
      invariant Filled(m, mem[..], dst, src, len, e, p)
      decreases left
    {
      ghost var now := mem[..];
      FedInside(m, dst, src, len, e);
      NextByte(m, now, dst, src, len, e, p);
      mem[p] := mem[from];
      FilledStep(m, now, mem[..], dst, src, len, e, p);
      if mem[p] != 0 {
        from, e := from + 1, e + 1;
      }
      p, left := p + 1, left - 1;
    }
    r := dst;
  }

  /** The length of the string at src, cut to len. */
  ghost function Wanted(m: seq<byte>, src: nat, len: nat): nat
    requires src <= |m|
  {
    |Take(Str(m[src..]), len)|
  }

  /** The copy has brought just that string. */
  ghost predicate GotString(m: seq<byte>, dst: nat, src: nat, len: nat, e: nat) {
    && src <= |m| && e == dst + Wanted(m, src, len) <= dst + len
    && forall k :: dst <= k < e ==> Fed(m, dst, src, len, k) == m[src + (k - dst)]
  }

  /** The bytes of that string, and the NUL behind it. */
  lemma StringAt(m: seq<byte>, src: nat, len: nat, i: nat)
    requires src <= |m| && Readable(m[src..], len) && i <= Wanted(m, src, len)
    ensures i < Wanted(m, src, len) ==> src + i < |m| && m[src + i] != 0
    ensures i == Wanted(m, src, len) < len ==> src + i < |m| && m[src + i] == 0
  {
    var s := Str(m[src..]);
    assert i < |s| ==> s[i] in s && m[src..][i] == s[i];
    assert |s| < |m[src..]| ==> m[src..][|s|] == 0;
    StrUpTo(m[src..], 0);
  }

  lemma SameEnd(m: seq<byte>, dst: nat, src: nat, len: nat, e: nat, e': nat)
    requires Fetched(m, dst, src, len, e) && Fetched(m, dst, src, len, e')
    ensures e == e'
  {
  }

  /** Unless the destination begins inside the string, the copy brings it. */
  lemma PlainFetch(m: seq<byte>, dst: nat, src: nat, len: nat, e: nat)
    requires dst + len <= |m| && src <= |m| && Readable(m[src..], len) && Fetched(m, dst, src, len, e)
    requires !Ahead(dst, src, len) || Wanted(m, src, len) < dst - src
    ensures GotString(m, dst, src, len, e)
  {
    var w := Wanted(m, src, len);
    forall k | dst <= k < dst + len && k <= dst + w
      ensures k - dst < w ==> Fed(m, dst, src, len, k) == m[src + (k - dst)] != 0
      ensures k - dst == w ==> Fed(m, dst, src, len, k) == 0
    {
      StringAt(m, src, len, k - dst);
      if Ahead(dst, src, len) {
        OriginStep(dst, src, len, k);
      }
    }
    SameEnd(m, dst, src, len, e, dst + w);
  }

  /** When it does begin there, the copy meets no NUL at all... */
  lemma EndlessFetch(m: seq<byte>, dst: nat, src: nat, len: nat, e: nat)
    requires dst + len <= |m| && src <= |m| && Readable(m[src..], len) && Fetched(m, dst, src, len, e)
    requires Ahead(dst, src, len) && Wanted(m, src, len) >= dst - src
    ensures e == dst + len
  {
    if e < dst + len {
      var o := Origin(dst, src, len, e);
      StringAt(m, src, len, o - src);
    }
  }

  /** ...and strncpy copies the string exactly when it is that long and repeats with the period
      dst - src. */
  lemma FetchedIsString(m: seq<byte>, dst: nat, src: nat, len: nat, e: nat)
    requires dst + len <= |m| && src <= |m| && Readable(m[src..], len) && Fetched(m, dst, src, len, e)
    ensures GotString(m, dst, src, len, e)
      <==>
      || !Ahead(dst, src, len)
      || Wanted(m, src, len) < dst - src
      || (Wanted(m, src, len) == len && forall k :: dst <= k < src + len ==> m[k] == m[k - (dst - src)])
  {
    if !Ahead(dst, src, len) || Wanted(m, src, len) < dst - src {
      PlainFetch(m, dst, src, len, e);
    } else {
      EndlessFetch(m, dst, src, len, e);
      if Wanted(m, src, len) == len {
        FetchedRepeats(m, dst, src, len);
      }
    }
  }

  lemma FetchedRepeats(m: seq<byte>, dst: nat, src: nat, len: nat)
    requires dst + len <= |m| && Ahead(dst, src, len)
    ensures (forall k :: dst <= k < dst + len ==> Fed(m, dst, src, len, k) == m[src + (k - dst)])
       <==> (forall k :: dst <= k < src + len ==> m[k] == m[k - (dst - src)])
  {
    PeriodicExactly(m, dst, src, len);
    var fed := forall k :: dst <= k < dst + len ==> Fed(m, dst, src, len, k) == m[src + (k - dst)];
    if fed {
      forall k | dst <= k < dst + len ensures m[Origin(dst, src, len, k)] == m[src + (k - dst)] {
        assert Fed(m, dst, src, len, k) == m[src + (k - dst)];
      }
    }
  }

  // ----- Comparison -----

  /** The difference of the first bytes that differ; a string that ends first counts as having
      a NUL there. */
  ghost function Compare(a: seq<byte>, b: seq<byte>): int
    decreases |a|
  {
    if a == [] then if b == [] then 0 else -(b[0] as int)
    else if b == [] then a[0] as int
    else if a[0] != b[0] then a[0] as int - b[0] as int
    else Compare(a[1..], b[1..])
  }

  lemma {:induction false} CompareFrom(a: seq<byte>, b: seq<byte>, k: nat)
    requires k <= |a| && k <= |b| && a[..k] == b[..k]
    ensures Compare(a, b) == Compare(a[k..], b[k..])
    decreases k
  {
    if k > 0 {
      assert a[0] == a[..k][0] == b[..k][0] == b[0];
      assert a[1..][..k - 1] == a[..k][1..] == b[..k][1..] == b[1..][..k - 1];
      CompareFrom(a[1..], b[1..], k - 1);
      assert a[1..][k - 1..] == a[k..] && b[1..][k - 1..] == b[k..];
    } else {
      assert a[0..] == a && b[0..] == b;
    }
  }

  /** The first place at which two strings differ decides, by the difference of the bytes there; a
      string that has ended counts as having a NUL there. */
  lemma FirstPlaceDecides(a: seq<byte>, b: seq<byte>, k: nat)
    requires k <= |a| && k <= |b| && a[..k] == b[..k]
    ensures k < |a| && k < |b| && a[k] != b[k] ==> Compare(a, b) == a[k] as int - b[k] as int
    ensures k == |a| < |b| ==> Compare(a, b) == -(b[k] as int)
    ensures k == |b| < |a| ==> Compare(a, b) == a[k] as int
    ensures k == |a| == |b| ==> Compare(a, b) == 0
  {
    CompareFrom(a, b, k);
  }

  method Strcmp(s1: seq<byte>, s2: seq<byte>) returns (r: int)
    requires 0 in s1 && 0 in s2
    ensures r == Compare(Str(s1), Str(s2))
  {
    ghost var (t1, t2) := (Str(s1), Str(s2));
    var i := 0;
    StrUpTo(s1, 0);
    StrUpTo(s2, 0);
    while s1[i] != 0 && s1[i] == s2[i]
      invariant 0 <= i <= |t1| < |s1| && i <= |t2| < |s2| && t1[..i] == t2[..i]
      decreases |t1| - i
    {
      StrUpTo(s1, i);
      StrUpTo(s2, i);
      i := i + 1;
    }
    StrUpTo(s1, i);
    StrUpTo(s2, i);
    CompareFrom(t1, t2, i);
    r := s1[i] as int - s2[i] as int;
  }

  method Strncmp(s1: seq<byte>, s2: seq<byte>, n: nat) returns (r: int)
    requires Readable(s1, n) && Readable(s2, n)
    ensures r == Compare(Take(Str(s1), n), Take(Str(s2), n))
  {
    ghost var (t1, t2) := (Take(Str(s1), n), Take(Str(s2), n));
    var i, left := 0, n;
    ReadsInside(s1, n, 0);
    ReadsInside(s2, n, 0);
    while left > 0 && s1[i] != 0 && s1[i] == s2[i]
      invariant 0 <= left && i == n - left && 0 <= i <= |t1| && i <= |t2| && t1[..i] == t2[..i]
      invariant left > 0 ==> i < |s1| && i < |s2|
    {
      ReadsInside(s1, n, i);
      ReadsInside(s2, n, i);
      left, i := left - 1, i + 1;
      ReadsInside(s1, n, i);
      ReadsInside(s2, n, i);
    }
    r := if left == 0 then 0 else s1[i] as int - s2[i] as int;
    FirstDifference(s1, s2, n, i);
  }

  /** Where the two strings, cut to n, first differ or end. */
  lemma FirstDifference(s1: seq<byte>, s2: seq<byte>, n: nat, i: nat)
    requires Readable(s1, n) && Readable(s2, n)
    requires var (t1, t2) := (Take(Str(s1), n), Take(Str(s2), n)); i <= |t1| && i <= |t2| && t1[..i] == t2[..i]
    requires i < n ==> i < |s1| && i < |s2| && (s1[i] == 0 || s1[i] != s2[i])
    ensures Compare(Take(Str(s1), n), Take(Str(s2), n)) == if i < n then s1[i] as int - s2[i] as int else 0
  {
    CompareFrom(Take(Str(s1), n), Take(Str(s2), n), i);
    ReadsInside(s1, n, i);
    ReadsInside(s2, n, i);
  }

  /** Reading on from inside the first n bytes of a string. */
  lemma ReadsInside(s: seq<byte>, n: nat, i: nat)
    requires Readable(s, n) && i <= |Take(Str(s), n)|
    ensures i < n ==> i < |s| && (s[i] == 0 <==> |Take(Str(s), n)| == i)
    ensures i < |Take(Str(s), n)| ==> s[i] == Take(Str(s), n)[i]
  {
    StrUpTo(s, i);
  }

  method Memcmp(v1: seq<byte>, v2: seq<byte>, n: nat) returns (r: int)
    requires n <= |v1| && n <= |v2|
    ensures r == Compare(v1[..n], v2[..n])
  {
    var i := 0;
    while i < n
      invariant 0 <= i <= n && v1[..i] == v2[..i]
    {
      if v1[i] != v2[i] {
        assert v1[..n][..i] == v1[..i] && v2[..n][..i] == v2[..i];
        CompareFrom(v1[..n], v2[..n], i);
        return v1[i] as int - v2[i] as int;
      }
      i := i + 1;
    }
    CompareFrom(v1[..n], v2[..n], n);
    return 0;
  }

  // ----- How the comparisons agree -----

  ghost predicate NulFree(s: seq<byte>) {
    forall i :: 0 <= i < |s| ==> s[i] != 0
  }

  /** A zero result means equality, for strings and for blocks of the same length. */
  lemma {:induction false} CompareZero(a: seq<byte>, b: seq<byte>)
    requires (NulFree(a) && NulFree(b)) || |a| == |b|
    ensures Compare(a, b) == 0 <==> a == b
    decreases |a|
  {
    if a != [] && b != [] {
      CompareZero(a[1..], b[1..]);
      assert a == [a[0]] + a[1..] && b == [b[0]] + b[1..];
    }
  }

  lemma {:induction false} CompareSwap(a: seq<byte>, b: seq<byte>)
    ensures Compare(a, b) == -Compare(b, a)
    decreases |a|
  {
    if a != [] && b != [] {
      CompareSwap(a[1..], b[1..]);
    }
  }

  /** The comparison orders strings. */
  lemma {:induction false} CompareTransitive(a: seq<byte>, b: seq<byte>, c: seq<byte>)
    requires NulFree(a) && NulFree(b) && NulFree(c)
    requires Compare(a, b) <= 0 && Compare(b, c) <= 0
    ensures Compare(a, c) <= 0
    ensures Compare(a, c) == 0 ==> a == b == c
    decreases |a|
  {
    if a != [] && b != [] && c != [] {
      assert NulFree(a[1..]) && NulFree(b[1..]) && NulFree(c[1..]);
      if a[0] == b[0] == c[0] {
        CompareTransitive(a[1..], b[1..], c[1..]);
      }
      assert a == [a[0]] + a[1..] && b == [b[0]] + b[1..] && c == [c[0]] + c[1..];
    }
  }

  /** strncmp with a bound that covers both strings is strcmp. */
  lemma WideBoundIsStrcmp(s1: seq<byte>, s2: seq<byte>, n: nat)
    requires |Str(s1)| <= n && |Str(s2)| <= n
    ensures Compare(Take(Str(s1), n), Take(Str(s2), n)) == Compare(Str(s1), Str(s2))
  {
    assert forall s: seq<byte> :: |s| <= n ==> Take(s, n) == s;
  }

  /** strncmp with a bound inside both strings is memcmp. */
  lemma NarrowBoundIsMemcmp(s1: seq<byte>, s2: seq<byte>, n: nat)
    requires n <= |Str(s1)| && n <= |Str(s2)|
    ensures Compare(Take(Str(s1), n), Take(Str(s2), n)) == Compare(s1[..n], s2[..n])
  {
    assert Str(s1)[..n] == s1[..n] && Str(s2)[..n] == s2[..n];
  }

  /** memcmp over the shorter string and its NUL is strcmp. */
  lemma MemcmpOfTerminated(s1: seq<byte>, s2: seq<byte>, n: nat)
    requires 0 in s1 && 0 in s2
    requires n == 1 + (if |Str(s1)| <= |Str(s2)| then |Str(s1)| else |Str(s2)|)
    ensures n <= |s1| && n <= |s2|
    ensures Compare(s1[..n], s2[..n]) == Compare(Str(s1), Str(s2))
  {
    StrUpTo(s1, 0);
    StrUpTo(s2, 0);
    TerminatorDecides(Str(s1), s1[..n], Str(s2), s2[..n]);
  }

  lemma {:induction false} TerminatorDecides(a: seq<byte>, a': seq<byte>, b: seq<byte>, b': seq<byte>)
    requires NulFree(a) && NulFree(b) && |a'| == |b'| == 1 + (if |a| <= |b| then |a| else |b|)
    requires forall i :: 0 <= i < |a'| ==> a'[i] == if i < |a| then a[i] else 0
    requires forall i :: 0 <= i < |b'| ==> b'[i] == if i < |b| then b[i] else 0
    ensures Compare(a', b') == Compare(a, b)
    decreases |a|
  {
    if a != [] && b != [] {
      assert NulFree(a[1..]) && NulFree(b[1..]);
      TerminatorDecides(a[1..], a'[1..], b[1..], b'[1..]);
    } else {
      assert a'[1..] == [] && b'[1..] == [];
    }
  }
}
