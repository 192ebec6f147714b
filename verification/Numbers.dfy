/** Arithmetic shared by the other modules: powers of two, divisibility by them, and counting. */
module Numbers {

  ghost function Pow2(k: nat): (p: nat)
    ensures p > 0
  {
    if k == 0 then 1 else 2 * Pow2(k - 1)
  }

  lemma {:induction false} Pow2Add(i: nat, j: nat)
    ensures Pow2(i + j) == Pow2(i) * Pow2(j)
  {
    if j > 0 {
      Pow2Add(i, j - 1);
    }
  }

  /** n is a multiple of 2^k, by repeated halving. */
  ghost predicate Halves(k: nat, n: nat) {
    k == 0 || (n % 2 == 0 && Halves(k - 1, n / 2))
  }

  lemma MulMod(q: int, m: int, r: int)
    requires 0 <= r < m
    ensures (q * m + r) % m == r && (q * m + r) / m == q
  {
    var n := q * m + r;
    assert n == (n / m) * m + n % m;
    UniqueDivision(q, r, n / m, n % m, m);
  }

  lemma AtLeastOnce(k: int, m: int)
    requires m > 0
    ensures k >= 1 ==> k * m >= m
    ensures k <= -1 ==> k * m <= -m
  {
    if k >= 1 {
      assert (k - 1) * m >= 0;
    } else if k <= -1 {
      assert (-k - 1) * m >= 0;
    }
  }

  lemma UniqueDivision(q: int, r: int, q': int, r': int, m: int)
    requires q * m + r == q' * m + r' && 0 <= r < m && 0 <= r' < m
    ensures q == q' && r == r'
  {
    assert (q - q') * m == r' - r;
    AtLeastOnce(q - q', m);
  }

  lemma ModExists(n: int, m: int) returns (q: int)
    requires m > 0
    ensures n == q * m + n % m && q == n / m
  {
    q := n / m;
  }

  /** Adding a multiple of the modulus changes nothing. */
  lemma ModShift(n: int, q: int, m: int)
    requires m > 0
    ensures (n + q * m) % m == n % m
  {
    var d := ModExists(n, m);
    assert n + q * m == (d + q) * m + n % m;
    MulMod(d + q, m, n % m);
  }

  /** Reducing first makes no difference to a linear step. */
  lemma ModLinear(x: int, a: int, c: int, m: int)
    requires m > 0
    ensures ((x % m) * a + c) % m == (x * a + c) % m
  {
    var d := ModExists(x, m);
    assert x * a + c == (x % m) * a + c + (d * a) * m by {
      assert x == d * m + x % m;
      assert x * a == (d * m) * a + (x % m) * a;
      assert (d * m) * a == (d * a) * m;
    }
    ModShift((x % m) * a + c, d * a, m);
  }

  /** Reducing modulo a multiple of m first makes no difference modulo m. */
  lemma ModMod(n: int, m: int, k: int)
    requires m > 0 && k > 0
    ensures m * k > 0 && (n % (m * k)) % m == n % m
  {
    var d := ModExists(n, m * k);
    assert d * (m * k) == (d * k) * m;
    ModShift(n % (m * k), d * k, m);
  }

  /** Division by 2 p is division by 2 and then by p. */
  lemma HalfDivides(n: nat, p: nat)
    requires p > 0
    ensures n % (2 * p) == 0 <==> n % 2 == 0 && (n / 2) % p == 0
  {
    var h := n / 2;
    var d := ModExists(h, p);
    var r := 2 * (h % p) + n % 2;
    assert n == d * (2 * p) + r by {
      assert 2 * (d * p) == d * (2 * p);
    }
    MulMod(d, 2 * p, r);
  }

  lemma {:induction false} HalvesIffDivides(k: nat, n: nat)
    ensures Halves(k, n) <==> n % Pow2(k) == 0
  {
    if k > 0 {
      HalvesIffDivides(k - 1, n / 2);
      HalfDivides(n, Pow2(k - 1));
    }
  }

  lemma ProductParity(s: nat, d: nat)
    requires d % 2 == 1
    ensures (s * d) % 2 == s % 2
    ensures s % 2 == 0 ==> (s * d) / 2 == (s / 2) * d
  {
    if s % 2 == 0 {
      var t := s / 2;
      assert s * d == 2 * (t * d);
    } else {
      var e := d / 2;
      assert s * d == 2 * (s * e) + s;
    }
  }

  /** An odd factor carries no power of two. */
  lemma {:induction false} OddFactor(k: nat, s: nat, d: nat)
    requires d % 2 == 1
    ensures Halves(k, s * d) <==> Halves(k, s)
  {
    if k > 0 {
      ProductParity(s, d);
      if s % 2 == 0 {
        OddFactor(k - 1, s / 2, d);
      }
    }
  }

  // ----- Counting -----

  ghost function Range(n: nat): (s: set<nat>)
    ensures forall i :: i in s <==> 0 <= i < n
  {
    if n == 0 then {} else Range(n - 1) + {n - 1}
  }

  lemma {:induction false} RangeSize(n: nat)
    ensures |Range(n)| == n
  {
    if n > 0 {
      RangeSize(n - 1);
    }
  }

  ghost function Image<T, U>(s: set<T>, f: T -> U): set<U> {
    set x | x in s :: f(x)
  }

  /** The elements of s that satisfy p. */
  ghost function Those<T>(s: set<T>, p: T -> bool): set<T> {
    set x | x in s && p(x)
  }

  /** An injection does not change how many there are. */
  lemma {:induction false} ImageSize<T, U>(s: set<T>, f: T -> U)
    requires forall x, y :: x in s && y in s && f(x) == f(y) ==> x == y
    ensures |Image(s, f)| == |s|
  {
    if s != {} {
      var x :| x in s;
      ImageSize(s - {x}, f);
      assert Image(s, f) == Image(s - {x}, f) + {f(x)};
      assert f(x) !in Image(s - {x}, f);
    }
  }

  lemma SplitSize<T>(u: set<T>, s: set<T>)
    requires s <= u
    ensures |u - s| == |u| - |s|
  {
    assert u == s + (u - s);
  }

  lemma SubsetSize<T>(s: set<T>, u: set<T>)
    requires s <= u
    ensures |s| <= |u|
  {
    SplitSize(u, s);
  }

  /** A set within another one of the same size is all of it. */
  lemma FullSubset<T>(s: set<T>, u: set<T>)
    requires s <= u && |s| == |u|
    ensures s == u
  {
    SplitSize(u, s);
  }
}
