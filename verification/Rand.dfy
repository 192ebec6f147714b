/** The 48-bit linear congruential generator: full period and exact output counts. */
module Lcg {
  import opened Numbers

  // ----- Any generator s -> (s * a + c) mod 2^k with a = 1 mod 4 and c odd -----

  ghost function Orbit(a: nat, c: nat, m: nat, s: nat, n: nat): (r: nat)
    requires m > 0
    ensures s < m ==> r < m
  {
    if n == 0 then s else (Orbit(a, c, m, s, n - 1) * a + c) % m
  }

  /** 1 + a + ... + a^(n-1) */
  ghost function Sum(a: nat, n: nat): nat {
    if n == 0 then 0 else 1 + Sum(a, n - 1) * a
  }

  /** What one step adds to the state s, up to the factor that grows with the steps. */
  ghost function Drift(a: nat, c: nat, s: nat): nat
    requires a > 0
  {
    (a - 1) * s + c
  }

  lemma OrbitAlgebra(a: int, c: int, s: int, u: int)
    ensures var d := (a - 1) * s + c; (s + u * d) * a + c == s + (1 + u * a) * d
  {
    var d := (a - 1) * s + c;
    assert s * a + c == s + d;
    assert (u * d) * a == (u * a) * d;
    assert (s + u * d) * a == s * a + (u * d) * a;
    assert (1 + u * a) * d == d + (u * a) * d;
  }

  lemma {:induction false} OrbitClosedForm(a: nat, c: nat, m: nat, s: nat, n: nat)
    requires m > 0 && a > 0 && s < m
    ensures Orbit(a, c, m, s, n) == (s + Sum(a, n) * Drift(a, c, s)) % m
  {
    if n == 0 {
      MulMod(0, m, s);
    } else {
      OrbitClosedForm(a, c, m, s, n - 1);
      OrbitAlgebra(a, c, s, Sum(a, n - 1));
      ModLinear(s + Sum(a, n - 1) * Drift(a, c, s), a, c, m);
    }
  }

  lemma SplitAlgebra(a: int, u: int, v: int)
    ensures 1 + (v + u * (1 + (a - 1) * v)) * a == (1 + v * a) + u * (1 + (a - 1) * (1 + v * a))
  {
    var (b, w) := (a - 1, (a - 1) * v);
    calc {
      (1 + w) * a;
      a + w * a;
      { assert w * a == b * (v * a); }
      a + b * (v * a);
      1 + b * (1 + v * a);
    }
    assert (u * (1 + w)) * a == u * ((1 + w) * a);
    assert (v + u * (1 + w)) * a == v * a + (u * (1 + w)) * a;
  }

  lemma {:induction false} SumSplit(a: nat, m: nat, j: nat)
    requires a > 0
    ensures Sum(a, m + j) == Sum(a, j) + Sum(a, m) * (1 + (a - 1) * Sum(a, j))
  {
    if j == 0 {
      assert (a - 1) * Sum(a, j) == 0;
    } else {
      SumSplit(a, m, j - 1);
      SplitAlgebra(a, Sum(a, m), Sum(a, j - 1));
    }
  }

  lemma ParityStep(u: nat, a: nat, n: nat)
    requires a % 2 == 1 && n > 0 && u % 2 == (n - 1) % 2
    ensures (1 + u * a) % 2 == n % 2
  {
    ProductParity(u, a);
    OneMore(u * a, n);
  }

  lemma OneMore(p: nat, n: nat)
    requires n > 0 && p % 2 == (n - 1) % 2
    ensures (1 + p) % 2 == n % 2
  {
  }

  lemma {:induction false} SumParity(a: nat, n: nat)
    requires a % 2 == 1
    ensures Sum(a, n) % 2 == n % 2
  {
    if n > 0 {
      SumParity(a, n - 1);
      ParityStep(Sum(a, n - 1), a, n);
    }
  }

  lemma DoubleAlgebra(q: nat, u: nat)
    ensures u + u * (1 + (4 * q) * u) == 2 * (u * (1 + 2 * (q * u)))
  {
    assert (4 * q) * u == 4 * (q * u);
    assert u * (1 + 4 * (q * u)) == u + 4 * (u * (q * u));
    assert u * (1 + 2 * (q * u)) == u + 2 * (u * (q * u));
  }

  /** Doubling n doubles the sum up to an odd factor. */
  lemma SumDouble(q: nat, n: nat) returns (odd: nat)
    ensures odd % 2 == 1 && Sum(4 * q + 1, 2 * n) == 2 * (Sum(4 * q + 1, n) * odd)
  {
    var u := Sum(4 * q + 1, n);
    SumSplit(4 * q + 1, n, n);
    DoubleAlgebra(q, u);
    odd := 1 + 2 * (q * u);
  }

  lemma HalvesDouble(k: nat, x: nat)
    requires k > 0
    ensures Halves(k, 2 * x) <==> Halves(k - 1, x)
  {
  }

  lemma OddHalves(a: nat, k: nat, n: nat)
    requires a % 4 == 1 && k > 0 && n % 2 == 1
    ensures !Halves(k, Sum(a, n)) && !Halves(k, n)
  {
    SumParity(a, n);
  }

  lemma Half(n: nat) returns (m: nat)
    requires n % 2 == 0
    ensures n == 2 * m
  {
    m := n / 2;
  }

  lemma TwiceOdd(k: nat, u: nat, odd: nat)
    requires k > 0 && odd % 2 == 1
    ensures Halves(k, 2 * (u * odd)) <==> Halves(k - 1, u)
  {
    OddFactor(k - 1, u, odd);
    HalvesDouble(k, u * odd);
  }

  lemma DoubledHalves(q: nat, k: nat, m: nat)
    requires k > 0 && (Halves(k - 1, Sum(4 * q + 1, m)) <==> Halves(k - 1, m))
    ensures Halves(k, Sum(4 * q + 1, 2 * m)) <==> Halves(k, 2 * m)
  {
    var odd := SumDouble(q, m);
    TwiceOdd(k, Sum(4 * q + 1, m), odd);
    HalvesDouble(k, m);
  }

  lemma Quarter(a: nat) returns (q: nat)
    requires a % 4 == 1
    ensures a == 4 * q + 1
  {
    q := a / 4;
  }

  /** The sum of n powers carries exactly the powers of two that n carries. */
  lemma {:induction false} SumHalves(a: nat, k: nat, n: nat)
    requires a % 4 == 1
    ensures Halves(k, Sum(a, n)) <==> Halves(k, n)
  {
    if k > 0 {
      if n % 2 == 0 {
        var m := Half(n);
        SumHalves(a, k - 1, m);
        var q := Quarter(a);
        DoubledHalves(q, k, m);
      } else {
        OddHalves(a, k, n);
      }
    }
  }

  lemma SameIffDivides(s: nat, t: nat, m: nat)
    requires s < m
    ensures (s + t) % m == s <==> t % m == 0
  {
    var q := ModExists(t, m);
    var r := t % m;
    ModShift(s + r, q, m);
    if s + r < m {
      MulMod(0, m, s + r);
    } else {
      MulMod(1, m, s + r - m);
    }
  }

  lemma Quadruple(q: nat, s: nat)
    ensures (4 * q) * s == 2 * (2 * (q * s))
  {
  }

  lemma OddSum(x: nat, c: nat)
    requires c % 2 == 1
    ensures (2 * x + c) % 2 == 1
  {
  }

  lemma DriftOdd(a: nat, c: nat, s: nat)
    requires a % 4 == 1 && c % 2 == 1
    ensures Drift(a, c, s) % 2 == 1
  {
    var q := (a - 1) / 4;
    Quadruple(q, s);
    OddSum(2 * (q * s), c);
  }

  lemma ProductNat(u: nat, d: nat)
    ensures u * d >= 0
  {
  }

  /** Hull and Dobell's theorem for powers of two: the period is the whole modulus. */
  lemma FullPeriod(a: nat, c: nat, k: nat, s: nat, n: nat)
    requires a % 4 == 1 && c % 2 == 1 && k > 0 && s < Pow2(k)
    ensures Orbit(a, c, Pow2(k), s, n) == s <==> n % Pow2(k) == 0
  {
    var d, u := Drift(a, c, s), Sum(a, n);
    ProductNat(u, d);
    OrbitClosedForm(a, c, Pow2(k), s, n);
    SameIffDivides(s, u * d, Pow2(k));
    HalvesIffDivides(k, u * d);
    HalvesIffDivides(k, n);
    SumHalves(a, k, n);
    DriftOdd(a, c, s);
    OddFactor(k, u, d);
  }

  lemma {:induction false} OrbitAdd(a: nat, c: nat, m: nat, s: nat, i: nat, j: nat)
    requires m > 0
    ensures Orbit(a, c, m, s, i + j) == Orbit(a, c, m, Orbit(a, c, m, s, i), j)
  {
    if j > 0 {
      OrbitAdd(a, c, m, s, i, j - 1);
    }
  }

  /** Within one period no state occurs twice. */
  lemma NoRepeat(a: nat, c: nat, k: nat, s: nat, i: nat, j: nat)
    requires a % 4 == 1 && c % 2 == 1 && k > 0 && s < Pow2(k) && i < j < Pow2(k)
    ensures Orbit(a, c, Pow2(k), s, i) != Orbit(a, c, Pow2(k), s, j)
  {
    OrbitAdd(a, c, Pow2(k), s, i, j - i);
    FullPeriod(a, c, k, Orbit(a, c, Pow2(k), s, i), j - i);
    MulMod(0, Pow2(k), j - i);
  }

  ghost function StateAt(a: nat, c: nat, k: nat, s: nat): nat -> nat {
    n => Orbit(a, c, Pow2(k), s, n)
  }

  /** f maps the finite set all into itself, no two elements to the same one. */
  ghost predicate Permutes<T(!new)>(all: set<T>, f: T -> T) {
    (forall x :: x in all ==> f(x) in all) &&
    (forall x, y :: x in all && y in all && f(x) == f(y) ==> x == y)
  }

  lemma PeriodPermutes(a: nat, c: nat, k: nat, s: nat)
    requires a % 4 == 1 && c % 2 == 1 && k > 0 && s < Pow2(k)
    ensures Permutes(Range(Pow2(k)), StateAt(a, c, k, s))
  {
    var f, all := StateAt(a, c, k, s), Range(Pow2(k));
    forall i, j | i in all && j in all && f(i) == f(j) ensures i == j {
      if i < j {
        NoRepeat(a, c, k, s, i, j);
      } else if j < i {
        NoRepeat(a, c, k, s, j, i);
      }
    }
  }

  lemma Position<T(!new)>(all: set<T>, f: T -> T, y: T) returns (n: T)
    requires Permutes(all, f) && y in all
    ensures n in all && f(n) == y
  {
    ImageSize(all, f);
    FullSubset(Image(all, f), all);
    n :| n in all && f(n) == y;
  }

  /** The elements that a permutation takes into p are as many as those in p. */
  lemma PermutationCount<T(!new)>(all: set<T>, f: T -> T, p: T -> bool, q: T -> bool)
    requires Permutes(all, f)
    requires forall x :: x in all ==> q(x) == p(f(x))
    ensures |Those(all, q)| == |Those(all, p)|
  {
    var hits, states := Those(all, q), Those(all, p);
    ImageSize(hits, f);
    ImageSize(all - hits, f);
    SubsetSize(Image(hits, f), states);
    SubsetSize(Image(all - hits, f), all - states);
    assert |all - hits| == |all| - |hits| by { SplitSize(all, hits); }
    assert |all - states| == |all| - |states| by { SplitSize(all, states); }
  }

  /** Every state below the modulus occurs at exactly one position of a period. */
  lemma EachStateOnce(a: nat, c: nat, k: nat, s: nat, y: nat) returns (n: nat)
    requires a % 4 == 1 && c % 2 == 1 && k > 0 && s < Pow2(k) && y < Pow2(k)
    ensures n < Pow2(k) && Orbit(a, c, Pow2(k), s, n) == y
    ensures forall i: nat :: i < Pow2(k) && Orbit(a, c, Pow2(k), s, i) == y ==> i == n
  {
    PeriodPermutes(a, c, k, s);
    n := Position(Range(Pow2(k)), StateAt(a, c, k, s), y);
    forall i: nat | i < Pow2(k) && Orbit(a, c, Pow2(k), s, i) == y ensures i == n {
      if i < n {
        NoRepeat(a, c, k, s, i, n);
      } else if n < i {
        NoRepeat(a, c, k, s, n, i);
      }
    }
  }

  /** The test for a step, counted from 0, that leads from the orbit of s to a state in p. */
  ghost function StepsInto(a: nat, c: nat, m: nat, s: nat, p: nat -> bool): nat -> bool
    requires m > 0
  {
    (n: nat) => p(Orbit(a, c, m, s, n + 1))
  }

  lemma StepInto(a: nat, c: nat, m: nat, s: nat, p: nat -> bool, n: nat)
    requires m > 0
    ensures StepsInto(a, c, m, s, p)(n) == p(Orbit(a, c, m, Orbit(a, c, m, s, 1), n))
  {
    OrbitAdd(a, c, m, s, 1, n);
  }

  /** The steps of a period that lead to a state in p are as many as the states below the
      modulus that are in p. */
  lemma PeriodCount(a: nat, c: nat, k: nat, s: nat, p: nat -> bool)
    requires a % 4 == 1 && c % 2 == 1 && k > 0 && s < Pow2(k)
    ensures |Those(Range(Pow2(k)), StepsInto(a, c, Pow2(k), s, p))| == |Those(Range(Pow2(k)), p)|
  {
    var next, q := Orbit(a, c, Pow2(k), s, 1), StepsInto(a, c, Pow2(k), s, p);
    PeriodPermutes(a, c, k, next);
    forall n | n in Range(Pow2(k)) ensures q(n) == p(StateAt(a, c, k, next)(n)) {
      StepInto(a, c, Pow2(k), s, p, n);
    }
    PermutationCount(Range(Pow2(k)), StateAt(a, c, k, next), p, q);
  }
}

/** rand and srand, with the constants of the library. */
module Rand {
  import opened Numbers
  import opened Lcg

  const MULTIPLIER: nat := 0x5DEECE66D
  const INCREMENT: nat := 0xB
  const MODULUS: nat := 0x1_0000_0000_0000
  const WORD: nat := 0x1_0000_0000_0000_0000
  const RAND_MAX: nat := 2147483647

  ghost function Step(s: nat): nat {
    (s * MULTIPLIER + INCREMENT) % MODULUS
  }

  /** The value computed from a state. The division macro does not parenthesise its second
      argument, so dividing by RAND_MAX + 1 takes the remainder by RAND_MAX and adds 1. */
  ghost function Output(s: nat): (r: nat)
    ensures 1 <= r <= RAND_MAX
  {
    (s / 4096) % RAND_MAX + 1
  }

  class Generator {
    var next: nat

    constructor ()
      ensures next == 1
    {
      next := 1;
    }

    method Srand(seed: nat)
      requires seed < 0x1_0000_0000
      modifies this
      ensures next == seed
    {
      next := seed;
    }

    /** The product and the sum wrap at 64 bits before the low 48 bits are kept; the result is
        the exact recurrence all the same. */
    method Next() returns (r: int)
      requires next < WORD
      modifies this
      ensures next == Step(old(next)) < MODULUS
      ensures r == Output(next)
      ensures next == (old(next) * 25214903917 + 11) % 281474976710656
      ensures r == (next / 4096) % 2147483647 + 1
    {
      var product := (next * MULTIPLIER) % WORD;
      var sum := (product + INCREMENT) % WORD;
      WrapIsHarmless(next);
      next := sum % MODULUS;
      var result := next / 4096;
      r := result % RAND_MAX + 1;
    }
  }

  /** The first number after a seed, and the state it leaves, in numbers alone. */
  method SeedAndCall(g: Generator, seed: nat) returns (r: int)
    requires seed < 4294967296
    modifies g
    ensures g.next == (seed * 25214903917 + 11) % 281474976710656
    ensures r == (g.next / 4096) % 2147483647 + 1
  {
    g.Srand(seed);
    r := g.Next();
  }

  /** The first number of a program that has set no seed. */
  method FirstEver() returns (r: int)
    ensures r == 6155983
  {
    var g := new Generator();
    r := g.Next();
    assert (25214903917 + 11) % 281474976710656 == 25214903928;
  }

  /** Wrapping at 64 bits in between leaves the low 48 bits exact. */
  lemma WrapIsHarmless(s: nat)
    ensures (((s * MULTIPLIER) % WORD + INCREMENT) % WORD) % MODULUS == Step(s)
  {
    var p := s * MULTIPLIER;
    ModLinear(p, 1, INCREMENT, WORD);
    assert ((p % WORD) + INCREMENT) % WORD == (p + INCREMENT) % WORD;
    assert MODULUS * 0x1_0000 == WORD;
    ModMod(p + INCREMENT, MODULUS, 0x1_0000);
  }

  /** The state after n calls. */
  ghost function State(s: nat, n: nat): nat {
    Orbit(MULTIPLIER, INCREMENT, MODULUS, s, n)
  }

  lemma ModulusIsPower()
    ensures Pow2(48) == MODULUS
  {
    assert Pow2(12) == 4096;
    Pow2Add(12, 12);
    Pow2Add(24, 24);
  }

  /** After n calls the generator is back where it started exactly when 2^48 divides n. */
  lemma PeriodIsModulus(s: nat, n: nat)
    requires s < MODULUS
    ensures State(s, n) == s <==> n % MODULUS == 0
  {
    ModulusIsPower();
    FullPeriod(MULTIPLIER, INCREMENT, 48, s, n);
  }

  /** Every state is visited exactly once in one period. */
  lemma EveryStateOnce(s: nat, y: nat) returns (n: nat)
    requires s < MODULUS && y < MODULUS
    ensures n < MODULUS && State(s, n) == y
    ensures forall i: nat :: i < MODULUS && State(s, i) == y ==> i == n
  {
    ModulusIsPower();
    n := EachStateOnce(MULTIPLIER, INCREMENT, 48, s, y);
  }

  // ----- How often each value is returned -----

  /** How many of the 2^36 quotients leave the remainder v - 1. */
  ghost function Share(v: nat): nat {
    if 1 <= v <= 32 then 33 else if 33 <= v <= RAND_MAX then 32 else 0
  }

  /** The i-th state that outputs v. */
  ghost function Preimage(v: nat, i: nat): nat
    requires v > 0
  {
    ((i / 4096) * RAND_MAX + v - 1) * 4096 + i % 4096
  }

  lemma PreimageOutputs(v: nat, i: nat)
    requires v > 0 && i < Share(v) * 4096
    ensures Preimage(v, i) < MODULUS && Output(Preimage(v, i)) == v
    ensures Preimage(v, i) / 4096 / RAND_MAX == i / 4096 && Preimage(v, i) % 4096 == i % 4096
  {
    MulMod((i / 4096) * RAND_MAX + (v - 1), 4096, i % 4096);
    MulMod(i / 4096, RAND_MAX, v - 1);
  }

  lemma OutputHasPreimage(v: nat, s: nat) returns (i: nat)
    requires s < MODULUS && Output(s) == v
    ensures i < Share(v) * 4096 && Preimage(v, i) == s
  {
    i := (s / 4096 / RAND_MAX) * 4096 + s % 4096;
    MulMod(s / 4096 / RAND_MAX, 4096, s % 4096);
  }

  /** The test for a state that outputs v. */
  ghost function Outputs(v: nat): nat -> bool {
    (s: nat) => Output(s) == v
  }

  lemma ValueStates(v: nat, f: nat -> nat)
    requires v > 0 && forall i :: f(i) == Preimage(v, i)
    ensures Image(Range(Share(v) * 4096), f) == Those(Range(MODULUS), Outputs(v))
  {
    var indices := Range(Share(v) * 4096);
    forall s | s in Those(Range(MODULUS), Outputs(v)) ensures s in Image(indices, f) {
      var i := OutputHasPreimage(v, s);
      assert f(i) == s;
    }
    forall i | i in indices ensures f(i) in Those(Range(MODULUS), Outputs(v)) {
      PreimageOutputs(v, i);
    }
  }

  lemma StatesPerValue(v: nat)
    ensures |Those(Range(MODULUS), Outputs(v))| == Share(v) * 4096
  {
    if v == 0 {
      assert Those(Range(MODULUS), Outputs(v)) == {};
    } else {
      var indices := Range(Share(v) * 4096);
      var f := (i: nat) => Preimage(v, i);
      forall i, j | i in indices && j in indices && f(i) == f(j) ensures i == j {
        PreimageOutputs(v, i);
        PreimageOutputs(v, j);
      }
      ImageSize(indices, f);
      RangeSize(Share(v) * 4096);
      ValueStates(v, f);
    }
  }

  /** The test for a call, the calls from state s being counted from 0, that returns v. */
  ghost function Returns(s: nat, v: nat): nat -> bool {
    StepsInto(MULTIPLIER, INCREMENT, MODULUS, s, Outputs(v))
  }

  lemma ReturnsMeans(s: nat, v: nat, n: nat)
    ensures Returns(s, v)(n) <==> Output(State(s, n + 1)) == v
  {
  }

  /** A client that calls rand n times: what the i-th call returns is what the counts below speak
      of. */
  method Take(g: Generator, n: nat) returns (out: seq<int>)
    requires g.next < MODULUS
    modifies g
    ensures g.next == State(old(g.next), n) < MODULUS
    ensures |out| == n && forall i :: 0 <= i < n ==> out[i] == Output(State(old(g.next), i + 1))
    ensures forall i, v: nat :: 0 <= i < n ==> (Returns(old(g.next), v)(i) <==> out[i] == v)
  {
    out := [];
    for i := 0 to n
      invariant g.next == State(old(g.next), i) < MODULUS
      invariant |out| == i && forall j :: 0 <= j < i ==> out[j] == Output(State(old(g.next), j + 1))
    {
      var r := g.Next();
      out := out + [r];
    }
    forall i, v: nat | 0 <= i < n ensures Returns(old(g.next), v)(i) <==> out[i] == v {
      ReturnsMeans(old(g.next), v, i);
    }
  }

  /** Among the 2^48 calls of one period, exactly Share(v) * 4096 return v: none for 0, 33 * 4096
      for each of 1 to 32, and 32 * 4096 for each of 33 to RAND_MAX. */
  lemma ExactCounts(s: nat, v: nat)
    requires s < MODULUS
    ensures |Those(Range(MODULUS), Returns(s, v))| == Share(v) * 4096
  {
    ModulusIsPower();
    PeriodCount(MULTIPLIER, INCREMENT, 48, s, Outputs(v));
    StatesPerValue(v);
  }

  /** From any state, exactly the values 1 to RAND_MAX are eventually returned. */
  lemma EventuallyReturned(s: nat, v: nat)
    requires s < MODULUS
    ensures (exists n :: n in Range(MODULUS) && Returns(s, v)(n)) <==> 1 <= v <= RAND_MAX
  {
    ExactCounts(s, v);
    var hits := Those(Range(MODULUS), Returns(s, v));
    if 1 <= v <= RAND_MAX {
      Inhabited(hits);
    } else {
      assert Share(v) == 0;
    }
  }

  lemma Inhabited<T>(s: set<T>)
    requires |s| > 0
    ensures exists x :: x in s
  {
    var x :| x in s;
  }
}
