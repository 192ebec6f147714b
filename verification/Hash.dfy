/** Multiplicative hashing of 32-bit keys: every bucket gets the same number of keys. */
module Hash {
  import opened Numbers

  const WORD: nat := 0x1_0000_0000
  const GOLDEN_RATIO_PRIME_32: nat := 0x9e37_0001

  /** The multiplicative inverse of the golden ratio prime modulo 2^32. */
  const INVERSE: nat := 0x61c9_0001

  /** A right shift by k divides by 2^k. */
  function ShiftDivisor(k: nat): (p: nat)
    ensures p == Pow2(k) && p > 0
  {
    if k == 0 then 1 else 2 * ShiftDivisor(k - 1)
  }

  /** The high bits of the 32-bit product. A shift by 32 is undefined in C, so bits is not 0. */
  function Hash32(val: nat, bits: nat): (h: nat)
    requires val < WORD && 1 <= bits <= 32
    ensures h < Pow2(bits)
  {
    HashWith(GOLDEN_RATIO_PRIME_32, val, bits)
  }

  function HashWith(multiplier: nat, val: nat, bits: nat): (h: nat)
    requires 1 <= bits <= 32
    ensures h < Pow2(bits)
  {
    HighBits((val * multiplier) % WORD, bits)
  }

  function Shifted(x: nat, divisor: nat): (q: nat)
    requires divisor > 0
  {
    x / divisor
  }

  function HighBits(x: nat, bits: nat): (h: nat)
    requires x < WORD && 1 <= bits <= 32
    ensures h < Pow2(bits)
  {
    HighBitsFit(x, bits);
    Shifted(x, ShiftDivisor(32 - bits))
  }

  lemma WordIsPower()
    ensures Pow2(32) == WORD
  {
    assert Pow2(8) == 256;
    Pow2Add(8, 8);
    Pow2Add(16, 16);
  }

  lemma HighBitsFit(x: nat, bits: nat)
    requires x < WORD && 1 <= bits <= 32
    ensures Shifted(x, Pow2(32 - bits)) < Pow2(bits)
  {
    WordIsPower();
    Pow2Add(bits, 32 - bits);
    QuotientBound(x, Pow2(bits), Pow2(32 - bits));
  }

  lemma QuotientBound(x: nat, n: nat, m: nat)
    requires m > 0 && x < n * m
    ensures x / m < n
  {
    var q := ModExists(x, m);
    assert (q - n) * m == q * m - n * m;
    AtLeastOnce(q - n + 1, m);
    assert (q - n + 1) * m == (q - n) * m + m;
  }

  // ----- The multiplication permutes the keys -----

  /** Multiplying by g and then by its inverse gives the key back. */
  lemma RoundTrip(x: nat, g: nat, i: nat)
    requires x < WORD && (g * i) % WORD == 1
    ensures (((x * g) % WORD) * i) % WORD == x
  {
    ModLinear(x * g, i, 0, WORD);
    var q := ModExists(g * i, WORD);
    assert (x * g) * i == (x * q) * WORD + x by {
      assert (x * g) * i == x * (g * i);
      assert x * (q * WORD + 1) == (x * q) * WORD + x;
    }
    MulMod(x * q, WORD, x);
  }

  lemma InverseOfPrime()
    ensures (GOLDEN_RATIO_PRIME_32 * INVERSE) % WORD == 1
    ensures (INVERSE * GOLDEN_RATIO_PRIME_32) % WORD == 1
  {
  }

  lemma FullWidth(g: nat, i: nat, x: nat)
    requires x < WORD && (g * i) % WORD == 1
    ensures HashWith(g, x, 32) == (x * g) % WORD && (HashWith(g, x, 32) * i) % WORD == x
  {
    RoundTrip(x, g, i);
  }

  /** At full width, different keys never collide, and every hash has a key. */
  lemma FullWidthIsBijection(x: nat, y: nat)
    requires x < WORD && y < WORD
    ensures Hash32(x, 32) == Hash32(y, 32) <==> x == y
    ensures Hash32((x * INVERSE) % WORD, 32) == x
  {
    InverseOfPrime();
    FullWidth(GOLDEN_RATIO_PRIME_32, INVERSE, x);
    FullWidth(GOLDEN_RATIO_PRIME_32, INVERSE, y);
    FullWidth(GOLDEN_RATIO_PRIME_32, INVERSE, (x * INVERSE) % WORD);
    RoundTrip(x, INVERSE, GOLDEN_RATIO_PRIME_32);
  }

  // ----- Buckets -----

  ghost function InBucket(g: nat, bits: nat, h: nat): nat -> bool
    requires 1 <= bits <= 32
  {
    (x: nat) => x < WORD && HashWith(g, x, bits) == h
  }

  /** The key whose product is the j-th one of bucket h. */
  ghost function Member(i: nat, bits: nat, h: nat): nat -> nat
    requires 1 <= bits <= 32
  {
    (j: nat) => ((h * Pow2(32 - bits) + j) * i) % WORD
  }

  lemma PlaceBound(h: nat, n: nat, m: nat, j: nat)
    requires h < n && j < m
    ensures h * m + j < n * m
  {
    AtLeastOnce(n - h, m);
    assert (n - h) * m == n * m - h * m;
  }

  lemma BucketRange(bits: nat, h: nat, j: nat)
    requires 1 <= bits <= 32 && h < Pow2(bits) && j < Pow2(32 - bits)
    ensures h * Pow2(32 - bits) + j < WORD
  {
    var m := Pow2(32 - bits);
    WordIsPower();
    Pow2Add(bits, 32 - bits);
    PlaceBound(h, Pow2(bits), m, j);
  }

  lemma MemberHashes(g: nat, i: nat, bits: nat, h: nat, j: nat)
    requires (i * g) % WORD == 1
    requires 1 <= bits <= 32 && h < Pow2(bits) && j < Pow2(32 - bits)
    ensures var x := Member(i, bits, h)(j);
      x < WORD && HashWith(g, x, bits) == h && (x * g) % WORD == h * Pow2(32 - bits) + j
  {
    BucketRange(bits, h, j);
    RoundTrip(h * Pow2(32 - bits) + j, i, g);
    MulMod(h, Pow2(32 - bits), j);
  }

  lemma BucketPlace(p: nat, bits: nat) returns (j: nat)
    requires p < WORD && 1 <= bits <= 32
    ensures j < Pow2(32 - bits) && p == HighBits(p, bits) * Pow2(32 - bits) + j
  {
    var q := ModExists(p, Pow2(32 - bits));
    j := p % Pow2(32 - bits);
  }

  lemma HashedIsMember(g: nat, i: nat, bits: nat, h: nat, x: nat) returns (j: nat)
    requires (g * i) % WORD == 1
    requires 1 <= bits <= 32 && x < WORD && HashWith(g, x, bits) == h
    ensures j < Pow2(32 - bits) && Member(i, bits, h)(j) == x
  {
    RoundTrip(x, g, i);
    j := BucketPlace((x * g) % WORD, bits);
  }

  lemma BucketIsImage(g: nat, i: nat, bits: nat, h: nat)
    requires (g * i) % WORD == 1 && (i * g) % WORD == 1
    requires 1 <= bits <= 32 && h < Pow2(bits)
    ensures Image(Range(Pow2(32 - bits)), Member(i, bits, h)) == Those(Range(WORD), InBucket(g, bits, h))
  {
    var js, f := Range(Pow2(32 - bits)), Member(i, bits, h);
    forall x | x in Those(Range(WORD), InBucket(g, bits, h)) ensures x in Image(js, f) {
      var j := HashedIsMember(g, i, bits, h, x);
      assert j in js && f(j) == x;
    }
    forall j | j in js ensures f(j) in Those(Range(WORD), InBucket(g, bits, h)) {
      MemberHashes(g, i, bits, h, j);
    }
  }

  /** With an invertible multiplier, each bucket gets the same share of the keys. */
  lemma BucketShare(g: nat, i: nat, bits: nat, h: nat)
    requires (g * i) % WORD == 1 && (i * g) % WORD == 1
    requires 1 <= bits <= 32 && h < Pow2(bits)
    ensures |Those(Range(WORD), InBucket(g, bits, h))| == Pow2(32 - bits)
  {
    var js, f := Range(Pow2(32 - bits)), Member(i, bits, h);
    forall j, k | j in js && k in js && f(j) == f(k) ensures j == k {
      MemberHashes(g, i, bits, h, j);
      MemberHashes(g, i, bits, h, k);
    }
    ImageSize(js, f);
    RangeSize(Pow2(32 - bits));
    BucketIsImage(g, i, bits, h);
  }

  // ----- hash32 itself, with the numbers written out -----

  /** hash32 gives the high bits of the 32-bit product: the product lies in the range of the hash. */
  lemma Hash32Bounds(x: nat, bits: nat)
    requires x < 4294967296 && 1 <= bits <= 32
    ensures var (m, p) := (Pow2(32 - bits), (x * 2654404609) % 4294967296);
      Hash32(x, bits) * m <= p < Hash32(x, bits) * m + m
  {
    var j := BucketPlace((x * 2654404609) % 4294967296, bits);
  }

  /** The process with the number 1 and 10 bits. */
  lemma Hash32OfOne()
    ensures Hash32(1, 10) == 632
  {
    Hash32Bounds(1, 10);
    assert Pow2(8) == 256;
    Pow2Add(8, 8);
    Pow2Add(8, 14);
    Pow2Add(8, 6);
    assert Pow2(6) == 64;
    OnlyMultiple(Hash32(1, 10), 632, 4194304, 2654404609);
  }

  lemma OnlyMultiple(h: int, g: int, m: int, p: int)
    requires m > 0 && h * m <= p < h * m + m && g * m <= p < g * m + m
    ensures h == g
  {
    if h > g {
      AtLeastOnce(h - g, m);
    } else if h < g {
      AtLeastOnce(g - h, m);
    }
  }

  /** The keys that hash32 puts in bucket h. */
  ghost function Bucket(bits: nat, h: nat): nat -> bool
    requires 1 <= bits <= 32
  {
    (x: nat) => x < 4294967296 && Hash32(x, bits) == h
  }

  /** Each of the 2^bits buckets of hash32 holds exactly 2^(32 - bits) of the 2^32 keys. */
  lemma BucketsBalanced(bits: nat, h: nat)
    requires 1 <= bits <= 32 && h < Pow2(bits)
    ensures |Those(Range(4294967296), Bucket(bits, h))| == Pow2(32 - bits)
  {
    InverseOfPrime();
    BucketShare(GOLDEN_RATIO_PRIME_32, INVERSE, bits, h);
    SameThose(Range(WORD), Bucket(bits, h), InBucket(GOLDEN_RATIO_PRIME_32, bits, h));
  }

  lemma SameThose<T>(s: set<T>, p: T -> bool, q: T -> bool)
    requires forall x :: x in s ==> p(x) == q(x)
    ensures Those(s, p) == Those(s, q)
  {
  }
}
