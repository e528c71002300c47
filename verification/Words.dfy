/** Machine words: powers of two, masking, bit length and alignment, the only
    arithmetic the C sources do beyond additions. */
module Words {

  const WORD_LIMIT: nat := 0x1_0000_0000_0000_0000

  /** A `size_t` or `unsigned long` value. */
  type Word = x: nat | x < WORD_LIMIT

  function Pow2(k: nat): (r: nat)
    ensures r >= 1
  {
    if k == 0 then 1 else 2 * Pow2(k - 1)
  }

  ghost predicate IsPow2(n: nat) {
    exists k: nat :: n == Pow2(k)
  }

  lemma Pow2Positive(n: nat)
    requires IsPow2(n)
    ensures n >= 1
  {
  }

  lemma Pow2Doubles(n: nat)
    requires IsPow2(n)
    ensures IsPow2(2 * n)
  {
    var k: nat :| n == Pow2(k);
    assert Pow2(k + 1) == 2 * n;
  }

  lemma Pow2EvenOrOne(n: nat)
    requires IsPow2(n)
    ensures n == 1 || n % 2 == 0
  {
    var k: nat :| n == Pow2(k);
  }

  /** The `&` of two non-negative integers. */
  function And(a: nat, b: nat): nat
    decreases a
  {
    if a == 0 || b == 0 then 0
    else 2 * And(a / 2, b / 2) + (if a % 2 == 1 && b % 2 == 1 then 1 else 0)
  }

  /** The remainder is determined by the division equation. */
  lemma ModUnique(x: int, q: int, m: nat, r: nat)
    requires r < m && x == q * m + r
    ensures x % m == r
  {
    assert x == (x / m) * m + x % m;
    var d := x / m - q;
    assert d * m == r - x % m by {
      assert d * m == (x / m) * m - q * m;
    }
    MultipleIsZeroOrBig(d, m);
  }

  lemma MultipleIsZeroOrBig(d: int, m: nat)
    ensures d >= 1 ==> d * m >= m
    ensures d <= -1 ==> d * m <= -(m as int)
  {
    if d >= 1 {
      assert d * m == (d - 1) * m + m;
    } else if d <= -1 {
      assert d * m == (d + 1) * m - m;
    }
  }

  /** Masking with `n - 1` is reduction modulo `n` when `n` is a power of two. */
  lemma {:induction false} MaskIsMod(x: nat, n: nat)
    requires IsPow2(n)
    ensures And(x, n - 1) == x % n
  {
    var k: nat :| n == Pow2(k);
    MaskIsModAt(x, k);
  }

  lemma {:induction false} MaskIsModAt(x: nat, k: nat)
    ensures And(x, Pow2(k) - 1) == x % Pow2(k)
    decreases k
  {
    if k > 0 {
      MaskIsModAt(x / 2, k - 1);
      MaskStep(x, Pow2(k - 1));
    }
  }

  lemma MaskStep(x: nat, m: nat)
    requires m > 0 && And(x / 2, m - 1) == (x / 2) % m
    ensures And(x, 2 * m - 1) == x % (2 * m)
  {
    hide And;
    ModOfDouble(x, m);
    AndOdd(x, m - 1);
    assert 2 * (m - 1) + 1 == 2 * m - 1;
  }

  /** `x` rounded down to a multiple of `n`. */
  function RoundDown(x: nat, n: nat): nat
    requires n > 0
  {
    x - x % n
  }

  /** Masking with the complement of `Pow2(k) - 1` among the words of `j` bits clears the low `k` bits. */
  lemma {:induction false} ClearMaskAt(x: nat, k: nat, j: nat)
    requires k <= j && x < Pow2(j)
    ensures Pow2(k) <= Pow2(j) && And(x, Pow2(j) - Pow2(k)) == RoundDown(x, Pow2(k))
    decreases k
  {
    hide And, RoundDown;
    Pow2Monotonic(k, j);
    if k == 0 {
      ClearNothing(x, j);
    } else {
      ClearMaskAt(x / 2, k - 1, j - 1);
      ClearStep(x, Pow2(k - 1), Pow2(j - 1));
    }
  }

  lemma ClearNothing(x: nat, j: nat)
    requires x < Pow2(j)
    ensures Pow2(0) == 1 && And(x, Pow2(j) - 1) == x == RoundDown(x, 1)
  {
    hide And;
    MaskIsModAt(x, j);
    ModUnique(x, 0, Pow2(j), x);
  }

  lemma ClearStep(x: nat, low: nat, high: nat)
    requires 0 < low <= high && And(x / 2, high - low) == RoundDown(x / 2, low)
    ensures And(x, 2 * high - 2 * low) == RoundDown(x, 2 * low)
  {
    hide And;
    ModOfDouble(x, low);
    AndEven(x, high - low);
    assert 2 * (high - low) == 2 * high - 2 * low;
  }

  /** A step of `And` against an even mask. */
  lemma AndEven(x: nat, y: nat)
    ensures And(x, 2 * y) == 2 * And(x / 2, y)
  {
    assert (2 * y) / 2 == y && (2 * y) % 2 == 0;
  }

  /** `~` on a machine word. */
  function Complement(a: Word): Word {
    WORD_LIMIT - 1 - a
  }

  /** Masking a word with `~(n - 1)` rounds it down to a multiple of the power of two `n`. */
  lemma ComplementMaskRoundsDown(x: Word, n: nat)
    requires IsPow2(n) && n <= WORD_LIMIT
    ensures And(x, Complement(n - 1)) == RoundDown(x, n)
  {
    var k: nat :| n == Pow2(k);
    Pow2Word();
    if k > 64 {
      Pow2Monotonic(65, k);
      assert false;
    }
    ClearMaskAt(x, k, 64);
  }

  /** A step of `And` against an odd mask. */
  lemma AndOdd(x: nat, y: nat)
    ensures And(x, 2 * y + 1) == 2 * And(x / 2, y) + x % 2
  {
    assert (2 * y + 1) / 2 == y && (2 * y + 1) % 2 == 1;
  }

  lemma ModOfDouble(x: nat, m: nat)
    requires m > 0
    ensures x % (2 * m) == 2 * ((x / 2) % m) + x % 2
  {
    var q, r := (x / 2) / m, (x / 2) % m;
    assert x / 2 == q * m + r;
    assert 2 * (q * m) == q * (2 * m);
    assert x == 2 * (x / 2) + x % 2;
    ModUnique(x, q, 2 * m, 2 * r + x % 2);
  }

  /** Adding a multiple of the modulus changes nothing. */
  lemma ModShift(x: int, c: int, m: nat)
    requires m > 0
    ensures (x + c * m) % m == x % m
  {
    assert x == (x / m) * m + x % m;
    assert x + c * m == (x / m + c) * m + x % m by {
      assert (x / m + c) * m == (x / m) * m + c * m;
    }
    ModUnique(x + c * m, x / m + c, m, x % m);
  }

  /** Reducing a summand first changes nothing. */
  lemma ModAdd(x: int, y: int, m: nat)
    requires m > 0
    ensures (x % m + y) % m == (x + y) % m
  {
    assert x + y == (x % m + y) + (x / m) * m;
    ModShift(x % m + y, x / m, m);
  }

  lemma {:induction false} Pow2Sum(a: nat, b: nat)
    ensures Pow2(a + b) == Pow2(a) * Pow2(b)
    decreases a
  {
    if a > 0 {
      Pow2Sum(a - 1, b);
      assert Pow2(a + b) == 2 * Pow2(a - 1 + b);
      assert 2 * (Pow2(a - 1) * Pow2(b)) == (2 * Pow2(a - 1)) * Pow2(b);
    }
  }

  lemma {:induction false} Pow2Monotonic(a: nat, b: nat)
    requires a <= b
    ensures Pow2(a) <= Pow2(b)
    decreases b - a
  {
    if a < b { Pow2Monotonic(a, b - 1); }
  }

  lemma Pow2Word()
    ensures Pow2(64) == WORD_LIMIT
  {
    assert Pow2(4) == 16;
    Pow2Sum(4, 4);
    Pow2Sum(8, 8);
    Pow2Sum(16, 16);
    Pow2Sum(32, 32);
  }

  /** Unsigned subtraction on `size_t`: it wraps below zero. */
  function WrapSub(a: Word, b: Word): Word {
    if a >= b then a - b else a - b + WORD_LIMIT
  }

  /** How many forward steps lead from slot `a` to slot `b` on a ring of `n` slots. */
  function Dist(n: nat, a: nat, b: nat): (d: nat)
    requires a < n && b < n
    ensures d < n
  {
    if a <= b then b - a else n - a + b
  }

  /** The slot `d` steps ahead of `a` on a ring of `n` slots. */
  function Ahead(n: nat, a: nat, d: nat): (b: nat)
    requires a < n && d < n
    ensures b < n && Dist(n, a, b) == d
  {
    if a + d < n then a + d else a + d - n
  }

  /** The wrapped, masked difference of two slot numbers is their ring distance. */
  lemma MaskedDifferenceIsDist(a: Word, b: Word, n: nat)
    requires IsPow2(n) && n <= WORD_LIMIT && a < n && b < n
    ensures And(WrapSub(a, b), n - 1) == Dist(n, b, a)
  {
    MaskIsMod(WrapSub(a, b), n);
    if a >= b {
      ModUnique(a - b, 0, n, a - b);
    } else {
      var c := WordIsMultiple(n);
      ModShift(n + a - b, c - 1, n);
      assert (n + a - b) + (c - 1) * n == a - b + WORD_LIMIT by {
        assert (c - 1) * n == c * n - n;
      }
      ModUnique(n + a - b, 0, n, n + a - b);
    }
  }

  /** A power of two that fits in a word divides the word size. */
  lemma WordIsMultiple(n: nat) returns (c: nat)
    requires IsPow2(n) && n <= WORD_LIMIT
    ensures WORD_LIMIT == c * n
  {
    var k: nat :| n == Pow2(k);
    Pow2Word();
    if k > 64 {
      Pow2Monotonic(65, k);
      assert false;
    }
    Pow2Sum(64 - k, k);
    c := Pow2(64 - k);
  }

  /** Masking the successor of a slot number is one step on the ring. */
  lemma MaskedSuccessorIsAhead(a: nat, n: nat)
    requires IsPow2(n) && a < n
    ensures And(a + 1, n - 1) == if a + 1 < n then a + 1 else 0
  {
    MaskIsMod(a + 1, n);
    if a + 1 < n {
      ModUnique(a + 1, 0, n, a + 1);
    } else {
      ModUnique(a + 1, 1, n, 0);
    }
  }

  /** The number of significant bits, `64 - __builtin_clzl(x)` for a word `x > 0`. */
  function BitLength(x: nat): nat {
    if x == 0 then 0 else 1 + BitLength(x / 2)
  }

  /** `1 << BitLength(t - 1)` is the least power of two that is at least `t`. */
  lemma {:induction false} BitLengthBounds(x: nat)
    ensures x < Pow2(BitLength(x))
    ensures x > 0 ==> Pow2(BitLength(x)) <= 2 * x
  {
    if x > 0 { BitLengthBounds(x / 2); }
  }

  lemma {:induction false} BitLengthMonotonic(x: nat, y: nat)
    requires x <= y
    ensures BitLength(x) <= BitLength(y)
    decreases y
  {
    if x > 0 { BitLengthMonotonic(x / 2, y / 2); }
  }

  lemma {:induction false} BitLengthOfMask(k: nat)
    ensures BitLength(Pow2(k) - 1) == k
  {
    if k > 0 {
      BitLengthOfMask(k - 1);
      assert (2 * Pow2(k - 1) - 1) / 2 == Pow2(k - 1) - 1;
    }
  }

  /** The smallest power of two not below `t`. */
  lemma RoundUpIsLeast(t: nat, m: nat)
    requires t >= 1 && IsPow2(m) && t <= m
    ensures t <= Pow2(BitLength(t - 1)) <= m
  {
    BitLengthBounds(t - 1);
    var k: nat :| m == Pow2(k);
    BitLengthOfMask(k);
    BitLengthMonotonic(t - 1, m - 1);
    Pow2Monotonic(BitLength(t - 1), k);
  }
}

/** Counting facts about finite sets of slot numbers. */
module Counting {
  import opened Words

  function Below(n: nat): (s: set<nat>)
    ensures forall x: nat :: x in s <==> x < n
  {
    if n == 0 then {} else Below(n - 1) + {n - 1}
  }

  lemma {:induction false} BelowSize(n: nat)
    ensures |Below(n)| == n
  {
    if n > 0 { BelowSize(n - 1); }
  }

  lemma {:induction false} SubsetSize<T>(a: set<T>, b: set<T>)
    requires a <= b
    ensures |a| <= |b|
    ensures |a| == |b| ==> a == b
  {
    assert b == a + (b - a);
    assert |b| == |a| + |b - a|;
  }

  /** `n` distinct slots of an `n`-slot table are all its slots. */
  lemma {:induction false} Pigeonhole(f: seq<nat>)
    requires forall i :: 0 <= i < |f| ==> f[i] < |f|
    requires forall i, j :: 0 <= i < j < |f| ==> f[i] != f[j]
    ensures forall x: nat :: x < |f| ==> x in f
  {
    var image := set i | 0 <= i < |f| :: f[i];
    ImageSize(f);
    BelowSize(|f|);
    SubsetSize(image, Below(|f|));
    forall x: nat | x < |f| ensures x in f {
      assert x in image;
    }
  }

  lemma {:induction false} ImageSize<T>(f: seq<T>)
    requires forall i, j :: 0 <= i < j < |f| ==> f[i] != f[j]
    ensures |set i | 0 <= i < |f| :: f[i]| == |f|
  {
    if f != [] {
      var g := f[..|f| - 1];
      ImageSize(g);
      assert (set i | 0 <= i < |f| :: f[i]) == (set i | 0 <= i < |g| :: g[i]) + {f[|f| - 1]};
    }
  }

  /** The slots within `i` steps ahead of `r`. */
  function Arc(n: nat, r: nat, i: nat): set<nat>
    requires r < n
  {
    set x: nat | x < n && Dist(n, r, x) <= i
  }

  lemma {:induction false} ArcSize(n: nat, r: nat, i: nat)
    requires r < n && i < n
    ensures |Arc(n, r, i)| == i + 1
  {
    if i == 0 {
      assert Arc(n, r, i) == {r};
    } else {
      ArcSize(n, r, i - 1);
      ArcGrows(n, r, i);
    }
  }

  lemma ArcGrows(n: nat, r: nat, i: nat)
    requires r < n && 0 < i < n
    ensures Arc(n, r, i) == Arc(n, r, i - 1) + {Ahead(n, r, i)} && Ahead(n, r, i) !in Arc(n, r, i - 1)
  {
    var last := Ahead(n, r, i);
    forall x | x in Arc(n, r, i) ensures x in Arc(n, r, i - 1) || x == last {
    }
  }
}
