/** The probe sequence of the metadata hash table: an odd stride over a
    power-of-two number of buckets. */
module Probing {
  import opened Words
  import Counting

  /** `(h >> 8) | 1` */
  function Stride(h: Word): (q: nat)
    ensures q % 2 == 1
    ensures q <= WORD_LIMIT / 256
  {
    var q := h / 256;
    if q % 2 == 0 then q + 1 else q
  }

  /** The stride drops the low eight bits of the hash and sets the lowest of the rest. */
  lemma StrideIsShifted(h: Word)
    ensures Stride(h) / 2 == h / 512 && Stride(h) % 2 == 1
  {
  }

  /** The bucket inspected at step `t` of the search from hash `h`. */
  function Slot(h: Word, t: nat, length: nat): (i: nat)
    requires length > 0
    ensures i < length
  {
    (h + t * Stride(h)) % length
  }

  /** The search starts at the masked hash. */
  lemma SlotStarts(h: Word, length: nat)
    requires IsPow2(length)
    ensures And(h, length - 1) == Slot(h, 0, length)
  {
    MaskIsMod(h, length);
  }

  /** The masked addition in the loop moves to the next bucket of the sequence. */
  lemma SlotStep(h: Word, t: nat, length: nat)
    requires IsPow2(length)
    ensures And(Slot(h, t, length) + Stride(h), length - 1) == Slot(h, t + 1, length)
  {
    var q := Stride(h);
    MaskIsMod(Slot(h, t, length) + q, length);
    ModAdd(h + t * q, q, length);
    assert (h + t * q) + q == h + (t + 1) * q;
  }

  /** The addition stays in an `unsigned long` for every table that fits in memory. */
  lemma SlotStepDoesNotWrap(h: Word, t: nat, length: nat)
    requires 0 < length <= WORD_LIMIT / 2
    ensures Slot(h, t, length) + Stride(h) < WORD_LIMIT
  {
  }

  /** After `length` steps the search is back at its first bucket. */
  lemma SlotReturns(h: Word, length: nat)
    requires length > 0
    ensures Slot(h, length, length) == Slot(h, 0, length)
  {
    ModShift(h, Stride(h), length);
    assert h + length * Stride(h) == h + Stride(h) * length;
  }

  lemma OddTimesOdd(d: nat, q: nat)
    requires d % 2 == 1 && q % 2 == 1
    ensures (d * q) % 2 == 1
  {
    var e, f := d / 2, q / 2;
    var half := d * f + e;
    assert d * q == d * (2 * f) + d;
    assert d * (2 * f) == 2 * (d * f);
    ModUnique(d * q, half, 2, 1);
  }

  /** If `2m` divides `d * q` with `q` odd, then `d` is even and `m` divides `(d / 2) * q`. */
  lemma HalveFactor(m: nat, d: nat, q: nat)
    requires m > 0 && q % 2 == 1 && (d * q) % (2 * m) == 0
    ensures d % 2 == 0 && ((d / 2) * q) % m == 0
  {
    ModOfDouble(d * q, m);
    if d % 2 == 1 {
      OddTimesOdd(d, q);
      assert false;
    }
    var e := d / 2;
    assert d * q == 2 * (e * q) by { assert d == 2 * e; }
    assert (d * q) / 2 == e * q;
  }

  /** An odd factor cannot supply a power of two. */
  lemma {:induction false} OddFactorDrops(k: nat, d: nat, q: nat)
    requires q % 2 == 1 && (d * q) % Pow2(k) == 0
    ensures d % Pow2(k) == 0
    decreases k
  {
    if k > 0 {
      HalveFactor(Pow2(k - 1), d, q);
      OddFactorDrops(k - 1, d / 2, q);
      ModOfDouble(d, Pow2(k - 1));
    }
  }

  /** No bucket is inspected twice in the first `length` steps. */
  lemma SlotsDistinct(h: Word, t: nat, u: nat, length: nat)
    requires IsPow2(length) && t < u < length
    ensures Slot(h, t, length) != Slot(h, u, length)
  {
    if Slot(h, t, length) == Slot(h, u, length) {
      var q := Stride(h);
      var x, y := h + t * q, h + u * q;
      assert (u - t) * q == y - x;
      assert x == (x / length) * length + x % length;
      assert y == (y / length) * length + x % length;
      assert y - x == (y / length - x / length) * length + 0;
      ModUnique((u - t) * q, y / length - x / length, length, 0);
      var k: nat :| length == Pow2(k);
      OddFactorDrops(k, u - t, q);
      ModUnique(u - t, 0, length, u - t);
      assert false;
    }
  }

  /** Every bucket is inspected in the first `length` steps. */
  lemma SlotsCover(h: Word, x: nat, length: nat) returns (t: nat)
    requires IsPow2(length) && x < length
    ensures t < length && Slot(h, t, length) == x
  {
    var f: seq<nat> := seq(length, (i: nat) => Slot(h, i, length));
    forall i, j | 0 <= i < j < length ensures f[i] != f[j] {
      SlotsDistinct(h, i, j, length);
    }
    Counting.Pigeonhole(f);
    assert x in f;
    t :| t < length && f[t] == x;
  }

  /** The search returns to its first bucket after exactly `length` steps. */
  lemma FullCycle(h: Word, t: nat, length: nat)
    requires IsPow2(length) && 0 < t <= length
    ensures Slot(h, t, length) == Slot(h, 0, length) <==> t == length
  {
    if t == length {
      SlotReturns(h, length);
    } else {
      SlotsDistinct(h, 0, t, length);
    }
  }
}
