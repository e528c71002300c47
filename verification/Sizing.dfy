/** How large the linear-probing table is made. */
module Sizing {
  import opened Words

  const SIZE_MIN: nat := 32
  const SIZE_DEFAULT: nat := 128

  /** `1 << 30`, the largest power of two the `int` shift can produce. */
  const SIZE_LIMIT: nat := 0x4000_0000

  /** `calc_table_size`: room for a load of three quarters, at least the initial size. */
  function CalcTableSize(init: nat, size: nat): nat
    requires init >= SIZE_MIN
  {
    var wanted := size + size / 3;
    if wanted < init then init else Pow2(BitLength(wanted - 1))
  }

  /** The shift of `calc_table_size` stays within an `int`. */
  predicate InRange(size: nat) {
    size + size / 3 <= SIZE_LIMIT
  }

  lemma LimitIsPow2()
    ensures SIZE_LIMIT == Pow2(30) && SIZE_MIN == Pow2(5) && SIZE_DEFAULT == Pow2(7)
  {
    assert Pow2(5) == 32;
    assert Pow2(7) == 128;
    Pow2Sum(5, 5);
    Pow2Sum(10, 10);
    Pow2Sum(20, 10);
  }

  ghost predicate GoodInit(init: nat) {
    IsPow2(init) && SIZE_MIN <= init <= SIZE_LIMIT
  }

  lemma DefaultsAreGood()
    ensures GoodInit(SIZE_MIN) && GoodInit(SIZE_DEFAULT) && IsPow2(SIZE_LIMIT)
  {
    LimitIsPow2();
  }

  /** The result is the least power of two with room for the load, not below the initial size; it
      always leaves a free slot, and it never exceeds the limit for sizes in range. */
  lemma CalcBounds(init: nat, size: nat)
    requires IsPow2(init) && SIZE_MIN <= init
    ensures var r := CalcTableSize(init, size);
            && IsPow2(r) && r >= init && r >= size + size / 3 && r > size
            && (forall m: nat :: IsPow2(m) && m >= init && m >= size + size / 3 ==> r <= m)
            && (InRange(size) && init <= SIZE_LIMIT ==> r <= SIZE_LIMIT)
  {
    LimitIsPow2();
    var wanted := size + size / 3;
    if wanted >= init {
      assert IsPow2(Pow2(BitLength(wanted - 1)));
      BitLengthBounds(wanted - 1);
      forall m: nat | IsPow2(m) && m >= wanted ensures CalcTableSize(init, size) <= m {
        RoundUpIsLeast(wanted, m);
      }
      if InRange(size) {
        assert IsPow2(SIZE_LIMIT);
        RoundUpIsLeast(wanted, SIZE_LIMIT);
      }
    }
  }

  /** The sizes in range are exactly those for which `1 << n` is not reached or stays within an `int`. */
  lemma ShiftIsDefinedIff(init: nat, size: nat)
    requires GoodInit(init)
    ensures InRange(size) <==> size + size / 3 < init || BitLength(size + size / 3 - 1) <= 30
  {
    LimitIsPow2();
    var wanted := size + size / 3;
    if wanted >= init {
      BitLengthBounds(wanted - 1);
      BitLengthOfMask(30);
      if wanted <= SIZE_LIMIT {
        BitLengthMonotonic(wanted - 1, SIZE_LIMIT - 1);
      } else if BitLength(wanted - 1) <= 30 {
        Pow2Monotonic(BitLength(wanted - 1), 30);
        assert false;
      }
    }
  }

  /** With another initial size the table wanted is no larger than before, or than that initial size. */
  lemma CalcUnderInit(init: nat, init': nat, s: nat)
    requires GoodInit(init) && GoodInit(init')
    ensures CalcTableSize(init', s) <= init' || CalcTableSize(init', s) <= CalcTableSize(init, s)
  {
    CalcBounds(init, s);
    CalcBounds(init', s);
    if init' <= CalcTableSize(init, s) { assert IsPow2(CalcTableSize(init, s)); }
  }

  /** An initial size computed for a capacity serves every size up to that capacity. */
  lemma ReserveSuffices(capacity: nat, s: nat)
    requires s <= capacity
    ensures var init := CalcTableSize(SIZE_MIN, capacity);
            && IsPow2(init) && SIZE_MIN <= init && CalcTableSize(init, s) == init
            && (InRange(capacity) ==> GoodInit(init))
  {
    LimitIsPow2();
    CalcBounds(SIZE_MIN, capacity);
    var init := CalcTableSize(SIZE_MIN, capacity);
    CalcBounds(init, s);
  }
}
