/** What a scan leaves behind, word by word, and that scanning a range of objects is scanning each of them,
    except where dependent buckets meet. */
module ScanEffects {
  import opened Optional
  import opened ObjectFormat

  // ---- One slot ---------------------------------------------------------------------------------

  /** The reference in slot `s` is looked at and comes back as NULL. */
  predicate Splatted(mem: seq<Cell>, b: nat, s: nat, f: Fixer) {
    var p := Field(mem, b + 5 + s);
    f.passes(p) && f.fix(p) == 0
  }

  function SlotOf(mem: seq<Cell>, b: nat, s: nat): Cell
    requires b + 5 + s < |mem|
  {
    mem[b + 5 + s]
  }

  /** What slot `s` holds after the scan: a reference that is not looked at stays, a dead one gives way to the
      deleted key, and any other to what it was fixed to. */
  function SlotAfter(mem: seq<Cell>, b: nat, s: nat, f: Fixer): Cell
    requires b + 5 + s < |mem|
  {
    var p := Field(mem, b + 5 + s);
    if !f.passes(p) then SlotOf(mem, b, s)
    else if f.fix(p) == 0 then Plain(f.deleted)
    else Plain(f.fix(p))
  }

  lemma SameSlot(mem: seq<Cell>, m1: seq<Cell>, b: nat, s: nat, f: Fixer)
    requires b + 5 + s < |mem| == |m1| && SlotOf(m1, b, s) == SlotOf(mem, b, s)
    ensures SlotAfter(m1, b, s, f) == SlotAfter(mem, b, s, f) && Splatted(m1, b, s, f) == Splatted(mem, b, s, f)
  {
  }

  /** A tagged counter `n` higher. */
  function CounterAfter(mem: seq<Cell>, a: nat, n: nat): Cell
    requires a < |mem|
  {
    if n == 0 then mem[a] else Plain(2 * (Field(mem, a) / 2 + n) + 1)
  }

  /** The dependent at `x` is another object than the buckets at `b`. */
  predicate Apart(mem: seq<Cell>, b: nat, length: nat, x: Option<nat>) {
    && b + 5 + length <= |mem|
    && (x.Some? ==> x.value + 5 + length <= |mem| && (x.value + 5 + length <= b || b + 5 + length <= x.value))
  }

  /** The word is no counter and no slot from `i` on of the buckets at `b`. */
  predicate Outside(b: nat, length: nat, i: nat, a: nat) {
    a != b + 4 && !(b + 5 + i <= a < b + 5 + length)
  }

  function SplatSet(mem: seq<Cell>, b: nat, length: nat, i: nat, f: Fixer): set<nat> {
    set s: nat | i <= s < length && Splatted(mem, b, s, f)
  }

  /** The words that turn `i` of the loop, or any later one, may write. */
  predicate Touched(b: nat, length: nat, i: nat, x: Option<nat>, a: nat) {
    !Outside(b, length, i, a) || (x.Some? && !Outside(x.value, length, i, a))
  }

  /** One turn of the loop. */
  lemma OneSlot(mem: seq<Cell>, b: nat, length: nat, i: nat, f: Fixer, x: Option<nat>)
    requires i < length && x == LocalDependent(mem, b, f) && Apart(mem, b, length, x)
    ensures var r, n := ScanSlot(mem, b, i, f), if Splatted(mem, b, i, f) then 1 else 0;
            && SlotOf(r, b, i) == SlotAfter(mem, b, i, f) && r[b + 4] == CounterAfter(mem, b + 4, n)
            && (x.Some? ==> SlotOf(r, x.value, i) == if n == 1 then Plain(f.deleted) else SlotOf(mem, x.value, i))
            && (x.Some? ==> r[x.value + 4] == CounterAfter(mem, x.value + 4, n))
            && (forall a: nat :: a < |mem| && !Touched(b, length, i, x, a) ==> r[a] == mem[a])
            && (forall s: nat :: i < s < length ==> SlotOf(r, b, s) == SlotOf(mem, b, s))
            && (x.Some? ==> forall s: nat :: i < s < length ==> SlotOf(r, x.value, s) == SlotOf(mem, x.value, s))
            && LocalDependent(r, b, f) == x
  {
    var m1 := mem[b + 4 := Plain(Bumped(Field(mem, b + 4)))];
    assert Field(m1, b + 1) == Field(mem, b + 1);
    assert LocalDependent(m1, b, f) == x;
  }

  // ---- One buckets object ------------------------------------------------------------------------

  /** One turn of the loop over buckets that are their own dependent: the counter grows twice. */
  lemma SelfSlot(mem: seq<Cell>, b: nat, length: nat, i: nat, f: Fixer)
    requires i < length && b + 5 + length <= |mem| && LocalDependent(mem, b, f) == Some(b)
    ensures var r, n := ScanSlot(mem, b, i, f), if Splatted(mem, b, i, f) then 1 else 0;
            && SlotOf(r, b, i) == SlotAfter(mem, b, i, f) && r[b + 4] == CounterAfter(mem, b + 4, 2 * n)
            && (forall a: nat :: a < |mem| && !Touched(b, length, i, Some(b), a) ==> r[a] == mem[a])
            && (forall s: nat :: i < s < length ==> SlotOf(r, b, s) == SlotOf(mem, b, s))
            && LocalDependent(r, b, f) == Some(b)
  {
    var m1 := mem[b + 4 := Plain(Bumped(Field(mem, b + 4)))];
    assert Field(m1, b + 1) == Field(mem, b + 1);
    assert LocalDependent(m1, b, f) == Some(b);
  }

  lemma SlotTouches(mem: seq<Cell>, b: nat, length: nat, i: nat, f: Fixer, x: Option<nat>)
    requires i < length && b + 5 + length <= |mem| && x == LocalDependent(mem, b, f)
    requires x == Some(b) || Apart(mem, b, length, x)
    ensures var r := ScanSlot(mem, b, i, f);
            && (forall a: nat :: a < |mem| && !Touched(b, length, i, x, a) ==> r[a] == mem[a])
            && LocalDependent(r, b, f) == x
  {
    if x == Some(b) {
      SelfSlot(mem, b, length, i, f);
    } else {
      OneSlot(mem, b, length, i, f, x);
    }
  }

  /** The words that are neither slots nor counters of either object do not change. */
  lemma {:induction false} LoopTouches(mem: seq<Cell>, b: nat, length: nat, i: nat, f: Fixer, x: Option<nat>)
    requires i <= length && b + 5 + length <= |mem| && x == LocalDependent(mem, b, f)
    requires x == Some(b) || Apart(mem, b, length, x)
    ensures var r := ScanSlots(mem, b, length, i, f);
            forall a: nat :: a < |mem| && !Touched(b, length, i, x, a) ==> r[a] == mem[a]
    decreases length - i
  {
    if i < length {
      hide ScanSlot;
      SlotTouches(mem, b, length, i, f, x);
      LoopTouches(ScanSlot(mem, b, i, f), b, length, i + 1, f, x);
      forall a: nat | !Touched(b, length, i, x, a) ensures !Touched(b, length, i + 1, x, a) {
      }
    }
  }

  /** Each slot by itself becomes what it should. */
  lemma {:induction false} OwnSlots(mem: seq<Cell>, b: nat, length: nat, i: nat, f: Fixer, x: Option<nat>)
    requires i <= length && x == LocalDependent(mem, b, f) && Apart(mem, b, length, x)
    ensures var r := ScanSlots(mem, b, length, i, f);
            forall s: nat :: i <= s < length ==> SlotOf(r, b, s) == SlotAfter(mem, b, s, f)
    decreases length - i
  {
    if i < length {
      hide ScanSlot, SlotAfter;
      var m1 := ScanSlot(mem, b, i, f);
      OneSlot(mem, b, length, i, f, x);
      OwnSlots(m1, b, length, i + 1, f, x);
      LoopTouches(m1, b, length, i + 1, f, x);
      var r := ScanSlots(m1, b, length, i + 1, f);
      assert !Touched(b, length, i + 1, x, b + 5 + i);
      forall s: nat | i <= s < length ensures SlotOf(r, b, s) == SlotAfter(mem, b, s, f) {
        if s > i { SameSlot(mem, m1, b, s, f); }
      }
    }
  }

  /** The dependent's slots become deleted where splatted, and stay what they were otherwise. */
  lemma {:induction false} DependentSlots(mem: seq<Cell>, b: nat, length: nat, i: nat, f: Fixer, x: nat)
    requires i <= length && LocalDependent(mem, b, f) == Some(x) && Apart(mem, b, length, Some(x))
    ensures var r := ScanSlots(mem, b, length, i, f);
            forall s: nat :: i <= s < length ==>
              SlotOf(r, x, s) == if Splatted(mem, b, s, f) then Plain(f.deleted) else SlotOf(mem, x, s)
    decreases length - i
  {
    if i < length {
      hide ScanSlot, SlotAfter, Splatted;
      var m1 := ScanSlot(mem, b, i, f);
      OneSlot(mem, b, length, i, f, Some(x));
      DependentSlots(m1, b, length, i + 1, f, x);
      LoopTouches(m1, b, length, i + 1, f, Some(x));
      var r := ScanSlots(m1, b, length, i + 1, f);
      assert !Touched(b, length, i + 1, Some(x), x + 5 + i);
      forall s: nat | i <= s < length
        ensures SlotOf(r, x, s) == if Splatted(mem, b, s, f) then Plain(f.deleted) else SlotOf(mem, x, s)
      {
        if s > i { SameSlot(mem, m1, b, s, f); }
      }
    }
  }

  /** Both counters grow by the number splatted. */
  lemma {:induction false} Counters(mem: seq<Cell>, b: nat, length: nat, i: nat, f: Fixer, x: Option<nat>)
    requires i <= length && x == LocalDependent(mem, b, f) && Apart(mem, b, length, x)
    ensures var r, n := ScanSlots(mem, b, length, i, f), |SplatSet(mem, b, length, i, f)|;
            && r[b + 4] == CounterAfter(mem, b + 4, n)
            && (x.Some? ==> r[x.value + 4] == CounterAfter(mem, x.value + 4, n))
    decreases length - i
  {
    hide ScanSlot, SlotAfter, Splatted, SplatSet;
    if i == length {
      NoneLeft(mem, b, length, f);
    } else {
      var m1 := ScanSlot(mem, b, i, f);
      OneSlot(mem, b, length, i, f, x);
      Counters(m1, b, length, i + 1, f, x);
      SplatSetShrinks(mem, m1, b, length, i, f);
    }
  }

  lemma NoneLeft(mem: seq<Cell>, b: nat, length: nat, f: Fixer)
    ensures SplatSet(mem, b, length, length, f) == {}
  {
  }

  lemma SplatSetShrinks(mem: seq<Cell>, m1: seq<Cell>, b: nat, length: nat, i: nat, f: Fixer)
    requires i < length && b + 5 + length <= |mem| == |m1|
    requires forall s: nat :: i < s < length ==> SlotOf(m1, b, s) == SlotOf(mem, b, s)
    ensures |SplatSet(mem, b, length, i, f)|
              == |SplatSet(m1, b, length, i + 1, f)| + if Splatted(mem, b, i, f) then 1 else 0
  {
    hide Splatted;
    forall s: nat | i < s < length ensures Splatted(m1, b, s, f) == Splatted(mem, b, s, f) {
      SameSlot(mem, m1, b, s, f);
    }
    assert SplatSet(mem, b, length, i, f)
        == SplatSet(m1, b, length, i + 1, f) + if Splatted(mem, b, i, f) then {i} else {};
  }

  /** Where the fixed dependent of the buckets at `b` starts, if it lies in the region. */
  function FixedDependent(mem: seq<Cell>, b: nat, f: Fixer): Option<nat> {
    var d := Field(mem, b + 1);
    if d != 0 && Fixed(f, d) != 0 && f.origin <= Fixed(f, d) < f.origin + |mem| then Some(Fixed(f, d) - f.origin) else None
  }

  lemma FixedIsLocal(mem: seq<Cell>, b: nat, f: Fixer)
    requires b + 1 < |mem|
    ensures LocalDependent(FixDependent(mem, b, f), b, f) == FixedDependent(mem, b, f)
  {
  }

  /** A dependent in the region is one of its objects, and if it is another than the buckets themselves, the two
      lie apart. */
  lemma DependentIsObject(mem: seq<Cell>, bounds: seq<nat>, k: nat, f: Fixer) returns (l: nat)
    requires Laid(mem, bounds) && k + 1 < |bounds| && IsBuckets(mem, bounds[k]) && Averred(mem, bounds, f, bounds[k])
    requires FixedDependent(mem, bounds[k], f).Some?
    ensures l + 1 < |bounds| && FixedDependent(mem, bounds[k], f) == Some(bounds[l])
    ensures var length := Field(mem, bounds[k] + 2) / 2;
            && bounds[k] + 5 + length <= bounds[k + 1] <= |mem|
            && bounds[l] + 5 + length <= bounds[l + 1] <= |mem|
            && (l != k ==> Apart(mem, bounds[k], length, Some(bounds[l])))
  {
    hide Laid;
    var x := FixedDependent(mem, bounds[k], f).value;
    l :| l + 1 < |bounds| && bounds[l] == x && SameLength(mem, bounds[l], bounds[k]);
    BucketsExtent(mem, bounds, k);
    BucketsExtent(mem, bounds, l);
    if l < k { BoundsIncrease(mem, bounds, l, k); } else if k < l { BoundsIncrease(mem, bounds, k, l); }
  }

  /** What scanning buckets has to do: every slot holds what it should, the deleted counter has grown by the
      number splatted, and the dependent is fixed. */
  ghost predicate BucketsDone(mem: seq<Cell>, r: seq<Cell>, b: nat, length: nat, f: Fixer) {
    && |r| == |mem| && b + 5 + length <= |mem|
    && r[b + 1] == (if Field(mem, b + 1) != 0 then Plain(Fixed(f, Field(mem, b + 1))) else mem[b + 1])
    && r[b + 4] == CounterAfter(mem, b + 4, |SplatSet(mem, b, length, 0, f)|)
    && forall s: nat :: s < length ==> SlotOf(r, b, s) == SlotAfter(mem, b, s, f)
  }

  /** What it has to do to the dependent at `x`: the slots are deleted where splatted and otherwise what they
      were, and the deleted counter has grown by as much. */
  ghost predicate DependentDone(mem: seq<Cell>, r: seq<Cell>, b: nat, length: nat, x: nat, f: Fixer) {
    && |r| == |mem| && x + 5 + length <= |mem|
    && r[x + 4] == CounterAfter(mem, x + 4, |SplatSet(mem, b, length, 0, f)|)
    && forall s: nat :: s < length ==>
         SlotOf(r, x, s) == if Splatted(mem, b, s, f) then Plain(f.deleted) else SlotOf(mem, x, s)
  }

  /** Scanning buckets whose dependent is another object, or lies elsewhere: it does what it has to, and no other
      word changes. */
  lemma BucketsScanned(mem: seq<Cell>, bounds: seq<nat>, k: nat, f: Fixer)
    requires Laid(mem, bounds) && k + 1 < |bounds| && IsBuckets(mem, bounds[k]) && Averred(mem, bounds, f, bounds[k])
    requires FixedDependent(mem, bounds[k], f) != Some(bounds[k])
    ensures var b, length := bounds[k], Field(mem, bounds[k] + 2) / 2;
            var r, x := ScanObject(mem, b, f), FixedDependent(mem, b, f);
            && BucketsDone(mem, r, b, length, f)
            && (x.Some? ==> DependentDone(mem, r, b, length, x.value, f))
            && (forall a: nat :: a < |mem| && a != b + 1 && !Touched(b, length, 0, x, a) ==> r[a] == mem[a])
  {
    hide Laid, ScanSlots, SplatSet, SlotAfter, Touched;
    var b, length := bounds[k], Field(mem, bounds[k] + 2) / 2;
    BucketsExtent(mem, bounds, k);
    var x, m1 := FixedDependent(mem, b, f), FixDependent(mem, b, f);
    FixedIsLocal(mem, b, f);
    if x.Some? { var l := DependentIsObject(mem, bounds, k, f); }
    SlotsUnfixed(mem, b, length, f, x);
    LoopTouches(m1, b, length, 0, f, x);
    OwnSlots(m1, b, length, 0, f, x);
    Counters(m1, b, length, 0, f, x);
    if x.Some? { DependentSlots(m1, b, length, 0, f, x.value); }
    OwnIsTouched(b, length, x);
  }

  /** Fixing the dependent changes no slot and no counter. */
  lemma SlotsUnfixed(mem: seq<Cell>, b: nat, length: nat, f: Fixer, x: Option<nat>)
    requires b + 1 < |mem| && Apart(mem, b, length, x)
    ensures var m1 := FixDependent(mem, b, f);
            && (forall s: nat :: s < length ==> SlotOf(m1, b, s) == SlotOf(mem, b, s))
            && (forall s: nat :: s < length ==> SlotAfter(m1, b, s, f) == SlotAfter(mem, b, s, f))
            && (forall s: nat :: s < length ==> Splatted(m1, b, s, f) == Splatted(mem, b, s, f))
            && SplatSet(m1, b, length, 0, f) == SplatSet(mem, b, length, 0, f)
            && m1[b + 4] == mem[b + 4] && Field(m1, b + 4) == Field(mem, b + 4)
            && (x.Some? ==> m1[x.value + 4] == mem[x.value + 4])
            && (x.Some? ==> forall s: nat :: s < length ==> SlotOf(m1, x.value, s) == SlotOf(mem, x.value, s))
  {
    var m1 := FixDependent(mem, b, f);
    forall s: nat | s < length ensures SlotOf(m1, b, s) == SlotOf(mem, b, s) {}
    forall s: nat | s < length
      ensures SlotAfter(m1, b, s, f) == SlotAfter(mem, b, s, f) && Splatted(m1, b, s, f) == Splatted(mem, b, s, f)
    {
      SameSlot(mem, m1, b, s, f);
    }
  }

  lemma OwnIsTouched(b: nat, length: nat, x: Option<nat>)
    requires x.Some? ==> x.value + 5 + length <= b || b + 5 + length <= x.value
    ensures !Touched(b, length, 0, x, b + 1)
  {
  }

  lemma {:induction false} SelfLoop(mem: seq<Cell>, b: nat, length: nat, i: nat, f: Fixer)
    requires i <= length && b + 5 + length <= |mem| && LocalDependent(mem, b, f) == Some(b)
    ensures var r := ScanSlots(mem, b, length, i, f);
            && r[b + 4] == CounterAfter(mem, b + 4, 2 * |SplatSet(mem, b, length, i, f)|)
            && forall s: nat :: i <= s < length ==> SlotOf(r, b, s) == SlotAfter(mem, b, s, f)
    decreases length - i
  {
    hide ScanSlot, SlotAfter, Splatted, SplatSet;
    if i == length {
      NoneLeft(mem, b, length, f);
    } else {
      var m1 := ScanSlot(mem, b, i, f);
      SelfSlot(mem, b, length, i, f);
      SelfLoop(m1, b, length, i + 1, f);
      LoopTouches(m1, b, length, i + 1, f, Some(b));
      SplatSetShrinks(mem, m1, b, length, i, f);
      var r := ScanSlots(m1, b, length, i + 1, f);
      assert !Touched(b, length, i + 1, Some(b), b + 5 + i);
      forall s: nat | i <= s < length ensures SlotOf(r, b, s) == SlotAfter(mem, b, s, f) {
        if s > i { SameSlot(mem, m1, b, s, f); }
      }
    }
  }

  /** Scanning buckets that are their own dependent: the slots end up the same, and the deleted counter grows by
      two for each one splatted. */
  lemma SelfScanned(mem: seq<Cell>, bounds: seq<nat>, k: nat, f: Fixer)
    requires Laid(mem, bounds) && k + 1 < |bounds| && IsBuckets(mem, bounds[k]) && Averred(mem, bounds, f, bounds[k])
    requires FixedDependent(mem, bounds[k], f) == Some(bounds[k])
    ensures var b, length := bounds[k], Field(mem, bounds[k] + 2) / 2;
            var r := ScanObject(mem, b, f);
            && b + 5 + length <= |mem|
            && r[b + 1] == Plain(Fixed(f, Field(mem, b + 1)))
            && r[b + 4] == CounterAfter(mem, b + 4, 2 * |SplatSet(mem, b, length, 0, f)|)
            && (forall s: nat :: s < length ==> SlotOf(r, b, s) == SlotAfter(mem, b, s, f))
            && (forall a: nat :: a < |mem| && a != b + 1 && !Touched(b, length, 0, Some(b), a) ==> r[a] == mem[a])
  {
    hide Laid, ScanSlots, SplatSet, SlotAfter;
    var b, length := bounds[k], Field(mem, bounds[k] + 2) / 2;
    BucketsExtent(mem, bounds, k);
    var m1 := FixDependent(mem, b, f);
    FixedIsLocal(mem, b, f);
    SlotsUnfixed(mem, b, length, f, None);
    SelfLoop(m1, b, length, 0, f);
    LoopTouches(m1, b, length, 0, f, Some(b));
    assert !Touched(b, length, 0, Some(b), b + 1);
  }

  // ---- The other objects -------------------------------------------------------------------------

  /** Scanning a table object fixes its references to its two bucket objects and changes nothing else; objects
      that are neither tables nor buckets do not change at all. */
  lemma OthersScanned(mem: seq<Cell>, bounds: seq<nat>, k: nat, f: Fixer)
    requires Laid(mem, bounds) && k + 1 < |bounds| && !IsBuckets(mem, bounds[k])
    ensures var b, r := bounds[k], ScanObject(mem, bounds[k], f);
            && (!IsTable(mem, b) ==> r == mem)
            && (IsTable(mem, b) ==>
                  && b + 9 <= |mem|
                  && r[b + 7] == Plain(Fixed(f, Field(mem, b + 7))) && r[b + 8] == Plain(Fixed(f, Field(mem, b + 8)))
                  && forall a: nat :: a < |mem| && a != b + 7 && a != b + 8 ==> r[a] == mem[a])
  {
    hide Laid;
    if IsTable(mem, bounds[k]) { TableExtent(mem, bounds, k); }
  }

  // ---- Ranges --------------------------------------------------------------------------------------

  /** Object `q` is a buckets object whose fixed dependent is object `l`. */
  ghost predicate Reaches(mem: seq<Cell>, bounds: seq<nat>, f: Fixer, q: nat, l: nat) {
    && q + 1 < |bounds| && l + 1 < |bounds|
    && IsBuckets(mem, bounds[q]) && FixedDependent(mem, bounds[q], f) == Some(bounds[l])
  }

  /** Among the objects from `i` to `j`, those of the group depend only on one another, and no others depend on
      them. */
  ghost predicate ClosedGroup(mem: seq<Cell>, bounds: seq<nat>, f: Fixer, i: nat, j: nat, group: set<nat>) {
    forall q: nat, l: nat :: i <= q < j && Reaches(mem, bounds, f, q, l) ==> (q in group <==> l in group)
  }

  ghost predicate OwnWord(bounds: seq<nat>, group: set<nat>, a: nat) {
    exists g: nat :: g in group && g + 1 < |bounds| && bounds[g] <= a < bounds[g + 1]
  }

  ghost predicate Agree(bounds: seq<nat>, group: set<nat>, m: seq<Cell>, m': seq<Cell>) {
    |m'| == |m| && forall a: nat :: a < |m| && OwnWord(bounds, group, a) ==> m'[a] == m[a]
  }

  /** Scanning the members of a group, one after the other. */
  function ScanMembers(mem: seq<Cell>, bounds: seq<nat>, i: nat, j: nat, group: set<nat>, f: Fixer): (r: seq<Cell>)
    requires j < |bounds|
    ensures |r| == |mem|
    decreases j - i
  {
    if i >= j then mem
    else ScanMembers(if i in group then ScanObject(mem, bounds[i], f) else mem, bounds, i + 1, j, group, f)
  }

  /** Words of different objects are different words. */
  lemma WordsApart(mem: seq<Cell>, bounds: seq<nat>, k: nat, group: set<nat>, a: nat)
    requires Laid(mem, bounds) && k + 1 < |bounds| && k !in group && OwnWord(bounds, group, a)
    ensures !(bounds[k] <= a < bounds[k + 1])
  {
    hide Laid, OwnWord;
    var g := OwnerOf(bounds, group, a);
    ObjectsApart(mem, bounds, k, g);
  }

  lemma OwnerOf(bounds: seq<nat>, group: set<nat>, a: nat) returns (g: nat)
    requires OwnWord(bounds, group, a)
    ensures g in group && g + 1 < |bounds| && bounds[g] <= a < bounds[g + 1]
  {
    g :| g in group && g + 1 < |bounds| && bounds[g] <= a < bounds[g + 1];
  }

  lemma ObjectsApart(mem: seq<Cell>, bounds: seq<nat>, k: nat, g: nat)
    requires Laid(mem, bounds) && k + 1 < |bounds| && g + 1 < |bounds| && k != g
    ensures bounds[g + 1] <= bounds[k] || bounds[k + 1] <= bounds[g]
  {
    hide Laid;
    if g < k { BoundsIncrease(mem, bounds, g, k); } else { BoundsIncrease(mem, bounds, k, g); }
  }

  /** Scanning an object outside the group that does not depend on a member leaves the members' words alone. */
  lemma OutsiderScanned(mem: seq<Cell>, bounds: seq<nat>, k: nat, group: set<nat>, f: Fixer)
    requires Laid(mem, bounds) && k + 1 < |bounds| && Averred(mem, bounds, f, bounds[k])
    requires k !in group && forall l: nat :: Reaches(mem, bounds, f, k, l) ==> l !in group
    ensures Agree(bounds, group, mem, ScanObject(mem, bounds[k], f))
  {
    hide Laid, ScanSlots, OwnWord, Averred;
    var b, r := bounds[k], ScanObject(mem, bounds[k], f);
    if IsBuckets(mem, b) {
      forall a: nat | a < |mem| && OwnWord(bounds, group, a) ensures r[a] == mem[a] {
        WordsApart(mem, bounds, k, group, a);
        OutsiderBuckets(mem, bounds, k, group, f, a);
      }
    } else {
      OthersScanned(mem, bounds, k, f);
      if IsTable(mem, b) {
        TableExtent(mem, bounds, k);
        forall a: nat | a < |mem| && OwnWord(bounds, group, a) ensures r[a] == mem[a] {
          WordsApart(mem, bounds, k, group, a);
        }
      }
    }
  }

  lemma OutsiderBuckets(mem: seq<Cell>, bounds: seq<nat>, k: nat, group: set<nat>, f: Fixer, a: nat)
    requires Laid(mem, bounds) && k + 1 < |bounds| && Averred(mem, bounds, f, bounds[k]) && IsBuckets(mem, bounds[k])
    requires forall l: nat :: Reaches(mem, bounds, f, k, l) ==> l !in group
    requires a < |mem| && OwnWord(bounds, group, a) && !(bounds[k] <= a < bounds[k + 1])
    ensures ScanObject(mem, bounds[k], f)[a] == mem[a]
  {
    hide Laid, ScanSlots, OwnWord;
    var b, length := bounds[k], Field(mem, bounds[k] + 2) / 2;
    BucketsExtent(mem, bounds, k);
    var x, m1 := FixedDependent(mem, b, f), FixDependent(mem, b, f);
    FixedIsLocal(mem, b, f);
    if x.Some? {
      var l := DependentIsObject(mem, bounds, k, f);
      assert Reaches(mem, bounds, f, k, l);
      WordsApart(mem, bounds, l, group, a);
    }
    LoopTouches(m1, b, length, 0, f, x);
    assert !Touched(b, length, 0, x, a);
  }

  /** A turn of the loop looks at nothing but words of the two objects. */
  lemma OneSlotLocal(m: seq<Cell>, m': seq<Cell>, bounds: seq<nat>, group: set<nat>, b: nat, length: nat, i: nat, f: Fixer)
    requires i < length && b + 5 + length <= |m| && Agree(bounds, group, m, m')
    requires Members(bounds, group, b, length) && (LocalDependent(m, b, f).Some? ==> Members(bounds, group, LocalDependent(m, b, f).value, length))
    requires LocalDependent(m, b, f).Some? ==> LocalDependent(m, b, f).value + 5 + length <= |m|
    ensures Agree(bounds, group, ScanSlot(m, b, i, f), ScanSlot(m', b, i, f))
    ensures LocalDependent(m', b, f) == LocalDependent(m, b, f)
  {
    hide OwnWord, ScanSlot;
    var x := LocalDependent(m, b, f);
    assert m'[b + 1] == m[b + 1] && m'[b + 4] == m[b + 4] && m'[b + 5 + i] == m[b + 5 + i];
    if x.Some? { assert m'[x.value + 4] == m[x.value + 4] && m'[x.value + 5 + i] == m[x.value + 5 + i]; }
    forall a: nat | a < |m| && OwnWord(bounds, group, a) ensures ScanSlot(m', b, i, f)[a] == ScanSlot(m, b, i, f)[a] {
      OneWordLocal(m, m', b, i, f, a);
    }
  }

  /** A word after the turn is decided by itself and the words the turn looks at. */
  lemma OneWordLocal(m: seq<Cell>, m': seq<Cell>, b: nat, i: nat, f: Fixer, a: nat)
    requires |m'| == |m| && b + 5 + i < |m| && a < |m| && m'[a] == m[a]
    requires m'[b + 1] == m[b + 1] && m'[b + 4] == m[b + 4] && m'[b + 5 + i] == m[b + 5 + i]
    requires var x := LocalDependent(m, b, f);
             x.Some? ==> x.value + 5 + i < |m| && m'[x.value + 4] == m[x.value + 4] && m'[x.value + 5 + i] == m[x.value + 5 + i]
    ensures ScanSlot(m', b, i, f)[a] == ScanSlot(m, b, i, f)[a]
  {
    var v := Plain(Bumped(Field(m, b + 4)));
    var m1, m1' := m[b + 4 := v], m'[b + 4 := v];
    assert Field(m1, b + 1) == Field(m, b + 1) && Field(m1', b + 1) == Field(m, b + 1);
    var x := LocalDependent(m, b, f);
    assert LocalDependent(m1, b, f) == x && LocalDependent(m1', b, f) == x;
    if x.Some? {
      var d := x.value;
      var m2, m2' := m1[d + 5 + i := Plain(f.deleted)], m1'[d + 5 + i := Plain(f.deleted)];
      assert Field(m2, d + 4) == Field(m2', d + 4);
    }
  }

  /** All words of an object of this length belong to members. */
  ghost predicate Members(bounds: seq<nat>, group: set<nat>, b: nat, length: nat) {
    forall a: nat :: b <= a < b + 5 + length ==> OwnWord(bounds, group, a)
  }

  lemma {:induction false} LoopLocal(m: seq<Cell>, m': seq<Cell>, bounds: seq<nat>, group: set<nat>, b: nat, length: nat, i: nat,
                                     f: Fixer, x: Option<nat>)
    requires i <= length && b + 5 + length <= |m| && Agree(bounds, group, m, m') && x == LocalDependent(m, b, f)
    requires x == Some(b) || Apart(m, b, length, x)
    requires Members(bounds, group, b, length) && (x.Some? ==> Members(bounds, group, x.value, length))
    ensures Agree(bounds, group, ScanSlots(m, b, length, i, f), ScanSlots(m', b, length, i, f))
    decreases length - i
  {
    hide ScanSlot, Agree, Members, LocalDependent;
    AgreeLength(bounds, group, m, m');
    if i < length {
      OneSlotLocal(m, m', bounds, group, b, length, i, f);
      SlotTouches(m, b, length, i, f, x);
      LoopLocal(ScanSlot(m, b, i, f), ScanSlot(m', b, i, f), bounds, group, b, length, i + 1, f, x);
    }
  }

  lemma AgreeLength(bounds: seq<nat>, group: set<nat>, m: seq<Cell>, m': seq<Cell>)
    requires Agree(bounds, group, m, m')
    ensures |m'| == |m|
  {
  }

  lemma WordsOfMember(bounds: seq<nat>, group: set<nat>, k: nat, length: nat)
    requires k in group && k + 1 < |bounds| && bounds[k] + 5 + length <= bounds[k + 1]
    ensures Members(bounds, group, bounds[k], length)
  {
  }

  /** Scanning a member whose dependent is a member looks at the members' words alone. */
  lemma MemberScanned(m: seq<Cell>, m': seq<Cell>, bounds: seq<nat>, k: nat, group: set<nat>, f: Fixer)
    requires Laid(m, bounds) && k + 1 < |bounds| && Averred(m, bounds, f, bounds[k]) && Agree(bounds, group, m, m')
    requires k in group && forall l: nat :: Reaches(m, bounds, f, k, l) ==> l in group
    ensures Agree(bounds, group, ScanObject(m, bounds[k], f), ScanObject(m', bounds[k], f))
  {
    hide Laid, ScanSlots, Averred;
    var b := bounds[k];
    BoundaryObject(m, bounds, k);
    assert OwnWord(bounds, group, b);
    if IsBuckets(m, b) {
      BucketsExtent(m, bounds, k);
      assert OwnWord(bounds, group, b + 1) && OwnWord(bounds, group, b + 2);
      var length, x := Field(m, b + 2) / 2, FixedDependent(m, b, f);
      WordsOfMember(bounds, group, k, length);
      FixedIsLocal(m, b, f);
      if x.Some? {
        var l := DependentIsObject(m, bounds, k, f);
        assert Reaches(m, bounds, f, k, l);
        WordsOfMember(bounds, group, l, length);
      }
      FixLocal(m, m', bounds, group, b, f);
      LoopLocal(FixDependent(m, b, f), FixDependent(m', b, f), bounds, group, b, length, 0, f, x);
    } else if IsTable(m, b) {
      TableExtent(m, bounds, k);
      assert OwnWord(bounds, group, b + 7) && OwnWord(bounds, group, b + 8);
    }
  }

  lemma FixLocal(m: seq<Cell>, m': seq<Cell>, bounds: seq<nat>, group: set<nat>, b: nat, f: Fixer)
    requires Agree(bounds, group, m, m') && b + 1 < |m| && OwnWord(bounds, group, b + 1)
    ensures Agree(bounds, group, FixDependent(m, b, f), FixDependent(m', b, f))
  {
  }

  /** Who depends on whom among the objects still to be scanned does not change. */
  lemma ClosedStays(mem: seq<Cell>, mem': seq<Cell>, bounds: seq<nat>, f: Fixer, i: nat, j: nat, group: set<nat>)
    requires ClosedGroup(mem, bounds, f, i, j, group) && HeadsKept(mem, mem', bounds, i) && |mem'| == |mem|
    ensures ClosedGroup(mem', bounds, f, i + 1, j, group)
  {
    forall q: nat, l: nat | i + 1 <= q < j && Reaches(mem', bounds, f, q, l) ensures q in group <==> l in group {
      assert HeadKept(mem, mem', bounds[q]);
      assert Reaches(mem, bounds, f, q, l);
    }
  }

  lemma AgreeThrough(bounds: seq<nat>, group: set<nat>, a: seq<Cell>, b: seq<Cell>, c: seq<Cell>)
    requires Agree(bounds, group, a, b) && Agree(bounds, group, a, c)
    ensures Agree(bounds, group, b, c)
  {
  }

  /** Scanning a range does to every closed group of objects what scanning its members, one after the other, does,
      whatever the other objects of the range are. */
  lemma {:induction false} GroupScanned(m: seq<Cell>, m': seq<Cell>, bounds: seq<nat>, i: nat, j: nat, group: set<nat>, f: Fixer)
    requires Laid(m, bounds) && i <= j < |bounds| && AverHolds(m, bounds, f, i, j)
    requires ClosedGroup(m, bounds, f, i, j, group) && Agree(bounds, group, m, m')
    ensures Agree(bounds, group, ScanFrom(m, bounds[i], bounds[j], f).0, ScanMembers(m', bounds, i, j, group, f))
    decreases j - i
  {
    hide Laid, ScanObject, Averred, Agree, HeadsKept, Skip;
    AgreeLength(bounds, group, m, m');
    BoundsIncrease(m, bounds, i, j);
    if i < j {
      BoundaryObject(m, bounds, i);
      var m1 := ScanObject(m, bounds[i], f);
      ScanObjectKeeps(m, bounds, i, f);
      AverStays(m, m1, bounds, f, i, j);
      ClosedStays(m, m1, bounds, f, i, j, group);
      if i in group {
        MemberScanned(m, m', bounds, i, group, f);
        GroupScanned(m1, ScanObject(m', bounds[i], f), bounds, i + 1, j, group, f);
      } else {
        OutsiderScanned(m, bounds, i, group, f);
        AgreeThrough(bounds, group, m, m1, m');
        GroupScanned(m1, m', bounds, i + 1, j, group, f);
      }
    }
  }

  /** In particular an object that depends on no other, and that none depends on, comes out as if it had been
      scanned alone. */
  lemma LonerScanned(mem: seq<Cell>, bounds: seq<nat>, i: nat, j: nat, k: nat, f: Fixer)
    requires Laid(mem, bounds) && i <= k < j < |bounds| && AverHolds(mem, bounds, f, i, j)
    requires forall q: nat, l: nat :: i <= q < j && Reaches(mem, bounds, f, q, l) ==> (q == k <==> l == k)
    ensures var r, alone := ScanFrom(mem, bounds[i], bounds[j], f).0, ScanObject(mem, bounds[k], f);
            |r| == |alone| && forall a: nat :: bounds[k] <= a < bounds[k + 1] && a < |r| ==> r[a] == alone[a]
  {
    hide Laid, ScanObject, Averred, ScanFrom;
    GroupScanned(mem, mem, bounds, i, j, {k}, f);
    OneMember(mem, bounds, i, j, k, f);
    forall a: nat | bounds[k] <= a < bounds[k + 1] ensures OwnWord(bounds, {k}, a) {}
  }

  lemma {:induction false} OneMember(mem: seq<Cell>, bounds: seq<nat>, i: nat, j: nat, k: nat, f: Fixer)
    requires j < |bounds|
    ensures ScanMembers(mem, bounds, i, j, {k}, f) == if i <= k < j then ScanObject(mem, bounds[k], f) else mem
    decreases j - i
  {
    hide ScanObject;
    if i < j {
      OneMember(if i == k then ScanObject(mem, bounds[i], f) else mem, bounds, i + 1, j, k, f);
    }
  }

  /** And two buckets objects that are each other's dependents come out as if the two had been scanned alone, in the
      order in which they lie. */
  lemma PairScanned(mem: seq<Cell>, bounds: seq<nat>, i: nat, j: nat, k: nat, l: nat, f: Fixer)
    requires Laid(mem, bounds) && i <= k < l < j < |bounds| && AverHolds(mem, bounds, f, i, j)
    requires forall q: nat, x: nat :: i <= q < j && Reaches(mem, bounds, f, q, x) ==> (q in {k, l} <==> x in {k, l})
    ensures var r, both := ScanFrom(mem, bounds[i], bounds[j], f).0, ScanObject(ScanObject(mem, bounds[k], f), bounds[l], f);
            |r| == |both| && forall a: nat :: a < |r| && (bounds[k] <= a < bounds[k + 1] || bounds[l] <= a < bounds[l + 1]) ==>
              r[a] == both[a]
  {
    hide Laid, ScanObject, Averred, ScanFrom;
    GroupScanned(mem, mem, bounds, i, j, {k, l}, f);
    TwoMembers(mem, bounds, i, j, k, l, f);
    forall a: nat | bounds[k] <= a < bounds[k + 1] || bounds[l] <= a < bounds[l + 1] ensures OwnWord(bounds, {k, l}, a) {}
  }

  lemma {:induction false} TwoMembers(mem: seq<Cell>, bounds: seq<nat>, i: nat, j: nat, k: nat, l: nat, f: Fixer)
    requires i <= k < l < j < |bounds|
    ensures ScanMembers(mem, bounds, i, j, {k, l}, f) == ScanObject(ScanObject(mem, bounds[k], f), bounds[l], f)
    decreases j - i
  {
    hide ScanObject;
    if i == k {
      LastMember(ScanObject(mem, bounds[k], f), bounds, i + 1, j, k, l, f);
    } else {
      TwoMembers(mem, bounds, i + 1, j, k, l, f);
    }
  }

  lemma {:induction false} LastMember(mem: seq<Cell>, bounds: seq<nat>, i: nat, j: nat, k: nat, l: nat, f: Fixer)
    requires k < i && j < |bounds|
    ensures ScanMembers(mem, bounds, i, j, {k, l}, f) == if i <= l < j then ScanObject(mem, bounds[l], f) else mem
    decreases j - i
  {
    hide ScanObject;
    if i < j {
      LastMember(if i == l then ScanObject(mem, bounds[i], f) else mem, bounds, i + 1, j, k, l, f);
    }
  }
}
