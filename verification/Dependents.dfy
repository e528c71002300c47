/** Buckets and their dependents: a program that links buckets of equal length, under a collector that
    leaves them where they are and reclaims none that others depend on, never meets the scanner's
    assertion about the length of a dependent. */
module Dependents {
  import opened Optional
  import opened ObjectFormat

  /** The stretch of memory that the region grows in: the address of its first word, and its size. Addresses
      outside it belong to other regions. */
  datatype Chunk = Chunk(origin: nat, size: nat) {
    predicate Holds(a: nat) {
      origin <= a < origin + size
    }
  }

  ghost predicate Starts(r: Region, b: nat) {
    exists k: nat :: k + 1 < |r.bounds| && r.bounds[k] == b
  }

  /** If address `d` is in the chunk, buckets of the same length as those at `b` start there. */
  ghost predicate Partner(r: Region, b: nat, d: nat, chunk: Chunk) {
    chunk.Holds(d) ==> Starts(r, d - chunk.origin) && SameLength(r.mem, d - chunk.origin, b)
  }

  predicate HasDependent(r: Region, b: nat) {
    IsBuckets(r.mem, b) && Field(r.mem, b + 1) != 0
  }

  /** The region keeps to its chunk, and every dependent that lies there is as long as the buckets it belongs
      to. */
  ghost predicate Linked(r: Region, chunk: Chunk) {
    && |r.mem| <= chunk.size
    && forall k: nat :: k + 1 < |r.bounds| && HasDependent(r, r.bounds[k]) ==>
         Partner(r, r.bounds[k], Field(r.mem, r.bounds[k] + 1), chunk)
  }

  /** No buckets outside the words from `lo` to `hi` depend on any in there. */
  ghost predicate Unneeded(r: Region, lo: nat, hi: nat, chunk: Chunk) {
    forall k: nat :: k + 1 < |r.bounds| && HasDependent(r, r.bounds[k]) && !(lo <= r.bounds[k] < hi) ==>
      !(chunk.origin + lo <= Field(r.mem, r.bounds[k] + 1) < chunk.origin + hi)
  }

  /** The program links buckets of equal length; the collector forwards and reclaims only what no buckets
      elsewhere depend on, and leaves the dependents of the others where they are. */
  ghost predicate Tidy(r: Region, e: Event, chunk: Chunk) {
    match e
    case Allocate(_, raw) => Legal(r, e) && |r.mem| + |raw| <= chunk.size
    case SetDependent(i, to) => Legal(r, e) && (to == 0 || Partner(r, r.bounds[i], to, chunk))
    case ForwardObject(i, _) => Legal(r, e) && Unneeded(r, r.bounds[i], r.bounds[i + 1], chunk)
    case PadObjects(i, j, _) => Legal(r, e) && Unneeded(r, r.bounds[i], r.bounds[j], chunk)
    case PadFresh(raw, _) => Legal(r, e) && |r.mem| + |raw| <= chunk.size
    case ScanRange(i, j, f) => i <= j < |r.bounds| && f.origin == chunk.origin && LeavesDependents(r, i, j, f)
  }

  /** The scan of objects `i` to `j` finds their dependents where they were. */
  ghost predicate LeavesDependents(r: Region, i: nat, j: nat, f: Fixer) {
    forall k: nat :: i <= k < j && k + 1 < |r.bounds| && HasDependent(r, r.bounds[k]) ==>
      Fixed(f, Field(r.mem, r.bounds[k] + 1)) == Field(r.mem, r.bounds[k] + 1)
  }

  /** The object at `b` has the same header, dependent and length in both regions. */
  predicate SameHead(r: Region, r': Region, b: nat) {
    && b < |r.mem| && b < |r'.mem| && r'.mem[b] == r.mem[b]
    && (IsBuckets(r.mem, b) ==> Field(r'.mem, b + 1) == Field(r.mem, b + 1) && Field(r'.mem, b + 2) == Field(r.mem, b + 2))
  }

  /** The object at `b` is in both regions, with the same head. */
  ghost predicate Carried(r: Region, r': Region, b: nat) {
    Starts(r, b) && Starts(r', b) && SameHead(r, r', b)
  }

  /** Buckets that are carried over together with their dependent stay linked. */
  lemma LinkCarried(r: Region, r': Region, b: nat, chunk: Chunk)
    requires Linked(r, chunk) && Carried(r, r', b) && HasDependent(r', b)
    requires forall x: nat :: Starts(r, x) && x + chunk.origin == Field(r.mem, b + 1) ==> Carried(r, r', x)
    ensures Partner(r', b, Field(r'.mem, b + 1), chunk)
  {
    var k: nat :| k + 1 < |r.bounds| && r.bounds[k] == b;
    assert Partner(r, r.bounds[k], Field(r.mem, b + 1), chunk);
    if chunk.Holds(Field(r.mem, b + 1)) { assert Carried(r, r', Field(r.mem, b + 1) - chunk.origin); }
  }

  /** Objects appended to the region are linked if they have no dependent yet. */
  lemma AppendLinked(r: Region, r': Region, im: seq<Cell>, chunk: Chunk)
    requires Laid(r.mem, r.bounds) && Linked(r, chunk)
    requires r'.mem == r.mem + im && r'.bounds == r.bounds + [|r'.mem|]
    requires !HasDependent(r', |r.mem|) && |r'.mem| <= chunk.size
    ensures Linked(r', chunk)
  {
    hide Laid;
    LimitIsLast(r.mem, r.bounds);
    forall k: nat | k + 1 < |r'.bounds| && HasDependent(r', r'.bounds[k])
      ensures Partner(r', r'.bounds[k], Field(r'.mem, r'.bounds[k] + 1), chunk)
    {
      if k + 1 < |r.bounds| {
        AllCarried(r, r', im);
        LinkCarried(r, r', r.bounds[k], chunk);
      }
    }
  }

  lemma AllCarried(r: Region, r': Region, im: seq<Cell>)
    requires Laid(r.mem, r.bounds) && r'.mem == r.mem + im && r'.bounds == r.bounds + [|r'.mem|]
    ensures forall x: nat :: Starts(r, x) ==> Carried(r, r', x)
  {
    hide Laid, SameHead;
    forall x: nat | Starts(r, x) ensures Carried(r, r', x) {
      var j: nat :| j + 1 < |r.bounds| && r.bounds[j] == x;
      AppendCarries(r, r', im, j);
    }
  }

  lemma AppendCarries(r: Region, r': Region, im: seq<Cell>, j: nat)
    requires Laid(r.mem, r.bounds) && r'.mem == r.mem + im && r'.bounds == r.bounds + [|r'.mem|]
    requires j + 1 < |r.bounds|
    ensures Carried(r, r', r.bounds[j])
  {
    hide Laid;
    BoundaryObject(r.mem, r.bounds, j);
    if IsBuckets(r.mem, r.bounds[j]) { BucketsExtent(r.mem, r.bounds, j); }
    assert r'.bounds[j] == r.bounds[j];
  }

  /** An image of fresh buckets names no dependent. */
  lemma AllocLinked(r: Region, o: Object, raw: seq<Cell>, chunk: Chunk)
    requires Laid(r.mem, r.bounds) && Linked(r, chunk) && |raw| == ReservedWords(o) && |r.mem| + |raw| <= chunk.size
    ensures Linked(After(r, Allocate(o, raw)), chunk)
  {
    hide Laid, Linked;
    var im, r' := Image(o, raw), After(r, Allocate(o, raw));
    assert r'.mem[|r.mem|] == im[0] == Written(o)[0];
    if im[0].Header? && im[0].tag.Buckets? {
      assert r'.mem[|r.mem| + 1] == im[1] == Written(o)[1] == Plain(0);
    }
    AppendLinked(r, r', im, chunk);
  }

  lemma PadFreshLinked(r: Region, raw: seq<Cell>, pinned: bool, chunk: Chunk)
    requires Laid(r.mem, r.bounds) && Linked(r, chunk) && |raw| >= 1 && |r.mem| + |raw| <= chunk.size
    ensures Linked(After(r, PadFresh(raw, pinned)), chunk)
  {
    hide Laid, Linked;
    var im, r' := PadOver(raw, 0, |raw|, pinned), After(r, PadFresh(raw, pinned));
    assert r'.mem[|r.mem|] == im[0];
    AppendLinked(r, r', im, chunk);
  }

  lemma SetDependentLinked(r: Region, i: nat, to: nat, chunk: Chunk)
    requires Laid(r.mem, r.bounds) && Linked(r, chunk) && Tidy(r, SetDependent(i, to), chunk)
    ensures Linked(After(r, SetDependent(i, to)), chunk)
  {
    hide Laid;
    var r' := After(r, SetDependent(i, to));
    SetDependentKeeps(r.mem, r.bounds, i, to);
    forall k: nat | k + 1 < |r'.bounds| && HasDependent(r', r'.bounds[k])
      ensures Partner(r', r'.bounds[k], Field(r'.mem, r'.bounds[k] + 1), chunk)
    {
      assert LengthKept(r.mem, r'.mem, r.bounds[k]) && (k != i ==> HeadKept(r.mem, r'.mem, r.bounds[k]));
      assert HasDependent(r, r.bounds[k]) || k == i;
      PartnerStays(r, r', r.bounds[k], Field(r'.mem, r.bounds[k] + 1), chunk);
    }
  }

  lemma PartnerStays(r: Region, r': Region, b: nat, d: nat, chunk: Chunk)
    requires Partner(r, b, d, chunk) && r'.bounds == r.bounds && IsBuckets(r.mem, b) && LengthKept(r.mem, r'.mem, b)
    requires forall k: nat :: k + 1 < |r.bounds| ==> LengthKept(r.mem, r'.mem, r.bounds[k])
    ensures Partner(r', b, d, chunk)
  {
    if chunk.Holds(d) {
      var j: nat :| j + 1 < |r.bounds| && r.bounds[j] == d - chunk.origin;
      assert LengthKept(r.mem, r'.mem, r.bounds[j]);
      assert r'.bounds[j] == d - chunk.origin;
    }
  }

  // ---- Reclaiming ----------------------------------------------------------------------------------

  /** Rewriting the words from `lo` to `hi` into something that names no dependent. */
  lemma ReclaimLinked(r: Region, r': Region, lo: nat, hi: nat, chunk: Chunk)
    requires Linked(r, chunk) && Unneeded(r, lo, hi, chunk) && |r'.mem| == |r.mem|
    requires forall x: nat :: Starts(r, x) && !(lo <= x < hi) ==> Carried(r, r', x)
    requires forall x: nat :: Starts(r', x) && HasDependent(r', x) ==> Starts(r, x) && !(lo <= x < hi)
    ensures Linked(r', chunk)
  {
    hide SameHead, SameLength;
    forall k: nat | k + 1 < |r'.bounds| && HasDependent(r', r'.bounds[k])
      ensures Partner(r', r'.bounds[k], Field(r'.mem, r'.bounds[k] + 1), chunk)
    {
      assert Starts(r', r'.bounds[k]);
      KeepsItsLink(r, r', lo, hi, r'.bounds[k], chunk);
    }
  }

  lemma KeepsItsLink(r: Region, r': Region, lo: nat, hi: nat, b: nat, chunk: Chunk)
    requires Linked(r, chunk) && Unneeded(r, lo, hi, chunk) && HasDependent(r', b) && Carried(r, r', b) && !(lo <= b < hi)
    requires forall x: nat :: Starts(r, x) && !(lo <= x < hi) ==> Carried(r, r', x)
    ensures Partner(r', b, Field(r'.mem, b + 1), chunk)
  {
    var k: nat :| k + 1 < |r.bounds| && r.bounds[k] == b;
    assert HasDependent(r, r.bounds[k]);
    LinkCarried(r, r', b, chunk);
  }

  /** An object outside the words rewritten is carried over. */
  lemma OutsideCarried(r: Region, r': Region, i: nat, j: nat, k: nat)
    requires Laid(r.mem, r.bounds) && i < j < |r.bounds| && k + 1 < |r.bounds| && (k < i || j <= k)
    requires |r'.mem| == |r.mem| && Starts(r', r.bounds[k])
    requires forall a: nat :: a < |r.mem| && !(r.bounds[i] <= a < r.bounds[j]) ==> r'.mem[a] == r.mem[a]
    ensures Carried(r, r', r.bounds[k]) && !(r.bounds[i] <= r.bounds[k] < r.bounds[j])
  {
    hide Laid;
    BoundaryObject(r.mem, r.bounds, k);
    BoundsIncrease(r.mem, r.bounds, i, j);
    if k < i { BoundsIncrease(r.mem, r.bounds, k, i); } else { BoundsIncrease(r.mem, r.bounds, j, k); }
    if IsBuckets(r.mem, r.bounds[k]) { BucketsExtent(r.mem, r.bounds, k); }
  }

  lemma ForwardLinked(r: Region, i: nat, to: nat, chunk: Chunk)
    requires Laid(r.mem, r.bounds) && Linked(r, chunk) && Tidy(r, ForwardObject(i, to), chunk)
    ensures Linked(After(r, ForwardObject(i, to)), chunk)
  {
    hide Laid, SameHead, Linked, Unneeded, IsFwd;
    var r' := After(r, ForwardObject(i, to));
    var lo, hi := r.bounds[i], r.bounds[i + 1];
    BoundaryObject(r.mem, r.bounds, i);
    ForwardKeeps(r.mem, lo, hi - lo, to);
    assert !IsBuckets(r'.mem, lo);
    forall x: nat | Starts(r, x) && x != lo ensures Carried(r, r', x) && !(lo <= x < hi) {
      var k: nat :| k + 1 < |r.bounds| && r.bounds[k] == x;
      assert r'.bounds[k] == x;
      OutsideCarried(r, r', i, i + 1, k);
    }
    ReclaimLinked(r, r', lo, hi, chunk);
  }

  lemma PadLinked(r: Region, i: nat, j: nat, pinned: bool, chunk: Chunk)
    requires Laid(r.mem, r.bounds) && Linked(r, chunk) && Tidy(r, PadObjects(i, j, pinned), chunk)
    ensures Linked(After(r, PadObjects(i, j, pinned)), chunk)
  {
    hide Laid, SameHead, Linked, Unneeded, Starts, IsFwd, ObjectAt;
    var r' := After(r, PadObjects(i, j, pinned));
    var lo, hi := r.bounds[i], r.bounds[j];
    PadIsObject(r.mem, lo, hi - lo, pinned);
    forall x: nat | Starts(r, x) && !(lo <= x < hi) ensures Carried(r, r', x) {
      PadCarries(r, r', i, j, x);
    }
    forall x: nat | Starts(r', x) && HasDependent(r', x) ensures Starts(r, x) && !(lo <= x < hi) {
      assert x != lo;
      PadStartsNone(r, r', i, j, x);
    }
    ReclaimLinked(r, r', lo, hi, chunk);
  }

  lemma PadCarries(r: Region, r': Region, i: nat, j: nat, x: nat)
    requires Laid(r.mem, r.bounds) && i < j < |r.bounds| && r'.bounds == r.bounds[..i + 1] + r.bounds[j..]
    requires |r'.mem| == |r.mem| && Starts(r, x) && !(r.bounds[i] <= x < r.bounds[j])
    requires forall a: nat :: a < |r.mem| && !(r.bounds[i] <= a < r.bounds[j]) ==> r'.mem[a] == r.mem[a]
    ensures Carried(r, r', x)
  {
    hide Laid, SameHead;
    var k: nat :| k + 1 < |r.bounds| && r.bounds[k] == x;
    InsideRange(r, i, j, k);
    var k' := if k < i then k else k - j + i + 1;
    assert k' + 1 < |r'.bounds| && r'.bounds[k'] == x;
    OutsideCarried(r, r', i, j, k);
  }

  /** Padding starts no object where none started, other than the padding itself. */
  lemma PadStartsNone(r: Region, r': Region, i: nat, j: nat, x: nat)
    requires Laid(r.mem, r.bounds) && i < j < |r.bounds| && r'.bounds == r.bounds[..i + 1] + r.bounds[j..]
    requires Starts(r', x) && x != r.bounds[i]
    ensures Starts(r, x) && !(r.bounds[i] <= x < r.bounds[j])
  {
    hide Laid;
    var k': nat :| k' + 1 < |r'.bounds| && r'.bounds[k'] == x;
    var k := if k' < i then k' else k' + j - i - 1;
    assert k + 1 < |r.bounds| && r.bounds[k] == x;
    if k < i { BoundsIncrease(r.mem, r.bounds, k, i); } else { BoundsIncrease(r.mem, r.bounds, j, k); }
  }

  lemma InsideRange(r: Region, i: nat, j: nat, k: nat)
    requires Laid(r.mem, r.bounds) && i < j < |r.bounds| && k + 1 < |r.bounds|
    ensures i <= k < j ==> r.bounds[i] <= r.bounds[k] < r.bounds[j]
  {
    if i <= k < j {
      BoundsIncrease(r.mem, r.bounds, i, k);
      BoundsIncrease(r.mem, r.bounds, k, j);
    }
  }

  // ---- Scanning ------------------------------------------------------------------------------------

  /** Linked buckets meet the scanner's assertion, if the scan leaves their dependents alone. */
  lemma LinkedMeetsAssertion(r: Region, i: nat, j: nat, f: Fixer, chunk: Chunk)
    requires Linked(r, chunk) && f.origin == chunk.origin && LeavesDependents(r, i, j, f)
    ensures AverHolds(r.mem, r.bounds, f, i, j)
  {
    forall k: nat | i <= k < j && k + 1 < |r.bounds| ensures Averred(r.mem, r.bounds, f, r.bounds[k]) {
      if HasDependent(r, r.bounds[k]) {
        assert Partner(r, r.bounds[k], Field(r.mem, r.bounds[k] + 1), chunk);
      }
    }
  }

  /** Such a scan keeps every head of the region. */
  lemma {:induction false} ScanKeepsHeads(r: Region, f: Fixer, i: nat, j: nat)
    requires Laid(r.mem, r.bounds) && i <= j < |r.bounds|
    requires AverHolds(r.mem, r.bounds, f, i, j) && LeavesDependents(r, i, j, f)
    ensures var m := ScanFrom(r.mem, r.bounds[i], r.bounds[j], f).0;
            |m| == |r.mem| && forall k: nat :: k + 1 < |r.bounds| ==> HeadKept(r.mem, m, r.bounds[k])
    decreases j - i
  {
    hide Laid, ScanObject, Averred, Field;
    BoundsIncrease(r.mem, r.bounds, i, j);
    if i == j {
      HeadsAreTheirOwn(r);
    } else {
      BoundaryObject(r.mem, r.bounds, i);
      var r1 := Region(ScanObject(r.mem, r.bounds[i], f), r.bounds);
      ScanObjectKeeps(r.mem, r.bounds, i, f);
      OwnDependentStays(r, f, i, j);
      LeavesThemStill(r, r1, i, j, f);
      AverStays(r.mem, r1.mem, r.bounds, f, i, j);
      ScanKeepsHeads(r1, f, i + 1, j);
      forall k: nat | k + 1 < |r.bounds|
        ensures HeadKept(r.mem, ScanFrom(r.mem, r.bounds[i], r.bounds[j], f).0, r.bounds[k])
      {
        assert HeadKept(r.mem, r1.mem, r.bounds[k]);
      }
    }
  }

  lemma HeadsAreTheirOwn(r: Region)
    requires Laid(r.mem, r.bounds)
    ensures forall k: nat :: k + 1 < |r.bounds| ==> HeadKept(r.mem, r.mem, r.bounds[k])
  {
    hide Laid;
    if |r.bounds| > 1 { BoundaryObject(r.mem, r.bounds, 0); }
  }

  lemma OwnDependentStays(r: Region, f: Fixer, i: nat, j: nat)
    requires Laid(r.mem, r.bounds) && i < j < |r.bounds|
    requires Averred(r.mem, r.bounds, f, r.bounds[i]) && LeavesDependents(r, i, j, f)
    requires HeadsKept(r.mem, ScanObject(r.mem, r.bounds[i], f), r.bounds, i)
    ensures HeadKept(r.mem, ScanObject(r.mem, r.bounds[i], f), r.bounds[i])
  {
    hide Laid, ScanSlots;
    var b := r.bounds[i];
    if IsBuckets(r.mem, b) {
      BucketsExtent(r.mem, r.bounds, i);
      var m1 := FixDependent(r.mem, b, f);
      FixedIsSame(r, f, i, j);
      ScanSlotsStay(m1, r.bounds, i, 0, f);
      SlotsOnlyKeeps(m1, ScanObject(r.mem, b, f), r.bounds);
    }
  }

  /** Fixing a dependent that the scan leaves alone. */
  lemma FixedIsSame(r: Region, f: Fixer, i: nat, j: nat)
    requires Laid(r.mem, r.bounds) && i < j < |r.bounds| && IsBuckets(r.mem, r.bounds[i]) && r.bounds[i] + 1 < |r.mem|
    requires Averred(r.mem, r.bounds, f, r.bounds[i]) && LeavesDependents(r, i, j, f)
    ensures var m1 := FixDependent(r.mem, r.bounds[i], f);
            && Laid(m1, r.bounds) && HeadKept(r.mem, m1, r.bounds[i]) && DependentFits(m1, r.bounds, r.bounds[i], f)
  {
    hide Laid;
    var b, m1 := r.bounds[i], FixDependent(r.mem, r.bounds[i], f);
    SetDependentKeeps(r.mem, r.bounds, i, Field(r.mem, b + 1));
    if Field(r.mem, b + 1) != 0 {
      assert HasDependent(r, r.bounds[i]);
      assert m1 == r.mem[b + 1 := Plain(Field(r.mem, b + 1))];
      FitsStays(r.mem, m1, r.bounds, b, Field(r.mem, b + 1), f);
    }
  }

  lemma LeavesThemStill(r: Region, r1: Region, i: nat, j: nat, f: Fixer)
    requires LeavesDependents(r, i, j, f) && r1.bounds == r.bounds
    requires forall k: nat :: k + 1 < |r.bounds| ==> HeadKept(r.mem, r1.mem, r.bounds[k])
    ensures LeavesDependents(r1, i + 1, j, f)
  {
    forall k: nat | i + 1 <= k < j && k + 1 < |r.bounds| && HasDependent(r1, r.bounds[k])
      ensures Fixed(f, Field(r1.mem, r.bounds[k] + 1)) == Field(r1.mem, r.bounds[k] + 1)
    {
      assert HeadKept(r.mem, r1.mem, r.bounds[k]) && HasDependent(r, r.bounds[k]);
    }
  }

  lemma ScanLinked(r: Region, i: nat, j: nat, f: Fixer, chunk: Chunk)
    requires Laid(r.mem, r.bounds) && Linked(r, chunk) && Tidy(r, ScanRange(i, j, f), chunk)
    ensures Legal(r, ScanRange(i, j, f)) && Linked(After(r, ScanRange(i, j, f)), chunk)
  {
    hide Laid, ScanFrom;
    LinkedMeetsAssertion(r, i, j, f, chunk);
    ScanKeepsHeads(r, f, i, j);
    var r' := After(r, ScanRange(i, j, f));
    forall k: nat | k + 1 < |r'.bounds| && HasDependent(r', r'.bounds[k])
      ensures Partner(r', r'.bounds[k], Field(r'.mem, r'.bounds[k] + 1), chunk)
    {
      assert HeadKept(r.mem, r'.mem, r.bounds[k]) && HasDependent(r, r.bounds[k]);
      PartnerStays(r, r', r.bounds[k], Field(r.mem, r.bounds[k] + 1), chunk);
    }
  }

  // ---- Runs ----------------------------------------------------------------------------------------

  lemma TidyIsLegal(r: Region, e: Event, chunk: Chunk)
    requires Laid(r.mem, r.bounds) && Linked(r, chunk) && Tidy(r, e, chunk)
    ensures Legal(r, e) && Linked(After(r, e), chunk)
  {
    hide Laid, Linked, After, Partner, Unneeded, LeavesDependents;
    match e
    case Allocate(o, raw) => AllocLinked(r, o, raw, chunk);
    case SetDependent(i, to) => SetDependentLinked(r, i, to, chunk);
    case ForwardObject(i, to) => ForwardLinked(r, i, to, chunk);
    case PadObjects(i, j, pinned) => PadLinked(r, i, j, pinned, chunk);
    case PadFresh(raw, pinned) => PadFreshLinked(r, raw, pinned, chunk);
    case ScanRange(i, j, f) => ScanLinked(r, i, j, f, chunk);
  }

  /** Every event of the run is tidy when its turn comes, as far as the run is legal. */
  ghost predicate TidyRun(r: Region, events: seq<Event>, chunk: Chunk)
    decreases |events|
  {
    events != [] ==>
      Tidy(r, events[0], chunk) && (Legal(r, events[0]) ==> TidyRun(After(r, events[0]), events[1..], chunk))
  }

  lemma {:induction false} TidyRunGoesThrough(r: Region, events: seq<Event>, chunk: Chunk) returns (last: Region)
    requires Laid(r.mem, r.bounds) && Linked(r, chunk) && TidyRun(r, events, chunk)
    ensures RunsTo(r, events, last) && Linked(last, chunk)
    decreases |events|
  {
    hide Laid, Linked, Legal, After, Tidy;
    if events == [] {
      last := r;
    } else {
      TidyIsLegal(r, events[0], chunk);
      AfterKeeps(r, events[0]);
      last := TidyRunGoesThrough(After(r, events[0]), events[1..], chunk);
    }
  }

  /** From the empty region, a tidy run goes through to its end without the scanner's assertion ever failing,
      and at its end the next scan of any range meets every object of that range too. */
  lemma AssertionNeverFails(events: seq<Event>, chunk: Chunk) returns (last: Region)
    requires TidyRun(Region([], [0]), events, chunk)
    ensures RunsTo(Region([], [0]), events, last) && Laid(last.mem, last.bounds) && Linked(last, chunk)
    ensures forall i: nat, j: nat, f: Fixer ::
              i <= j < |last.bounds| && f.origin == chunk.origin && LeavesDependents(last, i, j, f) ==>
                AverHolds(last.mem, last.bounds, f, i, j)
                && ScanFrom(last.mem, last.bounds[i], last.bounds[j], f).1 == last.bounds[i..j]
  {
    hide Laid, Linked, TidyRun, RunsTo, ScanFrom, LeavesDependents, AverHolds;
    EmptyIsLaid();
    NothingLinked(chunk);
    last := TidyRunGoesThrough(Region([], [0]), events, chunk);
    RunKeepsLayout(Region([], [0]), events, last);
    forall i: nat, j: nat, f: Fixer |
      i <= j < |last.bounds| && f.origin == chunk.origin && LeavesDependents(last, i, j, f)
      ensures AverHolds(last.mem, last.bounds, f, i, j)
      ensures ScanFrom(last.mem, last.bounds[i], last.bounds[j], f).1 == last.bounds[i..j]
    {
      LinkedMeetsAssertion(last, i, j, f, chunk);
      ScanFromKeeps(last.mem, last.bounds, i, j, f);
    }
  }

  lemma NothingLinked(chunk: Chunk)
    ensures Linked(Region([], [0]), chunk)
  {
  }
}
