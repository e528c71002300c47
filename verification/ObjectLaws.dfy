/** What the object format means to its users: an allocated object holds what it was made with, in the words
    that the struct layouts give it, and an object counts as forwarded exactly when it has been. */
module ObjectLaws {
  import opened Optional
  import opened ObjectFormat

  // ---- Making objects -----------------------------------------------------------------------------

  /** The number of words that each kind of object takes: three at least, and otherwise what its struct needs. */
  lemma ReservedExactly(o: Object)
    ensures ReservedWords(o) ==
            match o
            case EmptyObject => 3
            case PointerObject(_, _, _) => 4
            case BucketsObject(length, _) => 5 + length
            case TableObject(_, _, _, _, _, _, _) => 9
            case StringObject(length, _) => if length < 8 then 3 else 3 + length / 8
  {
    match o
    case EmptyObject =>
    case PointerObject(_, _, _) =>
    case BucketsObject(length, _) => AlignBounds(BUCKETS_OFFSET + length * WORD_SIZE);
    case TableObject(_, _, _, _, _, _, _) =>
    case StringObject(length, _) => AlignBounds(STRING_OFFSET + length + 1);
  }

  /** Every object starts with its type and unpinned, and its fields stand where the structs have them. Fresh
      buckets have no dependent, nothing used and nothing deleted, and every bucket unused. */
  lemma MadeAsAsked(o: Object, raw: seq<Cell>)
    requires |raw| == ReservedWords(o)
    ensures var im := Image(o, raw);
            && |im| == |raw| >= 3
            && match o
               case EmptyObject => im[0] == Header(Empty, false)
               case PointerObject(pointer, scanner, finalizer) =>
                 && im[0] == Header(ScannedPointer, false)
                 && Field(im, 1) == pointer && Field(im, 2) == scanner && Field(im, 3) == finalizer
               case BucketsObject(length, unused) =>
                 && im[0] == Header(Buckets, false)
                 && Field(im, 1) == 0 && Field(im, 2) == 2 * length + 1 && Field(im, 3) == 1 && Field(im, 4) == 1
                 && forall a: nat :: 5 <= a < 5 + length ==> Field(im, a) == unused
               case TableObject(hash, cmp, ld, keyAp, valueAp, keys, values) =>
                 && im[0] == Header(HashTable, false)
                 && Field(im, 1) == hash && Field(im, 2) == cmp && Field(im, 3) == ld.0 && Field(im, 4) == ld.1
                 && Field(im, 5) == keyAp && Field(im, 6) == valueAp && Field(im, 7) == keys && Field(im, 8) == values
               case StringObject(length, chars) =>
                 && im[0] == Header(String, false)
                 && Field(im, 1) == length
                 && forall a: nat :: 2 <= a && 8 * (a - 2) <= length ==> Field(im, a) == chars(a - 2)
  {
    ReservedExactly(o);
    WrittenFits(o);
    var im := Image(o, raw);
    match o
    case EmptyObject =>
    case PointerObject(_, _, _) =>
    case BucketsObject(length, unused) =>
      forall a: nat | 5 <= a < 5 + length ensures Field(im, a) == unused {
        assert Written(o)[a] == Plain(unused);
      }
    case TableObject(_, _, _, _, _, _, _) =>
    case StringObject(length, chars) =>
      forall a: nat | 2 <= a && 8 * (a - 2) <= length ensures Field(im, a) == chars(a - 2) {
        assert Written(o)[a] == Plain(chars(a - 2));
      }
  }

  // ---- Forwarding ---------------------------------------------------------------------------------

  /** `isfwd` answers NULL for everything a program makes. */
  lemma MadeIsNotForwarded(o: Object, raw: seq<Cell>)
    requires |raw| == ReservedWords(o)
    ensures IsFwd(Image(o, raw), 0) == None
  {
    MadeAsAsked(o, raw);
  }

  /** Whether an object is forwarded can be read off its own words. */
  lemma ForwardedIsLocal(mem: seq<Cell>, mem': seq<Cell>, b: nat, n: nat)
    requires ObjectAt(mem, b, n) && b + n <= |mem'|
    requires forall a: nat :: b <= a < b + n ==> mem'[a] == mem[a]
    ensures IsFwd(mem', b) == IsFwd(mem, b)
  {
    assert mem'[b] == mem[b];
    if n >= 2 { assert mem'[b + 1] == mem[b + 1]; }
  }

  /** Scanning an object forwards none and unforwards none. */
  lemma ScanKeepsForwarded(mem: seq<Cell>, bounds: seq<nat>, i: nat, k: nat, f: Fixer)
    requires Laid(mem, bounds) && i + 1 < |bounds| && k + 1 < |bounds| && Averred(mem, bounds, f, bounds[i])
    ensures IsFwd(ScanObject(mem, bounds[i], f), bounds[k]) == IsFwd(mem, bounds[k])
  {
    hide Laid, ScanObject, Averred, Inner;
    ScanObjectKeeps(mem, bounds, i, f);
    BoundaryObject(mem, bounds, k);
    var b, r := bounds[k], ScanObject(mem, bounds[i], f);
    assert LengthKept(mem, r, b);
    if mem[b].tag.Fwd2? || mem[b].tag.Fwd? {
      NotWritten(mem, bounds, i, k);
      assert r[b + 1] == mem[b + 1];
    }
  }

  /** No scan may write the new address of a forwarded object. */
  lemma NotWritten(mem: seq<Cell>, bounds: seq<nat>, i: nat, k: nat)
    requires Laid(mem, bounds) && i + 1 < |bounds| && k + 1 < |bounds| && bounds[k] + 1 < bounds[k + 1] <= |mem|
    requires !IsBuckets(mem, bounds[k]) && !IsTable(mem, bounds[k])
    ensures !ScanMayWrite(mem, bounds, i, bounds[k] + 1)
  {
    hide Laid, Inner;
    var a := bounds[k] + 1;
    if Inner(mem, bounds, a) { InnerIsOwn(mem, bounds, k, a); }
    if IsTable(mem, bounds[i]) { TableExtent(mem, bounds, i); }
    if IsBuckets(mem, bounds[i]) { BucketsExtent(mem, bounds, i); }
    if i < k { BoundsIncrease(mem, bounds, i, k); } else if k < i { BoundsIncrease(mem, bounds, k, i); }
  }

  lemma {:induction false} ScanRangeKeepsForwarded(mem: seq<Cell>, bounds: seq<nat>, i: nat, j: nat, f: Fixer)
    requires Laid(mem, bounds) && i <= j < |bounds| && AverHolds(mem, bounds, f, i, j)
    ensures forall k: nat :: k + 1 < |bounds| ==>
              IsFwd(ScanFrom(mem, bounds[i], bounds[j], f).0, bounds[k]) == IsFwd(mem, bounds[k])
    decreases j - i
  {
    hide Laid, ScanObject, Averred, IsFwd, ByteExtent, RecordWords;
    BoundsIncrease(mem, bounds, i, j);
    if i < j {
      BoundaryObject(mem, bounds, i);
      var m1 := ScanObject(mem, bounds[i], f);
      ScanObjectKeeps(mem, bounds, i, f);
      AverStays(mem, m1, bounds, f, i, j);
      ScanRangeKeepsForwarded(m1, bounds, i + 1, j, f);
      forall k: nat | k + 1 < |bounds| ensures IsFwd(m1, bounds[k]) == IsFwd(mem, bounds[k]) {
        ScanKeepsForwarded(mem, bounds, i, k, f);
      }
    }
  }

  /** The objects forwarded and not padded over since, each with the address it was forwarded to. */
  ghost function Forwarded(r: Region, e: Event, known: map<nat, nat>): map<nat, nat>
    requires Legal(r, e)
  {
    match e
    case Allocate(_, _) => known
    case SetDependent(_, _) => known
    case ForwardObject(i, to) => known[r.bounds[i] := to]
    case PadObjects(i, j, _) => map b | b in known && !(r.bounds[i] <= b < r.bounds[j]) :: known[b]
    case PadFresh(_, _) => known
    case ScanRange(_, _, _) => known
  }

  ghost function ForwardedIn(r: Region, events: seq<Event>, known: map<nat, nat>): map<nat, nat>
    decreases |events|
  {
    if events == [] || !Legal(r, events[0]) then known
    else ForwardedIn(After(r, events[0]), events[1..], Forwarded(r, events[0], known))
  }

  /** At every boundary `isfwd` answers the address if the object is known to be forwarded, and NULL otherwise;
      nothing else is known. */
  ghost predicate Known(r: Region, known: map<nat, nat>) {
    && (forall k: nat :: k + 1 < |r.bounds| ==> KnownAt(r, known, r.bounds[k]))
    && (forall b :: b in known ==> b < |r.mem|)
  }

  predicate KnownAt(r: Region, known: map<nat, nat>, b: nat) {
    IsFwd(r.mem, b) == if b in known then Some(known[b]) else None
  }

  lemma AppendKnown(r: Region, r': Region, im: seq<Cell>, known: map<nat, nat>)
    requires Laid(r.mem, r.bounds) && Known(r, known) && ObjectAt(im, 0, |im|) && IsFwd(im, 0) == None
    requires r'.mem == r.mem + im && r'.bounds == r.bounds + [|r'.mem|]
    ensures Known(r', known)
  {
    hide Laid, IsFwd, ObjectAt;
    LimitIsLast(r.mem, r.bounds);
    forall k: nat | k + 1 < |r'.bounds| ensures KnownAt(r', known, r'.bounds[k]) {
      if k + 1 < |r.bounds| {
        assert KnownAt(r, known, r.bounds[k]);
        BoundaryObject(r.mem, r.bounds, k);
        ForwardedIsLocal(r.mem, r'.mem, r.bounds[k], r.bounds[k + 1] - r.bounds[k]);
      } else {
        NewIsForwardedAlike(r.mem, im);
      }
    }
  }

  lemma NewIsForwardedAlike(mem: seq<Cell>, im: seq<Cell>)
    requires ObjectAt(im, 0, |im|)
    ensures IsFwd(mem + im, |mem|) == IsFwd(im, 0)
  {
    assert (mem + im)[|mem|] == im[0];
    if |im| >= 2 { assert (mem + im)[|mem| + 1] == im[1]; }
  }

  /** An object whose words are not rewritten is as forwarded as it was. */
  lemma OthersKnown(r: Region, r': Region, i: nat, j: nat, k: nat)
    requires Laid(r.mem, r.bounds) && i < j < |r.bounds| && k + 1 < |r.bounds| && (k < i || j <= k) && |r'.mem| == |r.mem|
    requires forall a: nat :: a < |r.mem| && !(r.bounds[i] <= a < r.bounds[j]) ==> r'.mem[a] == r.mem[a]
    ensures IsFwd(r'.mem, r.bounds[k]) == IsFwd(r.mem, r.bounds[k])
    ensures !(r.bounds[i] <= r.bounds[k] < r.bounds[j])
  {
    hide Laid, IsFwd, ObjectAt;
    BoundaryObject(r.mem, r.bounds, k);
    BoundsIncrease(r.mem, r.bounds, i, j);
    if k < i { BoundsIncrease(r.mem, r.bounds, k, i); } else { BoundsIncrease(r.mem, r.bounds, j, k); }
    ForwardedIsLocal(r.mem, r'.mem, r.bounds[k], r.bounds[k + 1] - r.bounds[k]);
  }

  lemma ForwardKnown(r: Region, i: nat, to: nat, known: map<nat, nat>)
    requires Laid(r.mem, r.bounds) && Known(r, known) && Legal(r, ForwardObject(i, to))
    ensures Known(After(r, ForwardObject(i, to)), known[r.bounds[i] := to])
  {
    hide Laid, IsFwd, ObjectAt, Forward;
    var r' := After(r, ForwardObject(i, to));
    BoundaryObject(r.mem, r.bounds, i);
    ForwardKeeps(r.mem, r.bounds[i], r.bounds[i + 1] - r.bounds[i], to);
    forall k: nat | k + 1 < |r'.bounds| ensures KnownAt(r', known[r.bounds[i] := to], r'.bounds[k]) {
      if k != i {
        assert KnownAt(r, known, r.bounds[k]);
        OthersKnown(r, r', i, i + 1, k);
      }
    }
  }

  lemma PadKnown(r: Region, i: nat, j: nat, pinned: bool, known: map<nat, nat>)
    requires Laid(r.mem, r.bounds) && Known(r, known) && Legal(r, PadObjects(i, j, pinned))
    ensures Known(After(r, PadObjects(i, j, pinned)), Forwarded(r, PadObjects(i, j, pinned), known))
  {
    hide Laid, IsFwd, ObjectAt, PadOver;
    var r', known' := After(r, PadObjects(i, j, pinned)), Forwarded(r, PadObjects(i, j, pinned), known);
    PadIsObject(r.mem, r.bounds[i], r.bounds[j] - r.bounds[i], pinned);
    forall k': nat | k' + 1 < |r'.bounds| ensures KnownAt(r', known', r'.bounds[k']) {
      if k' != i {
        var k := if k' < i then k' else k' + j - i - 1;
        assert r'.bounds[k'] == r.bounds[k];
        assert KnownAt(r, known, r.bounds[k]);
        OthersKnown(r, r', i, j, k);
      }
    }
  }

  lemma SetDependentKnown(r: Region, i: nat, to: nat, known: map<nat, nat>)
    requires Laid(r.mem, r.bounds) && Known(r, known) && Legal(r, SetDependent(i, to))
    ensures Known(After(r, SetDependent(i, to)), known)
  {
    hide Laid, ObjectAt;
    var r' := After(r, SetDependent(i, to));
    BucketsExtent(r.mem, r.bounds, i);
    forall k: nat | k + 1 < |r'.bounds| ensures KnownAt(r', known, r'.bounds[k]) {
      assert KnownAt(r, known, r.bounds[k]);
      if k != i { OthersKnown(r, r', i, i + 1, k); }
    }
  }

  lemma EventKnown(r: Region, e: Event, known: map<nat, nat>)
    requires Laid(r.mem, r.bounds) && Known(r, known) && Legal(r, e)
    ensures Known(After(r, e), Forwarded(r, e, known))
  {
    hide Laid, IsFwd, ObjectAt, Known, Image, PadOver, ScanFrom, AverHolds;
    match e
    case Allocate(o, raw) =>
      ImageIsObject(o, raw);
      MadeIsNotForwarded(o, raw);
      AppendKnown(r, After(r, e), Image(o, raw), known);
    case SetDependent(i, to) => SetDependentKnown(r, i, to, known);
    case ForwardObject(i, to) => ForwardKnown(r, i, to, known);
    case PadObjects(i, j, pinned) => PadKnown(r, i, j, pinned, known);
    case PadFresh(raw, pinned) =>
      PadIsObject(raw, 0, |raw|, pinned);
      AppendKnown(r, After(r, e), PadOver(raw, 0, |raw|, pinned), known);
    case ScanRange(i, j, f) =>
      ScanFromKeeps(r.mem, r.bounds, i, j, f);
      ScanRangeKeepsForwarded(r.mem, r.bounds, i, j, f);
      ScanKnown(r, After(r, e), known);
  }

  lemma ScanKnown(r: Region, r': Region, known: map<nat, nat>)
    requires Known(r, known) && r'.bounds == r.bounds && |r'.mem| == |r.mem|
    requires forall k: nat :: k + 1 < |r.bounds| ==> IsFwd(r'.mem, r.bounds[k]) == IsFwd(r.mem, r.bounds[k])
    ensures Known(r', known)
  {
    hide IsFwd;
    forall k: nat | k + 1 < |r'.bounds| ensures KnownAt(r', known, r'.bounds[k]) {
      assert KnownAt(r, known, r.bounds[k]);
    }
  }

  lemma {:induction false} RunKnown(r: Region, events: seq<Event>, last: Region, known: map<nat, nat>)
    requires Laid(r.mem, r.bounds) && Known(r, known) && RunsTo(r, events, last)
    ensures Known(last, ForwardedIn(r, events, known))
    decreases |events|
  {
    hide Laid, Known, Legal, After, Forwarded;
    if events != [] {
      AfterKeeps(r, events[0]);
      EventKnown(r, events[0], known);
      RunKnown(After(r, events[0]), events[1..], last, Forwarded(r, events[0], known));
    }
  }

  /** After any run from the empty region, `isfwd` answers an address exactly for the objects that were forwarded and
      not padded over since, and then the one they were last forwarded to. */
  lemma ForwardedExactly(events: seq<Event>, last: Region, k: nat)
    requires RunsTo(Region([], [0]), events, last) && k + 1 < |last.bounds|
    ensures var known := ForwardedIn(Region([], [0]), events, map[]);
            IsFwd(last.mem, last.bounds[k]) == if last.bounds[k] in known then Some(known[last.bounds[k]]) else None
  {
    hide Laid, RunsTo, ForwardedIn, IsFwd;
    EmptyIsLaid();
    RunKnown(Region([], [0]), events, last, map[]);
    assert KnownAt(last, ForwardedIn(Region([], [0]), events, map[]), last.bounds[k]);
  }
}
