/** The object format: how the collector finds its way through a heap region, whatever mix of
    allocation, forwarding and padding has shaped it. Memory is a sequence of eight-byte words and
    addresses are word numbers; the struct layouts are those of a 64-bit machine. */
module ObjectFormat {
  import opened Words
  import opened Optional

  datatype Tag =
    | Empty | ScannedPointer
    | Metadata | FieldPointer | MethodPointer | HashTable | Buckets | String
    | Fwd2 | Fwd | Pad1 | Pad

  /** The first word of an object holds its type and its pinned flag; all others are plain. */
  datatype Cell = Header(tag: Tag, pinned: bool) | Plain(v: nat)

  const WORD_SIZE: nat := 8
  const EMPTY_SIZE: nat := 8
  const SCANNED_POINTER_SIZE: nat := 32
  const BUCKETS_OFFSET: nat := 40
  const HASH_TABLE_SIZE: nat := 72
  const STRING_OFFSET: nat := 16
  const FWD2_SIZE: nat := 16
  const FWD_SIZE: nat := 24
  const PAD1_SIZE: nat := 8

  /** `MANAGED_OBJECT_ALIGN_WORD` */
  function AlignWord(size: nat): nat {
    var up := size + WORD_SIZE - 1;
    up - up % WORD_SIZE
  }

  /** `MANAGED_OBJECT_ALIGN_OBJ` */
  function AlignObj(size: nat): nat {
    if AlignWord(size) >= AlignWord(FWD_SIZE) then AlignWord(size) else AlignWord(FWD_SIZE)
  }

  /** Rounding up gives the least multiple of the word size that is large enough, and an object
      always has room for a forwarding record. */
  lemma AlignBounds(size: nat)
    ensures AlignWord(size) % WORD_SIZE == 0 && size <= AlignWord(size) < size + WORD_SIZE
    ensures AlignObj(size) % WORD_SIZE == 0 && AlignObj(size) >= AlignWord(size) && AlignObj(size) >= FWD_SIZE
  {
  }

  /** The macro's `(size + A - 1) & ~(A - 1)` is the arithmetic rounding, for every size whose sum does not
      wrap around. */
  lemma AlignMask(size: nat)
    requires size + WORD_SIZE - 1 < WORD_LIMIT
    ensures And(size + WORD_SIZE - 1, Complement(WORD_SIZE - 1)) == AlignWord(size)
  {
    assert Pow2(3) == WORD_SIZE;
    ComplementMaskRoundsDown(size + WORD_SIZE - 1, WORD_SIZE);
  }

  /** The plain word at an address; anything else reads as zero. */
  function Field(mem: seq<Cell>, a: nat): nat {
    if a < |mem| && mem[a].Plain? then mem[a].v else 0
  }

  /** The number of bytes `skip` and `scan` add to the base, by type. The metadata types without a
      case, like a word that is no header, are the error branch. */
  function ByteExtent(mem: seq<Cell>, b: nat): Option<nat> {
    if b >= |mem| || !mem[b].Header? then None
    else
      match mem[b].tag
      case Empty => Some(AlignObj(EMPTY_SIZE))
      case ScannedPointer => Some(AlignObj(SCANNED_POINTER_SIZE))
      case Buckets => Some(AlignObj(BUCKETS_OFFSET + Field(mem, b + 2) / 2 * WORD_SIZE))
      case HashTable => Some(AlignObj(HASH_TABLE_SIZE))
      case String => Some(AlignObj(STRING_OFFSET + Field(mem, b + 1) + 1))
      case Fwd2 => Some(AlignWord(FWD2_SIZE))
      case Fwd => Some(AlignWord(Field(mem, b + 2)))
      case Pad1 => Some(AlignWord(PAD1_SIZE))
      case Pad => Some(AlignWord(Field(mem, b + 1)))
      case Metadata => None
      case FieldPointer => None
      case MethodPointer => None
  }

  /** `skip`: where the next object starts. */
  function Skip(mem: seq<Cell>, b: nat): Option<nat> {
    match ByteExtent(mem, b)
    case None => None
    case Some(n) => Some(b + n / WORD_SIZE)
  }

  /** `isfwd`: the new address of a forwarded object. */
  function IsFwd(mem: seq<Cell>, b: nat): Option<nat> {
    if b < |mem| && mem[b].Header? && (mem[b].tag.Fwd2? || mem[b].tag.Fwd?) then Some(Field(mem, b + 1)) else None
  }

  // ---- What a region may hold -------------------------------------------------------------------

  /** How many words of an object its type needs in order to tell its size. */
  function RecordWords(tag: Tag): nat {
    match tag
    case Buckets => 3
    case String => 2
    case Fwd2 => 2
    case Fwd => 3
    case Pad => 2
    case _ => 1
  }

  /** An object of `n` words starts at `b`, and the words that tell its size are its own. */
  predicate ObjectAt(mem: seq<Cell>, b: nat, n: nat) {
    && n >= 1 && b + n <= |mem|
    && mem[b].Header?
    && RecordWords(mem[b].tag) <= n
    && Skip(mem, b) == Some(b + n)
  }

  /** The region is exactly a row of objects with these boundaries: each object reaches from its
      boundary to the next, the first starts at the base and the last ends at the limit. */
  ghost predicate Laid(mem: seq<Cell>, bounds: seq<nat>) {
    && |bounds| >= 1 && bounds[0] == 0 && bounds[|bounds| - 1] == |mem|
    && forall i: nat :: i + 1 < |bounds| ==> Spans(mem, bounds[i], bounds[i + 1])
  }

  predicate Spans(mem: seq<Cell>, b: nat, e: nat) {
    b < e && ObjectAt(mem, b, e - b)
  }

  lemma {:induction false} BoundsIncrease(mem: seq<Cell>, bounds: seq<nat>, i: nat, j: nat)
    requires Laid(mem, bounds) && i <= j < |bounds|
    ensures bounds[i] <= bounds[j] <= |mem|
    ensures i < j ==> bounds[i] < bounds[j] && bounds[i + 1] <= bounds[j]
    decreases j
  {
    if i < j {
      BoundsIncrease(mem, bounds, i, j - 1);
      assert Spans(mem, bounds[j - 1], bounds[j]);
    } else if j + 1 < |bounds| {
      assert Spans(mem, bounds[j], bounds[j + 1]);
    }
  }

  /** An object's size can be read off its own words alone. */
  lemma ObjectIsLocal(mem: seq<Cell>, mem': seq<Cell>, b: nat, n: nat)
    requires ObjectAt(mem, b, n) && b + n <= |mem'|
    requires forall a: nat :: b <= a < b + n ==> mem'[a] == mem[a]
    ensures ObjectAt(mem', b, n)
  {
    assert mem'[b] == mem[b];
    var tag := mem[b].tag;
    if tag.Buckets? || tag.Fwd? { assert mem'[b + 2] == mem[b + 2]; }
    if tag.String? || tag.Pad? { assert mem'[b + 1] == mem[b + 1]; }
  }

  // ---- Walking ----------------------------------------------------------------------------------

  /** The bases visited by skipping from `b` up to a limit, and where the walk ends. A walk that meets an
      unexpected object, or makes no progress, ends there. */
  function Walk(mem: seq<Cell>, b: nat, limit: nat): (seq<nat>, nat)
    decreases limit - b
  {
    if b >= limit then ([], b)
    else
      match Skip(mem, b)
      case None => ([], b)
      case Some(next) =>
        if next <= b then ([], b)
        else
          var (rest, end) := Walk(mem, next, limit);
          ([b] + rest, end)
  }

  /** A walk from one boundary to another lands on every boundary in between and exactly on the limit. */
  lemma {:induction false} WalkBetween(mem: seq<Cell>, bounds: seq<nat>, i: nat, j: nat)
    requires Laid(mem, bounds) && i <= j < |bounds|
    ensures Walk(mem, bounds[i], bounds[j]) == (bounds[i..j], bounds[j])
    decreases j - i
  {
    hide ByteExtent, RecordWords;
    BoundsIncrease(mem, bounds, i, j);
    if i == j {
      assert bounds[i..j] == [];
    } else {
      assert Spans(mem, bounds[i], bounds[i + 1]);
      WalkBetween(mem, bounds, i + 1, j);
      assert bounds[i..j] == [bounds[i]] + bounds[i + 1..j];
    }
  }

  /** A walk over a laid-out region lands on every boundary and exactly on the limit. */
  lemma WalkLands(mem: seq<Cell>, bounds: seq<nat>)
    requires Laid(mem, bounds)
    ensures Walk(mem, 0, |mem|) == (bounds[..|bounds| - 1], |mem|)
  {
    WalkBetween(mem, bounds, 0, |bounds| - 1);
    assert bounds[0..|bounds| - 1] == bounds[..|bounds| - 1];
  }

  /** A region is laid out in at most one way. */
  lemma LayoutIsUnique(mem: seq<Cell>, bounds: seq<nat>, bounds': seq<nat>)
    requires Laid(mem, bounds) && Laid(mem, bounds')
    ensures bounds == bounds'
  {
    WalkLands(mem, bounds);
    WalkLands(mem, bounds');
    assert bounds == bounds[..|bounds| - 1] + [|mem|];
    assert bounds' == bounds'[..|bounds'| - 1] + [|mem|];
  }

  // ---- Allocation -------------------------------------------------------------------------------

  /** What a program allocates. Strings come as the words their characters fill. */
  datatype Object =
    | EmptyObject
    | PointerObject(pointer: nat, scanner: nat, finalizer: nat)
    | BucketsObject(length: nat, unused: nat)
    | TableObject(hash: nat, cmp: nat, ld: (nat, nat), keyAp: nat, valueAp: nat, keys: nat, values: nat)
    | StringObject(length: nat, chars: nat -> nat)

  /** The size each `make_*` reserves. */
  function ReservedBytes(o: Object): nat {
    match o
    case EmptyObject => AlignObj(EMPTY_SIZE)
    case PointerObject(_, _, _) => AlignObj(SCANNED_POINTER_SIZE)
    case BucketsObject(length, _) => AlignObj(BUCKETS_OFFSET + length * WORD_SIZE)
    case TableObject(_, _, _, _, _, _, _) => AlignObj(HASH_TABLE_SIZE)
    case StringObject(length, _) => AlignObj(STRING_OFFSET + length + 1)
  }

  function ReservedWords(o: Object): (n: nat)
    ensures n >= 3
  {
    AlignBounds(EMPTY_SIZE);
    ReservedBytes(o) / WORD_SIZE
  }

  /** The words each `make_*` writes before it commits. */
  function Written(o: Object): seq<Cell> {
    match o
    case EmptyObject => [Header(Empty, false)]
    case PointerObject(p, s, f) => [Header(ScannedPointer, false), Plain(p), Plain(s), Plain(f)]
    case BucketsObject(length, unused) =>
      [Header(Buckets, false), Plain(0), Plain(2 * length + 1), Plain(1), Plain(1)] + seq(length, _ => Plain(unused))
    case TableObject(hash, cmp, ld, keyAp, valueAp, keys, values) =>
      [Header(HashTable, false), Plain(hash), Plain(cmp), Plain(ld.0), Plain(ld.1), Plain(keyAp), Plain(valueAp),
       Plain(keys), Plain(values)]
    case StringObject(length, chars) =>
      [Header(String, false), Plain(length)] + seq((length + 1 + WORD_SIZE - 1) / WORD_SIZE, i => if i >= 0 then Plain(chars(i)) else Plain(0))
  }

  lemma WrittenFits(o: Object)
    ensures 1 <= |Written(o)| <= ReservedWords(o)
  {
    match o
    case EmptyObject =>
    case PointerObject(_, _, _) =>
    case BucketsObject(length, _) => AlignBounds(BUCKETS_OFFSET + length * WORD_SIZE);
    case TableObject(_, _, _, _, _, _, _) =>
    case StringObject(length, _) => AlignBounds(STRING_OFFSET + length + 1);
  }

  /** The object as it stands in the reserved words `raw`, the tail of which it leaves as it was. */
  function Image(o: Object, raw: seq<Cell>): (im: seq<Cell>)
    requires |raw| == ReservedWords(o)
    ensures |im| == |raw|
  {
    WrittenFits(o);
    Written(o) + raw[|Written(o)|..]
  }

  /** What is written reads back as an object of exactly the reserved size. */
  lemma ImageIsObject(o: Object, raw: seq<Cell>)
    requires |raw| == ReservedWords(o)
    ensures ObjectAt(Image(o, raw), 0, ReservedWords(o))
  {
    var im := Image(o, raw);
    match o
    case EmptyObject =>
    case PointerObject(_, _, _) =>
    case BucketsObject(length, _) =>
      AlignBounds(BUCKETS_OFFSET + length * WORD_SIZE);
      assert im[0] == Header(Buckets, false) && im[2] == Plain(2 * length + 1);
    case TableObject(_, _, _, _, _, _, _) =>
    case StringObject(length, _) =>
      AlignBounds(STRING_OFFSET + length + 1);
      assert im[0] == Header(String, false) && im[1] == Plain(length);
  }

  lemma AllocKeeps(mem: seq<Cell>, bounds: seq<nat>, o: Object, raw: seq<Cell>)
    requires Laid(mem, bounds) && |raw| == ReservedWords(o)
    ensures Laid(mem + Image(o, raw), bounds + [|mem| + |raw|])
  {
    ImageIsObject(o, raw);
    AppendKeeps(mem, bounds, Image(o, raw));
  }

  /** Appending one object to a region. */
  lemma AppendKeeps(mem: seq<Cell>, bounds: seq<nat>, im: seq<Cell>)
    requires Laid(mem, bounds) && ObjectAt(im, 0, |im|)
    ensures Laid(mem + im, bounds + [|mem| + |im|])
  {
    hide ObjectAt;
    var mem', bounds' := mem + im, bounds + [|mem| + |im|];
    AtLeastOneWord(im, |im|);
    forall i: nat | i + 1 < |bounds'| ensures Spans(mem', bounds'[i], bounds'[i + 1]) {
      if i + 1 < |bounds| {
        assert Spans(mem, bounds[i], bounds[i + 1]);
        BoundsIncrease(mem, bounds, i, i + 1);
        ObjectIsLocal(mem, mem', bounds[i], bounds[i + 1] - bounds[i]);
      } else {
        ObjectShifts(im, mem, |im|);
      }
    }
  }

  lemma AtLeastOneWord(mem: seq<Cell>, n: nat)
    requires ObjectAt(mem, 0, n)
    ensures n >= 1
  {
  }

  lemma ObjectShifts(im: seq<Cell>, mem: seq<Cell>, n: nat)
    requires ObjectAt(im, 0, n)
    ensures ObjectAt(mem + im, |mem|, n)
  {
    var mem' := mem + im;
    assert mem'[|mem|] == im[0];
    if n >= 2 { assert mem'[|mem| + 1] == im[1]; }
    if n >= 3 { assert mem'[|mem| + 2] == im[2]; }
  }

  // ---- Forwarding -------------------------------------------------------------------------------

  /** `fwd`, for an object of `n` words: a two-word record for two-word objects, and otherwise one that
      stores the size. */
  function Forward(mem: seq<Cell>, b: nat, n: nat, to: nat): (r: seq<Cell>)
    requires 2 <= n && b + n <= |mem| && mem[b].Header?
    ensures |r| == |mem|
  {
    if n * WORD_SIZE == AlignWord(FWD2_SIZE) then
      mem[b := Header(Fwd2, mem[b].pinned)][b + 1 := Plain(to)]
    else
      mem[b := Header(Fwd, mem[b].pinned)][b + 1 := Plain(to)][b + 2 := Plain(n * WORD_SIZE)]
  }

  /** Forwarding an object leaves its extent as it was, records the new address, keeps the pinned flag
      and touches no word outside the object. */
  lemma ForwardKeeps(mem: seq<Cell>, b: nat, n: nat, to: nat)
    requires ObjectAt(mem, b, n) && n >= 2
    ensures var r := Forward(mem, b, n, to);
            && Skip(r, b) == Skip(mem, b) && IsFwd(r, b) == Some(to)
            && ObjectAt(r, b, n) && r[b].pinned == mem[b].pinned
            && forall a: nat :: a < |mem| && !(b <= a < b + n) ==> r[a] == mem[a]
  {
  }

  /** Everything a program allocates is large enough to be forwarded with its size. */
  lemma AllocatedIsForwardable(o: Object)
    ensures ReservedWords(o) * WORD_SIZE >= AlignWord(FWD_SIZE) > AlignWord(FWD2_SIZE)
  {
    match o
    case EmptyObject =>
    case PointerObject(_, _, _) =>
    case BucketsObject(length, _) => AlignBounds(BUCKETS_OFFSET + length * WORD_SIZE);
    case TableObject(_, _, _, _, _, _, _) =>
    case StringObject(length, _) => AlignBounds(STRING_OFFSET + length + 1);
  }

  /** Rewriting one object in place keeps the layout. */
  lemma RewriteKeeps(mem: seq<Cell>, bounds: seq<nat>, i: nat, mem': seq<Cell>)
    requires Laid(mem, bounds) && i + 1 < |bounds| && |mem'| == |mem|
    requires Spans(mem', bounds[i], bounds[i + 1])
    requires forall a: nat :: a < |mem| && !(bounds[i] <= a < bounds[i + 1]) ==> mem'[a] == mem[a]
    ensures Laid(mem', bounds)
  {
    hide ObjectAt;
    forall j: nat | j + 1 < |bounds| ensures Spans(mem', bounds[j], bounds[j + 1]) {
      if j != i {
        assert Spans(mem, bounds[j], bounds[j + 1]);
        BoundsIncrease(mem, bounds, j, j + 1);
        if j < i { BoundsIncrease(mem, bounds, j, i); } else { BoundsIncrease(mem, bounds, i, j); }
        ObjectIsLocal(mem, mem', bounds[j], bounds[j + 1] - bounds[j]);
      }
    }
  }

  // ---- Padding ----------------------------------------------------------------------------------

  /** `pad` over `n` words. The pinned flag of the header stays whatever the first word held. */
  function PadOver(mem: seq<Cell>, b: nat, n: nat, pinned: bool): (r: seq<Cell>)
    requires 1 <= n && b + n <= |mem|
    ensures |r| == |mem|
  {
    if n * WORD_SIZE == AlignWord(PAD1_SIZE) then mem[b := Header(Pad1, pinned)]
    else mem[b := Header(Pad, pinned)][b + 1 := Plain(n * WORD_SIZE)]
  }

  /** A padded area is skipped as one object of exactly its size, down to a single word. */
  lemma PadIsObject(mem: seq<Cell>, b: nat, n: nat, pinned: bool)
    requires 1 <= n && b + n <= |mem|
    ensures var r := PadOver(mem, b, n, pinned);
            && ObjectAt(r, b, n) && IsFwd(r, b) == None
            && forall a: nat :: a < |mem| && !(b <= a < b + n) ==> r[a] == mem[a]
  {
  }

  /** Padding over a run of whole objects keeps the region walkable, with one object in their place. */
  lemma PadKeeps(mem: seq<Cell>, bounds: seq<nat>, i: nat, j: nat, pinned: bool)
    requires Laid(mem, bounds) && i < j < |bounds|
    ensures bounds[i] < bounds[j] <= |mem|
    ensures Laid(PadOver(mem, bounds[i], bounds[j] - bounds[i], pinned), bounds[..i + 1] + bounds[j..])
  {
    hide ObjectAt, PadOver, IsFwd;
    BoundsIncrease(mem, bounds, i, j);
    var b, n := bounds[i], bounds[j] - bounds[i];
    var mem', m := PadOver(mem, b, n, pinned), bounds[..i + 1] + bounds[j..];
    PadIsObject(mem, b, n, pinned);
    forall k: nat | k + 1 < |m| ensures Spans(mem', m[k], m[k + 1]) {
      if k < i {
        PadLeaves(mem, bounds, i, j, mem', k);
      } else if k > i {
        PadLeaves(mem, bounds, i, j, mem', k + j - i - 1);
      }
    }
  }

  /** An object outside the padded run is not affected. */
  lemma PadLeaves(mem: seq<Cell>, bounds: seq<nat>, i: nat, j: nat, mem': seq<Cell>, k: nat)
    requires Laid(mem, bounds) && i < j < |bounds| && |mem'| == |mem| && k + 1 < |bounds| && (k < i || j <= k)
    requires forall a: nat :: a < |mem| && !(bounds[i] <= a < bounds[j]) ==> mem'[a] == mem[a]
    ensures Spans(mem', bounds[k], bounds[k + 1])
  {
    hide ObjectAt;
    assert Spans(mem, bounds[k], bounds[k + 1]);
    BoundsIncrease(mem, bounds, k, k + 1);
    if k < i { BoundsIncrease(mem, bounds, k, i); } else { BoundsIncrease(mem, bounds, j, k); }
    ObjectIsLocal(mem, mem', bounds[k], bounds[k + 1] - bounds[k]);
  }

  /** Padding fresh words at the end of the region. */
  lemma PadTailKeeps(mem: seq<Cell>, bounds: seq<nat>, raw: seq<Cell>, pinned: bool)
    requires Laid(mem, bounds) && |raw| >= 1
    ensures Laid(mem + PadOver(raw, 0, |raw|, pinned), bounds + [|mem| + |raw|])
  {
    PadIsObject(raw, 0, |raw|, pinned);
    AppendKeeps(mem, bounds, PadOver(raw, 0, |raw|, pinned));
  }

  // ---- Scanning ---------------------------------------------------------------------------------

  /** What the fix operation does: which references it looks at, what it replaces them with (zero for
      a reference to something dead), and the key that stands for a deleted bucket. `origin` is the
      address of the region's first word. */
  datatype Fixer = Fixer(passes: nat -> bool, fix: nat -> nat, deleted: nat, origin: nat)

  function Fixed(f: Fixer, p: nat): nat {
    if f.passes(p) then f.fix(p) else p
  }

  /** A tagged count, plus one. */
  function Bumped(count: nat): nat {
    2 * (count / 2 + 1) + 1
  }

  /** Where the dependent of the buckets at `b` starts, if it lies in this region. */
  function LocalDependent(mem: seq<Cell>, b: nat, f: Fixer): Option<nat> {
    var d := Field(mem, b + 1);
    if d != 0 && f.origin <= d < f.origin + |mem| then Some(d - f.origin) else None
  }

  /** Slot `i` of the buckets at `b` has come back as NULL: it and its partner in the dependent are
      marked deleted, and both objects count it. */
  function SplatSlot(mem: seq<Cell>, b: nat, i: nat, f: Fixer): (r: seq<Cell>)
    requires b + 5 + i < |mem|
    ensures |r| == |mem|
  {
    var m1 := mem[b + 4 := Plain(Bumped(Field(mem, b + 4)))];
    var m2 :=
      match LocalDependent(m1, b, f)
      case None => m1
      case Some(x) =>
        if x + 5 + i < |m1| then
          var m := m1[x + 5 + i := Plain(f.deleted)];
          m[x + 4 := Plain(Bumped(Field(m, x + 4)))]
        else m1;
    m2[b + 5 + i := Plain(f.deleted)]
  }

  function ScanSlot(mem: seq<Cell>, b: nat, i: nat, f: Fixer): (r: seq<Cell>)
    requires b + 5 + i < |mem|
    ensures |r| == |mem|
  {
    var p := Field(mem, b + 5 + i);
    if !f.passes(p) then mem
    else if f.fix(p) == 0 then SplatSlot(mem, b, i, f)
    else mem[b + 5 + i := Plain(f.fix(p))]
  }

  /** The bucket loop of the scanner from slot `i` on. */
  function ScanSlots(mem: seq<Cell>, b: nat, length: nat, i: nat, f: Fixer): (r: seq<Cell>)
    requires i <= length && b + 5 + length <= |mem|
    ensures |r| == |mem|
    decreases length - i
  {
    if i == length then mem else ScanSlots(ScanSlot(mem, b, i, f), b, length, i + 1, f)
  }

  /** The buckets at `b` with their dependent fixed. */
  function FixDependent(mem: seq<Cell>, b: nat, f: Fixer): (r: seq<Cell>)
    requires b + 1 < |mem|
    ensures |r| == |mem|
  {
    if Field(mem, b + 1) != 0 then mem[b + 1 := Plain(Fixed(f, Field(mem, b + 1)))] else mem
  }

  /** What scanning the object at `b` does to the region. */
  function ScanObject(mem: seq<Cell>, b: nat, f: Fixer): (r: seq<Cell>)
    ensures |r| == |mem|
  {
    if b >= |mem| || !mem[b].Header? then mem
    else
      match mem[b].tag
      case Buckets =>
        if b + 5 + Field(mem, b + 2) / 2 <= |mem| then
          ScanSlots(FixDependent(mem, b, f), b, Field(mem, b + 2) / 2, 0, f)
        else mem
      case HashTable =>
        if b + 9 <= |mem| then
          mem[b + 7 := Plain(Fixed(f, Field(mem, b + 7)))][b + 8 := Plain(Fixed(f, Field(mem, b + 8)))]
        else mem
      case _ => mem
  }

  /** The scanner's loop from a base up to a limit: the memory it leaves and the bases it visited. */
  function ScanFrom(mem: seq<Cell>, b: nat, limit: nat, f: Fixer): (seq<Cell>, seq<nat>)
    decreases limit - b
  {
    if b >= limit then (mem, [])
    else
      match Skip(mem, b)
      case None => (mem, [])
      case Some(next) =>
        if next <= b then (mem, [])
        else
          var (mem', rest) := ScanFrom(ScanObject(mem, b, f), next, limit, f);
          (mem', [b] + rest)
  }

  // ---- What the scanner may assume of dependents ---------------------------------------------------

  predicate IsBuckets(mem: seq<Cell>, b: nat) {
    b < |mem| && mem[b].Header? && mem[b].tag.Buckets?
  }

  predicate IsTable(mem: seq<Cell>, b: nat) {
    b < |mem| && mem[b].Header? && mem[b].tag.HashTable?
  }

  predicate SameLength(mem: seq<Cell>, x: nat, b: nat) {
    IsBuckets(mem, x) && Field(mem, x + 2) == Field(mem, b + 2)
  }

  /** Address `d` is not NULL, and if it lies in the region, buckets as long as those at `b` start there. */
  ghost predicate Fits(mem: seq<Cell>, bounds: seq<nat>, b: nat, d: nat, f: Fixer) {
    && d != 0
    && (f.origin <= d < f.origin + |mem| ==>
          exists j: nat :: j + 1 < |bounds| && bounds[j] == d - f.origin && SameLength(mem, bounds[j], b))
  }

  /** The assertion the scanner makes about the buckets at `b` once it has fixed their dependent. */
  ghost predicate Averred(mem: seq<Cell>, bounds: seq<nat>, f: Fixer, b: nat) {
    IsBuckets(mem, b) && Field(mem, b + 1) != 0 ==> Fits(mem, bounds, b, Fixed(f, Field(mem, b + 1)), f)
  }

  /** The same for the objects from number `i` up to number `j`. */
  ghost predicate AverHolds(mem: seq<Cell>, bounds: seq<nat>, f: Fixer, i: nat, j: nat) {
    forall k: nat :: i <= k < j && k + 1 < |bounds| ==> Averred(mem, bounds, f, bounds[k])
  }

  // ---- What scanning leaves alone ------------------------------------------------------------------

  /** A counter or a slot of the buckets from `b` to `e`. */
  predicate InnerOf(mem: seq<Cell>, b: nat, e: nat, a: nat) {
    IsBuckets(mem, b) && b + 4 <= a < e
  }

  ghost predicate Inner(mem: seq<Cell>, bounds: seq<nat>, a: nat) {
    exists k: nat :: k + 1 < |bounds| && InnerOf(mem, bounds[k], bounds[k + 1], a)
  }

  /** Only counters and slots of buckets have changed. */
  ghost predicate SlotsOnly(mem: seq<Cell>, mem': seq<Cell>, bounds: seq<nat>) {
    |mem'| == |mem| && forall a: nat :: a < |mem| && mem'[a] != mem[a] ==> Inner(mem, bounds, a)
  }

  /** The header of the object at `b` is as it was, and so is its length if it is a buckets object. */
  predicate LengthKept(mem: seq<Cell>, mem': seq<Cell>, b: nat) {
    && b < |mem| == |mem'| && mem'[b] == mem[b]
    && (IsBuckets(mem, b) ==> Field(mem', b + 2) == Field(mem, b + 2))
  }

  /** The same, and so is its dependent. */
  predicate HeadKept(mem: seq<Cell>, mem': seq<Cell>, b: nat) {
    LengthKept(mem, mem', b) && (IsBuckets(mem, b) ==> Field(mem', b + 1) == Field(mem, b + 1))
  }

  /** Every object but number `k` keeps its head, and that one all but its dependent. */
  ghost predicate HeadsKept(mem: seq<Cell>, mem': seq<Cell>, bounds: seq<nat>, k: nat) {
    forall j: nat :: j + 1 < |bounds| ==>
      LengthKept(mem, mem', bounds[j]) && (j != k ==> HeadKept(mem, mem', bounds[j]))
  }

  /** What an object's words are allowed to become is decided by the object they belong to. */
  lemma InnerIsOwn(mem: seq<Cell>, bounds: seq<nat>, k: nat, a: nat)
    requires Laid(mem, bounds) && k + 1 < |bounds| && bounds[k] <= a < bounds[k + 1] && Inner(mem, bounds, a)
    ensures InnerOf(mem, bounds[k], bounds[k + 1], a)
  {
    var j: nat :| j + 1 < |bounds| && InnerOf(mem, bounds[j], bounds[j + 1], a);
    if j < k { BoundsIncrease(mem, bounds, j, k); } else if k < j { BoundsIncrease(mem, bounds, k, j); }
  }

  /** Writing counters and slots of buckets spoils no object. */
  lemma SlotsOnlyKeeps(mem: seq<Cell>, mem': seq<Cell>, bounds: seq<nat>)
    requires Laid(mem, bounds) && SlotsOnly(mem, mem', bounds)
    ensures Laid(mem', bounds)
    ensures forall k: nat :: k + 1 < |bounds| ==> HeadKept(mem, mem', bounds[k])
  {
    hide ByteExtent;
    forall k: nat | k + 1 < |bounds| ensures Spans(mem', bounds[k], bounds[k + 1]) && HeadKept(mem, mem', bounds[k]) {
      SlotsOnlyKeepsOne(mem, mem', bounds, k);
    }
  }

  lemma SlotsOnlyKeepsOne(mem: seq<Cell>, mem': seq<Cell>, bounds: seq<nat>, k: nat)
    requires Laid(mem, bounds) && SlotsOnly(mem, mem', bounds) && k + 1 < |bounds|
    ensures Spans(mem', bounds[k], bounds[k + 1]) && HeadKept(mem, mem', bounds[k])
  {
    hide Inner;
    var b, e := bounds[k], bounds[k + 1];
    assert Spans(mem, b, e);
    BoundsIncrease(mem, bounds, k, k + 1);
    forall a: nat | b <= a < e && mem'[a] != mem[a] ensures InnerOf(mem, b, e, a) {
      InnerIsOwn(mem, bounds, k, a);
    }
    HeadIsEnough(mem, mem', b, e - b);
  }

  /** An object that changes only in the counters and slots of buckets keeps its extent. */
  lemma HeadIsEnough(mem: seq<Cell>, mem': seq<Cell>, b: nat, n: nat)
    requires ObjectAt(mem, b, n) && |mem'| == |mem|
    requires forall a: nat :: b <= a < b + n && mem'[a] != mem[a] ==> InnerOf(mem, b, b + n, a)
    ensures ObjectAt(mem', b, n) && HeadKept(mem, mem', b)
  {
    if IsBuckets(mem, b) {
      assert mem'[b] == mem[b] && mem'[b + 1] == mem[b + 1] && mem'[b + 2] == mem[b + 2];
    } else {
      ObjectIsLocal(mem, mem', b, n);
    }
  }

  /** Which words are counters and slots does not change. */
  lemma InnerStays(m: seq<Cell>, m1: seq<Cell>, bounds: seq<nat>, a: nat)
    requires Inner(m1, bounds, a)
    requires forall k: nat :: k + 1 < |bounds| ==> LengthKept(m, m1, bounds[k])
    ensures Inner(m, bounds, a)
  {
    var k: nat :| k + 1 < |bounds| && InnerOf(m1, bounds[k], bounds[k + 1], a);
    assert LengthKept(m, m1, bounds[k]);
    assert InnerOf(m, bounds[k], bounds[k + 1], a);
  }

  lemma SlotsOnlyTransitive(m: seq<Cell>, m1: seq<Cell>, m2: seq<Cell>, bounds: seq<nat>)
    requires Laid(m, bounds) && SlotsOnly(m, m1, bounds) && SlotsOnly(m1, m2, bounds)
    ensures SlotsOnly(m, m2, bounds)
  {
    hide Laid, Inner;
    SlotsOnlyKeeps(m, m1, bounds);
    forall a: nat | a < |m| && m2[a] != m[a] ensures Inner(m, bounds, a) {
      if m1[a] == m[a] { InnerStays(m, m1, bounds, a); }
    }
  }

  // ---- Scanning keeps the layout -------------------------------------------------------------------

  /** The slots of a buckets object lie inside it. */
  lemma BucketsExtent(mem: seq<Cell>, bounds: seq<nat>, k: nat)
    requires Laid(mem, bounds) && k + 1 < |bounds| && IsBuckets(mem, bounds[k])
    ensures bounds[k] + 5 + Field(mem, bounds[k] + 2) / 2 <= bounds[k + 1] <= |mem|
  {
    assert Spans(mem, bounds[k], bounds[k + 1]);
    BoundsIncrease(mem, bounds, k, k + 1);
    AlignBounds(BUCKETS_OFFSET + Field(mem, bounds[k] + 2) / 2 * WORD_SIZE);
  }

  /** The dependent, fixed already, is as long as the buckets at `b` if it lies in the region. */
  ghost predicate DependentFits(mem: seq<Cell>, bounds: seq<nat>, b: nat, f: Fixer) {
    Field(mem, b + 1) != 0 ==> Fits(mem, bounds, b, Field(mem, b + 1), f)
  }

  /** One turn of the bucket loop writes counters and slots of buckets only: the ones scanned, and
      those of the dependent. */
  lemma ScanSlotStays(mem: seq<Cell>, bounds: seq<nat>, k: nat, i: nat, f: Fixer)
    requires Laid(mem, bounds) && k + 1 < |bounds| && IsBuckets(mem, bounds[k])
    requires i < Field(mem, bounds[k] + 2) / 2 && DependentFits(mem, bounds, bounds[k], f)
    ensures bounds[k] + 5 + i < |mem|
    ensures SlotsOnly(mem, ScanSlot(mem, bounds[k], i, f), bounds)
  {
    hide Laid;
    BucketsExtent(mem, bounds, k);
    var b := bounds[k];
    assert InnerOf(mem, b, bounds[k + 1], b + 4) && InnerOf(mem, b, bounds[k + 1], b + 5 + i);
    var m1 := mem[b + 4 := Plain(Bumped(Field(mem, b + 4)))];
    assert Field(m1, b + 1) == Field(mem, b + 1);
    if LocalDependent(m1, b, f).Some? {
      var x := LocalDependent(m1, b, f).value;
      var j: nat :| j + 1 < |bounds| && bounds[j] == x && SameLength(mem, bounds[j], b);
      BucketsExtent(mem, bounds, j);
      assert InnerOf(mem, x, bounds[j + 1], x + 4) && InnerOf(mem, x, bounds[j + 1], x + 5 + i);
    }
  }

  lemma FitsStays(mem: seq<Cell>, mem': seq<Cell>, bounds: seq<nat>, b: nat, d: nat, f: Fixer)
    requires Fits(mem, bounds, b, d, f) && IsBuckets(mem, b) && LengthKept(mem, mem', b)
    requires forall j: nat :: j + 1 < |bounds| ==> LengthKept(mem, mem', bounds[j])
    ensures Fits(mem', bounds, b, d, f)
  {
    if f.origin <= d < f.origin + |mem| {
      var j: nat :| j + 1 < |bounds| && bounds[j] == d - f.origin && SameLength(mem, bounds[j], b);
      assert SameLength(mem', bounds[j], b);
    }
  }

  lemma {:induction false} ScanSlotsStay(mem: seq<Cell>, bounds: seq<nat>, k: nat, i: nat, f: Fixer)
    requires Laid(mem, bounds) && k + 1 < |bounds| && IsBuckets(mem, bounds[k])
    requires i <= Field(mem, bounds[k] + 2) / 2 && DependentFits(mem, bounds, bounds[k], f)
    ensures bounds[k] + 5 + Field(mem, bounds[k] + 2) / 2 <= |mem|
    ensures SlotsOnly(mem, ScanSlots(mem, bounds[k], Field(mem, bounds[k] + 2) / 2, i, f), bounds)
    decreases Field(mem, bounds[k] + 2) / 2 - i
  {
    hide Laid, ScanSlot, Inner, SlotsOnly, Fits, Field;
    BucketsExtent(mem, bounds, k);
    if i < Field(mem, bounds[k] + 2) / 2 {
      var m1 := ScanSlot(mem, bounds[k], i, f);
      ScanSlotStays(mem, bounds, k, i, f);
      SlotsOnlyKeeps(mem, m1, bounds);
      assert HeadKept(mem, m1, bounds[k]);
      if Field(mem, bounds[k] + 1) != 0 { FitsStays(mem, m1, bounds, bounds[k], Field(mem, bounds[k] + 1), f); }
      ScanSlotsStay(m1, bounds, k, i + 1, f);
      SlotsOnlyTransitive(mem, m1, ScanSlots(mem, bounds[k], Field(mem, bounds[k] + 2) / 2, i, f), bounds);
    } else {
      NothingWritten(mem, bounds);
    }
  }

  lemma NothingWritten(mem: seq<Cell>, bounds: seq<nat>)
    ensures SlotsOnly(mem, mem, bounds)
  {
  }

  /** A word that scanning object `k` may write: its own dependent or bucket references, or a counter or
      slot of any buckets. */
  ghost predicate ScanMayWrite(mem: seq<Cell>, bounds: seq<nat>, k: nat, a: nat)
    requires k + 1 < |bounds|
  {
    || Inner(mem, bounds, a)
    || (IsBuckets(mem, bounds[k]) && a == bounds[k] + 1)
    || (IsTable(mem, bounds[k]) && bounds[k] + 7 <= a < bounds[k] + 9)
  }

  /** Rewriting the words of one object that do not tell its size. */
  lemma RewriteHead(mem: seq<Cell>, mem': seq<Cell>, bounds: seq<nat>, k: nat)
    requires Laid(mem, bounds) && k + 1 < |bounds| && |mem'| == |mem|
    requires IsBuckets(mem, bounds[k]) || IsTable(mem, bounds[k])
    requires mem'[bounds[k]] == mem[bounds[k]] && Field(mem', bounds[k] + 2) == Field(mem, bounds[k] + 2)
    requires forall a: nat :: a < |mem| && !(bounds[k] < a < bounds[k + 1]) ==> mem'[a] == mem[a]
    ensures Laid(mem', bounds) && HeadsKept(mem, mem', bounds, k)
  {
    assert Spans(mem, bounds[k], bounds[k + 1]);
    RewriteKeeps(mem, bounds, k, mem');
    forall j: nat | j + 1 < |bounds| && j != k ensures HeadKept(mem, mem', bounds[j]) {
      assert Spans(mem, bounds[j], bounds[j + 1]);
      if j < k { BoundsIncrease(mem, bounds, j, k); } else { BoundsIncrease(mem, bounds, k, j); }
      BoundsIncrease(mem, bounds, j, j + 1);
    }
  }

  /** Scanning an object writes only the words named above. In particular it leaves the extents of all
      objects alone, and the dependents of all others. */
  lemma ScanObjectKeeps(mem: seq<Cell>, bounds: seq<nat>, k: nat, f: Fixer)
    requires Laid(mem, bounds) && k + 1 < |bounds| && Averred(mem, bounds, f, bounds[k])
    ensures var r := ScanObject(mem, bounds[k], f);
            && Laid(r, bounds) && HeadsKept(mem, r, bounds, k)
            && forall a: nat :: a < |mem| && r[a] != mem[a] ==> ScanMayWrite(mem, bounds, k, a)
  {
    hide Laid, ByteExtent;
    BoundaryObject(mem, bounds, k);
    if IsBuckets(mem, bounds[k]) {
      ScanBucketsKeeps(mem, bounds, k, f);
    } else if IsTable(mem, bounds[k]) {
      TableExtent(mem, bounds, k);
      RewriteHead(mem, ScanObject(mem, bounds[k], f), bounds, k);
    }
  }

  lemma BoundaryObject(mem: seq<Cell>, bounds: seq<nat>, i: nat)
    requires Laid(mem, bounds) && i + 1 < |bounds|
    ensures bounds[i] < bounds[i + 1] <= |mem| && ObjectAt(mem, bounds[i], bounds[i + 1] - bounds[i])
    ensures Skip(mem, bounds[i]) == Some(bounds[i + 1])
    ensures forall j: nat :: j + 1 < |bounds| ==> bounds[j] < |mem|
  {
    assert Spans(mem, bounds[i], bounds[i + 1]);
    BoundsIncrease(mem, bounds, i, i + 1);
    forall j: nat | j + 1 < |bounds| ensures bounds[j] < |mem| {
      assert Spans(mem, bounds[j], bounds[j + 1]);
      BoundsIncrease(mem, bounds, j, j + 1);
    }
  }

  lemma TableExtent(mem: seq<Cell>, bounds: seq<nat>, k: nat)
    requires Laid(mem, bounds) && k + 1 < |bounds| && IsTable(mem, bounds[k])
    ensures bounds[k] + 9 == bounds[k + 1] <= |mem|
  {
    BoundaryObject(mem, bounds, k);
  }

  lemma ScanBucketsKeeps(mem: seq<Cell>, bounds: seq<nat>, k: nat, f: Fixer)
    requires Laid(mem, bounds) && k + 1 < |bounds| && Averred(mem, bounds, f, bounds[k]) && IsBuckets(mem, bounds[k])
    ensures var r := ScanObject(mem, bounds[k], f);
            && Laid(r, bounds) && HeadsKept(mem, r, bounds, k)
            && forall a: nat :: a < |mem| && r[a] != mem[a] ==> ScanMayWrite(mem, bounds, k, a)
  {
    hide Laid, ScanSlots, Fits;
    var b, r := bounds[k], ScanObject(mem, bounds[k], f);
    BucketsExtent(mem, bounds, k);
    var m1 := FixDependent(mem, b, f);
    RewriteHead(mem, m1, bounds, k);
    if Field(mem, b + 1) != 0 { FitsStays(mem, m1, bounds, b, Fixed(f, Field(mem, b + 1)), f); }
    ScanSlotsStay(m1, bounds, k, 0, f);
    SlotsOnlyKeeps(m1, r, bounds);
    forall a: nat | a < |mem| && r[a] != mem[a] ensures ScanMayWrite(mem, bounds, k, a) {
      if a != b + 1 { InnerStays(mem, m1, bounds, a); }
    }
  }

  /** The assertions about the objects still to be scanned go on holding. */
  lemma AverStays(mem: seq<Cell>, mem': seq<Cell>, bounds: seq<nat>, f: Fixer, k: nat, j: nat)
    requires AverHolds(mem, bounds, f, k, j) && HeadsKept(mem, mem', bounds, k)
    ensures AverHolds(mem', bounds, f, k + 1, j)
  {
    hide Fits, Field;
    forall i: nat | k + 1 <= i < j && i + 1 < |bounds| ensures Averred(mem', bounds, f, bounds[i]) {
      assert HeadKept(mem, mem', bounds[i]) && Averred(mem, bounds, f, bounds[i]);
      if IsBuckets(mem', bounds[i]) && Field(mem', bounds[i] + 1) != 0 {
        FitsStays(mem, mem', bounds, bounds[i], Fixed(f, Field(mem, bounds[i] + 1)), f);
      }
    }
  }

  lemma {:induction false} ScanFromKeeps(mem: seq<Cell>, bounds: seq<nat>, i: nat, j: nat, f: Fixer)
    requires Laid(mem, bounds) && i <= j < |bounds| && AverHolds(mem, bounds, f, i, j)
    ensures var (mem', visited) := ScanFrom(mem, bounds[i], bounds[j], f);
            |mem'| == |mem| && Laid(mem', bounds) && visited == bounds[i..j]
    decreases j - i
  {
    hide Laid, ByteExtent, RecordWords, ScanObject, Averred;
    BoundsIncrease(mem, bounds, i, j);
    if i == j {
      assert bounds[i..j] == [];
    } else {
      BoundaryObject(mem, bounds, i);
      ScanObjectKeeps(mem, bounds, i, f);
      var mem1 := ScanObject(mem, bounds[i], f);
      AverStays(mem, mem1, bounds, f, i, j);
      ScanFromKeeps(mem1, bounds, i + 1, j, f);
      assert bounds[i..j] == [bounds[i]] + bounds[i + 1..j];
    }
  }

  lemma LimitIsLast(mem: seq<Cell>, bounds: seq<nat>)
    requires Laid(mem, bounds)
    ensures |bounds| >= 1 && bounds[0] == 0 && bounds[|bounds| - 1] == |mem|
  {
  }

  /** Scanning any range of objects of a laid-out region takes the same steps as skipping through it and leaves
      the whole region laid out the same way. */
  lemma ScanWalksLikeSkip(mem: seq<Cell>, bounds: seq<nat>, i: nat, j: nat, f: Fixer)
    requires Laid(mem, bounds) && i <= j < |bounds| && AverHolds(mem, bounds, f, i, j)
    ensures var (mem', visited) := ScanFrom(mem, bounds[i], bounds[j], f);
            && Laid(mem', bounds) && visited == Walk(mem, bounds[i], bounds[j]).0 == bounds[i..j]
            && Walk(mem', 0, |mem'|) == Walk(mem, 0, |mem|)
  {
    ScanFromKeeps(mem, bounds, i, j, f);
    var (mem', visited) := ScanFrom(mem, bounds[i], bounds[j], f);
    WalkBetween(mem, bounds, i, j);
    WalkLands(mem, bounds);
    WalkLands(mem', bounds);
  }

  // ---- Why the scanner asserts the length of the dependent -----------------------------------------

  /** A dependent that is no buckets object of the same length spoils the layout: here the buckets at
      word 0 name a padded area as their dependent, and splatting their only slot overwrites the header
      of the padding behind it. */
  lemma StrayDependentSpoils() returns (mem: seq<Cell>, bounds: seq<nat>, f: Fixer)
    ensures Laid(mem, bounds) && !AverHolds(mem, bounds, f, 0, |bounds| - 1)
    ensures forall bounds' :: !Laid(ScanObject(mem, 0, f), bounds')
  {
    f := Fixer(p => p == 7, p => 0, 9, 100);
    var unit := [Header(Buckets, false), Plain(106), Plain(3), Plain(1), Plain(1), Plain(7)];
    var pads := [Header(Pad, false), Plain(40), Plain(0), Plain(0), Plain(0), Header(Pad, false), Plain(16)];
    mem, bounds := unit + pads, [0, 6, 11, 13];
    assert Spans(mem, 0, 6) && Spans(mem, 6, 11) && Spans(mem, 11, 13);
    assert !SameLength(mem, 6, 0);
    assert !Averred(mem, bounds, f, bounds[0]) by {
      forall j: nat | j + 1 < |bounds| ensures !(bounds[j] == 6 && SameLength(mem, bounds[j], 0)) {
      }
    }
    StraySplat(mem, f);
    StrayWalk(mem, ScanObject(mem, 0, f));
    forall bounds' ensures !Laid(ScanObject(mem, 0, f), bounds') {
      if Laid(ScanObject(mem, 0, f), bounds') { WalkLands(ScanObject(mem, 0, f), bounds'); }
    }
  }

  lemma StrayWalk(mem: seq<Cell>, m: seq<Cell>)
    requires |mem| == 13 && mem[0] == Header(Buckets, false) && mem[2] == Plain(3) && mem[6] == Header(Pad, false) && mem[7] == Plain(40)
    requires |m| == 13 && m[0] == mem[0] && m[2] == mem[2] && m[6] == mem[6] && m[7] == mem[7] && m[11].Plain?
    ensures Walk(m, 0, |m|).1 == 11
  {
    assert Skip(m, 0) == Some(6) && Skip(m, 6) == Some(11) && Skip(m, 11) == None;
    WalkSkips(m, 0, 6);
    WalkSkips(m, 6, 11);
  }

  lemma WalkSkips(mem: seq<Cell>, b: nat, next: nat)
    requires b < |mem| && b < next && Skip(mem, b) == Some(next)
    ensures Walk(mem, b, |mem|).1 == Walk(mem, next, |mem|).1
  {
  }

  lemma StraySplat(mem: seq<Cell>, f: Fixer)
    requires |mem| == 13 && f.passes(7) && !f.passes(106) && f.fix(7) == 0 && f.deleted == 9 && f.origin == 100
    requires mem[..6] == [Header(Buckets, false), Plain(106), Plain(3), Plain(1), Plain(1), Plain(7)]
    ensures ScanObject(mem, 0, f) == mem[4 := Plain(3)][11 := Plain(9)][10 := Plain(Bumped(Field(mem, 10)))][5 := Plain(9)]
  {
    assert mem[0] == mem[..6][0] && mem[1] == mem[..6][1] && mem[2] == mem[..6][2] && mem[4] == mem[..6][4] && mem[5] == mem[..6][5];
    var m := ScanSlot(FixDependent(mem, 0, f), 0, 0, f);
    assert ScanObject(mem, 0, f) == ScanSlots(FixDependent(mem, 0, f), 0, 1, 0, f) == ScanSlots(m, 0, 1, 1, f) == m;
  }

  // ---- Runs -------------------------------------------------------------------------------------

  /** What may happen to a region: the program allocates at its end, or names a dependent for buckets
      `i`; the collector replaces object `i` by a forwarding record, pads over objects `i` to `j`, pads
      fresh words at the end, or scans objects `i` to `j`. */
  datatype Event =
    | Allocate(o: Object, raw: seq<Cell>)
    | SetDependent(i: nat, to: nat)
    | ForwardObject(i: nat, to: nat)
    | PadObjects(i: nat, j: nat, pinned: bool)
    | PadFresh(raw: seq<Cell>, pinned: bool)
    | ScanRange(i: nat, j: nat, f: Fixer)

  /** The memory and, for reference, the boundaries of its objects. */
  datatype Region = Region(mem: seq<Cell>, bounds: seq<nat>)

  /** Only objects that exist are forwarded or padded over, only those of two words or more are
      forwarded, as the assertion in `fwd` demands, and a scan finds every dependent as long as the
      buckets it belongs to, as the assertion in the scanner demands. */
  ghost predicate Legal(r: Region, e: Event) {
    match e
    case Allocate(o, raw) => |raw| == ReservedWords(o)
    case SetDependent(i, _) => i + 1 < |r.bounds| && r.bounds[i] + 1 < |r.mem| && IsBuckets(r.mem, r.bounds[i])
    case ForwardObject(i, _) =>
      i + 1 < |r.bounds| && r.bounds[i] + 2 <= r.bounds[i + 1] <= |r.mem| && r.mem[r.bounds[i]].Header?
    case PadObjects(i, j, _) => i < j < |r.bounds| && r.bounds[i] < r.bounds[j] <= |r.mem|
    case PadFresh(raw, _) => |raw| >= 1
    case ScanRange(i, j, f) => i <= j < |r.bounds| && AverHolds(r.mem, r.bounds, f, i, j)
  }

  ghost function After(r: Region, e: Event): Region
    requires Legal(r, e)
  {
    match e
    case Allocate(o, raw) => Region(r.mem + Image(o, raw), r.bounds + [|r.mem| + |raw|])
    case SetDependent(i, to) => Region(r.mem[r.bounds[i] + 1 := Plain(to)], r.bounds)
    case ForwardObject(i, to) => Region(Forward(r.mem, r.bounds[i], r.bounds[i + 1] - r.bounds[i], to), r.bounds)
    case PadObjects(i, j, pinned) =>
      Region(PadOver(r.mem, r.bounds[i], r.bounds[j] - r.bounds[i], pinned), r.bounds[..i + 1] + r.bounds[j..])
    case PadFresh(raw, pinned) => Region(r.mem + PadOver(raw, 0, |raw|, pinned), r.bounds + [|r.mem| + |raw|])
    case ScanRange(i, j, f) => Region(ScanFrom(r.mem, r.bounds[i], r.bounds[j], f).0, r.bounds)
  }

  /** No event spoils the layout. */
  lemma AfterKeeps(r: Region, e: Event)
    requires Laid(r.mem, r.bounds) && Legal(r, e)
    ensures Laid(After(r, e).mem, After(r, e).bounds)
  {
    hide Laid;
    match e
    case Allocate(o, raw) => AllocKeeps(r.mem, r.bounds, o, raw);
    case SetDependent(i, to) => SetDependentKeeps(r.mem, r.bounds, i, to);
    case ForwardObject(i, to) => ForwardKeepsLayout(r.mem, r.bounds, i, to);
    case PadObjects(i, j, pinned) => PadKeeps(r.mem, r.bounds, i, j, pinned);
    case PadFresh(raw, pinned) => PadTailKeeps(r.mem, r.bounds, raw, pinned);
    case ScanRange(i, j, f) => ScanFromKeeps(r.mem, r.bounds, i, j, f);
  }

  lemma SetDependentKeeps(mem: seq<Cell>, bounds: seq<nat>, i: nat, to: nat)
    requires Laid(mem, bounds) && i + 1 < |bounds| && IsBuckets(mem, bounds[i])
    ensures bounds[i] + 1 < |mem| && Laid(mem[bounds[i] + 1 := Plain(to)], bounds)
    ensures HeadsKept(mem, mem[bounds[i] + 1 := Plain(to)], bounds, i)
  {
    hide Laid;
    BucketsExtent(mem, bounds, i);
    RewriteHead(mem, mem[bounds[i] + 1 := Plain(to)], bounds, i);
  }

  lemma ForwardKeepsLayout(mem: seq<Cell>, bounds: seq<nat>, i: nat, to: nat)
    requires Laid(mem, bounds) && i + 1 < |bounds| && bounds[i] + 2 <= bounds[i + 1]
    ensures bounds[i + 1] <= |mem| && mem[bounds[i]].Header?
    ensures Laid(Forward(mem, bounds[i], bounds[i + 1] - bounds[i], to), bounds)
  {
    assert Spans(mem, bounds[i], bounds[i + 1]);
    BoundsIncrease(mem, bounds, i, i + 1);
    ForwardKeeps(mem, bounds[i], bounds[i + 1] - bounds[i], to);
    RewriteKeeps(mem, bounds, i, Forward(mem, bounds[i], bounds[i + 1] - bounds[i], to));
  }

  /** Every event of the run is legal when its turn comes, and `last` is where the run ends. */
  ghost predicate RunsTo(r: Region, events: seq<Event>, last: Region)
    decreases |events|
  {
    if events == [] then r == last
    else Legal(r, events[0]) && RunsTo(After(r, events[0]), events[1..], last)
  }

  lemma {:induction false} RunKeepsLayout(r: Region, events: seq<Event>, last: Region)
    requires Laid(r.mem, r.bounds) && RunsTo(r, events, last)
    ensures Laid(last.mem, last.bounds)
    decreases |events|
  {
    hide Laid, Legal, After;
    if events != [] {
      AfterKeeps(r, events[0]);
      RunKeepsLayout(After(r, events[0]), events[1..], last);
    }
  }

  lemma EmptyIsLaid()
    ensures Laid([], [0])
  {
  }

  /** Heap walkability: after any run from the empty region, skipping from the base lands on every object
      and exactly on the limit, and a scan of any range of objects takes the same steps. */
  lemma AlwaysWalkable(events: seq<Event>, last: Region, i: nat, j: nat, f: Fixer)
    requires RunsTo(Region([], [0]), events, last)
    ensures Laid(last.mem, last.bounds)
    ensures Walk(last.mem, 0, |last.mem|) == (last.bounds[..|last.bounds| - 1], |last.mem|)
    ensures Legal(last, ScanRange(i, j, f)) ==>
              ScanFrom(last.mem, last.bounds[i], last.bounds[j], f).1
                == Walk(last.mem, last.bounds[i], last.bounds[j]).0 == last.bounds[i..j]
  {
    EmptyIsLaid();
    RunKeepsLayout(Region([], [0]), events, last);
    WalkLands(last.mem, last.bounds);
    if Legal(last, ScanRange(i, j, f)) { ScanWalksLikeSkip(last.mem, last.bounds, i, j, f); }
  }

  // ---- The region in place ------------------------------------------------------------------------

  class Heap {
    const words: array<Cell>
    var limit: nat
    /** The boundaries of the objects, for reasoning only. */
    ghost var bounds: seq<nat>

    ghost function View(): seq<Cell>
      requires limit <= words.Length
      reads this, words
    {
      words[..limit]
    }

    ghost predicate Valid()
      reads this, words
    {
      limit <= words.Length && Laid(View(), bounds)
    }

    constructor (capacity: nat)
      ensures Valid() && limit == 0 && words.Length == capacity && fresh(words)
    {
      words := new Cell[capacity](_ => Plain(0));
      limit := 0;
      bounds := [0];
    }

    /** `managed_obj_skip` */
    method SkipObject(base: nat) returns (next: Option<nat>)
      requires Valid()
      ensures next == Skip(View(), base)
    {
      if base >= limit || !words[base].Header? {
        return None;
      }
      var extent: nat;
      match words[base].tag {
        case Empty => extent := AlignObj(EMPTY_SIZE);
        case ScannedPointer => extent := AlignObj(SCANNED_POINTER_SIZE);
        case Buckets =>
          var length := ReadField(base + 2);
          extent := AlignObj(BUCKETS_OFFSET + length / 2 * WORD_SIZE);
        case HashTable => extent := AlignObj(HASH_TABLE_SIZE);
        case String =>
          var length := ReadField(base + 1);
          extent := AlignObj(STRING_OFFSET + length + 1);
        case Fwd2 => extent := AlignWord(FWD2_SIZE);
        case Fwd =>
          var size := ReadField(base + 2);
          extent := AlignWord(size);
        case Pad1 => extent := AlignWord(PAD1_SIZE);
        case Pad =>
          var size := ReadField(base + 1);
          extent := AlignWord(size);
        case _ => return None;
      }
      return Some(base + extent / WORD_SIZE);
    }

    method ReadField(a: nat) returns (v: nat)
      requires limit <= words.Length
      ensures v == Field(View(), a)
    {
      v := if a < limit && words[a].Plain? then words[a].v else 0;
    }

    /** `make_*`: reserve, write, commit. */
    method Allocate(o: Object) returns (base: nat)
      requires Valid() && limit + ReservedWords(o) <= words.Length
      modifies this, words
      ensures Valid() && base == old(limit)
      ensures View() == old(View()) + Image(o, old(words[limit..limit + ReservedWords(o)]))
      ensures bounds == old(bounds) + [limit]
    {
      hide Laid, ReservedBytes, Written;
      ghost var mem, raw := View(), words[limit..limit + ReservedWords(o)];
      AllocKeeps(mem, bounds, o, raw);
      WrittenFits(o);
      base := limit;
      var w := Written(o);
      forall k | 0 <= k < |w| {
        words[base + k] := w[k];
      }
      limit := limit + ReservedWords(o);
      assert View() == mem + Image(o, raw);
      bounds := bounds + [limit];
    }

    /** `managed_obj_fwd`, with its assertion. */
    method ForwardObject(ghost i: nat, base: nat, to: nat)
      requires Valid() && i + 1 < |bounds| && base == bounds[i] && bounds[i] + 2 <= bounds[i + 1]
      modifies words
      ensures Valid() && bounds[i + 1] <= limit && old(View())[base].Header?
      ensures View() == Forward(old(View()), base, bounds[i + 1] - bounds[i], to)
      ensures Skip(View(), base) == Skip(old(View()), base) == Some(bounds[i + 1])
      ensures IsFwd(View(), base) == Some(to)
    {
      hide Laid, ByteExtent, RecordWords;
      ghost var mem := View();
      BoundaryObject(mem, bounds, i);
      ForwardKeepsLayout(mem, bounds, i, to);
      ForwardKeeps(mem, base, bounds[i + 1] - bounds[i], to);
      var end := SkipObject(base);
      var size := (end.value - base) * WORD_SIZE;
      assert size >= AlignWord(FWD2_SIZE);
      if size == AlignWord(FWD2_SIZE) {
        words[base] := Header(Fwd2, words[base].pinned);
        words[base + 1] := Plain(to);
      } else {
        words[base] := Header(Fwd, words[base].pinned);
        words[base + 1] := Plain(to);
        words[base + 2] := Plain(size);
      }
      assert View() == Forward(mem, base, bounds[i + 1] - bounds[i], to);
    }

    /** `managed_obj_pad` over whole objects `i` to `j`, given its address and size in bytes. */
    method PadArea(ghost i: nat, ghost j: nat, base: nat, size: nat)
      requires Valid() && i < j < |bounds| && base == bounds[i] && size == (bounds[j] - bounds[i]) * WORD_SIZE
      modifies this`bounds, words
      ensures Valid() && bounds == old(bounds)[..i + 1] + old(bounds)[j..]
      ensures old(bounds)[i] < old(bounds)[j] <= limit && old(View())[base].Header?
      ensures View() == PadOver(old(View()), base, old(bounds)[j] - base, old(View())[base].pinned)
    {
      hide Laid, ObjectAt;
      ghost var mem := View();
      AreaIsObjects(mem, bounds, i, j);
      PadKeeps(mem, bounds, i, j, mem[base].pinned);
      assert size >= AlignWord(PAD1_SIZE);
      if size == AlignWord(PAD1_SIZE) {
        words[base] := Header(Pad1, words[base].pinned);
      } else {
        words[base] := Header(Pad, words[base].pinned);
        words[base + 1] := Plain(size);
      }
      assert View() == PadOver(mem, base, bounds[j] - bounds[i], mem[base].pinned);
      bounds := bounds[..i + 1] + bounds[j..];
    }

    static lemma AreaIsObjects(mem: seq<Cell>, bounds: seq<nat>, i: nat, j: nat)
      requires Laid(mem, bounds) && i < j < |bounds|
      ensures bounds[i] < bounds[j] <= |mem| && mem[bounds[i]].Header?
    {
      BoundsIncrease(mem, bounds, i, j);
      assert Spans(mem, bounds[i], bounds[i + 1]);
    }

    /** Naming the dependent of a buckets object, as `make_table` and `table_rehash` do. */
    method SetDependent(ghost i: nat, base: nat, to: nat)
      requires Valid() && i + 1 < |bounds| && base == bounds[i] && IsBuckets(View(), base)
      modifies words
      ensures Valid() && base + 1 < limit && View() == old(View())[base + 1 := Plain(to)]
    {
      hide Laid;
      ghost var mem := View();
      SetDependentKeeps(mem, bounds, i, to);
      words[base + 1] := Plain(to);
      assert View() == mem[base + 1 := Plain(to)];
    }

    /** The loop of `managed_obj_scan` from object `i` up to object `j`, given their addresses: the bases it
        visits are the boundaries. */
    method ScanRegion(ghost i: nat, ghost j: nat, base: nat, end: nat, f: Fixer) returns (visited: seq<nat>)
      requires Valid() && i <= j < |bounds| && base == bounds[i] && end == bounds[j]
      requires AverHolds(View(), bounds, f, i, j)
      modifies words
      ensures Valid()
      ensures (View(), visited) == ScanFrom(old(View()), base, end, f)
      ensures visited == bounds[i..j]
    {
      hide Laid, ByteExtent, RecordWords, ScanObject, ObjectAt, Averred, Skip;
      ghost var mem := View();
      ScanFromKeeps(mem, bounds, i, j, f);
      visited := [];
      var at := base;
      ghost var k := i;
      while at < end
        invariant i <= k <= j && at == bounds[k] && Laid(View(), bounds)
        invariant AverHolds(View(), bounds, f, k, j)
        invariant ScanFrom(mem, base, end, f).0 == ScanFrom(View(), at, end, f).0
        invariant ScanFrom(mem, base, end, f).1 == visited + ScanFrom(View(), at, end, f).1
        decreases j - k
      {
        ghost var before := View();
        BoundsIncrease(before, bounds, k, j);
        BoundaryObject(before, bounds, k);
        var next := SkipObject(at);
        ScanStep(before, bounds, k, j, f);
        ScanOne(k, at, f);
        ghost var rest := ScanFrom(View(), bounds[k + 1], end, f).1;
        assert visited + ([at] + rest) == (visited + [at]) + rest;
        visited := visited + [at];
        at := next.value;
        k := k + 1;
      }
      assert visited + [] == visited;
    }

    static lemma ScanStep(mem: seq<Cell>, bounds: seq<nat>, i: nat, j: nat, f: Fixer)
      requires Laid(mem, bounds) && i < j < |bounds| && AverHolds(mem, bounds, f, i, j)
      ensures var mem' := ScanObject(mem, bounds[i], f);
              && Laid(mem', bounds) && AverHolds(mem', bounds, f, i + 1, j)
              && ScanFrom(mem, bounds[i], bounds[j], f)
                   == (ScanFrom(mem', bounds[i + 1], bounds[j], f).0, [bounds[i]] + ScanFrom(mem', bounds[i + 1], bounds[j], f).1)
    {
      hide Laid, Averred, ScanObject;
      BoundsIncrease(mem, bounds, i, j);
      BoundaryObject(mem, bounds, i);
      ScanObjectKeeps(mem, bounds, i, f);
      AverStays(mem, ScanObject(mem, bounds[i], f), bounds, f, i, j);
    }

    /** The cases of the scanner that fix references in the region, with the assertion about dependents. */
    method ScanOne(ghost i: nat, base: nat, f: Fixer)
      requires Valid() && i + 1 < |bounds| && base == bounds[i] && Averred(View(), bounds, f, base)
      modifies words
      ensures View() == ScanObject(old(View()), base, f)
    {
      hide Laid, ScanSlots, Fits;
      ghost var mem := View();
      BoundaryObject(mem, bounds, i);
      match words[base].tag {
        case Buckets =>
          BucketsExtent(mem, bounds, i);
          var length := ReadField(base + 2);
          var dependent := ReadField(base + 1);
          if dependent != 0 {
            dependent := Fixed(f, dependent);
            words[base + 1] := Plain(dependent);
            assert View() == mem[base + 1 := Plain(dependent)];
            FitsIsNotNull(mem, bounds, base, dependent, f);
            assert dependent != 0;
            if f.origin <= dependent < f.origin + limit {
              DependentHasLength(mem, View(), bounds, i, dependent, f);
              var dependentLength := ReadField(dependent - f.origin + 2);
              assert dependentLength == length;
            }
          }
          ScanBucketSlots(base, length / 2, f);
        case HashTable =>
          TableExtent(mem, bounds, i);
          var keys := ReadField(base + 7);
          words[base + 7] := Plain(Fixed(f, keys));
          var values := ReadField(base + 8);
          words[base + 8] := Plain(Fixed(f, values));
        case _ =>
      }
    }

    static lemma FitsIsNotNull(mem: seq<Cell>, bounds: seq<nat>, b: nat, d: nat, f: Fixer)
      requires Fits(mem, bounds, b, d, f)
      ensures d != 0
    {
    }

    static lemma DependentHasLength(mem: seq<Cell>, mem': seq<Cell>, bounds: seq<nat>, i: nat, d: nat, f: Fixer)
      requires Laid(mem, bounds) && i + 1 < |bounds| && IsBuckets(mem, bounds[i]) && Fits(mem, bounds, bounds[i], d, f)
      requires bounds[i] + 1 < |mem| && mem' == mem[bounds[i] + 1 := Plain(d)]
      requires f.origin <= d < f.origin + |mem|
      ensures Field(mem', d - f.origin + 2) == Field(mem, bounds[i] + 2)
    {
      hide Laid;
      SetDependentKeeps(mem, bounds, i, d);
      var j: nat :| j + 1 < |bounds| && bounds[j] == d - f.origin && SameLength(mem, bounds[j], bounds[i]);
      assert LengthKept(mem, mem', bounds[j]);
    }

    /** The bucket loop; the dependent is looked up again for every splatted slot. */
    method ScanBucketSlots(base: nat, length: nat, f: Fixer)
      requires base + 5 + length <= limit <= words.Length
      modifies words
      ensures View() == ScanSlots(old(View()), base, length, 0, f)
    {
      hide ScanSlot;
      ghost var mem := View();
      var i := 0;
      while i < length
        invariant i <= length
        invariant ScanSlots(mem, base, length, 0, f) == ScanSlots(View(), base, length, i, f)
      {
        ScanBucketSlot(base, i, f);
        i := i + 1;
      }
    }

    method ScanBucketSlot(base: nat, i: nat, f: Fixer)
      requires base + 5 + i < limit <= words.Length
      modifies words
      ensures View() == ScanSlot(old(View()), base, i, f)
      ensures var p := Field(old(View()), base + 5 + i);
              words[base + 5 + i] == if !f.passes(p) then old(words[base + 5 + i])
                                     else if f.fix(p) == 0 then Plain(f.deleted)
                                     else Plain(f.fix(p))
    {
      assert SplatSlot(View(), base, i, f)[base + 5 + i] == Plain(f.deleted);
      hide SplatSlot;
      var p := ReadField(base + 5 + i);
      if f.passes(p) {
        p := f.fix(p);
        if p == 0 {
          Splat(base, i, f);
        } else {
          Write(base + 5 + i, p);
        }
      }
    }

    /** The writes for a slot whose reference has come back as NULL, with those to the dependent. */
    method Splat(base: nat, i: nat, f: Fixer)
      requires base + 5 + i < limit <= words.Length
      modifies words
      ensures View() == SplatSlot(old(View()), base, i, f)
    {
      var count := ReadField(base + 4);
      Write(base + 4, Bumped(count));
      var dependent := ReadField(base + 1);
      if dependent != 0 && f.origin <= dependent < f.origin + limit {
        var x := dependent - f.origin;
        if x + 5 + i < limit {
          Write(x + 5 + i, f.deleted);
          var other := ReadField(x + 4);
          Write(x + 4, Bumped(other));
        }
      }
      Write(base + 5 + i, f.deleted);
    }

    method Write(a: nat, v: nat)
      requires a < limit <= words.Length
      modifies words
      ensures View() == old(View())[a := Plain(v)]
    {
      words[a] := Plain(v);
      assert View() == old(View())[a := Plain(v)];
    }
  }
}
