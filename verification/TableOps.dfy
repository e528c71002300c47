/** The operations of the collector-aware hash table as functions on table values, and what
    each of them does to the finite map the table stands for. */
module TableOps {
  import opened Words
  import opened Optional
  import opened Probing
  import opened Counting
  import opened MetadataTable

  /** A table together with the bucket a search left behind, if it succeeded. */
  datatype Found = Found(table: Table, bucket: Option<nat>)

  /** The new buckets while a rehash is filling them; `hit` is where the wanted key went. */
  datatype Build = Build(keys: seq<Ref>, values: seq<Ref>, used: nat, deps: set<(nat, Addr)>, hit: Option<nat>)

  function Tag(i: nat): nat { 2 * i + 1 }
  function Untag(i: nat): nat { i / 2 }

  function Blank(n: nat): (s: seq<Ref>)
    ensures |s| == n
  {
    seq(n, _ => Unused)
  }

  // ---- The operations ---------------------------------------------------------------------

  /** Adding `key` to the location dependency, done only when hashing an address. */
  function Noted(p: Policy, deps: set<(nat, Addr)>, key: nat, a: Addr): set<(nat, Addr)> {
    if p.addressed then deps + {(key, a)} else deps
  }

  predicate Wanted(p: Policy, k: nat, key: Option<nat>) {
    key.Some? && p.cmp(k, key.value)
  }

  function RehashFrom(p: Policy, t: Table, key: Option<nat>, i: nat, b: Build): (r: Build)
    requires |t.keys| == |t.values| && i <= |t.keys|
    requires |b.keys| == |b.values| > 0
    ensures |r.keys| == |r.values| == |b.keys|
    decreases |t.keys| - i
  {
    if i == |t.keys| then b
    else if !t.keys[i].Obj? then RehashFrom(p, t, key, i + 1, b)
    else
      var k := t.keys[i].id;
      match Find(p, b.keys, p.hash(k, t.loc(k)), k)
      case None => b
      case Some(s) =>
        if s < |b.keys| then
          RehashFrom(p, t, key, i + 1, Build(b.keys[s := Obj(k)], b.values[s := t.values[i]], b.used + 1,
                                             Noted(p, b.deps, k, t.loc(k)),
                                             if Wanted(p, k, key) then Some(s) else b.hit))
        else b
  }

  function Rehash(p: Policy, t: Table, newLength: nat, key: Option<nat>): (r: Found)
    requires |t.keys| == |t.values| && newLength > 0
    ensures |r.table.keys| == |r.table.values| == newLength
  {
    var b := RehashFrom(p, t, key, 0, Build(Blank(newLength), Blank(newLength), 0, {}, None));
    Found(Table(b.keys, b.values, b.used, 0, Ld(b.deps, false), t.loc), b.hit)
  }

  function TableFind(p: Policy, t: Table, key: nat, add: bool, coin: bool): (r: Found)
    requires |t.keys| == |t.values| > 0
    ensures |r.table.keys| == |r.table.values| == |t.keys|
  {
    var a := t.loc(key);
    var t1 := if add then t.(ld := t.ld.(deps := Noted(p, t.ld.deps, key, a))) else t;
    match Find(p, t.keys, p.hash(key, a), key)
    case None => Found(t1, None)
    case Some(b) =>
      if b < |t.keys| && (t.keys[b].Unused? || t.keys[b].Deleted?) && IsStale(t1.ld, t.loc, coin)
      then Rehash(p, t1, |t.keys|, Some(key))
      else Found(t1, Some(b))
  }

  /** The value of `key`, NULL when it has none. */
  function RefResult(f: Found): Ref
    requires |f.table.keys| == |f.table.values|
  {
    match f.bucket
    case None => Null
    case Some(b) =>
      if b < |f.table.keys| && !f.table.keys[b].Unused? && !f.table.keys[b].Deleted? then f.table.values[b] else Null
  }

  /** Storing a pair in the bucket that was found for it. */
  function Fill(t: Table, b: nat, key: nat, value: Ref): (r: Table)
    requires b < |t.keys| == |t.values|
    ensures |r.keys| == |r.values| == |t.keys|
  {
    var keys := if t.keys[b].Unused? || t.keys[b].Deleted? then t.keys[b := Obj(key)] else t.keys;
    t.(keys := keys, values := t.values[b := value],
       used := if t.keys[b].Unused? then t.used + 1 else t.used,
       deleted := if t.keys[b].Deleted? && t.deleted > 0 then t.deleted - 1 else t.deleted)
  }

  /** `bucket` of the result is set exactly when the call returns true. */
  function TrySet(p: Policy, t: Table, key: nat, value: Ref, coin: bool): (r: Found)
    requires |t.keys| == |t.values| > 0
    ensures |r.table.keys| == |r.table.values| == |t.keys|
  {
    var f := TableFind(p, t, key, true, coin);
    if f.bucket.Some? && f.bucket.value < |t.keys| then Found(Fill(f.table, f.bucket.value, key, value), f.bucket) else f
  }

  /** The tagged comparison `used >= length / 2`. */
  predicate Full(t: Table) {
    Tag(t.used) >= Tag(|t.keys|) / 2
  }

  function Set(p: Policy, t: Table, key: nat, value: Ref, coin: bool, coin': bool): (r: Table)
    requires |t.keys| == |t.values| > 0
    ensures |r.keys| == |r.values| > 0
  {
    if Full(t) then
      TrySet(p, Rehash(p, t, 2 * |t.keys|, None).table, key, value, coin').table
    else
      var f := TrySet(p, t, key, value, coin);
      if f.bucket.Some? then f.table
      else TrySet(p, Rehash(p, f.table, 2 * |f.table.keys|, None).table, key, value, coin').table
  }

  function Delete(p: Policy, t: Table, key: nat, coin: bool): (r: Table)
    requires |t.keys| == |t.values| > 0
    ensures |r.keys| == |r.values| > 0
  {
    var f := TableFind(p, t, key, false, coin);
    var t1 := f.table;
    match f.bucket
    case None => t1
    case Some(b) =>
      if b < |t1.keys| && !t1.keys[b].Unused? && !t1.keys[b].Deleted?
      then MarkDeleted(t1, b)
      else t1
  }

  /** The bucket loses its pair and becomes a tombstone. */
  function MarkDeleted(t: Table, b: nat): (r: Table)
    requires b < |t.keys| == |t.values|
    ensures |r.keys| == |r.values| == |t.keys|
  {
    t.(keys := t.keys[b := Deleted], deleted := t.deleted + 1, values := t.values[b := Null])
  }

  // ---- Rehashing ------------------------------------------------------------------------------

  ghost predicate Holds(keys: seq<Ref>, values: seq<Ref>, k: Ref, v: Ref)
    requires |keys| == |values|
  {
    exists s: nat :: s < |keys| && keys[s] == k && values[s] == v
  }

  /** The table the new buckets would make. */
  ghost function Half(t: Table, b: Build): Table {
    Table(b.keys, b.values, b.used, 0, Ld(b.deps, false), t.loc)
  }

  function LiveBelow(keys: seq<Ref>, i: nat): set<nat>
    requires i <= |keys|
  {
    set s: nat | s < i && keys[s].Obj?
  }

  /** After `i` old buckets the new ones hold exactly the live pairs among them. */
  ghost predicate Filling(p: Policy, t: Table, key: Option<nat>, i: nat, b: Build) {
    && Paired(p, t, key, i, b)
    && Core(p, Half(t, b))
    && !Moved(Ld(b.deps, false), t.loc)
  }

  ghost predicate Paired(p: Policy, t: Table, key: Option<nat>, i: nat, b: Build) {
    && i <= |t.keys| == |t.values|
    && |b.keys| == |b.values|
    && (forall s: nat :: s < i && t.keys[s].Obj? ==> Holds(b.keys, b.values, t.keys[s], t.values[s]))
    && (forall s: nat :: s < |b.keys| && b.keys[s].Obj? ==> HeldBelow(t, i, b.keys[s], b.values[s]))
    && (forall s: nat :: s < |b.keys| ==> !b.keys[s].Deleted?)
    && b.used == |LiveBelow(t.keys, i)|
    && (b.hit.None? <==> forall s: nat :: s < i && t.keys[s].Obj? ==> !Wanted(p, t.keys[s].id, key))
    && (b.hit.Some? ==> Hit(p, b, key))
  }

  ghost predicate Hit(p: Policy, b: Build, key: Option<nat>)
    requires b.hit.Some?
  {
    b.hit.value < |b.keys| && b.keys[b.hit.value].Obj? && Wanted(p, b.keys[b.hit.value].id, key)
  }

  ghost predicate HeldBelow(t: Table, i: nat, k: Ref, v: Ref)
    requires i <= |t.keys| == |t.values|
  {
    exists s: nat :: s < i && t.keys[s] == k && t.values[s] == v
  }

  lemma FillingStarts(p: Policy, t: Table, key: Option<nat>, newLength: nat)
    requires |t.keys| == |t.values| && IsPow2(newLength)
    ensures newLength > 0
    ensures Filling(p, t, key, 0, Build(Blank(newLength), Blank(newLength), 0, {}, None))
  {
    Pow2Positive(newLength);
    assert Occupied(Blank(newLength)) == {};
    assert Tombs(Blank(newLength)) == {};
    assert LiveBelow(t.keys, 0) == {};
  }

  lemma PairedSkips(p: Policy, t: Table, key: Option<nat>, i: nat, b: Build)
    requires Paired(p, t, key, i, b) && i < |t.keys| && !t.keys[i].Obj?
    ensures Paired(p, t, key, i + 1, b)
  {
    assert LiveBelow(t.keys, i + 1) == LiveBelow(t.keys, i);
  }

  /** Room for every live key leaves an unused bucket for the next one. */
  lemma FillingHasRoom(p: Policy, t: Table, key: Option<nat>, i: nat, b: Build) returns (free: nat)
    requires Filling(p, t, key, i, b) && i < |t.keys| && t.keys[i].Obj? && |Live(t.keys)| <= |b.keys|
    ensures free < |b.keys| && b.keys[free].Unused?
  {
    assert LiveBelow(t.keys, i) + {i} <= Live(t.keys);
    assert i !in LiveBelow(t.keys, i);
    SubsetSize(LiveBelow(t.keys, i) + {i}, Live(t.keys));
    free := UnusedExists(b.keys);
  }

  /** A key not yet copied is not in the new buckets. */
  lemma NotYetCopied(p: Policy, t: Table, key: Option<nat>, i: nat, b: Build)
    requires GoodPolicy(p) && Filling(p, t, key, i, b) && i < |t.keys| && t.keys[i].Obj? && Distinct(p, t.keys)
    ensures forall s: nat :: s < |b.keys| ==> !Matches(p, b.keys[s], t.keys[i].id)
  {
    forall s: nat | s < |b.keys| && b.keys[s].Obj? ensures !Matches(p, b.keys[s], t.keys[i].id) {
      var r: nat :| r < i && t.keys[r] == b.keys[s] && t.values[r] == b.values[s];
    }
  }

  /** The bucket found for a live key is unused, and filling it advances the rehash. */
  lemma FillingCopies(p: Policy, t: Table, key: Option<nat>, i: nat, b: Build) returns (s: nat)
    requires GoodPolicy(p) && Core(p, t) && Filling(p, t, key, i, b)
    requires i < |t.keys| && t.keys[i].Obj? && |Live(t.keys)| <= |b.keys|
    ensures |b.keys| > 0 && Find(p, b.keys, p.hash(t.keys[i].id, t.loc(t.keys[i].id)), t.keys[i].id) == Some(s)
    ensures s < |b.keys| && b.keys[s].Unused?
    ensures Filling(p, t, key, i + 1, Copied(p, t, key, i, b, s))
  {
    var k := t.keys[i].id;
    var h := p.hash(k, t.loc(k));
    var free := FillingHasRoom(p, t, key, i, b);
    NotYetCopied(p, t, key, i, b);
    var first := FindStops(p, b.keys, h, k, free);
    s := Slot(h, first, |b.keys|);
    CopyKeepsCore(p, t, key, i, b, first);
    CopyKeepsPairs(p, t, key, i, b, s);
    NotedIsCurrent(p, t, b.deps, k);
  }

  lemma NotedIsCurrent(p: Policy, t: Table, deps: set<(nat, Addr)>, k: nat)
    requires !Moved(Ld(deps, false), t.loc)
    ensures !Moved(Ld(Noted(p, deps, k, t.loc(k)), false), t.loc)
  {
    forall d | d in Noted(p, deps, k, t.loc(k)) ensures t.loc(d.0) == d.1 {
      if d in deps { assert d in Ld(deps, false).deps; }
    }
  }

  ghost function Copied(p: Policy, t: Table, key: Option<nat>, i: nat, b: Build, s: nat): Build
    requires i < |t.keys| == |t.values| && t.keys[i].Obj? && s < |b.keys| == |b.values|
  {
    var k := t.keys[i].id;
    Build(b.keys[s := Obj(k)], b.values[s := t.values[i]], b.used + 1, Noted(p, b.deps, k, t.loc(k)),
          if Wanted(p, k, key) then Some(s) else b.hit)
  }

  lemma CopyKeepsCore(p: Policy, t: Table, key: Option<nat>, i: nat, b: Build, first: nat)
    requires GoodPolicy(p) && Core(p, t) && Filling(p, t, key, i, b) && i < |t.keys| && t.keys[i].Obj?
    requires forall s: nat :: s < |b.keys| ==> !Matches(p, b.keys[s], t.keys[i].id)
    requires |b.keys| > 0 && FirstStop(p, b.keys, p.hash(t.keys[i].id, t.loc(t.keys[i].id)), t.keys[i].id, first)
    ensures var s := Slot(p.hash(t.keys[i].id, t.loc(t.keys[i].id)), first, |b.keys|);
            Core(p, Half(t, Copied(p, t, key, i, b, s)))
  {
    var k := t.keys[i].id;
    var h := p.hash(k, t.loc(k));
    var s := Slot(h, first, |b.keys|);
    var half := Half(t, b);
    var noted := half.(ld := Ld(Noted(p, b.deps, k, t.loc(k)), false));
    DependencyGrows(p, half, noted);
    assert Lockstep(t.keys[i], t.values[i]);
    InsertKeeps(p, noted, k, t.values[i], first, Half(t, Copied(p, t, key, i, b, s)));
  }

  lemma DependencyGrows(p: Policy, t: Table, t': Table)
    requires Core(p, t) && t.ld.deps <= t'.ld.deps && t' == t.(ld := t'.ld)
    ensures Core(p, t')
  {
    forall s: nat | s < |t'.keys| && t'.keys[s].Obj? ensures Located(p, t'.keys, t'.ld, s) {
      LocatedKept(p, t.keys, t.ld, t'.keys, t'.ld, s);
    }
  }

  lemma CopyKeepsPairs(p: Policy, t: Table, key: Option<nat>, i: nat, b: Build, s: nat)
    requires Paired(p, t, key, i, b) && i < |t.keys| && t.keys[i].Obj?
    requires s < |b.keys| && b.keys[s].Unused?
    ensures Paired(p, t, key, i + 1, Copied(p, t, key, i, b, s))
  {
    hide Hit, Wanted, LiveBelow, Holds, HeldBelow;
    CopyHoldsAll(p, t, key, i, b, s);
    LiveBelowGrows(t.keys, i);
    CopyKeepsHit(p, t, key, i, b, s);
  }

  lemma CopyHoldsAll(p: Policy, t: Table, key: Option<nat>, i: nat, b: Build, s: nat)
    requires Paired(p, t, key, i, b) && i < |t.keys| && t.keys[i].Obj?
    requires s < |b.keys| && b.keys[s].Unused?
    ensures var b' := Copied(p, t, key, i, b, s);
            && (forall r: nat :: r < i + 1 && t.keys[r].Obj? ==> Holds(b'.keys, b'.values, t.keys[r], t.values[r]))
            && (forall r: nat :: r < |b'.keys| && b'.keys[r].Obj? ==> HeldBelow(t, i + 1, b'.keys[r], b'.values[r]))
  {
    hide Hit, Wanted, LiveBelow;
    var b' := Copied(p, t, key, i, b, s);
    forall r: nat | r < i + 1 && t.keys[r].Obj? ensures Holds(b'.keys, b'.values, t.keys[r], t.values[r]) {
      if r < i {
        HoldsKept(b, s, Obj(t.keys[i].id), t.values[i], t.keys[r], t.values[r]);
      } else {
        assert b'.keys[s] == t.keys[r] && b'.values[s] == t.values[r];
      }
    }
    forall r: nat | r < |b'.keys| && b'.keys[r].Obj? ensures HeldBelow(t, i + 1, b'.keys[r], b'.values[r]) {
      if r != s { HeldBelowGrows(t, i, b.keys[r], b.values[r]); }
    }
  }

  lemma LiveBelowGrows(keys: seq<Ref>, i: nat)
    requires i < |keys| && keys[i].Obj?
    ensures |LiveBelow(keys, i + 1)| == |LiveBelow(keys, i)| + 1
  {
    assert LiveBelow(keys, i + 1) == LiveBelow(keys, i) + {i};
  }

  lemma HoldsKept(b: Build, s: nat, k: Ref, v: Ref, k': Ref, v': Ref)
    requires s < |b.keys| == |b.values| && b.keys[s].Unused? && k'.Obj? && Holds(b.keys, b.values, k', v')
    ensures Holds(b.keys[s := k], b.values[s := v], k', v')
  {
    var u: nat :| u < |b.keys| && b.keys[u] == k' && b.values[u] == v';
    assert b.keys[s := k][u] == k' && b.values[s := v][u] == v';
  }

  lemma HeldBelowGrows(t: Table, i: nat, k: Ref, v: Ref)
    requires i < |t.keys| == |t.values| && HeldBelow(t, i, k, v)
    ensures HeldBelow(t, i + 1, k, v)
  {
  }

  lemma CopyKeepsHit(p: Policy, t: Table, key: Option<nat>, i: nat, b: Build, s: nat)
    requires Paired(p, t, key, i, b) && i < |t.keys| && t.keys[i].Obj?
    requires s < |b.keys| && b.keys[s].Unused?
    ensures var b' := Copied(p, t, key, i, b, s);
            && (b'.hit.None? <==> forall r: nat :: r < i + 1 && t.keys[r].Obj? ==> !Wanted(p, t.keys[r].id, key))
            && (b'.hit.Some? ==> Hit(p, b', key))
  {
  }

  /** One turn of the rehash loop. */
  lemma FillingStep(p: Policy, t: Table, key: Option<nat>, i: nat, b: Build) returns (b': Build)
    requires GoodPolicy(p) && Core(p, t) && Filling(p, t, key, i, b)
    requires |Live(t.keys)| <= |b.keys| && |b.keys| > 0 && i < |t.keys|
    ensures Filling(p, t, key, i + 1, b') && |b'.keys| == |b.keys|
    ensures RehashFrom(p, t, key, i, b) == RehashFrom(p, t, key, i + 1, b')
  {
    if t.keys[i].Obj? {
      var s := FillingCopies(p, t, key, i, b);
      b' := Copied(p, t, key, i, b, s);
      RehashStep(p, t, key, i, b, s);
    } else {
      b' := b;
      FillingSkips(p, t, key, i, b);
    }
  }

  lemma FillingSkips(p: Policy, t: Table, key: Option<nat>, i: nat, b: Build)
    requires Filling(p, t, key, i, b) && i < |t.keys| && !t.keys[i].Obj? && |b.keys| > 0
    ensures Filling(p, t, key, i + 1, b)
    ensures RehashFrom(p, t, key, i, b) == RehashFrom(p, t, key, i + 1, b)
  {
    PairedSkips(p, t, key, i, b);
  }

  lemma RehashStep(p: Policy, t: Table, key: Option<nat>, i: nat, b: Build, s: nat)
    requires |t.keys| == |t.values| && i < |t.keys| && |b.keys| == |b.values| > 0 && t.keys[i].Obj?
    requires s < |b.keys| && Find(p, b.keys, p.hash(t.keys[i].id, t.loc(t.keys[i].id)), t.keys[i].id) == Some(s)
    ensures RehashFrom(p, t, key, i, b) == RehashFrom(p, t, key, i + 1, Copied(p, t, key, i, b, s))
  {
  }

  lemma {:induction false} FillingEnds(p: Policy, t: Table, key: Option<nat>, i: nat, b: Build)
    requires GoodPolicy(p) && Core(p, t) && Filling(p, t, key, i, b)
    requires |Live(t.keys)| <= |b.keys| && |b.keys| > 0
    ensures Filling(p, t, key, |t.keys|, RehashFrom(p, t, key, i, b))
    decreases |t.keys| - i
  {
    hide GoodPolicy, Core, Filling, RehashFrom, Live;
    FillingIsBelow(p, t, key, i, b);
    if i == |t.keys| {
      RehashDone(p, t, key, b);
    } else {
      var b' := FillingStep(p, t, key, i, b);
      FillingEnds(p, t, key, i + 1, b');
    }
  }

  lemma FillingIsBelow(p: Policy, t: Table, key: Option<nat>, i: nat, b: Build)
    requires Filling(p, t, key, i, b)
    ensures i <= |t.keys| == |t.values| && |b.keys| == |b.values|
  {
  }

  lemma RehashDone(p: Policy, t: Table, key: Option<nat>, b: Build)
    requires |t.keys| == |t.values| && |b.keys| == |b.values| > 0
    ensures RehashFrom(p, t, key, |t.keys|, b) == b
  {
  }

  /** A rehash into enough buckets keeps the map, drops every tombstone, leaves nothing stale, and
      reports the wanted key exactly when it is live. */
  lemma RehashKeeps(p: Policy, t: Table, newLength: nat, key: Option<nat>)
    requires GoodPolicy(p) && Core(p, t) && IsPow2(newLength) && |Live(t.keys)| <= newLength
    ensures newLength > 0
    ensures var r := Rehash(p, t, newLength, key);
            && Core(p, r.table) && Abs(r.table) == Abs(t)
            && r.table.loc == t.loc && !r.table.ld.collected && !Moved(r.table.ld, t.loc)
            && r.table.deleted == 0 && Tombs(r.table.keys) == {} && r.table.used == |Live(t.keys)|
            && (r.bucket.Some? <==> key.Some? && exists s: nat :: s < |t.keys| && Matches(p, t.keys[s], key.value))
            && (r.bucket.Some? ==> r.bucket.value < newLength && Matches(p, r.table.keys[r.bucket.value], key.value))
  {
    FillingStarts(p, t, key, newLength);
    var b0 := Build(Blank(newLength), Blank(newLength), 0, {}, None);
    FillingEnds(p, t, key, 0, b0);
    var b := RehashFrom(p, t, key, 0, b0);
    var n := |t.keys|;
    assert LiveBelow(t.keys, n) == Live(t.keys);
    CountsAgree(p, t);
    SameContents(p, t, key, b);
    assert b.hit.Some? <==> exists s: nat :: s < n && t.keys[s].Obj? && Wanted(p, t.keys[s].id, key);
    if key.Some? {
      assert forall s: nat :: s < n ==> (Matches(p, t.keys[s], key.value) <==> t.keys[s].Obj? && Wanted(p, t.keys[s].id, key));
    }
  }

  lemma SameContents(p: Policy, t: Table, key: Option<nat>, b: Build)
    requires GoodPolicy(p) && Core(p, t) && Filling(p, t, key, |t.keys|, b)
    ensures Contents(b.keys, b.values) == Abs(t)
  {
    DistinctUnique(p, t.keys);
    DistinctUnique(p, b.keys);
    forall s: nat | s < |b.keys| && b.keys[s].Obj?
      ensures b.keys[s].id in Abs(t) && Abs(t)[b.keys[s].id] == b.values[s]
    {
      var r: nat :| r < |t.keys| && t.keys[r] == b.keys[s] && t.values[r] == b.values[s];
      ContentsAt(t.keys, t.values, r);
    }
    forall k | k in Abs(t) ensures k in LiveKeys(b.keys) {
      var r := BucketOf(t.keys, k);
      assert Holds(b.keys, b.values, t.keys[r], t.values[r]);
      var s: nat :| s < |b.keys| && b.keys[s] == t.keys[r] && b.values[s] == t.values[r];
      assert b.keys[s].Obj? && b.keys[s].id == k;
    }
    ContentsIs(b.keys, b.values, Abs(t));
  }

  // ---- Finding, setting, deleting ------------------------------------------------------------

  /** A search under the invariant, stale or not: it changes nothing in the map, finds a present
      key, and otherwise either fails after a rehash or offers the unused bucket to fill. */
  lemma FindKeeps(p: Policy, t: Table, key: nat, add: bool, coin: bool)
    requires GoodPolicy(p) && Inv(p, t)
    ensures |t.keys| > 0
    ensures var r := TableFind(p, t, key, add, coin);
            && Inv(p, r.table) && Abs(r.table) == Abs(t) && r.table.loc == t.loc && |r.table.keys| == |t.keys|
            && (Rep(p, Abs(t), key).Some? ==>
                  r.bucket.Some? && r.bucket.value < |t.keys| && Matches(p, r.table.keys[r.bucket.value], key))
            && (Rep(p, Abs(t), key).None? ==> r.bucket.None? || Offered(p, r.table, key, add, r.bucket.value))
            && (r.bucket.None? ==> IsStale(t.(ld := t.ld.(deps := Noted(p, t.ld.deps, key, t.loc(key)))).ld, t.loc, coin))
  {
    hide GoodPolicy, Distinct, Located, Contents, Rehash, IsStale, Offered, Slot;
    Pow2Positive(|t.keys|);
    var h := p.hash(key, t.loc(key));
    var t1 := if add then t.(ld := t.ld.(deps := Noted(p, t.ld.deps, key, t.loc(key)))) else t;
    DependencyGrows(p, t, t1);
    var free := UnusedExists(t.keys);
    var first := FindStops(p, t.keys, h, key, free);
    var b := Slot(h, first, |t.keys|);
    if !t.keys[b].Unused? {
      RepIs(p, t, b, key);
    } else if IsStale(t1.ld, t.loc, coin) {
      StaleGrows(t1.ld, t.ld.(deps := Noted(p, t.ld.deps, key, t.loc(key))), t.loc, coin);
      FindAgain(p, t1, key);
    } else {
      FindOffers(p, t, t1, key, add, coin, first);
    }
  }

  lemma StaleGrows(ld: Ld, ld': Ld, loc: Placement, coin: bool)
    requires IsStale(ld, loc, coin) && ld.deps <= ld'.deps && ld'.collected == ld.collected
    ensures IsStale(ld', loc, coin)
  {
  }

  /** The search repeated after a rehash: it succeeds exactly for a present key. */
  lemma FindAgain(p: Policy, t: Table, key: nat)
    requires GoodPolicy(p) && Inv(p, t)
    ensures |t.keys| > 0
    ensures var r := Rehash(p, t, |t.keys|, Some(key));
            && Inv(p, r.table) && Abs(r.table) == Abs(t) && r.table.loc == t.loc && |r.table.keys| == |t.keys|
            && (r.bucket.Some? <==> Rep(p, Abs(t), key).Some?)
            && (r.bucket.Some? ==> r.bucket.value < |t.keys| && Matches(p, r.table.keys[r.bucket.value], key))
  {
    hide GoodPolicy, Distinct, Located, Contents, Rehash;
    CountsAgree(p, t);
    RehashKeeps(p, t, |t.keys|, Some(key));
    PresenceIsRep(p, t, key);
  }

  /** A search that is not stale and stops at an unused bucket offers it. */
  lemma FindOffers(p: Policy, t: Table, t1: Table, key: nat, add: bool, coin: bool, first: nat)
    requires GoodPolicy(p) && Core(p, t) && |t.keys| > 0 && FirstStop(p, t.keys, p.hash(key, t.loc(key)), key, first)
    requires t.keys[Slot(p.hash(key, t.loc(key)), first, |t.keys|)].Unused?
    requires t1 == if add then t.(ld := t.ld.(deps := Noted(p, t.ld.deps, key, t.loc(key)))) else t
    requires Core(p, t1) && !IsStale(t1.ld, t.loc, coin)
    ensures Rep(p, Abs(t), key) == None
    ensures Offered(p, t1, key, add, Slot(p.hash(key, t.loc(key)), first, |t.keys|))
  {
    hide GoodPolicy, Core, Slot, Contents;
    assert !Moved(t1.ld, t.loc);
    MissMeansAbsent(p, t1, t1.ld, key, first);
    RepNone(p, t, key);
  }

  /** An unused bucket in which `key` may be put. */
  ghost predicate Offered(p: Policy, t: Table, key: nat, add: bool, b: nat)
    requires |t.keys| > 0
  {
    && (forall s: nat :: s < |t.keys| ==> !Matches(p, t.keys[s], key))
    && (add ==> Depends(p, t.ld, key, t.loc(key)))
    && exists first: nat :: FirstStop(p, t.keys, p.hash(key, t.loc(key)), key, first)
          && b == Slot(p.hash(key, t.loc(key)), first, |t.keys|)
  }

  lemma PresenceIsRep(p: Policy, t: Table, key: nat)
    requires GoodPolicy(p) && Core(p, t)
    ensures Rep(p, Abs(t), key).Some? <==> exists s: nat :: s < |t.keys| && Matches(p, t.keys[s], key)
  {
    if s: nat :| s < |t.keys| && Matches(p, t.keys[s], key) {
      RepIs(p, t, s, key);
    } else {
      RepNone(p, t, key);
    }
  }

  /** The map after `key` is set: an equal stored key keeps its identity and gets the new value. */
  ghost function MapSet(p: Policy, m: map<nat, Ref>, key: nat, value: Ref): map<nat, Ref> {
    match Rep(p, m, key)
    case Some(k) => m[k := value]
    case None => m[key := value]
  }

  ghost function MapDelete(p: Policy, m: map<nat, Ref>, key: nat): map<nat, Ref> {
    match Rep(p, m, key)
    case Some(k) => m - {k}
    case None => m
  }

  ghost function MapRef(p: Policy, m: map<nat, Ref>, key: nat): Ref {
    match Rep(p, m, key)
    case Some(k) => m[k]
    case None => Null
  }

  /** A lookup returns what the map says and leaves the map alone. */
  lemma RefAgrees(p: Policy, t: Table, key: nat, coin: bool)
    requires GoodPolicy(p) && Inv(p, t)
    ensures |t.keys| > 0
    ensures var f := TableFind(p, t, key, false, coin);
            && Inv(p, f.table) && Abs(f.table) == Abs(t) && f.table.loc == t.loc
            && RefResult(f) == MapRef(p, Abs(t), key)
  {
    FindKeeps(p, t, key, false, coin);
    var f := TableFind(p, t, key, false, coin);
    if Rep(p, Abs(t), key).Some? {
      RepIs(p, f.table, f.bucket.value, key);
    }
  }

  /** A set attempt with room for one more key: it fails only after a rehash at the same length,
      and otherwise does to the table what setting does to the map. */
  lemma TrySetKeeps(p: Policy, t: Table, key: nat, value: Ref, coin: bool)
    requires GoodPolicy(p) && Inv(p, t) && (value.Null? || value.Obj?) && 2 * (t.used + 1) <= |t.keys|
    ensures var r := TrySet(p, t, key, value, coin);
            && Inv(p, r.table) && r.table.loc == t.loc
            && (r.bucket.Some? ==> Abs(r.table) == MapSet(p, Abs(t), key, value))
            && (r.bucket.None? ==> Abs(r.table) == Abs(t) && |r.table.keys| == |t.keys|)
            && (!IsStale(t.(ld := t.ld.(deps := Noted(p, t.ld.deps, key, t.loc(key)))).ld, t.loc, coin) ==> r.bucket.Some?)
  {
    hide GoodPolicy, Distinct, Located, Contents, TableFind, IsStale, Offered, Slot;
    FindKeeps(p, t, key, true, coin);
    var f := TableFind(p, t, key, true, coin);
    FindUsesNoBucket(p, t, key, coin);
    match f.bucket
    case None =>
    case Some(b) =>
      if Rep(p, Abs(t), key).Some? {
        RepIs(p, f.table, b, key);
        ReplaceKeeps(p, f.table, b, value, TrySet(p, t, key, value, coin).table);
      } else {
        FillOffered(p, f.table, key, value, b);
      }
  }

  /** Filling the bucket that a search has offered. */
  lemma FillOffered(p: Policy, t: Table, key: nat, value: Ref, b: nat)
    requires GoodPolicy(p) && Core(p, t) && (value.Null? || value.Obj?) && |t.keys| > 0 && Offered(p, t, key, true, b)
    ensures b < |t.keys| && t.keys[b].Unused?
    ensures var r := t.(keys := t.keys[b := Obj(key)], used := t.used + 1, values := t.values[b := value]);
            Core(p, r) && Abs(r) == Abs(t)[key := value]
  {
    hide GoodPolicy, Distinct, Located, Contents, Slot;
    OfferedIsUnused(p, t, key, true, b);
    var first: nat :| FirstStop(p, t.keys, p.hash(key, t.loc(key)), key, first)
                        && b == Slot(p.hash(key, t.loc(key)), first, |t.keys|);
    InsertKeeps(p, t, key, value, first, t.(keys := t.keys[b := Obj(key)], used := t.used + 1, values := t.values[b := value]));
  }

  lemma FindUsesNoBucket(p: Policy, t: Table, key: nat, coin: bool)
    requires GoodPolicy(p) && Inv(p, t)
    ensures |t.keys| > 0 && TableFind(p, t, key, true, coin).table.used <= t.used
  {
    Pow2Positive(|t.keys|);
    var t1 := t.(ld := t.ld.(deps := Noted(p, t.ld.deps, key, t.loc(key))));
    DependencyGrows(p, t, t1);
    CountsAgree(p, t1);
    RehashKeeps(p, t1, |t.keys|, Some(key));
  }

  /** The tagged test is the half-full test at every even length, and always true at length one. */
  lemma FullMeansHalf(p: Policy, t: Table)
    requires Core(p, t)
    ensures Full(t) <==> |t.keys| == 1 || 2 * t.used >= |t.keys|
  {
    Pow2EvenOrOne(|t.keys|);
  }

  /** Doubling makes room: the set that follows always succeeds. */
  lemma GrowThenSet(p: Policy, t: Table, key: nat, value: Ref, coin: bool)
    requires GoodPolicy(p) && Inv(p, t) && (value.Null? || value.Obj?)
    ensures |t.keys| > 0
    ensures var g := Rehash(p, t, 2 * |t.keys|, None).table;
            var r := TrySet(p, g, key, value, coin);
            && r.bucket.Some? && Inv(p, r.table) && r.table.loc == t.loc
            && Abs(r.table) == MapSet(p, Abs(t), key, value)
  {
    Pow2Positive(|t.keys|);
    Pow2Doubles(|t.keys|);
    Pow2EvenOrOne(|t.keys|);
    CountsAgree(p, t);
    RehashKeeps(p, t, 2 * |t.keys|, None);
    var g := Rehash(p, t, 2 * |t.keys|, None).table;
    assert 2 * (g.used + 1) <= |g.keys|;
    var noted := Ld(Noted(p, g.ld.deps, key, g.loc(key)), false);
    assert !IsStale(noted, g.loc, coin) by {
      forall d | d in noted.deps ensures g.loc(d.0) == d.1 {
        if d in g.ld.deps { assert !Moved(g.ld, g.loc); }
      }
    }
    assert g.(ld := g.ld.(deps := Noted(p, g.ld.deps, key, g.loc(key)))).ld == noted;
    TrySetKeeps(p, g, key, value, coin);
  }

  /** Setting a key refines setting it in the map, whatever the collector did before. */
  lemma SetAgrees(p: Policy, t: Table, key: nat, value: Ref, coin: bool, coin': bool)
    requires GoodPolicy(p) && Inv(p, t) && (value.Null? || value.Obj?)
    ensures |t.keys| > 0
    ensures var r := Set(p, t, key, value, coin, coin');
            Inv(p, r) && r.loc == t.loc && Abs(r) == MapSet(p, Abs(t), key, value)
  {
    Pow2Positive(|t.keys|);
    FullMeansHalf(p, t);
    Pow2EvenOrOne(|t.keys|);
    if Full(t) {
      GrowThenSet(p, t, key, value, coin');
    } else {
      TrySetKeeps(p, t, key, value, coin);
      var f := TrySet(p, t, key, value, coin);
      if f.bucket.None? {
        GrowThenSet(p, f.table, key, value, coin');
      }
    }
  }

  /** Deleting a key refines deleting it from the map. */
  lemma DeleteAgrees(p: Policy, t: Table, key: nat, coin: bool)
    requires GoodPolicy(p) && Inv(p, t)
    ensures |t.keys| > 0
    ensures var r := Delete(p, t, key, coin);
            Inv(p, r) && r.loc == t.loc && Abs(r) == MapDelete(p, Abs(t), key)
  {
    hide Inv, Core, GoodPolicy, TableFind, Contents, Find, Rehash;
    InvLengths(p, t);
    FindKeeps(p, t, key, false, coin);
    var f := TableFind(p, t, key, false, coin);
    if Rep(p, Abs(t), key).Some? {
      EraseFound(p, f.table, key, f.bucket.value);
    } else if f.bucket.Some? {
      OfferedIsUnused(p, f.table, key, false, f.bucket.value);
    }
  }

  lemma InvLengths(p: Policy, t: Table)
    requires Inv(p, t)
    ensures |t.keys| == |t.values| > 0
  {
    Pow2Positive(|t.keys|);
  }

  lemma OfferedIsUnused(p: Policy, t: Table, key: nat, add: bool, b: nat)
    requires |t.keys| > 0 && Offered(p, t, key, add, b)
    ensures b < |t.keys| && t.keys[b].Unused?
  {
  }

  lemma EraseFound(p: Policy, t: Table, key: nat, b: nat)
    requires GoodPolicy(p) && Inv(p, t) && b < |t.keys| && Matches(p, t.keys[b], key)
    ensures var r := MarkDeleted(t, b);
            Inv(p, r) && Abs(r) == MapDelete(p, Abs(t), key)
  {
    hide GoodPolicy, Distinct, Located, Contents;
    var r := MarkDeleted(t, b);
    RepIs(p, t, b, key);
    forall s: nat | s < |r.keys| && r.keys[s].Deleted? ensures r.values[s].Null? || r.values[s].Deleted? {
      assert Lockstep(t.keys[s], t.values[s]);
    }
    assert Erased(t, {b}, r);
    EraseKeeps(p, t, {b}, r);
    assert Ids(t.keys, {b}) == {t.keys[b].id};
  }

  // ---- The deleted counter -------------------------------------------------------------------

  /** The search for the key ends with a rehash of the table at its length. */
  predicate FindRehashes(p: Policy, t: Table, key: nat, add: bool, coin: bool)
    requires |t.keys| > 0
  {
    var f := Find(p, t.keys, p.hash(key, t.loc(key)), key);
    && f.Some? && f.value < |t.keys| && (t.keys[f.value].Unused? || t.keys[f.value].Deleted?)
    && IsStale(if add then t.ld.(deps := Noted(p, t.ld.deps, key, t.loc(key))) else t.ld, t.loc, coin)
  }

  /** Setting the key rehashes the table, to make room or because its keys may have moved. */
  predicate SetRehashes(p: Policy, t: Table, key: nat, coin: bool)
    requires |t.keys| > 0
  {
    Full(t) || FindRehashes(p, t, key, true, coin)
  }

  /** A search leaves the surplus of the deleted counter as it is, or clears it by a rehash. */
  lemma FindSurplus(p: Policy, t: Table, key: nat, add: bool, coin: bool)
    requires GoodPolicy(p) && Inv(p, t)
    ensures |t.keys| > 0
    ensures Surplus(TableFind(p, t, key, add, coin).table) == if FindRehashes(p, t, key, add, coin) then 0 else Surplus(t)
    ensures Counted(t) ==> Counted(TableFind(p, t, key, add, coin).table)
  {
    hide GoodPolicy, Find, Rehash, IsStale, Located, Distinct;
    Pow2Positive(|t.keys|);
    var t1 := if add then t.(ld := t.ld.(deps := Noted(p, t.ld.deps, key, t.loc(key)))) else t;
    DependencyGrows(p, t, t1);
    CountsAgree(p, t1);
    RehashKeeps(p, t1, |t.keys|, Some(key));
  }

  lemma TrySetSurplus(p: Policy, t: Table, key: nat, value: Ref, coin: bool)
    requires GoodPolicy(p) && Inv(p, t) && (value.Null? || value.Obj?)
    ensures |t.keys| > 0
    ensures Surplus(TrySet(p, t, key, value, coin).table) == if FindRehashes(p, t, key, true, coin) then 0 else Surplus(t)
    ensures Counted(t) ==> Counted(TrySet(p, t, key, value, coin).table)
  {
    hide GoodPolicy, TableFind, FindRehashes, Core, Offered, Contents;
    InvLengths(p, t);
    FindKeeps(p, t, key, true, coin);
    FindSurplus(p, t, key, true, coin);
    var f := TableFind(p, t, key, true, coin);
    if f.bucket.Some? {
      if Rep(p, Abs(t), key).None? { OfferedIsUnused(p, f.table, key, true, f.bucket.value); }
      FillKeepsTombs(f.table, f.bucket.value, key, value);
    }
  }

  lemma FillKeepsTombs(t: Table, b: nat, key: nat, value: Ref)
    requires b < |t.keys| == |t.values| && !t.keys[b].Deleted? && (t.keys[b].Unused? || t.keys[b].Obj?)
    ensures Fill(t, b, key, value).deleted == t.deleted && Tombs(Fill(t, b, key, value).keys) == Tombs(t.keys)
  {
  }

  lemma SetSurplus(p: Policy, t: Table, key: nat, value: Ref, coin: bool, coin': bool)
    requires GoodPolicy(p) && Inv(p, t) && (value.Null? || value.Obj?)
    ensures |t.keys| > 0
    ensures Surplus(Set(p, t, key, value, coin, coin')) == if SetRehashes(p, t, key, coin) then 0 else Surplus(t)
    ensures Counted(t) ==> Counted(Set(p, t, key, value, coin, coin'))
  {
    hide GoodPolicy, Core, TrySet, Rehash, FindRehashes, IsStale, Full;
    InvLengths(p, t);
    if Full(t) {
      GrowthClears(p, t, key, value, coin');
    } else {
      RoomUnlessFull(p, t);
      TrySetKeeps(p, t, key, value, coin);
      TrySetSurplus(p, t, key, value, coin);
      var f := TrySet(p, t, key, value, coin);
      if f.bucket.None? {
        GrowthClears(p, f.table, key, value, coin');
        FailureRehashed(p, t, key, value, coin);
      }
    }
  }

  lemma RoomUnlessFull(p: Policy, t: Table)
    requires Inv(p, t)
    ensures Full(t) <==> |t.keys| == 1 || 2 * t.used >= |t.keys|
    ensures !Full(t) ==> 2 * (t.used + 1) <= |t.keys|
  {
    FullMeansHalf(p, t);
    Pow2EvenOrOne(|t.keys|);
  }

  /** An attempt with room that fails has rehashed. */
  lemma FailureRehashed(p: Policy, t: Table, key: nat, value: Ref, coin: bool)
    requires GoodPolicy(p) && Inv(p, t) && |t.keys| > 0 && TrySet(p, t, key, value, coin).bucket.None?
    ensures FindRehashes(p, t, key, true, coin)
  {
    hide GoodPolicy, IsStale, Rehash, Located, Distinct, Slot;
    var free := UnusedExists(t.keys);
    var first := FindStops(p, t.keys, p.hash(key, t.loc(key)), key, free);
  }

  /** Growing clears the surplus, and the attempt that follows finds nothing stale. */
  lemma GrowthClears(p: Policy, t: Table, key: nat, value: Ref, coin: bool)
    requires GoodPolicy(p) && Inv(p, t) && (value.Null? || value.Obj?) && |t.keys| > 0
    ensures Counted(TrySet(p, Rehash(p, t, 2 * |t.keys|, None).table, key, value, coin).table)
  {
    hide GoodPolicy, TrySet, Rehash, FindRehashes, Located, Distinct;
    Pow2Doubles(|t.keys|);
    CountsAgree(p, t);
    RehashKeeps(p, t, 2 * |t.keys|, None);
    TrySetSurplus(p, Rehash(p, t, 2 * |t.keys|, None).table, key, value, coin);
  }

  lemma DeleteSurplus(p: Policy, t: Table, key: nat, coin: bool)
    requires GoodPolicy(p) && Inv(p, t)
    ensures |t.keys| > 0
    ensures Surplus(Delete(p, t, key, coin)) == if FindRehashes(p, t, key, false, coin) then 0 else Surplus(t)
    ensures Counted(t) ==> Counted(Delete(p, t, key, coin))
  {
    hide GoodPolicy, Inv, TableFind, FindRehashes, Offered, Contents;
    InvLengths(p, t);
    FindKeeps(p, t, key, false, coin);
    FindSurplus(p, t, key, false, coin);
    var f := TableFind(p, t, key, false, coin);
    if f.bucket.Some? {
      if Rep(p, Abs(t), key).None? {
        OfferedIsUnused(p, f.table, key, false, f.bucket.value);
      } else {
        TombGrows(f.table.keys, f.bucket.value);
      }
    }
  }

  lemma TombGrows(keys: seq<Ref>, b: nat)
    requires b < |keys| && keys[b].Obj?
    ensures |Tombs(keys[b := Deleted])| == |Tombs(keys)| + 1
  {
    assert Tombs(keys[b := Deleted]) == Tombs(keys) + {b};
  }

  /** The assertion at the end of a rehash, that the new table holds as many keys as `table_size` finds in
      the old one, holds exactly when the deleted counter is right. */
  lemma RehashAssertionIff(p: Policy, t: Table, newLength: nat, key: Option<nat>)
    requires GoodPolicy(p) && Core(p, t) && IsPow2(newLength) && |Live(t.keys)| <= newLength
    ensures newLength > 0
    ensures t.used >= t.deleted && Rehash(p, t, newLength, key).table.used == t.used - t.deleted <==> Counted(t)
  {
    hide Rehash, Located, Distinct;
    CountsAgree(p, t);
    RehashKeeps(p, t, newLength, key);
  }
}
