/** The collector-aware hash table as values: the table's state, the search through its
    buckets, and the invariant every operation and every collection keeps. */
module MetadataTable {
  import opened Words
  import opened Optional
  import opened Probing
  import opened Counting

  /** What a bucket may hold: NULL, one of the two global identity keys, or an object.
      Objects are named by identity; the collector rewrites the addresses in the buckets. */
  datatype Ref = Null | Unused | Deleted | Obj(id: nat)

  type Addr = Word

  /** Where the collector currently keeps each object. */
  type Placement = nat -> Addr

  /** The hash and comparison functions given to the table. An `addressed` table hashes the
      address of the key and compares by identity; otherwise the hash looks at contents only. */
  datatype Policy = Policy(addressed: bool, hash: (nat, Addr) -> Word, cmp: (nat, nat) -> bool)

  ghost predicate GoodPolicy(p: Policy) {
    && (forall a :: p.cmp(a, a))
    && (forall a, b :: p.cmp(a, b) ==> p.cmp(b, a))
    && (forall a, b, c :: p.cmp(a, b) && p.cmp(b, c) ==> p.cmp(a, c))
    && (p.addressed ==> forall a, b :: p.cmp(a, b) ==> a == b)
    && (!p.addressed ==> forall a, b, x, y :: p.cmp(a, b) ==> p.hash(a, x) == p.hash(b, y))
  }

  /** The location dependency: the objects added since the last reset, each with the address it
      had then, and whether a collection has run since that reset. */
  datatype Ld = Ld(deps: set<(nat, Addr)>, collected: bool)

  ghost predicate Moved(ld: Ld, loc: Placement) {
    exists d :: d in ld.deps && loc(d.0) != d.1
  }

  /** `mps_ld_isstale`: true if something recorded has moved, false if nothing was collected,
      and otherwise whatever the collector's approximation (`coin`) says. */
  predicate IsStale(ld: Ld, loc: Placement, coin: bool) {
    (exists d | d in ld.deps :: loc(d.0) != d.1) || (ld.collected && coin)
  }

  /** The table with its counters untagged. */
  datatype Table = Table(keys: seq<Ref>, values: seq<Ref>, used: nat, deleted: nat, ld: Ld, loc: Placement)

  // ---- Searching the buckets ----------------------------------------------------------------

  predicate Matches(p: Policy, r: Ref, key: nat) {
    r.Obj? && p.cmp(r.id, key)
  }

  predicate Stops(p: Policy, r: Ref, key: nat) {
    r.Unused? || Matches(p, r, key)
  }

  /** The search from step `t` on, `tomb` being the first deleted bucket met so far. */
  function FindFrom(p: Policy, keys: seq<Ref>, h: Word, key: nat, t: nat, tomb: Option<nat>): Option<nat>
    requires |keys| > 0 && t <= |keys|
    decreases |keys| - t
  {
    if t == |keys| then tomb
    else
      var i := Slot(h, t, |keys|);
      if Stops(p, keys[i], key) then Some(i)
      else FindFrom(p, keys, h, key, t + 1, if tomb.None? && keys[i].Deleted? then Some(i) else tomb)
  }

  function Find(p: Policy, keys: seq<Ref>, h: Word, key: nat): Option<nat>
    requires |keys| > 0
  {
    FindFrom(p, keys, h, key, 0, None)
  }

  /** Step `t` is the first of the search at which it stops. */
  ghost predicate FirstStop(p: Policy, keys: seq<Ref>, h: Word, key: nat, t: nat)
    requires |keys| > 0
  {
    && t < |keys|
    && Stops(p, keys[Slot(h, t, |keys|)], key)
    && forall u: nat :: u < t ==> !Stops(p, keys[Slot(h, u, |keys|)], key)
  }

  lemma {:induction false} FindStopsFrom(p: Policy, keys: seq<Ref>, h: Word, key: nat, t: nat, tomb: Option<nat>, last: nat)
    returns (first: nat)
    requires |keys| > 0 && t <= last < |keys|
    requires Stops(p, keys[Slot(h, last, |keys|)], key)
    requires forall u: nat :: u < t ==> !Stops(p, keys[Slot(h, u, |keys|)], key)
    ensures FirstStop(p, keys, h, key, first)
    ensures FindFrom(p, keys, h, key, t, tomb) == Some(Slot(h, first, |keys|))
    decreases |keys| - t
  {
    var i := Slot(h, t, |keys|);
    if Stops(p, keys[i], key) {
      first := t;
    } else {
      first := FindStopsFrom(p, keys, h, key, t + 1, if tomb.None? && keys[i].Deleted? then Some(i) else tomb, last);
    }
  }

  /** While some bucket is unused the search ends at its first unused or matching bucket,
      never at a deleted one. */
  lemma FindStops(p: Policy, keys: seq<Ref>, h: Word, key: nat, s: nat) returns (first: nat)
    requires IsPow2(|keys|) && s < |keys| && keys[s].Unused?
    ensures FirstStop(p, keys, h, key, first)
    ensures Find(p, keys, h, key) == Some(Slot(h, first, |keys|))
  {
    Pow2Positive(|keys|);
    var last := SlotsCover(h, s, |keys|);
    first := FindStopsFrom(p, keys, h, key, 0, None, last);
  }

  lemma {:induction false} FindNoneFrom(p: Policy, keys: seq<Ref>, h: Word, key: nat, t: nat, tomb: Option<nat>)
    requires |keys| > 0 && t <= |keys|
    ensures FindFrom(p, keys, h, key, t, tomb).None? <==>
      tomb.None? && forall u: nat :: t <= u < |keys| ==> Candidate(p, keys[Slot(h, u, |keys|)], key) == false
    decreases |keys| - t
  {
    if t < |keys| {
      var i := Slot(h, t, |keys|);
      FindNoneFrom(p, keys, h, key, t + 1, if tomb.None? && keys[i].Deleted? then Some(i) else tomb);
    }
  }

  predicate Candidate(p: Policy, r: Ref, key: nat) {
    r.Unused? || r.Deleted? || Matches(p, r, key)
  }

  /** The search fails exactly when no bucket is unused, deleted or matching. */
  lemma FindFailsIff(p: Policy, keys: seq<Ref>, h: Word, key: nat)
    requires IsPow2(|keys|)
    ensures |keys| > 0
    ensures Find(p, keys, h, key).None? <==> forall s: nat :: s < |keys| ==> !Candidate(p, keys[s], key)
  {
    Pow2Positive(|keys|);
    FindNoneFrom(p, keys, h, key, 0, None);
    if s: nat :| s < |keys| && Candidate(p, keys[s], key) {
      var u := SlotsCover(h, s, |keys|);
      assert Candidate(p, keys[Slot(h, u, |keys|)], key);
    }
  }

  // ---- The invariant -----------------------------------------------------------------------

  function Occupied(keys: seq<Ref>): set<nat> {
    set s: nat | s < |keys| && !keys[s].Unused?
  }

  function Tombs(keys: seq<Ref>): set<nat> {
    set s: nat | s < |keys| && keys[s].Deleted?
  }

  function Live(keys: seq<Ref>): set<nat> {
    set s: nat | s < |keys| && keys[s].Obj?
  }

  /** Bucket `s` lies on the probe sequence of `h` with no unused bucket before it. */
  ghost predicate Placed(keys: seq<Ref>, h: Word, s: nat) {
    exists t: nat :: PlacedAt(keys, h, s, t)
  }

  ghost predicate PlacedAt(keys: seq<Ref>, h: Word, s: nat, t: nat) {
    && t < |keys|
    && Slot(h, t, |keys|) == s
    && forall u: nat :: u < t ==> !keys[Slot(h, u, |keys|)].Unused?
  }

  ghost predicate Depends(p: Policy, ld: Ld, k: nat, a: Addr) {
    p.addressed ==> (k, a) in ld.deps
  }

  /** The key in bucket `s` can be reached from the hash it had at an address that the
      location dependency still records. */
  ghost predicate Located(p: Policy, keys: seq<Ref>, ld: Ld, s: nat)
    requires s < |keys| && keys[s].Obj?
  {
    exists a: Addr :: Depends(p, ld, keys[s].id, a) && Placed(keys, p.hash(keys[s].id, a), s)
  }

  ghost predicate Distinct(p: Policy, keys: seq<Ref>) {
    forall r: nat, s: nat :: r < s < |keys| && keys[r].Obj? && keys[s].Obj? ==> !p.cmp(keys[r].id, keys[s].id)
  }

  /** Keys and values agree bucket by bucket on what is unused, deleted and live. */
  predicate Lockstep(k: Ref, v: Ref) {
    match k
    case Null => false
    case Unused => v.Unused?
    case Deleted => v.Null? || v.Deleted?
    case Obj(_) => v.Null? || v.Obj?
  }

  ghost predicate Core(p: Policy, t: Table) {
    && IsPow2(|t.keys|)
    && |t.values| == |t.keys|
    && (forall s: nat :: s < |t.keys| ==> Lockstep(t.keys[s], t.values[s]))
    && t.used == |Occupied(t.keys)|
    && Distinct(p, t.keys)
    && (forall s: nat :: s < |t.keys| && t.keys[s].Obj? ==> Located(p, t.keys, t.ld, s))
  }

  /** What holds between operations: at least half of the buckets are unused. */
  ghost predicate Inv(p: Policy, t: Table) {
    Core(p, t) && 2 * t.used <= |t.keys|
  }

  /** The deleted counter is right. No search, set or rehash depends on it: it is read only to be kept
      up to date, and by `table_size`. */
  ghost predicate Counted(t: Table) {
    t.deleted == |Tombs(t.keys)|
  }

  /** How far the deleted counter is above the number of deleted buckets. */
  ghost function Surplus(t: Table): int {
    t.deleted - |Tombs(t.keys)|
  }

  lemma CountsAgree(p: Policy, t: Table)
    requires Core(p, t)
    ensures t.used == |Live(t.keys)| + |Tombs(t.keys)|
  {
    assert Live(t.keys) == Occupied(t.keys) - Tombs(t.keys);
    assert Tombs(t.keys) <= Occupied(t.keys);
    SubsetSize(Tombs(t.keys), Occupied(t.keys));
  }

  lemma UnusedExists(keys: seq<Ref>) returns (s: nat)
    requires |Occupied(keys)| < |keys|
    ensures s < |keys| && keys[s].Unused?
  {
    BelowSize(|keys|);
    SubsetSize(Occupied(keys), Below(|keys|));
    assert Occupied(keys) != Below(|keys|);
    s :| s in Below(|keys|) && s !in Occupied(keys);
  }

  // ---- The abstract map --------------------------------------------------------------------

  ghost predicate UniqueIds(keys: seq<Ref>) {
    forall r: nat, s: nat :: r < s < |keys| && keys[r].Obj? && keys[s].Obj? ==> keys[r].id != keys[s].id
  }

  lemma DistinctUnique(p: Policy, keys: seq<Ref>)
    requires GoodPolicy(p) && Distinct(p, keys)
    ensures UniqueIds(keys)
  {
  }

  function LiveKeys(keys: seq<Ref>): set<nat> {
    set s: nat | s < |keys| && keys[s].Obj? :: keys[s].id
  }

  ghost function BucketOf(keys: seq<Ref>, k: nat): (s: nat)
    requires k in LiveKeys(keys)
    ensures s < |keys| && keys[s] == Obj(k)
  {
    var s: nat :| s < |keys| && keys[s] == Obj(k);
    s
  }

  /** The finite map from key identity to value that the buckets stand for. */
  ghost function Contents(keys: seq<Ref>, values: seq<Ref>): map<nat, Ref>
    requires |keys| == |values|
  {
    map k | k in LiveKeys(keys) :: values[BucketOf(keys, k)]
  }

  ghost function Abs(t: Table): map<nat, Ref>
    requires |t.keys| == |t.values|
  {
    Contents(t.keys, t.values)
  }

  lemma ContentsAt(keys: seq<Ref>, values: seq<Ref>, s: nat)
    requires |keys| == |values| && UniqueIds(keys)
    requires s < |keys| && keys[s].Obj?
    ensures keys[s].id in Contents(keys, values) && Contents(keys, values)[keys[s].id] == values[s]
  {
    assert keys[s].id in LiveKeys(keys);
    var r := BucketOf(keys, keys[s].id);
    if r < s { assert false; } else if s < r { assert false; }
  }

  /** A map that agrees with the live buckets, in both directions, is their contents. */
  lemma ContentsIs(keys: seq<Ref>, values: seq<Ref>, m: map<nat, Ref>)
    requires |keys| == |values| && UniqueIds(keys)
    requires forall s: nat :: s < |keys| && keys[s].Obj? ==> keys[s].id in m && m[keys[s].id] == values[s]
    requires forall k :: k in m ==> k in LiveKeys(keys)
    ensures Contents(keys, values) == m
  {
    var c := Contents(keys, values);
    forall k | k in c ensures k in m && c[k] == m[k] {
      var s := BucketOf(keys, k);
      assert keys[s] == Obj(k);
    }
    assert c.Keys == m.Keys;
  }

  /** What `table_size` computes is the size of the map exactly when the deleted counter is right. */
  lemma SizeIsCardinality(p: Policy, t: Table)
    requires GoodPolicy(p) && Core(p, t)
    ensures t.used - t.deleted == |Abs(t)| - Surplus(t)
    ensures t.used - t.deleted == |Abs(t)| <==> Counted(t)
  {
    CountsAgree(p, t);
    DistinctUnique(p, t.keys);
    LiveKeysSize(t.keys);
    assert Abs(t).Keys == LiveKeys(t.keys);
  }

  lemma {:induction false} LiveKeysSize(keys: seq<Ref>)
    requires UniqueIds(keys)
    ensures |LiveKeys(keys)| == |Live(keys)|
  {
    if keys == [] {
      assert LiveKeys(keys) == {} && Live(keys) == {};
    } else {
      var n := |keys| - 1;
      LiveKeysSize(keys[..n]);
      LastLiveKey(keys);
    }
  }

  lemma LastLiveKey(keys: seq<Ref>)
    requires keys != [] && UniqueIds(keys)
    ensures var n := |keys| - 1;
            && LiveKeys(keys) == LiveKeys(keys[..n]) + (if keys[n].Obj? then {keys[n].id} else {})
            && Live(keys) == Live(keys[..n]) + (if keys[n].Obj? then {n} else {})
            && (keys[n].Obj? ==> keys[n].id !in LiveKeys(keys[..n]))
  {
    var n := |keys| - 1;
    forall k | k in LiveKeys(keys[..n]) ensures k in LiveKeys(keys) && (keys[n].Obj? ==> k != keys[n].id) {
      var s: nat :| s < n && keys[..n][s] == Obj(k);
      assert keys[s] == Obj(k);
    }
    forall k | k in LiveKeys(keys) ensures k in LiveKeys(keys[..n]) || keys[n] == Obj(k) {
      var s: nat :| s < |keys| && keys[s] == Obj(k);
      if s < n { assert keys[..n][s] == Obj(k); }
    }
  }

  /** The stored key that `key` is equal to under the table's comparison, if there is one. */
  ghost function Rep(p: Policy, m: map<nat, Ref>, key: nat): (r: Option<nat>)
    ensures r.Some? ==> r.value in m && p.cmp(r.value, key)
    ensures r.None? ==> forall k :: k in m ==> !p.cmp(k, key)
  {
    if k :| k in m && p.cmp(k, key) then Some(k) else None
  }

  lemma RepIs(p: Policy, t: Table, s: nat, key: nat)
    requires GoodPolicy(p) && Core(p, t) && s < |t.keys| && Matches(p, t.keys[s], key)
    ensures Rep(p, Abs(t), key) == Some(t.keys[s].id)
    ensures Abs(t)[t.keys[s].id] == t.values[s]
  {
    DistinctUnique(p, t.keys);
    ContentsAt(t.keys, t.values, s);
    var r := Rep(p, Abs(t), key);
    assert r.Some? by { assert t.keys[s].id in Abs(t); }
    var u := BucketOf(t.keys, r.value);
    assert p.cmp(r.value, t.keys[s].id) by { assert p.cmp(key, t.keys[s].id); }
    assert p.cmp(t.keys[s].id, r.value);
    if u < s { assert false; } else if s < u { assert false; }
  }

  lemma RepNone(p: Policy, t: Table, key: nat)
    requires Core(p, t)
    requires forall s: nat :: s < |t.keys| ==> !Matches(p, t.keys[s], key)
    ensures Rep(p, Abs(t), key) == None
  {
    forall k | k in Abs(t) ensures !p.cmp(k, key) {
      var s := BucketOf(t.keys, k);
      assert !Matches(p, t.keys[s], key);
    }
  }

  // ---- What a search that is not stale has found ----------------------------------------------

  /** Equal keys hash alike when neither has moved since its hash was taken. */
  lemma SameHash(p: Policy, a: nat, x: Addr, b: nat, y: Addr)
    requires GoodPolicy(p) && p.cmp(a, b) && (p.addressed ==> x == y)
    ensures p.hash(a, x) == p.hash(b, y)
  {
  }

  /** If nothing recorded has moved, every live key is where its current hash leads. */
  lemma PlacedNow(p: Policy, t: Table, ld: Ld, s: nat)
    requires GoodPolicy(p) && Core(p, t) && t.ld.deps <= ld.deps && !Moved(ld, t.loc)
    requires s < |t.keys| && t.keys[s].Obj?
    ensures Placed(t.keys, p.hash(t.keys[s].id, t.loc(t.keys[s].id)), s)
  {
    var k := t.keys[s].id;
    var a: Addr :| Depends(p, t.ld, k, a) && Placed(t.keys, p.hash(k, a), s);
    if p.addressed {
      assert (k, a) in ld.deps;
      assert t.loc((k, a).0) == (k, a).1;
    }
    SameHash(p, k, a, k, t.loc(k));
  }

  /** A search that stops at an unused bucket matches nothing that its hash leads to. */
  lemma PlacedUnmatched(p: Policy, keys: seq<Ref>, h: Word, key: nat, s: nat, first: nat)
    requires Placed(keys, h, s) && s < |keys| && keys[s].Obj?
    requires FirstStop(p, keys, h, key, first) && keys[Slot(h, first, |keys|)].Unused?
    ensures !Matches(p, keys[s], key)
  {
    var u: nat :| PlacedAt(keys, h, s, u);
    assert u < first;
    assert !Stops(p, keys[Slot(h, u, |keys|)], key);
  }

  /** If nothing recorded has moved, a search that stops at an unused bucket proves absence. */
  lemma MissMeansAbsent(p: Policy, t: Table, ld: Ld, key: nat, first: nat)
    requires GoodPolicy(p) && Core(p, t) && t.ld.deps <= ld.deps && !Moved(ld, t.loc)
    requires |t.keys| > 0 && FirstStop(p, t.keys, p.hash(key, t.loc(key)), key, first)
    requires t.keys[Slot(p.hash(key, t.loc(key)), first, |t.keys|)].Unused?
    ensures forall s: nat :: s < |t.keys| ==> !Matches(p, t.keys[s], key)
  {
    hide Placed, FirstStop, Core, GoodPolicy, Moved;
    forall s: nat | s < |t.keys| && t.keys[s].Obj? ensures !Matches(p, t.keys[s], key) {
      var k := t.keys[s].id;
      PlacedNow(p, t, ld, s);
      if p.cmp(k, key) {
        CurrentHash(p, t, key, k);
        PlacedUnmatched(p, t.keys, p.hash(key, t.loc(key)), key, s, first);
      }
    }
  }

  lemma CurrentHash(p: Policy, t: Table, key: nat, k: nat)
    requires GoodPolicy(p) && p.cmp(k, key)
    ensures p.hash(k, t.loc(k)) == p.hash(key, t.loc(key))
  {
    SameHash(p, k, t.loc(k), key, t.loc(key));
  }

  // ---- Single bucket updates -----------------------------------------------------------------

  /** Filling buckets or marking them deleted never uncovers a chain. */
  lemma PlacedKept(keys: seq<Ref>, keys': seq<Ref>, h: Word, s: nat)
    requires |keys'| == |keys| && Placed(keys, h, s)
    requires forall u: nat :: u < |keys| && !keys[u].Unused? ==> !keys'[u].Unused?
    ensures Placed(keys', h, s)
  {
    var t: nat :| PlacedAt(keys, h, s, t);
    assert PlacedAt(keys', h, s, t);
  }

  lemma LocatedKept(p: Policy, keys: seq<Ref>, ld: Ld, keys': seq<Ref>, ld': Ld, s: nat)
    requires s < |keys| == |keys'| && keys[s].Obj? && keys'[s] == keys[s]
    requires Located(p, keys, ld, s) && ld.deps <= ld'.deps
    requires forall u: nat :: u < |keys| && !keys[u].Unused? ==> !keys'[u].Unused?
    ensures Located(p, keys', ld', s)
  {
    var a: Addr :| Depends(p, ld, keys[s].id, a) && Placed(keys, p.hash(keys[s].id, a), s);
    PlacedKept(keys, keys', p.hash(keys[s].id, a), s);
    assert Depends(p, ld', keys[s].id, a);
  }

  /** Putting an absent key into the unused bucket that its search found. */
  lemma InsertKeeps(p: Policy, t: Table, key: nat, value: Ref, first: nat, t': Table)
    requires GoodPolicy(p) && Core(p, t) && (value.Null? || value.Obj?)
    requires |t.keys| > 0 && FirstStop(p, t.keys, p.hash(key, t.loc(key)), key, first)
    requires forall s: nat :: s < |t.keys| ==> !Matches(p, t.keys[s], key)
    requires Depends(p, t.ld, key, t.loc(key))
    requires var b := Slot(p.hash(key, t.loc(key)), first, |t.keys|);
             t' == t.(keys := t.keys[b := Obj(key)], values := t.values[b := value], used := t.used + 1)
    ensures Core(p, t') && Tombs(t'.keys) == Tombs(t.keys)
    ensures Abs(t') == Abs(t)[key := value]
  {
    hide GoodPolicy, Distinct, Located, Contents, Slot, Matches, Occupied, Tombs;
    var b := Slot(p.hash(key, t.loc(key)), first, |t.keys|);
    OfferedIsFree(p, t.keys, p.hash(key, t.loc(key)), key, first);
    InsertCounts(t.keys, b, key);
    InsertAllLocated(p, t, key, value, first, t');
    InsertDistinct(p, t.keys, b, key);
    InsertContents(p, t, b, key, value, t');
  }

  /** A search that matches nowhere stops at an unused bucket. */
  lemma OfferedIsFree(p: Policy, keys: seq<Ref>, h: Word, key: nat, first: nat)
    requires |keys| > 0 && FirstStop(p, keys, h, key, first)
    requires forall s: nat :: s < |keys| ==> !Matches(p, keys[s], key)
    ensures keys[Slot(h, first, |keys|)].Unused?
  {
  }

  lemma InsertCounts(keys: seq<Ref>, b: nat, key: nat)
    requires b < |keys| && keys[b].Unused?
    ensures |Occupied(keys[b := Obj(key)])| == |Occupied(keys)| + 1
    ensures Tombs(keys[b := Obj(key)]) == Tombs(keys)
  {
    assert Occupied(keys[b := Obj(key)]) == Occupied(keys) + {b};
  }

  lemma InsertAllLocated(p: Policy, t: Table, key: nat, value: Ref, first: nat, t': Table)
    requires Core(p, t)
    requires |t.keys| > 0 && FirstStop(p, t.keys, p.hash(key, t.loc(key)), key, first)
    requires Depends(p, t.ld, key, t.loc(key))
    requires t'.ld == t.ld && t'.keys == t.keys[Slot(p.hash(key, t.loc(key)), first, |t.keys|) := Obj(key)]
    ensures forall s: nat :: s < |t'.keys| && t'.keys[s].Obj? ==> Located(p, t'.keys, t'.ld, s)
  {
    hide Located, Distinct, Slot, Matches, Occupied, Tombs;
    var b := Slot(p.hash(key, t.loc(key)), first, |t.keys|);
    forall s: nat | s < |t'.keys| && t'.keys[s].Obj? ensures Located(p, t'.keys, t'.ld, s) {
      if s == b {
        InsertLocated(p, t, key, first);
      } else {
        LocatedKept(p, t.keys, t.ld, t'.keys, t'.ld, s);
      }
    }
  }

  lemma InsertLocated(p: Policy, t: Table, key: nat, first: nat)
    requires |t.keys| > 0 && FirstStop(p, t.keys, p.hash(key, t.loc(key)), key, first) && Depends(p, t.ld, key, t.loc(key))
    ensures var b := Slot(p.hash(key, t.loc(key)), first, |t.keys|);
            Located(p, t.keys[b := Obj(key)], t.ld, b)
  {
    var h := p.hash(key, t.loc(key));
    var b := Slot(h, first, |t.keys|);
    var keys' := t.keys[b := Obj(key)];
    forall u: nat | u < first ensures !keys'[Slot(h, u, |keys'|)].Unused? {
      assert !Stops(p, t.keys[Slot(h, u, |t.keys|)], key);
    }
    assert PlacedAt(keys', h, b, first);
    assert Placed(keys', h, b);
  }

  lemma InsertDistinct(p: Policy, keys: seq<Ref>, b: nat, key: nat)
    requires GoodPolicy(p) && Distinct(p, keys) && b < |keys|
    requires forall s: nat :: s < |keys| ==> !Matches(p, keys[s], key)
    ensures Distinct(p, keys[b := Obj(key)])
  {
    var keys' := keys[b := Obj(key)];
    forall r: nat, s: nat | r < s < |keys'| && keys'[r].Obj? && keys'[s].Obj?
      ensures !p.cmp(keys'[r].id, keys'[s].id)
    {
      assert !Matches(p, keys[r], key) && !Matches(p, keys[s], key);
    }
  }

  lemma InsertContents(p: Policy, t: Table, b: nat, key: nat, value: Ref, t': Table)
    requires GoodPolicy(p) && Distinct(p, t.keys) && b < |t.keys| == |t.values| && !t.keys[b].Obj?
    requires forall s: nat :: s < |t.keys| ==> !Matches(p, t.keys[s], key)
    requires t'.keys == t.keys[b := Obj(key)] && t'.values == t.values[b := value]
    ensures Abs(t') == Abs(t)[key := value]
  {
    InsertDistinct(p, t.keys, b, key);
    DistinctUnique(p, t.keys);
    DistinctUnique(p, t'.keys);
    var m := Abs(t)[key := value];
    forall s: nat | s < |t'.keys| && t'.keys[s].Obj?
      ensures t'.keys[s].id in m && m[t'.keys[s].id] == t'.values[s]
    {
      if s != b {
        ContentsAt(t.keys, t.values, s);
        assert !Matches(p, t.keys[s], key);
      }
    }
    forall k | k in m ensures k in LiveKeys(t'.keys) {
      if k == key {
        assert t'.keys[b] == Obj(key);
      } else {
        var s := BucketOf(t.keys, k);
        assert t'.keys[s] == Obj(k);
      }
    }
    ContentsIs(t'.keys, t'.values, m);
  }

  /** Overwriting the value of a live bucket. */
  lemma ReplaceKeeps(p: Policy, t: Table, b: nat, value: Ref, t': Table)
    requires GoodPolicy(p) && Core(p, t) && (value.Null? || value.Obj?)
    requires b < |t.keys| && t.keys[b].Obj? && t' == t.(values := t.values[b := value])
    ensures Core(p, t')
    ensures Abs(t') == Abs(t)[t.keys[b].id := value]
  {
    DistinctUnique(p, t.keys);
    var m := Abs(t)[t.keys[b].id := value];
    forall s: nat | s < |t'.keys| && t'.keys[s].Obj?
      ensures t'.keys[s].id in m && m[t'.keys[s].id] == t'.values[s]
    {
      ContentsAt(t.keys, t.values, s);
      if s < b { assert t.keys[s].id != t.keys[b].id; } else if b < s { assert t.keys[b].id != t.keys[s].id; }
    }
    forall k | k in m ensures k in LiveKeys(t'.keys) {
      if k != t.keys[b].id { var s := BucketOf(t.keys, k); }
    }
    ContentsIs(t'.keys, t'.values, m);
  }

  /** `t'` is `t` with the live buckets in `gone` marked deleted, keys and values at once. */
  ghost predicate Erased(t: Table, gone: set<nat>, t': Table) {
    && gone <= Live(t.keys)
    && |t'.keys| == |t.keys| == |t.values| == |t'.values|
    && t'.ld.deps == t.ld.deps
    && t'.used == t.used
    && (forall s: nat :: s < |t.keys| ==> t'.keys[s] == if s in gone then Deleted else t.keys[s])
    && (forall s: nat :: s < |t.keys| && t'.keys[s].Deleted? ==> t'.values[s].Null? || t'.values[s].Deleted?)
    && (forall s: nat :: s < |t.keys| && !t'.keys[s].Deleted? ==> t'.values[s] == t.values[s])
  }

  function Ids(keys: seq<Ref>, gone: set<nat>): set<nat>
    requires gone <= Live(keys)
  {
    set s | s in gone :: keys[s].id
  }

  lemma EraseKeeps(p: Policy, t: Table, gone: set<nat>, t': Table)
    requires GoodPolicy(p) && Core(p, t) && Erased(t, gone, t')
    ensures Core(p, t') && |Tombs(t'.keys)| == |Tombs(t.keys)| + |gone|
    ensures Abs(t') == Abs(t) - Ids(t.keys, gone)
  {
    EraseCounts(p, t, gone, t');
    EraseLocated(p, t, gone, t');
    EraseContents(p, t, gone, t');
    forall s: nat | s < |t'.keys| ensures Lockstep(t'.keys[s], t'.values[s]) {
      assert Lockstep(t.keys[s], t.values[s]);
    }
  }

  lemma EraseCounts(p: Policy, t: Table, gone: set<nat>, t': Table)
    requires Core(p, t) && Erased(t, gone, t')
    ensures t'.used == |Occupied(t'.keys)| && |Tombs(t'.keys)| == |Tombs(t.keys)| + |gone|
  {
    EraseSlots(t, gone, t');
    hide Core, Erased, Occupied, Tombs;
    assert |Tombs(t.keys) + gone| == |Tombs(t.keys)| + |gone|;
  }

  /** Erasing turns live buckets into deleted ones and leaves the occupied ones occupied. */
  lemma EraseSlots(t: Table, gone: set<nat>, t': Table)
    requires Erased(t, gone, t')
    ensures t'.used == t.used && Occupied(t'.keys) == Occupied(t.keys)
    ensures Tombs(t'.keys) == Tombs(t.keys) + gone && Tombs(t.keys) !! gone
  {
  }

  lemma EraseLocated(p: Policy, t: Table, gone: set<nat>, t': Table)
    requires Core(p, t) && Erased(t, gone, t')
    ensures forall s: nat :: s < |t'.keys| && t'.keys[s].Obj? ==> Located(p, t'.keys, t'.ld, s)
  {
    forall s: nat | s < |t'.keys| && t'.keys[s].Obj? ensures Located(p, t'.keys, t'.ld, s) {
      assert s !in gone;
      LocatedKept(p, t.keys, t.ld, t'.keys, t'.ld, s);
    }
  }

  lemma EraseContents(p: Policy, t: Table, gone: set<nat>, t': Table)
    requires GoodPolicy(p) && Core(p, t) && Erased(t, gone, t')
    ensures Abs(t') == Abs(t) - Ids(t.keys, gone)
  {
    DistinctUnique(p, t.keys);
    assert UniqueIds(t'.keys);
    var m := Abs(t) - Ids(t.keys, gone);
    forall s: nat | s < |t'.keys| && t'.keys[s].Obj?
      ensures t'.keys[s].id in m && m[t'.keys[s].id] == t'.values[s]
    {
      ContentsAt(t.keys, t.values, s);
      OthersDiffer(t.keys, gone, s);
    }
    forall k | k in m ensures k in LiveKeys(t'.keys) {
      var s := BucketOf(t.keys, k);
      assert s !in gone;
      assert t'.keys[s] == Obj(k);
    }
    ContentsIs(t'.keys, t'.values, m);
  }

  lemma OthersDiffer(keys: seq<Ref>, gone: set<nat>, s: nat)
    requires UniqueIds(keys) && gone <= Live(keys) && s in Live(keys) && s !in gone
    ensures keys[s].id !in Ids(keys, gone)
  {
    if g :| g in gone && keys[g].id == keys[s].id {
      if g < s { assert false; } else { assert false; }
    }
  }
}
