/** What a program sees of the metadata table, said without the functions that compute it: what is set is
    read back, what is deleted is gone, nothing else changes, and what was written last is still there
    after whatever else happens. */
module TableLaws {
  import opened Words
  import opened Optional
  import opened MetadataTable
  import opened TableOps
  import opened TableRuns

  // ---- The map --------------------------------------------------------------------------------

  ghost predicate DistinctKeys(p: Policy, m: map<nat, Ref>) {
    forall j, k :: j in m && k in m && p.cmp(j, k) ==> j == k
  }

  lemma ContentsAreDistinct(p: Policy, t: Table)
    requires GoodPolicy(p) && Core(p, t)
    ensures DistinctKeys(p, Abs(t))
  {
    forall j, k | j in Abs(t) && k in Abs(t) && p.cmp(j, k) ensures j == k {
      RepIs(p, t, BucketOf(t.keys, j), k);
      RepIs(p, t, BucketOf(t.keys, k), k);
    }
  }

  lemma Symmetric(p: Policy, a: nat, b: nat)
    requires GoodPolicy(p)
    ensures p.cmp(a, b) == p.cmp(b, a)
  {
  }

  /** Equal keys compare alike with every other. */
  lemma ComparesAlike(p: Policy, a: nat, b: nat, c: nat)
    requires GoodPolicy(p) && p.cmp(a, b)
    ensures p.cmp(a, c) == p.cmp(b, c)
  {
    assert p.cmp(b, a);
  }

  lemma RepIsUnique(p: Policy, m: map<nat, Ref>, key: nat, k: nat)
    requires GoodPolicy(p) && DistinctKeys(p, m) && k in m && p.cmp(k, key)
    ensures Rep(p, m, key) == Some(k)
  {
    var r := Rep(p, m, key).value;
    assert p.cmp(key, k) && p.cmp(r, key);
    assert p.cmp(r, k);
  }

  /** A lookup answers the value of the equal stored key, and NULL only if there is none or it holds NULL. */
  lemma MapRefReads(p: Policy, m: map<nat, Ref>, key: nat)
    requires GoodPolicy(p) && DistinctKeys(p, m)
    ensures forall k :: k in m && p.cmp(k, key) ==> MapRef(p, m, key) == m[k]
    ensures (forall k :: k in m ==> !p.cmp(k, key)) ==> MapRef(p, m, key) == Null
  {
    forall k | k in m && p.cmp(k, key) ensures MapRef(p, m, key) == m[k] {
      RepIsUnique(p, m, key, k);
    }
  }

  /** Setting a key changes the answers for equal keys to the value, and no others. */
  lemma MapSetReads(p: Policy, m: map<nat, Ref>, key: nat, value: Ref, key': nat)
    requires GoodPolicy(p) && DistinctKeys(p, m)
    ensures var r := MapSet(p, m, key, value);
            && DistinctKeys(p, r)
            && MapRef(p, r, key') == (if p.cmp(key, key') then value else MapRef(p, m, key'))
  {
    var r, k0 := MapSet(p, m, key, value), Rep(p, m, key).Or(key);
    assert k0 in r && r[k0] == value && p.cmp(k0, key);
    SetIsDistinct(p, m, key, value);
    if p.cmp(key, key') {
      RepIsUnique(p, r, key', k0);
    } else {
      ComparesAlike(p, k0, key, key');
      if Rep(p, m, key').Some? {
        RepIsUnique(p, r, key', Rep(p, m, key').value);
      }
    }
  }

  lemma SetIsDistinct(p: Policy, m: map<nat, Ref>, key: nat, value: Ref)
    requires GoodPolicy(p) && DistinctKeys(p, m)
    ensures DistinctKeys(p, MapSet(p, m, key, value))
  {
    if Rep(p, m, key).None? {
      forall k | k in m ensures !p.cmp(k, key) && !p.cmp(key, k) {
        Symmetric(p, k, key);
      }
    }
  }

  /** Setting an equal key keeps the stored one; otherwise it adds the key itself. */
  lemma MapSetKeys(p: Policy, m: map<nat, Ref>, key: nat, value: Ref)
    requires GoodPolicy(p)
    ensures (exists k :: k in m && p.cmp(k, key)) ==> MapSet(p, m, key, value).Keys == m.Keys
    ensures (forall k :: k in m ==> !p.cmp(k, key)) ==> MapSet(p, m, key, value).Keys == m.Keys + {key}
  {
  }

  lemma KeepsOthers(p: Policy, key: nat, k: nat, key': nat)
    requires GoodPolicy(p) && !p.cmp(key, key') && p.cmp(k, key')
    ensures !p.cmp(k, key)
  {
    Symmetric(p, k, key);
    Symmetric(p, key, key');
    ComparesAlike(p, k, key', key);
  }

  /** Deleting a key makes equal keys answer NULL, and changes no other answer. */
  lemma MapDeleteReads(p: Policy, m: map<nat, Ref>, key: nat, key': nat)
    requires GoodPolicy(p) && DistinctKeys(p, m)
    ensures var r := MapDelete(p, m, key);
            && (forall k :: k in r <==> k in m && !p.cmp(k, key))
            && MapRef(p, r, key') == (if p.cmp(key, key') then Null else MapRef(p, m, key'))
  {
    var r := MapDelete(p, m, key);
    forall k | k in m && p.cmp(k, key) ensures k !in r {
      RepIsUnique(p, m, key, k);
    }
    forall k | k in m && !p.cmp(k, key) ensures k in r {
    }
    if p.cmp(key, key') {
      forall k | k in r ensures !p.cmp(k, key') {
        assert p.cmp(key', key);
      }
    } else if Rep(p, m, key').Some? {
      var k := Rep(p, m, key').value;
      KeepsOthers(p, key, k, key');
      RepIsUnique(p, r, key', k);
    }
  }

  /** `r` answers `value` for the keys equal to `key`, and what `m` answers for all others. */
  ghost predicate Overwritten(p: Policy, m: map<nat, Ref>, key: nat, value: Ref, r: map<nat, Ref>) {
    forall k :: MapRef(p, r, k) == if p.cmp(key, k) then value else MapRef(p, m, k)
  }

  lemma ContentsOverwritten(p: Policy, t: Table, key: nat, value: Ref)
    requires GoodPolicy(p) && Inv(p, t)
    ensures |t.keys| == |t.values|
    ensures Overwritten(p, Abs(t), key, value, MapSet(p, Abs(t), key, value))
    ensures Overwritten(p, Abs(t), key, Null, MapDelete(p, Abs(t), key))
  {
    hide GoodPolicy, Inv, Core, DistinctKeys, MapRef, MapSet, MapDelete, Abs;
    InvLengths(p, t);
    InvIsCore(p, t);
    ContentsAreDistinct(p, t);
    var m := Abs(t);
    forall k ensures MapRef(p, MapSet(p, m, key, value), k) == if p.cmp(key, k) then value else MapRef(p, m, k) {
      MapSetReads(p, m, key, value, k);
    }
    forall k ensures MapRef(p, MapDelete(p, m, key), k) == if p.cmp(key, k) then Null else MapRef(p, m, k) {
      MapDeleteReads(p, m, key, k);
    }
  }

  // ---- The table --------------------------------------------------------------------------------

  /** What the table answers to a lookup. */
  function Ask(p: Policy, t: Table, key: nat, coin: bool): Ref
    requires |t.keys| == |t.values| > 0
  {
    RefResult(TableFind(p, t, key, false, coin))
  }

  /** What is set is read back under every equal key, and the answers for all other keys are what they were. */
  lemma SetThenRef(p: Policy, t: Table, key: nat, value: Ref, coins: (bool, bool), key': nat, coin: bool, coin': bool)
    requires GoodPolicy(p) && Inv(p, t) && (value.Null? || value.Obj?)
    ensures |t.keys| == |t.values| > 0
    ensures Ask(p, Set(p, t, key, value, coins.0, coins.1), key', coin)
              == if p.cmp(key, key') then value else Ask(p, t, key', coin')
  {
    hide GoodPolicy, Inv, Core, Set, TableFind, RefResult, MapSet, MapRef, Contents, DistinctKeys;
    InvLengths(p, t);
    InvIsCore(p, t);
    ContentsAreDistinct(p, t);
    SetAgrees(p, t, key, value, coins.0, coins.1);
    MapSetReads(p, Abs(t), key, value, key');
    RefAgrees(p, Set(p, t, key, value, coins.0, coins.1), key', coin);
    RefAgrees(p, t, key', coin');
  }

  /** What is deleted answers NULL under every equal key, and the answers for all other keys are what they were. */
  lemma DeleteThenRef(p: Policy, t: Table, key: nat, c: bool, key': nat, coin: bool, coin': bool)
    requires GoodPolicy(p) && Inv(p, t)
    ensures |t.keys| == |t.values| > 0
    ensures Ask(p, Delete(p, t, key, c), key', coin) == if p.cmp(key, key') then Null else Ask(p, t, key', coin')
  {
    hide GoodPolicy, Inv, Core, Delete, TableFind, RefResult, MapDelete, MapRef, Contents, DistinctKeys;
    InvLengths(p, t);
    InvIsCore(p, t);
    ContentsAreDistinct(p, t);
    DeleteAgrees(p, t, key, c);
    MapDeleteReads(p, Abs(t), key, key');
    RefAgrees(p, Delete(p, t, key, c), key', coin);
    RefAgrees(p, t, key', coin');
  }

  /** A set doubles the table if it is half full or has one bucket, never does more than that, and leaves the
      length alone unless it rehashes. */
  lemma SetLength(p: Policy, t: Table, key: nat, value: Ref, coin: bool, coin': bool)
    requires GoodPolicy(p) && Inv(p, t) && (value.Null? || value.Obj?)
    ensures |t.keys| == |t.values| > 0
    ensures var n := |Set(p, t, key, value, coin, coin').keys|;
            && (n == |t.keys| || n == 2 * |t.keys|)
            && (|t.keys| == 1 || 2 * t.used >= |t.keys| ==> n == 2 * |t.keys|)
            && (!SetRehashes(p, t, key, coin) ==> n == |t.keys|)
  {
    hide GoodPolicy, Core, TrySet, Rehash, FindRehashes;
    InvLengths(p, t);
    RoomUnlessFull(p, t);
    if !Full(t) && TrySet(p, t, key, value, coin).bucket.None? {
      FailureRehashed(p, t, key, value, coin);
    }
  }

  /** A scan of weak keys takes out exactly the keys that pass the filter and are dead; the rest keep their
      values. */
  lemma ScanKeysRemoves(p: Policy, c: Scan, t: Table)
    requires GoodPolicy(p) && Inv(p, t)
    ensures |t.keys| == |t.values|
    ensures var m, r := Abs(t), Abs(ScanKeys(c, t));
            && (forall k :: k in r <==> k in m && !(c.passes(Obj(k)) && k in c.dead))
            && (forall k :: k in r ==> r[k] == m[k])
  {
    hide GoodPolicy, Inv, Core, ScanKeys, Contents;
    InvLengths(p, t);
    ScanKeysKeeps(p, c, t);
  }

  /** A scan of weak values takes out exactly the keys whose value passes the filter and is dead or NULL. */
  lemma ScanValuesRemoves(p: Policy, c: Scan, t: Table)
    requires GoodPolicy(p) && Inv(p, t)
    ensures |t.keys| == |t.values|
    ensures var m, r := Abs(t), Abs(ScanValues(c, t));
            && (forall k :: k in r <==> k in m && !(c.passes(m[k]) && (m[k].Null? || (m[k].Obj? && m[k].id in c.dead))))
            && (forall k :: k in r ==> r[k] == m[k])
  {
    hide GoodPolicy, Inv, Core, ScanValues, Contents;
    InvLengths(p, t);
    ScanValuesKeeps(p, c, t);
  }

  // ---- Runs -------------------------------------------------------------------------------------

  /** The action neither sets nor deletes an equal key, and finds neither the stored key `k` nor its value dead. */
  predicate Spares(p: Policy, key: nat, k: nat, value: Ref, a: Action) {
    match a
    case Put(x, _, _, _) => !p.cmp(x, key)
    case Drop(x, _) => !p.cmp(x, key)
    case Look(_, _) => true
    case Move(_) => true
    case WeakKeys(c) => !(c.passes(Obj(k)) && k in c.dead)
    case WeakValues(c) => !(c.passes(value) && (value.Null? || (value.Obj? && value.id in c.dead)))
  }

  lemma SparedOnce(p: Policy, m: map<nat, Ref>, key: nat, k: nat, a: Action)
    requires GoodPolicy(p) && k in m && p.cmp(k, key) && Spares(p, key, k, m[k], a)
    ensures k in MapStep(p, m, a) && MapStep(p, m, a)[k] == m[k]
  {
    if a.Put? || a.Drop? {
      Symmetric(p, a.key, key);
      Symmetric(p, k, a.key);
      ComparesAlike(p, k, key, a.key);
      Reflexive(p, a.key);
    }
  }

  lemma {:induction false} SparedByAll(p: Policy, m: map<nat, Ref>, key: nat, k: nat, actions: seq<Action>)
    requires GoodPolicy(p) && k in m && p.cmp(k, key)
    requires forall i :: 0 <= i < |actions| ==> Spares(p, key, k, m[k], actions[i])
    ensures k in MapRun(p, m, actions) && MapRun(p, m, actions)[k] == m[k]
    decreases |actions|
  {
    hide GoodPolicy, Spares, MapStep;
    if actions != [] {
      SparedOnce(p, m, key, k, actions[0]);
      SparedByAll(p, MapStep(p, m, actions[0]), key, k, actions[1..]);
    }
  }

  /** The last value set for a key is what every equal key answers, however many other sets, deletions,
      lookups, moves and scans come in between, as long as the stored key and the value live. */
  lemma LastWriteIsRead(p: Policy, t: Table, key: nat, value: Ref, coins: (bool, bool), actions: seq<Action>,
                        k: nat, key': nat, coin: bool)
    requires GoodPolicy(p) && Inv(p, t) && (value.Null? || value.Obj?) && StorableRun(actions) && p.cmp(key, key')
    requires |t.keys| == |t.values| && k in Abs(Set(p, t, key, value, coins.0, coins.1)) && p.cmp(k, key)
    requires forall i :: 0 <= i < |actions| ==> Spares(p, key, k, value, actions[i])
    ensures |t.keys| > 0
    ensures Ask(p, Run(p, Set(p, t, key, value, coins.0, coins.1), actions), key', coin) == value
  {
    hide GoodPolicy, Inv, Core, Set, Run, TableFind, RefResult, MapSet, MapRef, MapRun, Contents, DistinctKeys, Spares;
    InvLengths(p, t);
    var t1 := Set(p, t, key, value, coins.0, coins.1);
    SetHolds(p, t, key, value, coins, k);
    RunAgrees(p, t1, actions);
    SparedByAll(p, Abs(t1), key, k, actions);
    var t2 := Run(p, t1, actions);
    InvIsCore(p, t2);
    ContentsAreDistinct(p, t2);
    EqualThrough(p, k, key, key');
    MapRefReads(p, Abs(t2), key');
    RefAgrees(p, t2, key', coin);
  }

  lemma EqualThrough(p: Policy, a: nat, b: nat, c: nat)
    requires GoodPolicy(p) && p.cmp(a, b) && p.cmp(b, c)
    ensures p.cmp(a, c)
  {
  }

  /** After a set, the equal stored key holds the value. */
  lemma SetHolds(p: Policy, t: Table, key: nat, value: Ref, coins: (bool, bool), k: nat)
    requires GoodPolicy(p) && Inv(p, t) && (value.Null? || value.Obj?) && |t.keys| == |t.values| > 0
    requires k in Abs(Set(p, t, key, value, coins.0, coins.1)) && p.cmp(k, key)
    ensures Inv(p, Set(p, t, key, value, coins.0, coins.1))
    ensures Abs(Set(p, t, key, value, coins.0, coins.1))[k] == value
  {
    hide GoodPolicy, Inv, Core, Set, MapSet, MapRef, Contents, DistinctKeys;
    InvIsCore(p, t);
    ContentsAreDistinct(p, t);
    SetAgrees(p, t, key, value, coins.0, coins.1);
    MapSetReads(p, Abs(t), key, value, key);
    MapRefReads(p, MapSet(p, Abs(t), key, value), key);
    Reflexive(p, key);
  }

  lemma Reflexive(p: Policy, key: nat)
    requires GoodPolicy(p)
    ensures p.cmp(key, key)
  {
  }
}
