/** The collector-aware hash table as the program keeps it: bucket objects with tagged counters,
    linked to each other as dependents, changed in place. Every method is proved to compute the
    table function of the same name, and the assertions of the source are proved never to fire. */
module HashTableObject {
  import opened Words
  import opened Optional
  import opened Probing
  import Counting
  import opened MetadataTable
  import opened TableOps
  import opened TableRuns
  import opened TableLaws
  import Interning

  class Buckets {
    var dependent: Buckets?
    var length: nat     // tagged
    var used: nat       // tagged
    var deleted: nat    // tagged
    const bucket: array<Ref>

    constructor (length: nat)
      ensures dependent == null && this.length == Tag(length) && used == Tag(0) && deleted == Tag(0)
      ensures fresh(bucket) && bucket[..] == Blank(length)
    {
      this.dependent := null;
      this.length := Tag(length);
      this.used := Tag(0);
      this.deleted := Tag(0);
      this.bucket := new Ref[length](_ => Unused);
    }

    ghost predicate Tagged()
      reads this
    {
      length == Tag(bucket.Length) && used % 2 == 1 && deleted % 2 == 1
    }
  }

  class HashTable {
    const policy: Policy
    var ld: Ld
    var keys: Buckets
    var values: Buckets
    /** Not a field of the source's object: where the collector keeps the objects right now. */
    var loc: Placement

    ghost predicate Shape()
      reads this, keys, values
    {
      && keys != values && keys.bucket != values.bucket
      && keys.dependent == values && values.dependent == keys
      && keys.Tagged() && values.Tagged()
      && keys.bucket.Length == values.bucket.Length > 0
    }

    ghost function Repr(): set<object>
      reads this, keys, values
    {
      {this, keys, values, keys.bucket, values.bucket}
    }

    ghost function View(): (t: Table)
      requires Shape()
      reads this, keys, values, keys.bucket, values.bucket
      ensures |t.keys| == |t.values| == keys.bucket.Length
    {
      Table(keys.bucket[..], values.bucket[..], Untag(keys.used), Untag(keys.deleted), ld, loc)
    }

    ghost predicate Valid()
      reads this, keys, values, keys.bucket, values.bucket
    {
      Shape() && GoodPolicy(policy) && Inv(policy, View()) && Counted(View())
    }

    /** `make_table`: the length is rounded up to a power of two. */
    constructor (length: nat, policy: Policy, loc: Placement)
      requires GoodPolicy(policy)
      ensures Valid() && fresh(Repr()) && this.policy == policy
      ensures View() == NewTable(RoundUpFrom(1, length), loc)
      ensures length <= keys.bucket.Length && (keys.bucket.Length == 1 || keys.bucket.Length < 2 * length)
    {
      assert Pow2(0) == 1;
      RoundUpIsPow2(1, length);
      var l := 1;
      while l < length
        invariant l > 0 && RoundUpFrom(l, length) == RoundUpFrom(1, length)
        decreases length - l
      {
        l := l * 2;
      }
      var k, v := MakeBuckets(l);
      this.policy := policy;
      this.keys, this.values := k, v;
      this.ld := Ld({}, false);
      this.loc := loc;
      NewTableIsEmpty(policy, l, loc);
    }

    /** Two fresh bucket objects, each the other's dependent. */
    static method MakeBuckets(length: nat) returns (k: Buckets, v: Buckets)
      ensures fresh(k) && fresh(v) && fresh(k.bucket) && fresh(v.bucket) && k != v && k.bucket != v.bucket
      ensures k.dependent == v && v.dependent == k && k.Tagged() && v.Tagged()
      ensures k.bucket[..] == v.bucket[..] == Blank(length)
      ensures k.used == k.deleted == v.used == v.deleted == Tag(0)
    {
      k := new Buckets(length);
      v := new Buckets(length);
      k.dependent := v;
      v.dependent := k;
    }

    /** The location dependency after the key has been hashed. */
    function Adding(add: bool, ld: Ld, key: nat): Ld
      reads this`loc
    {
      if add then ld.(deps := Noted(policy, ld.deps, key, loc(key))) else ld
    }

    /** `buckets_find`: `b` is meaningful only when `found`. */
    method BucketsFind(buckets: Buckets, key: nat, add: bool) returns (found: bool, b: nat)
      requires IsPow2(buckets.bucket.Length) && buckets.length == Tag(buckets.bucket.Length)
      modifies this`ld
      ensures ld == Adding(add, old(ld), key)
      ensures buckets.bucket.Length > 0
      ensures Find(policy, buckets.bucket[..], policy.hash(key, loc(key)), key) == if found then Some(b) else None
      ensures found ==> b < buckets.bucket.Length
    {
      hide IsPow2, Noted, Slot, Stride, And;
      ghost var keys := buckets.bucket[..];
      Pow2Positive(|keys|);
      var l := Untag(buckets.length) - 1;
      found, b := false, 0;
      if add {
        ld := Adding(true, ld, key);
      }
      var h: Word := policy.hash(key, loc(key));
      var probe := Stride(h);
      SlotStarts(h, |keys|);
      var start := And(h, l);
      var i := start;
      ghost var t := 0;
      assert start == Slot(h, 0, |keys|);
      while true
        invariant t < |keys| && i == Slot(h, t, |keys|)
        invariant found ==> b < |keys|
        invariant ld == Adding(add, old(ld), key)
        invariant Find(policy, keys, h, key) == FindFrom(policy, keys, h, key, t, if found then Some(b) else None)
        decreases |keys| - t
      {
        var k := buckets.bucket[i];
        if k.Unused? || Matches(policy, k, key) {
          found, b := true, i;
          return;
        }
        if !found && k.Deleted? {
          found, b := true, i;
        }
        SlotStep(h, t, |keys|);
        FullCycle(h, t + 1, |keys|);
        i := And(i + probe, l);
        t := t + 1;
        if i == start { break; }
      }
    }

    /** `table_size`, with its assertion. */
    method TableSize() returns (n: nat)
      requires Valid()
      ensures n == |Abs(View())|
    {
      SizeIsCardinality(policy, View());
      var used, deleted := Untag(keys.used), Untag(keys.deleted);
      assert used >= deleted;
      n := used - deleted;
    }

    /** The body of the rehash loop for a live key, with its assertions: its search succeeds, at an
        unused bucket. */
    method CopyEntry(newKeys: Buckets, newValues: Buckets, k: nat, v: Ref, ghost expected: nat) returns (s: nat)
      requires newKeys != newValues && newKeys.bucket != newValues.bucket
      requires newKeys.Tagged() && newValues.bucket.Length == newKeys.bucket.Length > 0
      requires IsPow2(newKeys.bucket.Length) && expected < newKeys.bucket.Length
      requires Find(policy, newKeys.bucket[..], policy.hash(k, loc(k)), k) == Some(expected)
      requires newKeys.bucket[expected].Unused?
      modifies this`ld, newKeys`used, newKeys.bucket, newValues.bucket
      ensures s == expected && ld == Adding(true, old(ld), k)
      ensures newKeys.bucket[..] == old(newKeys.bucket[..])[s := Obj(k)]
      ensures newValues.bucket[..] == old(newValues.bucket[..])[s := v]
      ensures newKeys.Tagged() && Untag(newKeys.used) == Untag(old(newKeys.used)) + 1
    {
      var found, b := BucketsFind(newKeys, k, true);
      assert found;
      assert newKeys.bucket[b].Unused?;
      newKeys.bucket[b] := Obj(k);
      newValues.bucket[b] := v;
      newKeys.used := Tag(Untag(newKeys.used) + 1);
      s := b;
    }

    /** The loop of `table_rehash`, into fresh buckets. */
    method FillBuckets(newKeys: Buckets, newValues: Buckets, key: Option<nat>, ghost t: Table, ghost b0: Build)
      returns (result: bool, keyBucket: nat)
      requires Shape() && GoodPolicy(policy) && Core(policy, t)
      requires t.keys == keys.bucket[..] && t.values == values.bucket[..] && t.loc == loc
      requires newKeys != newValues && newKeys.bucket != newValues.bucket
      requires {newKeys, newValues, newKeys.bucket, newValues.bucket} !! Repr()
      requires newKeys.Tagged() && newValues.Tagged() && !ld.collected
      requires newKeys.bucket.Length == newValues.bucket.Length
      requires IsPow2(newKeys.bucket.Length) && |Live(t.keys)| <= newKeys.bucket.Length
      requires b0 == Build(newKeys.bucket[..], newValues.bucket[..], Untag(newKeys.used), ld.deps, None)
      requires Filling(policy, t, key, 0, b0)
      modifies this`ld, newKeys`used, newKeys.bucket, newValues.bucket
      ensures newKeys.Tagged() && newValues.Tagged() && !ld.collected && newKeys.bucket.Length > 0
      ensures Build(newKeys.bucket[..], newValues.bucket[..], Untag(newKeys.used), ld.deps, if result then Some(keyBucket) else None)
                == RehashFrom(policy, t, key, 0, b0)
      ensures Filling(policy, t, key, |t.keys|, RehashFrom(policy, t, key, 0, b0))
    {
      hide Core, GoodPolicy, Filling, Paired, RehashFrom, Find, Live, LiveBelow, IsPow2, Noted;
      Pow2Positive(newKeys.bucket.Length);
      var length := Untag(keys.length);
      result, keyBucket := false, 0;
      ghost var b := b0;
      var i := 0;
      while i < length
        invariant i <= length == |t.keys|
        invariant newKeys.Tagged() && newValues.Tagged() && !ld.collected
        invariant b == Build(newKeys.bucket[..], newValues.bucket[..], Untag(newKeys.used), ld.deps,
                             if result then Some(keyBucket) else None)
        invariant Filling(policy, t, key, i, b)
        invariant RehashFrom(policy, t, key, 0, b0) == RehashFrom(policy, t, key, i, b)
      {
        var oldKey := keys.bucket[i];
        KeysAreNeverNull(policy, t, i);
        if !oldKey.Unused? && !oldKey.Deleted? {
          ghost var expected := FillingCopies(policy, t, key, i, b);
          RehashStep(policy, t, key, i, b, expected);
          var s := CopyEntry(newKeys, newValues, oldKey.id, values.bucket[i], expected);
          if key.Some? && policy.cmp(oldKey.id, key.value) {
            keyBucket, result := s, true;
          }
          b := Copied(policy, t, key, i, b, expected);
        } else {
          FillingSkips(policy, t, key, i, b);
        }
        i := i + 1;
      }
      RehashDone(policy, t, key, b);
    }

    /** `table_rehash`, with its assertion that as many keys arrive as the old table held. */
    method TableRehash(newLength: nat, key: Option<nat>) returns (result: bool, keyBucket: nat)
      requires Shape() && GoodPolicy(policy) && Core(policy, View()) && Counted(View())
      requires IsPow2(newLength) && |Live(View().keys)| <= newLength
      modifies this
      ensures Shape() && newLength > 0 && loc == old(loc)
      ensures Found(View(), if result then Some(keyBucket) else None) == Rehash(policy, old(View()), newLength, key)
      ensures result ==> keyBucket < newLength
      ensures fresh(Repr() - {this})
    {
      hide Core, GoodPolicy, Filling, Paired, RehashFrom, Find, Live, LiveBelow, IsPow2;
      ghost var t := View();
      var newKeys, newValues := MakeBuckets(newLength);
      ld := Ld({}, false);
      FillingStarts(policy, t, key, newLength);
      ghost var b0 := Build(newKeys.bucket[..], newValues.bucket[..], 0, {}, None);
      result, keyBucket := FillBuckets(newKeys, newValues, key, t, b0);
      FillingCounts(policy, t, key, RehashFrom(policy, t, key, 0, b0));
      assert Untag(newKeys.used) == Untag(keys.used) - Untag(keys.deleted);
      keys, values := newKeys, newValues;
    }

    /** `table_find`; `coin` is what the location dependency answers where it is free to. */
    method TableFind(key: nat, add: bool, coin: bool) returns (found: bool, b: nat)
      requires Shape() && GoodPolicy(policy) && Core(policy, View()) && Counted(View())
      modifies this
      ensures Shape() && fresh(Repr() - old(Repr()))
      ensures Found(View(), if found then Some(b) else None) == TableOps.TableFind(policy, old(View()), key, add, coin)
      ensures found ==> b < keys.bucket.Length
    {
      hide Core, GoodPolicy, Find, RehashFrom, Live;
      ghost var t := View();
      CoreIsPow2(policy, t);
      found, b := BucketsFind(keys, key, add);
      if !found {
        return false, b;
      }
      var stale := IsStale(ld, loc, coin);
      if (keys.bucket[b].Unused? || keys.bucket[b].Deleted?) && stale {
        ReadyToRehash(policy, t, View(), key);
        found, b := TableRehash(Untag(keys.length), Some(key));
      }
    }

    /** `table_ref` */
    method TableRef(key: nat, coin: bool) returns (value: Ref)
      requires Valid()
      modifies this
      ensures Valid() && fresh(Repr() - old(Repr())) && loc == old(loc)
      ensures Abs(View()) == old(Abs(View()))
      ensures value == MapRef(policy, old(Abs(View())), key)
    {
      RefAgrees(policy, View(), key, coin);
      FindSurplus(policy, View(), key, false, coin);
      var found, b := TableFind(key, false, coin);
      if found {
        var k := keys.bucket[b];
        if !k.Unused? && !k.Deleted? {
          return values.bucket[b];
        }
      }
      return Null;
    }

    /** `table_try_set` */
    method TableTrySet(key: nat, value: Ref, coin: bool) returns (ok: bool)
      requires Shape() && GoodPolicy(policy) && Core(policy, View()) && Counted(View())
      modifies this, keys, values, keys.bucket, values.bucket
      ensures Shape() && fresh(Repr() - old(Repr()))
      ensures View() == TrySet(policy, old(View()), key, value, coin).table
      ensures ok <==> TrySet(policy, old(View()), key, value, coin).bucket.Some?
    {
      hide Core, GoodPolicy, Find, RehashFrom, Rehash, TableOps.TableFind, Noted, IsStale, Fill;
      ghost var t := View();
      var found, b := TableFind(key, true, coin);
      if !found {
        return false;
      }
      if keys.bucket[b].Deleted? { TombIsCounted(policy, t, key, coin, b); }
      FillBucket(b, key, value);
      return true;
    }

    /** The second half of `table_try_set`, with its assertion about the deleted counter. */
    method FillBucket(b: nat, key: nat, value: Ref)
      requires Shape() && b < keys.bucket.Length
      requires keys.bucket[b].Deleted? ==> View().deleted > 0
      modifies keys, keys.bucket, values.bucket
      ensures Shape() && keys == old(keys) && values == old(values)
      ensures View() == Fill(old(View()), b, key, value)
      ensures values.bucket[..] == old(values.bucket[..])[b := value]
      ensures var k := old(keys.bucket[b]);
              && keys.bucket[..] == old(keys.bucket[..])[b := if k.Unused? || k.Deleted? then Obj(key) else k]
              && keys.used == old(keys.used) + (if k.Unused? then 2 else 0)
              && keys.deleted == old(keys.deleted) - (if k.Deleted? then 2 else 0)
    {
      if keys.bucket[b].Unused? {
        keys.bucket[b] := Obj(key);
        keys.used := Tag(Untag(keys.used) + 1);
      } else if keys.bucket[b].Deleted? {
        keys.bucket[b] := Obj(key);
        assert keys.deleted > Tag(0);
        keys.deleted := Tag(Untag(keys.deleted) - 1);
      }
      values.bucket[b] := value;
    }

    static lemma CoreIsPow2(p: Policy, t: Table)
      requires Core(p, t)
      ensures IsPow2(|t.keys|)
    {
    }

    static lemma KeysAreNeverNull(p: Policy, t: Table, s: nat)
      requires Core(p, t) && s < |t.keys|
      ensures t.keys[s].Obj? || t.keys[s].Unused? || t.keys[s].Deleted?
    {
      assert Lockstep(t.keys[s], t.values[s]);
    }

    static lemma FillingCounts(p: Policy, t: Table, key: Option<nat>, b: Build)
      requires Core(p, t) && Counted(t) && Filling(p, t, key, |t.keys|, b)
      ensures t.deleted <= t.used && b.used == t.used - t.deleted
      ensures b.hit.Some? ==> b.hit.value < |b.keys|
    {
      CountsAgree(p, t);
      assert LiveBelow(t.keys, |t.keys|) == Live(t.keys);
    }

    static lemma ReadyToRehash(p: Policy, t: Table, t1: Table, key: nat)
      requires Core(p, t) && t.ld.deps <= t1.ld.deps && t1 == t.(ld := t1.ld)
      ensures Core(p, t1) && |Live(t1.keys)| <= |t1.keys|
    {
      DependencyGrows(p, t, t1);
      Counting.BelowSize(|t1.keys|);
      Counting.SubsetSize(Live(t1.keys), Counting.Below(|t1.keys|));
    }

    static lemma TombIsCounted(p: Policy, t: Table, key: nat, coin: bool, b: nat)
      requires GoodPolicy(p) && Core(p, t) && Counted(t) && |t.keys| > 0
      requires var r := TableOps.TableFind(p, t, key, true, coin); r.bucket == Some(b) && b < |t.keys| && r.table.keys[b].Deleted?
      ensures TableOps.TableFind(p, t, key, true, coin).table.deleted > 0
    {
      var t1 := t.(ld := t.ld.(deps := Noted(p, t.ld.deps, key, t.loc(key))));
      ReadyToRehash(p, t, t1, key);
      RehashKeeps(p, t1, |t1.keys|, Some(key));
      assert b in Tombs(TableOps.TableFind(p, t, key, true, coin).table.keys);
    }

    /** `table_full`, on the tagged numbers. */
    method TableFull() returns (full: bool)
      requires Valid()
      ensures full <==> keys.bucket.Length == 1 || 2 * View().used >= keys.bucket.Length
    {
      FullMeansHalf(policy, View());
      full := keys.used >= keys.length / 2;
    }

    /** `table_set`, with its assertion that the second attempt succeeds. */
    method TableSet(key: nat, value: Ref, coin: bool, coin': bool)
      requires Valid() && (value.Null? || value.Obj?)
      modifies this, keys, values, keys.bucket, values.bucket
      ensures Valid() && fresh(Repr() - old(Repr()))
      ensures View() == TableOps.Set(policy, old(View()), key, value, coin, coin')
      ensures Abs(View()) == MapSet(policy, old(Abs(View())), key, value) && loc == old(loc)
      ensures Overwritten(policy, old(Abs(View())), key, value, Abs(View()))
    {
      hide Core, GoodPolicy, Find, RehashFrom, TrySet, Rehash, Contents, MapSet, Overwritten, Abs, Inv, Counted, Full;
      SetAgrees(policy, View(), key, value, coin, coin');
      ContentsOverwritten(policy, View(), key, value);
      var ok := SetIfRoom(key, value, coin);
      if !ok {
        GrowAndSet(key, value, coin');
      }
    }

    /** The test and the first attempt of `table_set`. */
    method SetIfRoom(key: nat, value: Ref, coin: bool) returns (ok: bool)
      requires Valid() && (value.Null? || value.Obj?)
      modifies this, keys, values, keys.bucket, values.bucket
      ensures Valid() && fresh(Repr() - old(Repr()))
      ensures View() == if Full(old(View())) then old(View()) else TrySet(policy, old(View()), key, value, coin).table
      ensures ok <==> !Full(old(View())) && TrySet(policy, old(View()), key, value, coin).bucket.Some?
    {
      hide Core, GoodPolicy, TrySet, Contents, IsStale, Noted, Counted, FindRehashes, Full;
      RoomUnlessFull(policy, View());
      var full := TableFull();
      if full {
        return false;
      }
      TrySetKeeps(policy, View(), key, value, coin);
      TrySetSurplus(policy, View(), key, value, coin);
      ok := TableTrySet(key, value, coin);
    }

    /** The second half of `table_set`: rehash at twice the length, then set, which succeeds. */
    method GrowAndSet(key: nat, value: Ref, coin: bool)
      requires Valid() && (value.Null? || value.Obj?)
      modifies this, keys, values, keys.bucket, values.bucket
      ensures Valid() && fresh(Repr() - old(Repr()))
      ensures View() == TrySet(policy, Rehash(policy, old(View()), 2 * |old(View()).keys|, None).table, key, value, coin).table
    {
      hide Core, GoodPolicy, Find, RehashFrom, TrySet, Rehash, Contents, MapSet, Abs;
      ghost var t := View();
      GrowThenSet(policy, t, key, value, coin);
      GrowthClears(policy, t, key, value, coin);
      Grow();
      var res := TableTrySet(key, value, coin);
      assert res;
    }

    static lemma GrowthIsInOrder(p: Policy, t: Table)
      requires GoodPolicy(p) && Inv(p, t)
      ensures Core(p, t) && |t.keys| > 0 && IsPow2(2 * |t.keys|) && |Live(t.keys)| <= 2 * |t.keys|
      ensures var g := Rehash(p, t, 2 * |t.keys|, None).table; Inv(p, g) && Counted(g)
    {
      hide GoodPolicy, Located, Distinct, Rehash;
      InvLengths(p, t);
      Pow2Doubles(|t.keys|);
      CountsAgree(p, t);
      RehashKeeps(p, t, 2 * |t.keys|, None);
    }

    /** The rehash at twice the length inside `table_set`. */
    method Grow()
      requires Valid()
      modifies this
      ensures Valid() && fresh(Repr() - old(Repr()))
      ensures View() == Rehash(policy, old(View()), 2 * |old(View()).keys|, None).table
    {
      hide Core, GoodPolicy, Rehash, Contents, Live, Tombs, IsPow2;
      GrowthIsInOrder(policy, View());
      var _, _ := TableRehash(Untag(keys.length) * 2, None);
    }

    /** `table_delete` */
    method TableDelete(key: nat, coin: bool)
      requires Valid()
      modifies this, keys, values, keys.bucket, values.bucket
      ensures Valid() && fresh(Repr() - old(Repr()))
      ensures View() == Delete(policy, old(View()), key, coin)
      ensures Abs(View()) == MapDelete(policy, old(Abs(View())), key) && loc == old(loc)
      ensures Overwritten(policy, old(Abs(View())), key, Null, Abs(View()))
    {
      hide Core, GoodPolicy, Find, RehashFrom, Rehash, TableOps.TableFind, Contents, MarkDeleted, Counted, FindRehashes;
      hide Overwritten, MapDelete, Abs;
      ContentsOverwritten(policy, View(), key, Null);
      DeleteAgrees(policy, View(), key, coin);
      DeleteSurplus(policy, View(), key, coin);
      ghost var expected := Delete(policy, View(), key, coin);
      var found, b := TableFind(key, false, coin);
      if found && !keys.bucket[b].Unused? && !keys.bucket[b].Deleted? {
        MarkBucket(b);
      }
      assert View() == expected;
    }

    /** The writes of `table_delete`. */
    method MarkBucket(b: nat)
      requires Shape() && b < keys.bucket.Length
      modifies keys, keys.bucket, values.bucket
      ensures Shape() && keys == old(keys) && values == old(values)
      ensures View() == MarkDeleted(old(View()), b)
    {
      keys.bucket[b] := Deleted;
      keys.deleted := Tag(Untag(keys.deleted) + 1);
      values.bucket[b] := Null;
    }

    /** `intern_string`: the value stored under the name, or else the name itself, now stored. */
    method InternString(name: nat, coin: bool, coin': bool, coin'': bool) returns (symbol: Ref)
      requires Valid()
      modifies this, keys, values, keys.bucket, values.bucket
      ensures Valid() && fresh(Repr() - old(Repr())) && loc == old(loc)
      ensures Abs(View()) == Interning.MapIntern(policy, old(Abs(View())), name)
      ensures symbol == var r := MapRef(policy, old(Abs(View())), name); if r.Null? then Obj(name) else r
    {
      hide Core, GoodPolicy, Inv, Find, Set, Contents, MapSet, MapRef;
      symbol := TableRef(name, coin);
      if symbol == Null {
        symbol := Obj(name);
        TableSet(name, symbol, coin', coin'');
      }
    }

    /** Not an operation of the program: the collector moves objects between two of them. */
    method Relocate(newLoc: Placement)
      requires Valid()
      modifies this`loc, this`ld
      ensures Valid() && View() == Step(policy, old(View()), Move(newLoc))
      ensures Abs(View()) == old(Abs(View()))
    {
      MoveKeeps(policy, View(), newLoc);
      loc := newLoc;
      ld := ld.(collected := true);
    }

    /** The bucket case of the scanner, on one of the table's two bucket objects. */
    method ScanBuckets(mine: Buckets, c: Scan)
      requires Shape() && (mine == keys || mine == values)
      modifies keys, values, keys.bucket, values.bucket
      ensures Shape() && keys == old(keys) && values == old(values)
      ensures mine == keys ==> View().(ld := ld.(collected := true)) == ScanKeys(c, old(View()))
      ensures mine == values ==> View().(ld := ld.(collected := true)) == ScanValues(c, old(View()))
    {
      var other := mine.dependent;
      var length := Untag(mine.length);
      assert other.length == mine.length;
      ghost var s0 := Pair(mine.bucket[..], other.bucket[..], Untag(mine.deleted), Untag(other.deleted));
      ghost var s := s0;
      var i := 0;
      while i < length
        invariant i <= length == mine.bucket.Length == other.bucket.Length
        invariant Shape() && keys == old(keys) && values == old(values)
        invariant keys.used == old(keys.used)
        invariant s == Pair(mine.bucket[..], other.bucket[..], Untag(mine.deleted), Untag(other.deleted))
        invariant ScanFrom(c, s0, 0) == ScanFrom(c, s, i)
      {
        if Splat(c, mine.bucket[i]) {
          s := Pair(s.mine[i := Deleted], s.other[i := Deleted], s.mineDeleted + 1, s.otherDeleted + 1);
          mine.deleted := Tag(Untag(mine.deleted) + 1);
          other.bucket[i] := Deleted;
          other.deleted := Tag(Untag(other.deleted) + 1);
          mine.bucket[i] := Deleted;
        }
        i := i + 1;
      }
      ScanIgnoresCounter(c, s0, 0);
    }

    /** The counters only add up; where they start does not matter to the buckets. */
    static lemma ScanIgnoresCounter(c: Scan, s: Pair, i: nat)
      requires |s.mine| == |s.other| && i <= |s.mine|
      ensures var r := ScanFrom(c, s, i);
              && (forall n: nat :: var q := ScanFrom(c, s.(otherDeleted := n), i);
                    q.mine == r.mine && q.other == r.other && q.mineDeleted == r.mineDeleted)
              && (forall n: nat :: var q := ScanFrom(c, s.(mineDeleted := n), i);
                    q.mine == r.mine && q.other == r.other && q.otherDeleted == r.otherDeleted)
    {
      forall n: nat ensures var q, r := ScanFrom(c, s.(otherDeleted := n), i), ScanFrom(c, s, i);
                            q.mine == r.mine && q.other == r.other && q.mineDeleted == r.mineDeleted {
        ScanResult(c, s, i);
        ScanResult(c, s.(otherDeleted := n), i);
      }
      forall n: nat ensures var q, r := ScanFrom(c, s.(mineDeleted := n), i), ScanFrom(c, s, i);
                            q.mine == r.mine && q.other == r.other && q.otherDeleted == r.otherDeleted {
        ScanResult(c, s, i);
        ScanResult(c, s.(mineDeleted := n), i);
      }
    }
  }
}
