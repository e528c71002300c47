/** The linear-probing hash map as the program keeps it, changed in place, and the two ways of
    removing entries while walking it. */
module HashMap {
  import opened Words
  import opened Optional
  import opened Counting
  import opened LinearProbing
  import opened Sizing

  datatype Status = Ok | ENOMEM | EINVAL | EEXIST | EADDRNOTAVAIL

  /** The table size after a put has tried to grow. */
  function Grown(init: nat, tableSize: nat, size: nat, allocOk: bool): nat
    requires init >= SIZE_MIN
  {
    var wanted := CalcTableSize(init, size);
    if wanted > tableSize && allocOk then wanted else tableSize
  }

  /** What put answers. `stored` is the pointer that will be kept: the key, or its duplicate, or
      NULL when duplicating failed. */
  ghost function PutStatus(p: Policy, m: map<Ptr, Ptr>, grown: nat, size: nat, key: Ptr, data: Ptr, stored: Ptr): Status {
    if key == 0 || data == 0 then EINVAL
    else if Rep(p, m, key).Some? then EEXIST
    else if size == grown then ENOMEM
    else if stored == 0 then ENOMEM
    else Ok
  }

  function NextPopulated(t: seq<Entry>, i: nat): (r: Option<nat>)
    ensures r.Some? ==> i <= r.value < |t| && t[r.value].key != 0
    ensures forall s: nat :: i <= s < |t| && (r.Some? ==> s < r.value) ==> t[s].key == 0
    decreases |t| - i
  {
    if i >= |t| then None else if t[i].key != 0 then Some(i) else NextPopulated(t, i + 1)
  }

  /** The entries of a map that satisfy a predicate. */
  ghost function Kept(m: map<Ptr, Ptr>, keep: (Ptr, Ptr) -> bool): map<Ptr, Ptr> {
    map k | k in m && keep(k, m[k]) :: m[k]
  }

  ghost predicate NonNull(m: map<Ptr, Ptr>) {
    forall k :: k in m ==> m[k] != 0
  }

  /** Everything before slot `n` satisfies the predicate. */
  ghost predicate KeptBefore(t: seq<Entry>, n: nat, keep: (Ptr, Ptr) -> bool) {
    forall s: nat :: s < n && s < |t| && t[s].key != 0 ==> keep(t[s].key, t[s].data)
  }

  /** Moving the cursor to the next populated slot skips only free ones. */
  lemma KeptToNext(t: seq<Entry>, i: nat, keep: (Ptr, Ptr) -> bool)
    requires KeptBefore(t, i, keep)
    ensures KeptBefore(t, NextPopulated(t, i).Or(|t|), keep)
    ensures NextPopulated(t, i).Some? ==> i <= NextPopulated(t, i).value < |t| && t[NextPopulated(t, i).value].key != 0
  {
  }

  lemma KeptPast(t: seq<Entry>, i: nat, keep: (Ptr, Ptr) -> bool)
    requires KeptBefore(t, i, keep) && i < |t| && keep(t[i].key, t[i].data)
    ensures KeptBefore(t, i + 1, keep)
  {
  }

  /** Removing at slot `n` brings nothing new before it. */
  lemma KeptStays(o: seq<Entry>, t: seq<Entry>, n: nat, keep: (Ptr, Ptr) -> bool)
    requires NoneMovedBefore(o, t, n) && KeptBefore(o, n, keep)
    ensures KeptBefore(t, n, keep)
  {
  }

  /** A table all of whose entries satisfy the predicate holds what filtering its map would. */
  lemma AllKept(p: Policy, t: seq<Entry>, keep: (Ptr, Ptr) -> bool)
    requires GoodPolicy(p) && Good(p, t) && KeptBefore(t, |t|, keep)
    ensures Kept(Contents(t), keep) == Contents(t)
  {
    DistinctUnique(p, t);
    forall k | k in Contents(t) ensures keep(k, Contents(t)[k]) {
      var s := SlotOf(t, k);
      ContentsAt(t, s);
    }
  }

  lemma KeptIs(m: map<Ptr, Ptr>, keep: (Ptr, Ptr) -> bool)
    ensures forall k :: k in Kept(m, keep) <==> k in m && keep(k, m[k])
    ensures forall k :: k in Kept(m, keep) ==> Kept(m, keep)[k] == m[k]
  {
  }

  lemma KeptWithout(m: map<Ptr, Ptr>, k: Ptr, keep: (Ptr, Ptr) -> bool)
    requires k in m && !keep(k, m[k])
    ensures Kept(m - {k}, keep) == Kept(m, keep)
  {
  }

  class HashMap {
    const policy: Policy
    var tableSizeInit: nat
    var tableSize: nat
    var size: nat
    var table: array<Entry>

    ghost predicate Shape()
      reads this
    {
      && table.Length == tableSize <= SIZE_LIMIT
      && (tableSize == 0 || IsPow2(tableSize))
      && GoodPolicy(policy)
      && GoodInit(tableSizeInit)
    }

    /** The map's contents. */
    ghost function Map(): map<Ptr, Ptr>
      reads this, table
    {
      Contents(table[..])
    }

    ghost predicate Valid()
      reads this, table
    {
      && Shape()
      && Good(policy, table[..])
      && size == |Occupied(table[..])|
      && NonNull(Map())
    }

    /** The load the growth policy maintains while allocations succeed. */
    ghost predicate Loaded()
      reads this
    {
      size > 0 ==> (size - 1) + (size - 1) / 3 <= tableSize
    }

    /** Sizes up to `c` need no rehash, now or after a reset. */
    ghost predicate Covered(c: nat)
      reads this
    {
      tableSizeInit >= SIZE_MIN && tableSizeInit <= tableSize && forall s: nat :: s <= c ==> CalcTableSize(tableSizeInit, s) <= tableSizeInit
    }

    /** Sizes up to `c` need no rehash as long as the table does not shrink, which only a reset can make it. */
    ghost predicate Roomy(c: nat)
      reads this
    {
      tableSizeInit >= SIZE_MIN && forall s: nat :: s <= c ==> CalcTableSize(tableSizeInit, s) <= tableSize
    }

    /** `init` */
    constructor (policy: Policy)
      requires GoodPolicy(policy)
      ensures Valid() && fresh(table) && Map() == map[] && size == 0 && tableSize == 0
      ensures this.policy == policy && tableSizeInit == SIZE_DEFAULT
    {
      this.policy := policy;
      tableSizeInit, tableSize, size := SIZE_DEFAULT, 0, 0;
      table := new Entry[0](_ => FREE);
      DefaultsAreGood();
      new;
      EmptyTable(policy, table[..]);
    }

    static lemma EmptyTable(p: Policy, t: seq<Entry>)
      requires forall s: nat :: s < |t| ==> t[s].key == 0
      ensures Good(p, t) && Contents(t) == map[] && Occupied(t) == {}
    {
      assert KeysOf(t) == {};
      if |t| > 0 { FreeSlotIsAnchor(p, t, 0); }
    }

    /** `entry_find` */
    method EntryFind(key: Ptr, findEmpty: bool) returns (r: Option<nat>)
      requires table.Length == tableSize && (tableSize == 0 || IsPow2(tableSize))
      ensures var f := Find(policy, table[..], key);
              r == match f
                   case None => None
                   case Some(i) => if i < tableSize && (table[i].key != 0 || findEmpty) then f else None
    {
      ghost var t := table[..];
      if tableSize > 0 { MaskIsMod(policy.hash(key), tableSize); }
      var index: nat := if tableSize > 0 then And(policy.hash(key), tableSize - 1) else 0;
      var i := 0;
      while i < tableSize
        invariant i <= tableSize
        invariant i < tableSize ==> index == Ahead(tableSize, Home(policy, tableSize, key), i)
        invariant Find(policy, t, key) == FindFrom(policy, t, key, i)
      {
        if table[index].key == 0 {
          return if findEmpty then Some(index) else None;
        }
        if policy.same(key, table[index].key) {
          return Some(index);
        }
        MaskedSuccessorIsAhead(index, tableSize);
        index := And(index + 1, tableSize - 1);
        i := i + 1;
      }
      return None;
    }

    /** `entry_remove` */
    method EntryRemove(removed: nat)
      requires Valid() && removed < tableSize && table[removed].key != 0
      modifies this`size, table
      ensures Valid() && size == old(size) - 1
      ensures Map() == old(Map()) - {old(table[removed].key)}
      ensures NoneMovedBefore(old(table[..]), table[..], removed)
    {
      hide Good, Contents, Occupied, GoodPolicy, NoneMovedBefore, RemoveAt, IsPow2;
      ghost var t := table[..];
      RemovedIsPositive(removed);
      RemoveKeeps(policy, t, removed);
      ghost var m := Map();
      RepairLoop(removed);
      assert Map() == m - {t[removed].key};
    }

    lemma RemovedIsPositive(s: nat)
      requires Valid() && s < tableSize && table[s].key != 0
      ensures IsPow2(tableSize)
    {
    }

    /** The body of `entry_remove`: the shifting loop with its masked indices. */
    method RepairLoop(removed: nat)
      requires table.Length == tableSize <= SIZE_LIMIT && IsPow2(tableSize) && size == |Occupied(table[..])|
      requires removed < tableSize && table[removed].key != 0
      modifies this`size, table
      ensures size == old(size) - 1
      ensures table[..] == RemoveAt(policy, old(table[..]), removed)
    {
      hide IsPow2, RemoveAt, Occupied, And, WrapSub, Dist, Home;
      ghost var t := table[..];
      RemoveStarts(policy, t, removed);
      var removedIndex: nat := removed;
      size := size - 1;
      MaskedSuccessorIsAhead(removedIndex, tableSize);
      var index: nat := And(removedIndex + 1, tableSize - 1);
      var i: nat := 0;
      while i < size
        invariant i <= size == old(size) - 1 && index < tableSize && removedIndex < tableSize
        invariant ShiftFrom(policy, table[..], removedIndex, index, i, size) == RemoveAt(policy, t, removed)
      {
        ghost var now := table[..];
        var entry := table[index];
        if entry.key == 0 { break; }
        var entryIndex := And(policy.hash(entry.key), tableSize - 1);
        MaskedHome(policy, tableSize, entry.key);
        MaskedDifferenceIsDist(index, entryIndex, tableSize);
        MaskedDifferenceIsDist(removedIndex, entryIndex, tableSize);
        if And(WrapSub(index, entryIndex), tableSize - 1) > And(WrapSub(removedIndex, entryIndex), tableSize - 1) {
          table[removedIndex] := entry;
          assert table[..] == now[removedIndex := now[index]];
          removedIndex := index;
        }
        MaskedSuccessorIsAhead(index, tableSize);
        index := And(index + 1, tableSize - 1);
        i := i + 1;
      }
      table[removedIndex] := FREE;
    }

    static lemma RemoveStarts(p: Policy, t: seq<Entry>, r: nat)
      requires r < |t| && t[r].key != 0
      ensures |Occupied(t)| > 0
      ensures RemoveAt(p, t, r) == ShiftFrom(p, t, r, Next(|t|, r), 0, |Occupied(t)| - 1)
    {
      assert r in Occupied(t);
    }

    static lemma MaskedHome(p: Policy, n: nat, key: Ptr)
      requires IsPow2(n) && n > 0
      ensures And(p.hash(key), n - 1) == Home(p, n, key)
    {
      MaskIsMod(p.hash(key), n);
    }

    /** `rehash`, with its assertion that every entry finds a slot. */
    method Rehash(newSize: nat, allocOk: bool) returns (r: Status)
      requires Valid() && IsPow2(newSize) && size <= newSize <= SIZE_LIMIT
      modifies this
      ensures Valid() && Map() == old(Map()) && size == old(size) && tableSizeInit == old(tableSizeInit)
      ensures r == if allocOk then Ok else ENOMEM
      ensures allocOk ==> tableSize == newSize && fresh(table)
      ensures !allocOk ==> tableSize == old(tableSize) && table == old(table)
    {
      hide Good, Contents, GoodPolicy, IsPow2, Occupied;
      if !allocOk {
        return ENOMEM;
      }
      Pow2IsPositive(newSize);
      GoodParts(policy, table[..]);
      var oldTable, oldSize := table, tableSize;
      ghost var o := oldTable[..];
      table := new Entry[newSize](_ => FREE);
      tableSize := newSize;
      EmptyTable(policy, table[..]);
      ReinsertAll(oldTable, oldSize);
      return Ok;
    }

    static lemma Pow2IsPositive(n: nat)
      requires IsPow2(n)
      ensures n > 0
    {
    }

    static lemma GoodParts(p: Policy, t: seq<Entry>)
      requires Good(p, t)
      ensures Chain(p, t) && Distinct(p, t)
    {
    }

    /** The loop of `rehash`, into the empty new table. */
    method ReinsertAll(oldTable: array<Entry>, oldSize: nat)
      requires table != oldTable && oldTable.Length == oldSize
      requires Shape() && tableSize > 0 && Occupied(table[..]) == {} && Good(policy, table[..])
      requires Distinct(policy, oldTable[..]) && |Occupied(oldTable[..])| <= tableSize
      modifies table
      ensures Good(policy, table[..]) && Contents(table[..]) == Contents(oldTable[..])
      ensures |Occupied(table[..])| == |Occupied(oldTable[..])|
    {
      hide Good, Contents, GoodPolicy, Find, Distinct, Occupied;
      ghost var o := oldTable[..];
      EmptyPrefix(table[..], o);
      var i := 0;
      while i < oldSize
        invariant i <= oldSize && oldTable[..] == o
        invariant Good(policy, table[..])
        invariant Contents(table[..]) == Contents(o[..i]) && |Occupied(table[..])| == |Occupied(o[..i])|
      {
        var entry := oldTable[i];
        ghost var t := table[..];
        if entry.key != 0 {
          ReinsertFinds(policy, o, i, t);
          var slot := EntryFind(entry.key, true);
          assert slot.Some?;
          table[slot.value] := entry;
          assert table[..] == t[slot.value := entry];
        } else {
          ReinsertSkips(policy, o, i);
        }
        i := i + 1;
      }
      assert o[..i] == o;
    }

    static lemma EmptyPrefix(t: seq<Entry>, o: seq<Entry>)
      requires Occupied(t) == {}
      ensures Contents(t) == Contents(o[..0]) && |Occupied(t)| == |Occupied(o[..0])|
    {
      forall s: nat | s < |t| ensures t[s].key == 0 {
        assert s !in Occupied(t);
      }
      assert KeysOf(t) == {} && KeysOf(o[..0]) == {};
    }

    /** The next entry finds a free slot, and storing it there extends the copied prefix. */
    static lemma ReinsertFinds(p: Policy, o: seq<Entry>, i: nat, t: seq<Entry>)
      requires GoodPolicy(p) && Distinct(p, o) && i < |o| && o[i].key != 0 && Good(p, t)
      requires Contents(t) == Contents(o[..i]) && |Occupied(t)| == |Occupied(o[..i])|
      requires |Occupied(o)| <= |t|
      ensures var f := Find(p, t, o[i].key);
              && f.Some? && f.value < |t| && t[f.value].key == 0
              && (var t' := t[f.value := o[i]];
                  && Good(p, t')
                  && Contents(t') == Contents(o[..i + 1]) && |Occupied(t')| == |Occupied(o[..i + 1])|)
    {
      hide Good, GoodPolicy, Find, Contents, Occupied, Rep;
      GoodParts(p, t);
      FindDecides(p, t, o[i].key);
      PrefixHasRoom(o, i);
      SlotsAreCounted(t);
      NotInPrefix(p, o, i);
      InsertKeeps(p, t, o[i].key, Find(p, t, o[i].key).value, o[i].key, o[i].data);
      PrefixGrows(p, o, i);
    }

    static lemma PrefixHasRoom(o: seq<Entry>, i: nat)
      requires i < |o| && o[i].key != 0
      ensures |Occupied(o[..i + 1])| == |Occupied(o[..i])| + 1 <= |Occupied(o)|
    {
      assert o[..i + 1] == o[..i] + [o[i]];
      OccupiedAppend(o[..i], o[i]);
      assert Occupied(o[..i + 1]) <= Occupied(o);
      SubsetSize(Occupied(o[..i + 1]), Occupied(o));
    }

    static lemma NotInPrefix(p: Policy, o: seq<Entry>, i: nat)
      requires GoodPolicy(p) && Distinct(p, o) && i < |o| && o[i].key != 0
      ensures Rep(p, Contents(o[..i]), o[i].key) == None
      ensures p.same(o[i].key, o[i].key)
    {
      forall k | k in Contents(o[..i]) ensures !p.same(o[i].key, k) {
        var s := SlotOf(o[..i], k);
        assert !p.same(o[s].key, o[i].key);
      }
    }

    static lemma PrefixGrows(p: Policy, o: seq<Entry>, i: nat)
      requires GoodPolicy(p) && Distinct(p, o) && i < |o| && o[i].key != 0
      ensures Contents(o[..i + 1]) == Contents(o[..i])[o[i].key := o[i].data]
    {
      assert o[..i + 1] == o[..i] + [o[i]];
      assert UniqueKeys(o[..i + 1]);
      ContentsAppend(o[..i], o[i]);
    }

    static lemma ReinsertSkips(p: Policy, o: seq<Entry>, i: nat)
      requires GoodPolicy(p) && Distinct(p, o) && i < |o| && o[i].key == 0
      ensures Contents(o[..i + 1]) == Contents(o[..i]) && Occupied(o[..i + 1]) == Occupied(o[..i])
    {
      assert o[..i + 1] == o[..i] + [o[i]];
      OccupiedAppend(o[..i], o[i]);
      assert UniqueKeys(o[..i + 1]);
      ContentsAppend(o[..i], o[i]);
    }

    /** `reserve`: on success no put made while the map is within the capacity rehashes. */
    method Reserve(capacity: nat, allocOk: bool) returns (r: Status)
      requires Valid() && InRange(capacity)
      modifies this
      ensures Valid() && Map() == old(Map()) && size == old(size)
      ensures table == old(table) || fresh(table)
      ensures r.Ok? || r.ENOMEM?
      ensures r.Ok? ==> Covered(capacity) && Roomy(capacity) && tableSize >= old(tableSize)
      ensures forall c: nat :: old(Roomy(c)) ==> Roomy(c)
      ensures old(Loaded()) ==> Loaded()
      ensures r.ENOMEM? ==> !allocOk && tableSizeInit == old(tableSizeInit) && table == old(table) && tableSize == old(tableSize)
    {
      hide Good, Contents, Occupied, GoodPolicy, IsPow2, CalcTableSize;
      DefaultsAreGood();
      ReserveSuffices(capacity, 0);
      CalcBounds(SIZE_MIN, capacity);
      OccupiedFits(table[..]);
      var oldSizeInit := tableSizeInit;
      ghost var oldSize := tableSize;
      r := Ok;
      tableSizeInit := SIZE_MIN;
      tableSizeInit := CalcTableSize(tableSizeInit, capacity);
      forall s: nat | s <= capacity ensures CalcTableSize(tableSizeInit, s) <= tableSizeInit {
        ReserveSuffices(capacity, s);
      }
      if tableSizeInit > tableSize {
        r := Rehash(tableSizeInit, allocOk);
        if r != Ok {
          tableSizeInit := oldSizeInit;
        }
      }
      if r == Ok {
        RoomStays(oldSizeInit, oldSize, tableSizeInit, tableSize);
      }
    }

    /** Another initial size, with a table that covers it and has not shrunk, takes no room away. */
    static lemma RoomStays(init: nat, tableSize: nat, init': nat, tableSize': nat)
      requires GoodInit(init) && GoodInit(init') && tableSize <= tableSize' && init' <= tableSize'
      ensures forall s: nat :: CalcTableSize(init, s) <= tableSize ==> CalcTableSize(init', s) <= tableSize'
    {
      forall s: nat | CalcTableSize(init, s) <= tableSize ensures CalcTableSize(init', s) <= tableSize' {
        CalcUnderInit(init, init', s);
      }
    }

    /** `put`. The answer never is that no slot is available, and it is ENOMEM only if an allocation
        failed; the contents change only on success. */
    method Put(key: Ptr, data: Ptr, stored: Ptr, allocOk: bool) returns (r: Status)
      requires Valid() && (key != 0 && data != 0 ==> InRange(size))
      requires stored == 0 || policy.same(key, stored)
      modifies this, table
      ensures Valid() && tableSizeInit == old(tableSizeInit)
      ensures table == old(table) || fresh(table)
      ensures tableSize == if key == 0 || data == 0 then old(tableSize)
                           else Grown(old(tableSizeInit), old(tableSize), old(size), allocOk)
      ensures r == PutStatus(policy, old(Map()), tableSize, old(size), key, data, stored)
      ensures key == 0 || data == 0 ==> r == EINVAL
      ensures key != 0 && data != 0 && (exists k :: k in old(Map()) && policy.same(key, k)) ==> r == EEXIST
      ensures r.Ok? <==> key != 0 && data != 0 && stored != 0 && old(size) < tableSize
                         && forall k :: k in old(Map()) ==> !policy.same(key, k)
      ensures r.Ok? || r.EINVAL? || r.EEXIST? || r.ENOMEM?
      ensures Map() == if r.Ok? then old(Map())[stored := data] else old(Map())
      ensures size == if r.Ok? then old(size) + 1 else old(size)
      ensures old(Loaded()) && allocOk ==> Loaded() && (r.ENOMEM? ==> stored == 0)
      ensures forall c: nat :: old(Covered(c)) ==> Covered(c)
      ensures forall c: nat :: old(Roomy(c)) ==> Roomy(c) && (old(size) <= c ==> table == old(table))
    {
      hide Good, Contents, GoodPolicy, IsPow2, CalcTableSize, Find, Occupied, Rep, InRange, Chain, Distinct, NonNull, Grown;
      if key == 0 || data == 0 {
        return EINVAL;
      }
      var status := GrowForPut(allocOk);
      GoodParts(policy, table[..]);
      FindDecides(policy, table[..], key);
      SlotsAreCounted(table[..]);
      var slot := EntryFind(key, true);
      if slot.None? {
        if status != Ok {
          return status;
        }
        return EADDRNOTAVAIL;
      }
      if table[slot.value].key != 0 {
        return EEXIST;
      }
      SlotIsFree(table[..], slot.value);
      if stored == 0 {
        return ENOMEM;
      }
      StoreEntry(key, slot.value, stored, data);
      return Ok;
    }

    /** The growth step of `put`: after it, unless an allocation failed, there is a free slot. */
    method GrowForPut(allocOk: bool) returns (r: Status)
      requires Valid() && InRange(size)
      modifies this
      ensures Valid() && Map() == old(Map()) && size == old(size) && tableSizeInit == old(tableSizeInit)
      ensures table == old(table) || fresh(table)
      ensures tableSize == Grown(tableSizeInit, old(tableSize), size, allocOk)
      ensures r.Ok? || (r.ENOMEM? && !allocOk)
      ensures r.Ok? ==> size < tableSize
      ensures allocOk ==> size + size / 3 <= tableSize
      ensures forall c: nat :: old(Covered(c)) ==> Covered(c)
      ensures forall c: nat :: old(Roomy(c)) ==> Roomy(c) && (size <= c ==> table == old(table))
    {
      hide Good, Contents, GoodPolicy, IsPow2, CalcTableSize, Occupied, NonNull;
      SlotsAreCounted(table[..]);
      CalcBounds(tableSizeInit, size);
      r := Ok;
      var wanted := CalcTableSize(tableSizeInit, size);
      if wanted > tableSize {
        r := Rehash(wanted, allocOk);
      }
    }

    /** Filling the free slot that the search for the key found. */
    method StoreEntry(key: Ptr, slot: nat, stored: Ptr, data: Ptr)
      requires Valid() && stored != 0 && data != 0 && policy.same(key, stored)
      requires Find(policy, table[..], key) == Some(slot) && slot < tableSize && table[slot].key == 0
      modifies this`size, table
      ensures Valid() && Map() == old(Map())[stored := data] && size == old(size) + 1
    {
      hide Good, Contents, GoodPolicy, IsPow2, Find, Occupied, Chain, Distinct;
      GoodParts(policy, table[..]);
      InsertKeeps(policy, table[..], key, slot, stored, data);
      ghost var t, m := table[..], Map();
      table[slot] := Entry(stored, data);
      assert table[..] == t[slot := Entry(stored, data)];
      assert Map() == m[stored := data];
      size := size + 1;
    }

    /** At most every slot is occupied, and if every slot is, their number is the table's size. */
    static lemma SlotsAreCounted(t: seq<Entry>)
      ensures |Occupied(t)| <= |t|
      ensures Occupied(t) == Below(|t|) ==> |Occupied(t)| == |t|
    {
      OccupiedFits(t);
      BelowSize(|t|);
    }

    static lemma SlotIsFree(t: seq<Entry>, s: nat)
      requires s < |t| && t[s].key == 0
      ensures |Occupied(t)| < |t|
    {
      OccupiedFits(t);
      BelowSize(|t|);
      SubsetSize(Occupied(t), Below(|t|));
      assert s in Below(|t|) && s !in Occupied(t);
    }

    /** `get` */
    method Get(key: Ptr) returns (data: Ptr)
      requires Valid()
      ensures data == if key != 0 && Rep(policy, Map(), key).Some? then Map()[Rep(policy, Map(), key).value] else 0
      ensures data != 0 <==> key != 0 && Rep(policy, Map(), key).Some?
    {
      if key == 0 {
        return 0;
      }
      GoodParts(policy, table[..]);
      FindDecides(policy, table[..], key);
      var slot := EntryFind(key, false);
      if slot.None? {
        return 0;
      }
      return table[slot.value].data;
    }

    /** `remove` */
    method Remove(key: Ptr) returns (data: Ptr)
      requires Valid()
      modifies this`size, table
      ensures Valid()
      ensures var rep := if key == 0 then None else Rep(policy, old(Map()), key);
              match rep
              case None => data == 0 && Map() == old(Map()) && size == old(size) && table[..] == old(table[..])
              case Some(k) => data == old(Map())[k] && Map() == old(Map()) - {k} && size == old(size) - 1
      ensures old(Loaded()) ==> Loaded()
      ensures forall s: nat :: s < tableSize && old(table[s].key) != 0 && key != 0 && policy.same(key, old(table[s].key)) ==>
                NoneMovedBefore(old(table[..]), table[..], s)
    {
      if key == 0 {
        return 0;
      }
      GoodParts(policy, table[..]);
      FindDecides(policy, table[..], key);
      forall s: nat | s < tableSize && table[s].key != 0 && policy.same(key, table[s].key)
        ensures Find(policy, table[..], key) == Some(s)
      {
        FindPresent(policy, table[..], key, s);
      }
      var slot := EntryFind(key, false);
      if slot.None? {
        return 0;
      }
      data := table[slot.value].data;
      EntryRemove(slot.value);
    }

    /** `clear` */
    method Clear()
      requires Valid()
      modifies this`size, table
      ensures Valid() && Map() == map[] && size == 0
    {
      size := 0;
      forall i | 0 <= i < table.Length {
        table[i] := FREE;
      }
      EmptyTable(policy, table[..]);
    }

    /** `reset`. If its allocation fails the size is zero but the old slots are still there: then the map
        is in order only if it was empty. */
    method Reset(allocOk: bool) returns (r: Status)
      requires Valid()
      modifies this, table
      ensures r == if allocOk || old(tableSize) == tableSizeInit then Ok else ENOMEM
      ensures size == 0 && tableSizeInit == old(tableSizeInit)
      ensures r.Ok? ==> Valid() && Map() == map[] && tableSize == tableSizeInit
      ensures r.Ok? ==> table == old(table) || fresh(table)
      ensures r.Ok? ==> forall c: nat :: old(Covered(c)) ==> Covered(c)
      ensures r.ENOMEM? ==> table == old(table) && table[..] == old(table[..]) && tableSize == old(tableSize)
      ensures r.ENOMEM? ==> (Valid() <==> old(size) == 0)
    {
      size := 0;
      if tableSize != tableSizeInit {
        if !allocOk {
          return ENOMEM;
        }
        table := new Entry[tableSizeInit](_ => FREE);
        tableSize := tableSizeInit;
      } else {
        forall i | 0 <= i < table.Length {
          table[i] := FREE;
        }
      }
      EmptyTable(policy, table[..]);
      return Ok;
    }

    // ---- Iteration ------------------------------------------------------------------------------

    /** `entry_get_populated` */
    method EntryGetPopulated(from: nat) returns (r: Option<nat>)
      requires Valid() && from <= tableSize
      ensures r == NextPopulated(table[..], from)
    {
      if size > 0 {
        var i := from;
        while i < tableSize
          invariant from <= i <= tableSize
          invariant NextPopulated(table[..], from) == NextPopulated(table[..], i)
        {
          if table[i].key != 0 {
            return Some(i);
          }
          i := i + 1;
        }
      } else {
        NothingPopulated(table[..], from);
      }
      return None;
    }

    static lemma NothingPopulated(t: seq<Entry>, i: nat)
      requires Occupied(t) == {}
      ensures NextPopulated(t, i) == None
    {
      forall s: nat | s < |t| ensures t[s].key == 0 {
        assert s !in Occupied(t);
      }
    }

    /** `iter`, from the beginning or in place. */
    method Iter(pos: Option<nat>) returns (r: Option<nat>)
      requires Valid() && (pos.Some? ==> pos.value < tableSize)
      ensures r == NextPopulated(table[..], pos.Or(0))
    {
      r := EntryGetPopulated(pos.Or(0));
    }

    /** `iter_next` */
    method IterNext(pos: Option<nat>) returns (r: Option<nat>)
      requires Valid() && (pos.Some? ==> pos.value < tableSize)
      ensures r == if pos.None? then None else NextPopulated(table[..], pos.value + 1)
    {
      if pos.None? {
        return None;
      }
      r := EntryGetPopulated(pos.value + 1);
    }

    /** `iter_remove`: removes the current entry and stays in place, where the shift may have brought
        another one. */
    method IterRemove(pos: Option<nat>) returns (r: Option<nat>)
      requires Valid() && (pos.Some? ==> pos.value < tableSize)
      modifies this`size, table
      ensures Valid()
      ensures pos.None? || old(table[pos.value].key) == 0 ==> Map() == old(Map()) && size == old(size) && table[..] == old(table[..])
      ensures pos.Some? && old(table[pos.value].key) != 0 ==>
                && Map() == old(Map()) - {old(table[pos.value].key)} && size == old(size) - 1
                && NoneMovedBefore(old(table[..]), table[..], pos.value)
      ensures r == if pos.None? then None else NextPopulated(table[..], pos.value)
    {
      if pos.None? {
        return None;
      }
      if table[pos.value].key != 0 {
        EntryRemove(pos.value);
      }
      r := EntryGetPopulated(pos.value);
    }

    /** A walk that removes the entries failing a predicate with `iter_remove` and steps over the others
        with `iter_next` ends, and leaves exactly the entries satisfying it. */
    method RetainByIterator(keep: (Ptr, Ptr) -> bool)
      requires Valid()
      modifies this`size, table
      ensures Valid() && Map() == Kept(old(Map()), keep)
      ensures forall k :: k in Map() <==> k in old(Map()) && keep(k, old(Map())[k])
      ensures forall k :: k in Map() ==> Map()[k] == old(Map())[k]
    {
      hide Good, Contents, GoodPolicy, Occupied, IsPow2, Kept, NoneMovedBefore, NextPopulated, KeptBefore, NonNull;
      var it: Option<nat> := Iter(None);
      KeptFromStart(table[..], keep);
      while it.Some?
        invariant Valid()
        invariant it.Some? ==> it.value < tableSize && table[it.value].key != 0
        invariant KeptBefore(table[..], it.Or(tableSize), keep)
        invariant Kept(Map(), keep) == Kept(old(Map()), keep)
        decreases size, tableSize - it.Or(tableSize)
      {
        ghost var o, m, at := table[..], Map(), it.value;
        CurrentEntry(at);
        if keep(table[it.value].key, table[it.value].data) {
          KeptPast(o, at, keep);
          KeptToNext(o, at + 1, keep);
          it := IterNext(it);
        } else {
          KeptWithout(m, o[at].key, keep);
          it := IterRemove(it);
          KeptStays(o, table[..], at, keep);
          KeptToNext(table[..], at, keep);
        }
      }
      AllKept(policy, table[..], keep);
      KeptIs(old(Map()), keep);
    }

    static lemma KeptFromStart(t: seq<Entry>, keep: (Ptr, Ptr) -> bool)
      ensures KeptBefore(t, NextPopulated(t, 0).Or(|t|), keep)
      ensures NextPopulated(t, 0).Some? ==> NextPopulated(t, 0).value < |t| && t[NextPopulated(t, 0).value].key != 0
    {
    }

    lemma CurrentEntry(s: nat)
      requires Valid() && s < tableSize && table[s].key != 0
      ensures table[s].key in Map() && Map()[table[s].key] == table[s].data != 0
      ensures policy.same(table[s].key, table[s].key)
    {
      DistinctUnique(policy, table[..]);
      ContentsAt(table[..], s);
    }

    /** The entries in the slots from `lo` to `hi`, in order. */
    static function Listed(t: seq<Entry>, lo: nat, hi: nat): seq<Entry>
      requires lo <= hi <= |t|
      decreases hi - lo
    {
      if lo == hi then [] else Listed(t, lo, hi - 1) + if t[hi - 1].key != 0 then [t[hi - 1]] else []
    }

    /** A walk with `iter` and `iter_next` shows every entry of the map exactly once. */
    method VisitAll() returns (visited: seq<Entry>)
      requires Valid()
      ensures |visited| == |Map()| == size
      ensures forall i, j :: 0 <= i < j < |visited| ==> visited[i].key != visited[j].key
      ensures forall k, d :: k in Map() && Map()[k] == d <==> Entry(k, d) in visited
    {
      hide Good, Contents, GoodPolicy, Occupied, IsPow2, NextPopulated, NonNull, Listed;
      ghost var t := table[..];
      visited := [];
      var it: Option<nat> := Iter(None);
      NothingListed(t);
      NextListed(t, 0, 0);
      while it.Some?
        invariant it.Some? ==> it.value < tableSize && t[it.value].key != 0
        invariant visited == Listed(t, 0, it.Or(tableSize))
        decreases tableSize - it.Or(tableSize)
      {
        ghost var at := it.value;
        visited := visited + [Entry(IterKey(it), IterData(it))];
        it := IterNext(it);
        ListedStep(t, 0, at);
        NextListed(t, 0, at + 1);
      }
      ListedIsAll(policy, t);
    }

    static lemma NothingListed(t: seq<Entry>)
      ensures Listed(t, 0, 0) == []
    {
    }

    static lemma ListedStep(t: seq<Entry>, lo: nat, at: nat)
      requires lo <= at < |t| && t[at].key != 0
      ensures Listed(t, lo, at + 1) == Listed(t, lo, at) + [Entry(t[at].key, t[at].data)]
    {
    }

    /** Moving on to the next populated slot passes over free ones only. */
    static lemma NextListed(t: seq<Entry>, lo: nat, i: nat)
      requires lo <= i <= |t|
      ensures var n := NextPopulated(t, i);
              && (n.Some? ==> i <= n.value < |t| && t[n.value].key != 0)
              && Listed(t, lo, n.Or(|t|)) == Listed(t, lo, i)
      decreases |t| - i
    {
      if i < |t| && t[i].key == 0 { NextListed(t, lo, i + 1); }
    }

    /** What a list of the first `n` slots holds. */
    static lemma {:induction false} ListedIs(t: seq<Entry>, n: nat)
      requires n <= |t| && UniqueKeys(t)
      ensures |Listed(t, 0, n)| == |Occupied(t[..n])|
      ensures forall i, j :: 0 <= i < j < |Listed(t, 0, n)| ==> Listed(t, 0, n)[i].key != Listed(t, 0, n)[j].key
      ensures forall e :: e in Listed(t, 0, n) <==> e.key != 0 && exists s: nat :: s < n && t[s] == e
      decreases n
    {
      if n == 0 {
        assert Occupied(t[..0]) == {};
      } else {
        ListedIs(t, n - 1);
        assert t[..n] == t[..n - 1] + [t[n - 1]];
        OccupiedAppend(t[..n - 1], t[n - 1]);
      }
    }

    static lemma ListedIsAll(p: Policy, t: seq<Entry>)
      requires GoodPolicy(p) && Good(p, t)
      ensures var v := Listed(t, 0, |t|);
              && |v| == |Contents(t)| == |Occupied(t)|
              && (forall i, j :: 0 <= i < j < |v| ==> v[i].key != v[j].key)
              && (forall k, d :: k in Contents(t) && Contents(t)[k] == d <==> Entry(k, d) in v)
    {
      DistinctUnique(p, t);
      ListedIs(t, |t|);
      assert t[..|t|] == t;
      SizeIsCardinality(t);
      forall k, d ensures k in Contents(t) && Contents(t)[k] == d <==> Entry(k, d) in Listed(t, 0, |t|) {
        if k in Contents(t) {
          var s := SlotOf(t, k);
          ContentsAt(t, s);
          assert t[s] == Entry(k, Contents(t)[k]);
        }
        if Entry(k, d) in Listed(t, 0, |t|) {
          var s: nat :| s < |t| && t[s] == Entry(k, d);
          ContentsAt(t, s);
        }
      }
    }

    /** The key and data an iterator shows; NULL past the end. */
    function IterKey(it: Option<nat>): Ptr
      requires it.Some? ==> it.value < table.Length
      reads this, table
    {
      if it.None? then 0 else table[it.value].key
    }

    function IterData(it: Option<nat>): Ptr
      requires it.Some? ==> it.value < table.Length
      reads this, table
    {
      if it.None? then 0 else table[it.value].data
    }

    /** The `foreach_safe` loop with a body that may remove the current key: the remembered key is
        compared with the one now under the cursor to decide between stepping and looking again. */
    method RetainByForeachSafe(keep: (Ptr, Ptr) -> bool)
      requires Valid()
      modifies this`size, table
      ensures Valid() && Map() == Kept(old(Map()), keep)
      ensures forall k :: k in Map() <==> k in old(Map()) && keep(k, old(Map())[k])
      ensures forall k :: k in Map() ==> Map()[k] == old(Map())[k]
    {
      hide Good, Contents, GoodPolicy, Occupied, IsPow2, Kept, NoneMovedBefore, NextPopulated, KeptBefore, NonNull, Rep;
      var it: Option<nat> := Iter(None);
      KeptFromStart(table[..], keep);
      while IterKey(it) != 0 && IterData(it) != 0
        invariant Valid()
        invariant it.Some? ==> it.value < tableSize && table[it.value].key != 0
        invariant KeptBefore(table[..], it.Or(tableSize), keep)
        invariant Kept(Map(), keep) == Kept(old(Map()), keep)
        decreases size, tableSize - it.Or(tableSize)
      {
        ghost var o, at := table[..], it.value;
        CurrentEntry(at);
        var key, data := IterKey(it), IterData(it);
        var temp := key;
        if !keep(key, data) {
          DropCurrent(at, key, keep);
          KeptToNext(table[..], at, keep);
        } else {
          KeptPast(o, at, keep);
          KeptToNext(o, at + 1, keep);
        }
        it := StepSafely(temp, it);
      }
      if it.Some? { CurrentEntry(it.value); }
      AllKept(policy, table[..], keep);
      KeptIs(old(Map()), keep);
    }

    /** The body of such a loop for an entry that fails: removing it by name brings nothing new before
        its slot, and takes its key out of the slot. */
    method DropCurrent(ghost at: nat, key: Ptr, ghost keep: (Ptr, Ptr) -> bool)
      requires Valid() && at < tableSize && table[at].key == key != 0
      requires !keep(key, table[at].data) && KeptBefore(table[..], at, keep)
      modifies this`size, table
      ensures Valid() && size == old(size) - 1 && table[at].key != key
      ensures Kept(Map(), keep) == Kept(old(Map()), keep) && KeptBefore(table[..], at, keep)
    {
      hide Good, Contents, GoodPolicy, Occupied, IsPow2, Kept, NoneMovedBefore, KeptBefore, NonNull, Rep;
      ghost var o, m := table[..], Map();
      CurrentEntry(at);
      KeptWithout(m, key, keep);
      RepOfStored(at);
      var _ := Remove(key);
      KeptStays(o, table[..], at, keep);
      if table[at].key != 0 { CurrentEntry(at); }
    }

    /** The third clause of the `foreach_safe` loop. */
    method StepSafely(temp: Ptr, it: Option<nat>) returns (r: Option<nat>)
      requires Valid() && it.Some? && it.value < tableSize
      ensures r == NextPopulated(table[..], if temp == table[it.value].key then it.value + 1 else it.value)
    {
      if temp == IterKey(it) {
        r := IterNext(it);
      } else {
        r := Iter(it);
      }
    }

    lemma RepOfStored(s: nat)
      requires Valid() && s < tableSize && table[s].key != 0
      ensures Rep(policy, Map(), table[s].key) == Some(table[s].key)
    {
      assert policy.same(table[s].key, table[s].key);
      FindPresent(policy, table[..], table[s].key, s);
      FindDecides(policy, table[..], table[s].key);
    }

    /** `collisions`: how far from its home a key sits; for an absent one the table's size if every slot
        is occupied, and otherwise zero. */
    method Collisions(key: Ptr) returns (n: nat)
      requires Valid()
      ensures key == 0 ==> n == 0
      ensures key != 0 && Rep(policy, Map(), key).None? ==> n == if size == tableSize then tableSize else 0
      ensures key != 0 && Rep(policy, Map(), key).Some? ==>
                n < tableSize && table[Ahead(tableSize, Home(policy, tableSize, key), n)].key == Rep(policy, Map(), key).value
    {
      hide Good, Contents, GoodPolicy, IsPow2, Rep, Occupied, Chain, Distinct, And, Home;
      if key == 0 {
        return 0;
      }
      GoodParts(policy, table[..]);
      FindDecides(policy, table[..], key);
      if tableSize > 0 { MaskedHome(policy, tableSize, key); }
      var index: nat := if tableSize > 0 then And(policy.hash(key), tableSize - 1) else 0;
      var i := 0;
      while i < tableSize
        invariant i <= tableSize
        invariant i < tableSize ==> index == Ahead(tableSize, Home(policy, tableSize, key), i)
        invariant Find(policy, table[..], key) == FindFrom(policy, table[..], key, i)
      {
        if table[index].key == 0 {
          SlotIsFree(table[..], index);
          return 0;
        }
        if policy.same(key, table[index].key) {
          break;
        }
        MaskedSuccessorIsAhead(index, tableSize);
        index := And(index + 1, tableSize - 1);
        i := i + 1;
      }
      BelowSize(tableSize);
      return i;
    }
  }
}
