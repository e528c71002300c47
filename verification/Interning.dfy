/** Interning strings through a hash table. */
module Interning {
  import opened Words
  import opened Optional
  import opened Counting
  import opened MetadataTable
  import opened TableOps
  import opened TableRuns

  datatype Interned = Interned(table: Table, symbol: Ref)

  /** `intern_string`: the symbol already in the table, or else the name itself, which is added. */
  function Intern(p: Policy, t: Table, name: nat, coin: bool, coin': bool, coin'': bool): (r: Interned)
    requires |t.keys| == |t.values| > 0
    ensures |r.table.keys| == |r.table.values| > 0
  {
    var f := TableFind(p, t, name, false, coin);
    var symbol := RefResult(f);
    if symbol.Null? then Interned(Set(p, f.table, name, Obj(name), coin', coin''), Obj(name))
    else Interned(f.table, symbol)
  }

  // ---- One call ---------------------------------------------------------------------------------

  /** The map after interning: a name without a value, or with NULL for one, becomes its own value. */
  ghost function MapIntern(p: Policy, m: map<nat, Ref>, name: nat): map<nat, Ref> {
    if MapRef(p, m, name).Null? then MapSet(p, m, name, Obj(name)) else m
  }

  /** The stored key under which the name is found from now on. */
  ghost function KeyOf(p: Policy, m: map<nat, Ref>, name: nat): nat {
    Rep(p, m, name).Or(name)
  }

  /** Interning answers the value stored under the name, never NULL, and adds the name only if there was
      none, whatever else the table is used for. */
  lemma InternAgrees(p: Policy, t: Table, name: nat, coin: bool, coin': bool, coin'': bool)
    requires GoodPolicy(p) && Inv(p, t)
    ensures |t.keys| > 0
    ensures var r := Intern(p, t, name, coin, coin', coin'');
            && Inv(p, r.table) && r.table.loc == t.loc && Abs(r.table) == MapIntern(p, Abs(t), name)
            && r.symbol == (if MapRef(p, Abs(t), name).Null? then Obj(name) else MapRef(p, Abs(t), name))
  {
    hide Inv, Core, TableFind, Contents, Set, RefResult, MapSet;
    InvLengths(p, t);
    RefAgrees(p, t, name, coin);
    var f := TableFind(p, t, name, false, coin);
    if RefResult(f).Null? {
      SetAgrees(p, f.table, name, Obj(name), coin', coin'');
    }
  }

  /** After a call the symbol is what the map holds under a key equal to the name. */
  lemma SymbolIsStored(p: Policy, m: map<nat, Ref>, name: nat)
    requires GoodPolicy(p)
    ensures var m', k := MapIntern(p, m, name), KeyOf(p, m, name);
            && p.cmp(k, name) && k in m' && !m'[k].Null?
            && m'[k] == (if MapRef(p, m, name).Null? then Obj(name) else MapRef(p, m, name))
  {
  }

  /** Every entry maps a string to itself. */
  predicate SelfMapped(m: map<nat, Ref>) {
    forall k :: k in m ==> m[k] == Obj(k)
  }

  /** A table that only interning has filled goes on mapping every string to itself, and the symbol is
      the one stored string equal to the name. */
  lemma SelfMappedStays(p: Policy, m: map<nat, Ref>, name: nat)
    requires GoodPolicy(p) && SelfMapped(m)
    ensures SelfMapped(MapIntern(p, m, name))
    ensures MapIntern(p, m, name) == m[KeyOf(p, m, name) := Obj(KeyOf(p, m, name))]
    ensures (if MapRef(p, m, name).Null? then Obj(name) else MapRef(p, m, name)) == Obj(KeyOf(p, m, name))
  {
  }

  // ---- Runs ---------------------------------------------------------------------------------------

  /** What may happen to a table used for interning. */
  datatype Event =
    | InternName(name: nat, coin: bool, coin': bool, coin'': bool)
    | MoveObjects(loc: Placement)
    | ScanWeakKeys(c: Scan)
    | ScanWeakValues(c: Scan)

  function After(p: Policy, t: Table, e: Event): (r: Table)
    requires |t.keys| == |t.values| > 0
    ensures |r.keys| == |r.values| > 0
  {
    match e
    case InternName(name, c, c', c'') => Intern(p, t, name, c, c', c'').table
    case MoveObjects(loc) => Step(p, t, Move(loc))
    case ScanWeakKeys(c) => Step(p, t, WeakKeys(c))
    case ScanWeakValues(c) => Step(p, t, WeakValues(c))
  }

  function AfterAll(p: Policy, t: Table, events: seq<Event>): (r: Table)
    requires |t.keys| == |t.values| > 0
    ensures |r.keys| == |r.values| > 0
    decreases |events|
  {
    if events == [] then t else AfterAll(p, After(p, t, events[0]), events[1..])
  }

  ghost function MapAfter(p: Policy, m: map<nat, Ref>, e: Event): map<nat, Ref> {
    match e
    case InternName(name, _, _, _) => MapIntern(p, m, name)
    case MoveObjects(_) => m
    case ScanWeakKeys(c) => m - DeadKeys(c, m)
    case ScanWeakValues(c) => m - KeysOfDead(c, m)
  }

  ghost function MapAfterAll(p: Policy, m: map<nat, Ref>, events: seq<Event>): map<nat, Ref>
    decreases |events|
  {
    if events == [] then m else MapAfterAll(p, MapAfter(p, m, events[0]), events[1..])
  }

  lemma EventKeeps(p: Policy, t: Table, e: Event)
    requires GoodPolicy(p) && Inv(p, t)
    ensures |t.keys| == |t.values| > 0
    ensures Inv(p, After(p, t, e)) && Abs(After(p, t, e)) == MapAfter(p, Abs(t), e)
  {
    hide GoodPolicy, Inv, Core, Intern, MapIntern, ScanKeys, ScanValues, Contents;
    InvLengths(p, t);
    match e
    case InternName(name, c, c', c'') => InternAgrees(p, t, name, c, c', c'');
    case MoveObjects(loc) => StepAgrees(p, t, Move(loc));
    case ScanWeakKeys(c) => StepAgrees(p, t, WeakKeys(c));
    case ScanWeakValues(c) => StepAgrees(p, t, WeakValues(c));
  }

  /** Over every run, whatever the filters of its scans let pass, the table agrees with the map. */
  lemma {:induction false} EventsKeep(p: Policy, t: Table, events: seq<Event>)
    requires GoodPolicy(p) && Inv(p, t)
    ensures |t.keys| == |t.values| > 0
    ensures Inv(p, AfterAll(p, t, events)) && Abs(AfterAll(p, t, events)) == MapAfterAll(p, Abs(t), events)
    decreases |events|
  {
    hide GoodPolicy, Inv, After, MapAfter, Contents;
    InvLengths(p, t);
    if events != [] {
      EventKeeps(p, t, events[0]);
      EventsKeep(p, After(p, t, events[0]), events[1..]);
    }
  }

  /** No scan of the run finds the key dead, or its symbol. */
  ghost predicate Survives(k: nat, symbol: Ref, events: seq<Event>) {
    forall i :: 0 <= i < |events| ==>
      && (events[i].ScanWeakKeys? ==> !Splat(events[i].c, Obj(k)))
      && (events[i].ScanWeakValues? ==> !Splat(events[i].c, symbol))
  }

  /** An entry that survives stays what it is: interning replaces no value but NULL. */
  lemma {:induction false} EntryStays(p: Policy, m: map<nat, Ref>, events: seq<Event>, k: nat)
    requires GoodPolicy(p) && k in m && !m[k].Null? && Survives(k, m[k], events)
    ensures k in MapAfterAll(p, m, events) && MapAfterAll(p, m, events)[k] == m[k]
    decreases |events|
  {
    if events != [] {
      EntryStaysOnce(p, m, events[0], k);
      EntryStays(p, MapAfter(p, m, events[0]), events[1..], k);
    }
  }

  lemma EntryStaysOnce(p: Policy, m: map<nat, Ref>, e: Event, k: nat)
    requires GoodPolicy(p) && k in m && !m[k].Null? && Survives(k, m[k], [e])
    ensures k in MapAfter(p, m, e) && MapAfter(p, m, e)[k] == m[k]
  {
    assert [e][0] == e;
    if e.InternName? { assert p.cmp(k, k); }
  }

  /** Equal names find the same entry in a map of distinct keys. */
  lemma SameEntry(p: Policy, t: Table, k: nat, name: nat)
    requires GoodPolicy(p) && Inv(p, t) && k in Abs(t) && p.cmp(k, name)
    ensures MapRef(p, Abs(t), name) == Abs(t)[k]
  {
    RepIs(p, t, BucketOf(t.keys, k), name);
  }

  /** Two equal strings intern to the same symbol, whatever is interned, moved or splatted between them,
      as long as that symbol and its key live. */
  lemma EqualStringsShareSymbol(p: Policy, t: Table, name: nat, name': nat, events: seq<Event>,
                                coins: (bool, bool, bool), coins': (bool, bool, bool))
    requires GoodPolicy(p) && Inv(p, t) && p.cmp(name, name')
    ensures |t.keys| == |t.values| > 0
    ensures var first := Intern(p, t, name, coins.0, coins.1, coins.2);
            Survives(KeyOf(p, Abs(t), name), first.symbol, events) ==>
              Intern(p, AfterAll(p, first.table, events), name', coins'.0, coins'.1, coins'.2).symbol == first.symbol
  {
    hide Inv, Core, Intern, AfterAll, Contents, Survives;
    InvLengths(p, t);
    InternAgrees(p, t, name, coins.0, coins.1, coins.2);
    SymbolIsStored(p, Abs(t), name);
    var first, k := Intern(p, t, name, coins.0, coins.1, coins.2), KeyOf(p, Abs(t), name);
    if Survives(k, first.symbol, events) {
      EventsKeep(p, first.table, events);
      EntryStays(p, Abs(first.table), events, k);
      var t' := AfterAll(p, first.table, events);
      SameEntry(p, t', k, name');
      InternAgrees(p, t', name', coins'.0, coins'.1, coins'.2);
    }
  }

  /** The same on a table that is only ever interned in, from its making on: its symbols are the stored
      strings themselves. */
  lemma FreshTableSharesSymbols(p: Policy, length: nat, loc: Placement, before: seq<Event>, name: nat, name': nat,
                                events: seq<Event>, coins: (bool, bool, bool), coins': (bool, bool, bool))
    requires GoodPolicy(p) && IsPow2(length) && p.cmp(name, name')
    ensures length > 0
    ensures var t := AfterAll(p, NewTable(length, loc), before);
            var first := Intern(p, t, name, coins.0, coins.1, coins.2);
            && first.symbol.Obj? && p.cmp(first.symbol.id, name)
            && (Survives(first.symbol.id, first.symbol, events) ==>
                  Intern(p, AfterAll(p, first.table, events), name', coins'.0, coins'.1, coins'.2).symbol == first.symbol)
  {
    hide Inv, Intern, AfterAll, Contents, MapAfterAll, Survives, MapIntern, MapRef;
    NewTableIsEmpty(p, length, loc);
    EventsKeep(p, NewTable(length, loc), before);
    AllSelfMapped(p, map[], before);
    var t := AfterAll(p, NewTable(length, loc), before);
    SelfMappedStays(p, Abs(t), name);
    SymbolIsStored(p, Abs(t), name);
    InternAgrees(p, t, name, coins.0, coins.1, coins.2);
    EqualStringsShareSymbol(p, t, name, name', events, coins, coins');
  }

  lemma {:induction false} AllSelfMapped(p: Policy, m: map<nat, Ref>, events: seq<Event>)
    requires GoodPolicy(p) && SelfMapped(m)
    ensures SelfMapped(MapAfterAll(p, m, events))
    decreases |events|
  {
    if events != [] {
      if events[0].InternName? { SelfMappedStays(p, m, events[0].name); }
      AllSelfMapped(p, MapAfter(p, m, events[0]), events[1..]);
    }
  }

  // ---- The deleted counter -------------------------------------------------------------------------------

  /** Both halves of every deleted bucket are marked, which is so until a key is deleted by name. */
  ghost predicate NoNullTomb(t: Table)
    requires |t.keys| == |t.values|
  {
    forall s: nat :: s < |t.keys| && t.keys[s].Deleted? ==> t.values[s].Deleted?
  }

  /** In such a table no scan can take a tombstone's value for splatted, even if it lets NULL pass. */
  lemma NoNullTombDoublesNone(c: Scan, t: Table)
    requires |t.keys| == |t.values| && NoNullTomb(t)
    ensures Doubled(c, t) == {}
  {
  }

  lemma RehashLeavesNoTomb(p: Policy, t: Table, newLength: nat, key: Option<nat>)
    requires GoodPolicy(p) && Core(p, t) && IsPow2(newLength) && |Live(t.keys)| <= newLength
    ensures newLength > 0 && NoNullTomb(Rehash(p, t, newLength, key).table)
    ensures Core(p, Rehash(p, t, newLength, key).table)
  {
    hide Rehash, Located, Distinct;
    RehashKeeps(p, t, newLength, key);
    var r := Rehash(p, t, newLength, key).table;
    forall s: nat | s < |r.keys| ensures !r.keys[s].Deleted? {
      assert s !in Tombs(r.keys);
    }
  }

  lemma FindKeepsTombs(p: Policy, t: Table, key: nat, add: bool, coin: bool)
    requires GoodPolicy(p) && Core(p, t) && NoNullTomb(t) && |t.keys| > 0
    ensures NoNullTomb(TableFind(p, t, key, add, coin).table)
  {
    hide Rehash, GoodPolicy, Find, IsStale, Located, Distinct;
    var t1 := if add then t.(ld := t.ld.(deps := Noted(p, t.ld.deps, key, t.loc(key)))) else t;
    DependencyGrows(p, t, t1);
    LiveFits(t1.keys);
    RehashLeavesNoTomb(p, t1, |t.keys|, Some(key));
  }

  lemma TrySetKeepsTombs(p: Policy, t: Table, key: nat, value: Ref, coin: bool)
    requires GoodPolicy(p) && Core(p, t) && NoNullTomb(t) && |t.keys| > 0
    ensures NoNullTomb(TrySet(p, t, key, value, coin).table)
  {
    hide Core, GoodPolicy, TableFind;
    FindKeepsTombs(p, t, key, true, coin);
  }

  lemma SetKeepsTombs(p: Policy, t: Table, key: nat, value: Ref, coin: bool, coin': bool)
    requires GoodPolicy(p) && Inv(p, t) && (value.Null? || value.Obj?) && NoNullTomb(t)
    ensures |t.keys| > 0 && NoNullTomb(Set(p, t, key, value, coin, coin'))
  {
    hide GoodPolicy, TrySet, Rehash, NoNullTomb, Located, Distinct;
    InvLengths(p, t);
    if Full(t) {
      GrowthKeepsTombs(p, t, key, value, coin');
    } else {
      RoomUnlessFull(p, t);
      TrySetKeeps(p, t, key, value, coin);
      TrySetKeepsTombs(p, t, key, value, coin);
      var f := TrySet(p, t, key, value, coin);
      if f.bucket.None? { GrowthKeepsTombs(p, f.table, key, value, coin'); }
    }
  }

  lemma GrowthKeepsTombs(p: Policy, t: Table, key: nat, value: Ref, coin: bool)
    requires GoodPolicy(p) && Inv(p, t) && |t.keys| > 0
    ensures NoNullTomb(TrySet(p, Rehash(p, t, 2 * |t.keys|, None).table, key, value, coin).table)
  {
    hide GoodPolicy, TrySet, Rehash, NoNullTomb, Located, Distinct;
    Pow2Doubles(|t.keys|);
    LiveFits(t.keys);
    RehashLeavesNoTomb(p, t, 2 * |t.keys|, None);
    TrySetKeepsTombs(p, Rehash(p, t, 2 * |t.keys|, None).table, key, value, coin);
  }

  lemma InternKeepsTombs(p: Policy, t: Table, name: nat, coin: bool, coin': bool, coin'': bool)
    requires GoodPolicy(p) && Inv(p, t) && NoNullTomb(t)
    ensures |t.keys| > 0 && NoNullTomb(Intern(p, t, name, coin, coin', coin'').table)
  {
    hide GoodPolicy, Core, TableFind, Set, NoNullTomb;
    InvLengths(p, t);
    RefAgrees(p, t, name, coin);
    FindKeepsTombs(p, t, name, false, coin);
    SetKeepsTombs(p, TableFind(p, t, name, false, coin).table, name, Obj(name), coin', coin'');
  }

  lemma ScansKeepTombs(c: Scan, t: Table)
    requires |t.keys| == |t.values| && NoNullTomb(t)
    ensures NoNullTomb(ScanKeys(c, t)) && NoNullTomb(ScanValues(c, t))
  {
    hide Splat, ScanFrom;
    ScanMarks(c, Pair(t.keys, t.values, t.deleted, 0), 0);
    ScanMarks(c, Pair(t.values, t.keys, 0, t.deleted), 0);
  }

  lemma InternKeepsCount(p: Policy, t: Table, name: nat, coin: bool, coin': bool, coin'': bool)
    requires GoodPolicy(p) && Inv(p, t) && Counted(t)
    ensures |t.keys| == |t.values| > 0 && Counted(Intern(p, t, name, coin, coin', coin'').table)
  {
    hide GoodPolicy, Inv, TableFind, Set, FindRehashes, SetRehashes;
    InvLengths(p, t);
    FindSurplus(p, t, name, false, coin);
    RefAgrees(p, t, name, coin);
    SetSurplus(p, TableFind(p, t, name, false, coin).table, name, Obj(name), coin', coin'');
  }

  /** Interning, moves and scans keep the deleted counter right on a table without NULL tombstones, and keep it
      such a table. */
  lemma EventKeepsCount(p: Policy, t: Table, e: Event)
    requires GoodPolicy(p) && Inv(p, t) && NoNullTomb(t) && Counted(t)
    ensures |t.keys| > 0 && NoNullTomb(After(p, t, e)) && Counted(After(p, t, e))
  {
    hide GoodPolicy, Inv, Core, Intern, ScanKeys, ScanValues, Contents, NoNullTomb, Doubled;
    InvLengths(p, t);
    match e
    case InternName(name, c, c', c'') =>
      InternKeepsTombs(p, t, name, c, c', c'');
      InternKeepsCount(p, t, name, c, c', c'');
    case MoveObjects(loc) => MoveKeepsTombs(t, loc);
    case ScanWeakKeys(c) =>
      ScansKeepTombs(c, t);
      ScanKeysKeeps(p, c, t);
    case ScanWeakValues(c) =>
      ScansKeepTombs(c, t);
      NoNullTombDoublesNone(c, t);
      InvIsCore(p, t);
      ScanValuesSurplus(p, c, t);
  }

  lemma MoveKeepsTombs(t: Table, loc: Placement)
    requires |t.keys| == |t.values|
    ensures NoNullTomb(t.(loc := loc, ld := t.ld.(collected := true))) == NoNullTomb(t)
  {
  }

  lemma {:induction false} EventsKeepCount(p: Policy, t: Table, events: seq<Event>)
    requires GoodPolicy(p) && Inv(p, t) && NoNullTomb(t) && Counted(t)
    ensures |t.keys| > 0 && NoNullTomb(AfterAll(p, t, events)) && Counted(AfterAll(p, t, events))
    decreases |events|
  {
    hide GoodPolicy, Inv, After, Contents, NoNullTomb;
    InvLengths(p, t);
    if events != [] {
      EventKeeps(p, t, events[0]);
      EventKeepsCount(p, t, events[0]);
      EventsKeepCount(p, After(p, t, events[0]), events[1..]);
    }
  }

  /** On a table that is only ever interned in, `table_size` is right after every run, under every filter. */
  lemma InterningCountsRight(p: Policy, length: nat, loc: Placement, events: seq<Event>)
    requires GoodPolicy(p) && IsPow2(length)
    ensures length > 0
    ensures var t := AfterAll(p, NewTable(length, loc), events);
            Counted(t) && t.used - t.deleted == |Abs(t)|
  {
    hide GoodPolicy, AfterAll, Contents;
    NewTableIsEmpty(p, length, loc);
    assert NoNullTomb(NewTable(length, loc));
    EventsKeepCount(p, NewTable(length, loc), events);
    EventsKeep(p, NewTable(length, loc), events);
    SizeIsCardinality(p, AfterAll(p, NewTable(length, loc), events));
  }
}
