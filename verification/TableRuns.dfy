/** What the collector does to a table (moving its keys, splatting weak slots), and whole runs
    of table operations interleaved with collections. */
module TableRuns {
  import opened Words
  import opened Optional
  import opened Counting
  import opened MetadataTable
  import opened TableOps

  // ---- Scanning weak buckets -------------------------------------------------------------------

  /** One scan: the references that `MPS_FIX1` lets through, and the objects that `MPS_FIX2`
      has found dead, for which it hands back NULL. */
  datatype Scan = Scan(passes: Ref -> bool, dead: set<nat>)

  /** The reference comes back from the fix as NULL. NULL itself does too, if it passes. */
  predicate Splat(c: Scan, r: Ref) {
    c.passes(r) && (r.Null? || (r.Obj? && r.id in c.dead))
  }

  /** The buckets being scanned, their dependent buckets, and both deleted counters. */
  datatype Pair = Pair(mine: seq<Ref>, other: seq<Ref>, mineDeleted: nat, otherDeleted: nat)

  function ScanFrom(c: Scan, s: Pair, i: nat): (r: Pair)
    requires |s.mine| == |s.other| && i <= |s.mine|
    ensures |r.mine| == |r.other| == |s.mine|
    decreases |s.mine| - i
  {
    if i == |s.mine| then s
    else if Splat(c, s.mine[i]) then
      ScanFrom(c, Pair(s.mine[i := Deleted], s.other[i := Deleted], s.mineDeleted + 1, s.otherDeleted + 1), i + 1)
    else ScanFrom(c, s, i + 1)
  }

  function SplatSlots(c: Scan, mine: seq<Ref>, i: nat): set<nat> {
    set s: nat | i <= s < |mine| && Splat(c, mine[s])
  }

  /** A scan marks both halves of every splatted slot and touches no other. */
  lemma {:induction false} ScanMarks(c: Scan, s: Pair, i: nat)
    requires |s.mine| == |s.other| && i <= |s.mine|
    ensures var r := ScanFrom(c, s, i);
            forall j: nat :: j < |s.mine| ==>
              && r.mine[j] == (if j in SplatSlots(c, s.mine, i) then Deleted else s.mine[j])
              && r.other[j] == (if j in SplatSlots(c, s.mine, i) then Deleted else s.other[j])
    decreases |s.mine| - i
  {
    hide Splat;
    if i == |s.mine| {
    } else if Splat(c, s.mine[i]) {
      ScanMarks(c, Pair(s.mine[i := Deleted], s.other[i := Deleted], s.mineDeleted + 1, s.otherDeleted + 1), i + 1);
    } else {
      ScanMarks(c, s, i + 1);
    }
  }

  /** A scan counts every splatted slot in both counters. */
  lemma {:induction false} ScanCounts(c: Scan, s: Pair, i: nat)
    requires |s.mine| == |s.other| && i <= |s.mine|
    ensures var r := ScanFrom(c, s, i);
            && r.mineDeleted == s.mineDeleted + |SplatSlots(c, s.mine, i)|
            && r.otherDeleted == s.otherDeleted + |SplatSlots(c, s.mine, i)|
    decreases |s.mine| - i
  {
    hide Splat;
    if i == |s.mine| {
      assert SplatSlots(c, s.mine, i) == {};
    } else if Splat(c, s.mine[i]) {
      var s' := Pair(s.mine[i := Deleted], s.other[i := Deleted], s.mineDeleted + 1, s.otherDeleted + 1);
      ScanCounts(c, s', i + 1);
      assert SplatSlots(c, s.mine, i) == SplatSlots(c, s'.mine, i + 1) + {i};
    } else {
      ScanCounts(c, s, i + 1);
      assert SplatSlots(c, s.mine, i) == SplatSlots(c, s.mine, i + 1);
    }
  }

  /** What a scan does: it marks both halves of every splatted slot, counts each, and changes nothing
      else. */
  lemma ScanResult(c: Scan, s: Pair, i: nat)
    requires |s.mine| == |s.other| && i <= |s.mine|
    ensures var r := ScanFrom(c, s, i);
            && (forall j: nat :: j < |s.mine| ==>
                  && r.mine[j] == (if j in SplatSlots(c, s.mine, i) then Deleted else s.mine[j])
                  && r.other[j] == (if j in SplatSlots(c, s.mine, i) then Deleted else s.other[j]))
            && r.mineDeleted == s.mineDeleted + |SplatSlots(c, s.mine, i)|
            && r.otherDeleted == s.otherDeleted + |SplatSlots(c, s.mine, i)|
  {
    hide ScanFrom, SplatSlots;
    ScanMarks(c, s, i);
    ScanCounts(c, s, i);
  }

  /** The scan of the key buckets, whose dependent is the value buckets. */
  function ScanKeys(c: Scan, t: Table): (r: Table)
    requires |t.keys| == |t.values|
    ensures |r.keys| == |r.values| == |t.keys|
  {
    var r := ScanFrom(c, Pair(t.keys, t.values, t.deleted, 0), 0);
    t.(keys := r.mine, values := r.other, deleted := r.mineDeleted, ld := t.ld.(collected := true))
  }

  /** The scan of the value buckets, whose dependent is the key buckets. */
  function ScanValues(c: Scan, t: Table): (r: Table)
    requires |t.keys| == |t.values|
    ensures |r.keys| == |r.values| == |t.keys|
  {
    var r := ScanFrom(c, Pair(t.values, t.keys, 0, t.deleted), 0);
    t.(keys := r.other, values := r.mine, deleted := r.otherDeleted, ld := t.ld.(collected := true))
  }

  function DeadKeys(c: Scan, m: map<nat, Ref>): set<nat> {
    set k | k in m && Splat(c, Obj(k))
  }

  function KeysOfDead(c: Scan, m: map<nat, Ref>): set<nat> {
    set k | k in m && Splat(c, m[k])
  }

  /** A scan of weak keys removes exactly the entries whose key has died, and counts right. */
  lemma ScanKeysKeeps(p: Policy, c: Scan, t: Table)
    requires GoodPolicy(p) && Inv(p, t)
    ensures var r := ScanKeys(c, t);
            Inv(p, r) && r.loc == t.loc && Abs(r) == Abs(t) - DeadKeys(c, Abs(t)) && Surplus(r) == Surplus(t)
  {
    hide ScanFrom, Located, Distinct;
    var gone := SplatSlots(c, t.keys, 0);
    var r := ScanKeys(c, t);
    ScanResult(c, Pair(t.keys, t.values, t.deleted, 0), 0);
    forall s: nat | s < |t.keys| ensures Lockstep(t.keys[s], t.values[s]) {}
    assert Erased(t, gone, r);
    EraseKeeps(p, t, gone, r);
    DistinctUnique(p, t.keys);
    assert Ids(t.keys, gone) == DeadKeys(c, Abs(t)) by {
      forall k | k in DeadKeys(c, Abs(t)) ensures k in Ids(t.keys, gone) {
        var s := BucketOf(t.keys, k);
        assert s in gone;
      }
      forall k | k in Ids(t.keys, gone) ensures k in DeadKeys(c, Abs(t)) {
        var s :| s in gone && t.keys[s].id == k;
        ContentsAt(t.keys, t.values, s);
      }
    }
  }

  /** Whatever the filter lets pass, a scan of weak values removes exactly the entries whose value comes
      back NULL: a tombstone taken for splatted stays a tombstone. */
  lemma ScanValuesKeeps(p: Policy, c: Scan, t: Table)
    requires GoodPolicy(p) && Inv(p, t)
    ensures var r := ScanValues(c, t);
            Inv(p, r) && r.loc == t.loc && Abs(r) == Abs(t) - KeysOfDead(c, Abs(t))
  {
    hide ScanFrom, Located, Distinct;
    var gone := SplatSlots(c, t.values, 0) * Live(t.keys);
    var r := ScanValues(c, t);
    ValuesErased(p, c, t);
    EraseKeeps(p, t, gone, r);
    DistinctUnique(p, t.keys);
    assert Ids(t.keys, gone) == KeysOfDead(c, Abs(t)) by {
      forall k | k in KeysOfDead(c, Abs(t)) ensures k in Ids(t.keys, gone) {
        var s := BucketOf(t.keys, k);
        assert s in gone;
      }
      forall k | k in Ids(t.keys, gone) ensures k in KeysOfDead(c, Abs(t)) {
        var s :| s in gone && t.keys[s].id == k;
        ContentsAt(t.keys, t.values, s);
      }
    }
  }

  /** A scan of the values erases the live buckets whose value it takes for splatted. */
  lemma ValuesErased(p: Policy, c: Scan, t: Table)
    requires Core(p, t)
    ensures Erased(t, SplatSlots(c, t.values, 0) * Live(t.keys), ScanValues(c, t))
  {
    hide ScanFrom, Located, Distinct;
    ScanMarks(c, Pair(t.values, t.keys, 0, t.deleted), 0);
    forall s: nat | s < |t.keys| ensures Lockstep(t.keys[s], t.values[s]) {}
  }

  // ---- The deleted counter under scans --------------------------------------------------------------

  /** The deleted buckets whose value the scan takes for splatted. The values of entries deleted by name are
      NULL, so there can be some only if `MPS_FIX1` lets NULL pass. */
  function Doubled(c: Scan, t: Table): set<nat>
    requires |t.keys| == |t.values|
  {
    set s: nat | s < |t.keys| && t.keys[s].Deleted? && Splat(c, t.values[s])
  }

  lemma RejectingNullDoublesNone(p: Policy, c: Scan, t: Table)
    requires Core(p, t) && !c.passes(Null)
    ensures Doubled(c, t) == {}
  {
    forall s: nat | s < |t.keys| && t.keys[s].Deleted? ensures !Splat(c, t.values[s]) {
      assert Lockstep(t.keys[s], t.values[s]);
    }
  }

  /** A scan of the values counts every such bucket once more. */
  lemma ScanValuesSurplus(p: Policy, c: Scan, t: Table)
    requires Core(p, t)
    ensures Surplus(ScanValues(c, t)) == Surplus(t) + |Doubled(c, t)|
  {
    hide Splat, ScanFrom, Located, Distinct;
    var marked := SplatSlots(c, t.values, 0);
    var r := ScanValues(c, t);
    ScanResult(c, Pair(t.values, t.keys, 0, t.deleted), 0);
    TombsAfter(t.keys, marked, r.keys);
    UnionSize(Tombs(t.keys), marked);
    assert Tombs(t.keys) * marked == Doubled(c, t);
  }

  /** The deleted counter survives a scan of the values exactly when no tombstone's value is taken for
      splatted. */
  lemma DeletedExactIff(p: Policy, c: Scan, t: Table)
    requires Core(p, t) && Surplus(t) >= 0
    ensures Counted(ScanValues(c, t)) <==> Counted(t) && Doubled(c, t) == {}
  {
    hide ScanValues, Core, Doubled;
    ScanValuesSurplus(p, c, t);
  }

  lemma TombsAfter(keys: seq<Ref>, gone: set<nat>, keys': seq<Ref>)
    requires |keys'| == |keys| && forall s :: s in gone ==> s < |keys|
    requires forall s: nat :: s < |keys| ==> keys'[s] == if s in gone then Deleted else keys[s]
    ensures Tombs(keys') == Tombs(keys) + gone
  {
  }

  lemma UnionSize(a: set<nat>, b: set<nat>)
    ensures |a + b| == |a| + |b| - |a * b|
  {
  }

  /** The assertion of `table_size` fails exactly when the surplus exceeds the number of live keys, and right
      after a scan of the values of a table that counted right, when more values were taken for splatted
      than there are live keys. */
  lemma SizeAssertionFailsIff(p: Policy, c: Scan, t: Table)
    requires Core(p, t)
    ensures t.used < t.deleted <==> Surplus(t) > |Live(t.keys)|
    ensures var r := ScanValues(c, t);
            r.used < r.deleted <==> Surplus(t) + |SplatSlots(c, t.values, 0)| > |Live(t.keys)|
  {
    hide ScanFrom, SplatSlots, Located;
    ScanCounts(c, Pair(t.values, t.keys, 0, t.deleted), 0);
    CountsAgree(p, t);
  }

  /** If NULL passes `MPS_FIX1`, the tombstone of an ordinary deletion is counted a second time and
      `table_size` sees more deleted buckets than used ones. */
  lemma NullCountedTwice(p: Policy, loc: Placement) returns (c: Scan, t: Table)
    requires GoodPolicy(p)
    ensures t == Delete(p, Set(p, NewTable(2, loc), 0, Obj(1), false, false), 0, false)
    ensures Inv(p, t) && Counted(t) && ScanValues(c, t).used < ScanValues(c, t).deleted
  {
    hide GoodPolicy, Inv, Core, Set, Delete, Contents, MapSet, MapDelete, ScanFrom;
    c := Scan(r => r == Null, {});
    var t0 := NewTable(2, loc);
    assert IsPow2(2) by { assert Pow2(1) == 2; }
    NewTableIsEmpty(p, 2, loc);
    SetAgrees(p, t0, 0, Obj(1), false, false);
    var t1 := Set(p, t0, 0, Obj(1), false, false);
    DeleteAgrees(p, t1, 0, false);
    t := Delete(p, t1, 0, false);
    FirstSetAndDelete(p, loc);
    SetSurplus(p, t0, 0, Obj(1), false, false);
    DeleteSurplus(p, t1, 0, false);
    InvLengths(p, t);
    ScanCountsNull(c, t);
  }

  lemma ScanCountsNull(c: Scan, t: Table)
    requires |t.keys| == |t.values| && c.passes(Null) && exists s: nat :: s < |t.values| && t.values[s].Null?
    ensures ScanValues(c, t).deleted > t.deleted && ScanValues(c, t).used == t.used
  {
    ScanResult(c, Pair(t.values, t.keys, 0, t.deleted), 0);
    var s: nat :| s < |t.values| && t.values[s].Null?;
    assert s in SplatSlots(c, t.values, 0);
    SubsetSize({s}, SplatSlots(c, t.values, 0));
  }

  lemma FirstSetAndDelete(p: Policy, loc: Placement)
    requires GoodPolicy(p)
    ensures var t := Delete(p, Set(p, NewTable(2, loc), 0, Obj(1), false, false), 0, false);
            && t.used == 1 && t.deleted == 1
            && exists s: nat :: s < 2 && |t.keys| == 2 && t.keys[s].Deleted? && t.values[s].Null?
  {
    var h := p.hash(0, loc(0));
    var b := Probing.Slot(h, 0, 2);
    var t0 := NewTable(2, loc);
    assert Find(p, t0.keys, h, 0) == Some(b);
    assert !Full(t0);
    var t1 := Set(p, t0, 0, Obj(1), false, false);
    assert t1.keys[b] == Obj(0) && t1.used == 1 && t1.deleted == 0;
    assert p.cmp(0, 0);
    assert Find(p, t1.keys, h, 0) == Some(b);
    var t := Delete(p, t1, 0, false);
    assert t.keys[b].Deleted? && t.values[b].Null?;
  }

  // ---- A fresh table --------------------------------------------------------------------------

  function NewTable(length: nat, loc: Placement): Table {
    Table(Blank(length), Blank(length), 0, 0, Ld({}, false), loc)
  }

  lemma NewTableIsEmpty(p: Policy, length: nat, loc: Placement)
    requires IsPow2(length)
    ensures Inv(p, NewTable(length, loc)) && Counted(NewTable(length, loc)) && Abs(NewTable(length, loc)) == map[]
  {
    var t := NewTable(length, loc);
    assert Occupied(t.keys) == {} && Tombs(t.keys) == {};
    assert LiveKeys(t.keys) == {};
  }

  /** The loop that rounds the requested length up to a power of two. */
  function RoundUpFrom(l: nat, length: nat): (r: nat)
    requires l > 0
    ensures r > 0
    decreases length - l
  {
    if l < length then RoundUpFrom(l * 2, length) else l
  }

  lemma {:induction false} RoundUpIsPow2(l: nat, length: nat)
    requires IsPow2(l) && l > 0 && (l == 1 || l < 2 * length)
    ensures IsPow2(RoundUpFrom(l, length))
    ensures RoundUpFrom(l, length) >= length
    ensures RoundUpFrom(l, length) == 1 || RoundUpFrom(l, length) < 2 * length
    decreases length - l
  {
    if l < length {
      Pow2Doubles(l);
      RoundUpIsPow2(l * 2, length);
    }
  }

  // ---- Runs -----------------------------------------------------------------------------------

  /** What a program may ask of the table, and what the collector may do between two requests.
      The booleans are the answers the location dependency gives where it is free to choose. */
  datatype Action =
    | Put(key: nat, value: Ref, coin: bool, coin': bool)
    | Drop(key: nat, coin: bool)
    | Look(key: nat, coin: bool)
    | Move(loc: Placement)
    | WeakKeys(c: Scan)
    | WeakValues(c: Scan)

  function Step(p: Policy, t: Table, a: Action): (r: Table)
    requires |t.keys| == |t.values| > 0
    ensures |r.keys| == |r.values| > 0
  {
    match a
    case Put(key, value, coin, coin') => Set(p, t, key, value, coin, coin')
    case Drop(key, coin) => Delete(p, t, key, coin)
    case Look(key, coin) => TableFind(p, t, key, false, coin).table
    case Move(loc) => t.(loc := loc, ld := t.ld.(collected := true))
    case WeakKeys(c) => ScanKeys(c, t)
    case WeakValues(c) => ScanValues(c, t)
  }

  /** The answer a lookup gives; other actions answer nothing. */
  function Answer(p: Policy, t: Table, a: Action): seq<Ref>
    requires |t.keys| == |t.values| > 0
  {
    match a
    case Look(key, coin) => [RefResult(TableFind(p, t, key, false, coin))]
    case _ => []
  }

  /** The values a program stores are objects or NULL, not the two keys that mark buckets. */
  predicate Storable(a: Action) {
    a.Put? ==> a.value.Null? || a.value.Obj?
  }

  ghost function MapStep(p: Policy, m: map<nat, Ref>, a: Action): map<nat, Ref> {
    match a
    case Put(key, value, _, _) => MapSet(p, m, key, value)
    case Drop(key, _) => MapDelete(p, m, key)
    case Look(_, _) => m
    case Move(_) => m
    case WeakKeys(c) => m - DeadKeys(c, m)
    case WeakValues(c) => m - KeysOfDead(c, m)
  }

  ghost function MapAnswer(p: Policy, m: map<nat, Ref>, a: Action): seq<Ref> {
    match a
    case Look(key, _) => [MapRef(p, m, key)]
    case _ => []
  }

  /** Every single action keeps the invariant and does to the map what it should. */
  lemma StepAgrees(p: Policy, t: Table, a: Action)
    requires GoodPolicy(p) && Inv(p, t) && |t.keys| > 0 && Storable(a)
    ensures Inv(p, Step(p, t, a)) && Abs(Step(p, t, a)) == MapStep(p, Abs(t), a)
    ensures Answer(p, t, a) == MapAnswer(p, Abs(t), a)
  {
    match a
    case Put(key, value, coin, coin') => SetAgrees(p, t, key, value, coin, coin');
    case Drop(key, coin) => DeleteAgrees(p, t, key, coin);
    case Look(key, coin) => RefAgrees(p, t, key, coin);
    case Move(loc) => MoveKeeps(p, t, loc);
    case WeakKeys(c) => ScanKeysKeeps(p, c, t);
    case WeakValues(c) => ScanValuesKeeps(p, c, t);
  }

  lemma MoveKeeps(p: Policy, t: Table, loc: Placement)
    requires Inv(p, t)
    ensures Inv(p, t.(loc := loc, ld := t.ld.(collected := true)))
  {
    var t' := t.(loc := loc, ld := t.ld.(collected := true));
    forall s: nat | s < |t'.keys| && t'.keys[s].Obj? ensures Located(p, t'.keys, t'.ld, s) {
      LocatedKept(p, t.keys, t.ld, t'.keys, t'.ld, s);
    }
  }

  function Run(p: Policy, t: Table, actions: seq<Action>): (r: Table)
    requires |t.keys| == |t.values| > 0
    ensures |r.keys| == |r.values| > 0
    decreases |actions|
  {
    if actions == [] then t else Run(p, Step(p, t, actions[0]), actions[1..])
  }

  function Answers(p: Policy, t: Table, actions: seq<Action>): seq<Ref>
    requires |t.keys| == |t.values| > 0
    decreases |actions|
  {
    if actions == [] then []
    else Answer(p, t, actions[0]) + Answers(p, Step(p, t, actions[0]), actions[1..])
  }

  predicate StorableRun(actions: seq<Action>) {
    forall i :: 0 <= i < |actions| ==> Storable(actions[i])
  }

  ghost function MapRun(p: Policy, m: map<nat, Ref>, actions: seq<Action>): map<nat, Ref>
    decreases |actions|
  {
    if actions == [] then m else MapRun(p, MapStep(p, m, actions[0]), actions[1..])
  }

  ghost function MapAnswers(p: Policy, m: map<nat, Ref>, actions: seq<Action>): seq<Ref>
    decreases |actions|
  {
    if actions == [] then []
    else MapAnswer(p, m, actions[0]) + MapAnswers(p, MapStep(p, m, actions[0]), actions[1..])
  }

  /** Over every run, however the collector moves keys and splats weak slots in between, the table
      refines a finite map: same final contents, same answers, invariant kept. */
  lemma {:induction false} RunAgrees(p: Policy, t: Table, actions: seq<Action>)
    requires GoodPolicy(p) && Inv(p, t) && |t.keys| > 0 && StorableRun(actions)
    ensures Inv(p, Run(p, t, actions)) && Abs(Run(p, t, actions)) == MapRun(p, Abs(t), actions)
    ensures Answers(p, t, actions) == MapAnswers(p, Abs(t), actions)
    decreases |actions|
  {
    if actions != [] {
      StepAgrees(p, t, actions[0]);
      RunAgrees(p, Step(p, t, actions[0]), actions[1..]);
    }
  }

  lemma InvIsCore(p: Policy, t: Table)
    requires Inv(p, t)
    ensures Core(p, t)
  {
  }

  // ---- The deleted counter over runs ----------------------------------------------------------------

  /** The action rehashes the table. */
  predicate Rehashes(p: Policy, t: Table, a: Action)
    requires |t.keys| == |t.values| > 0
  {
    match a
    case Put(key, _, coin, _) => SetRehashes(p, t, key, coin)
    case Drop(key, coin) => FindRehashes(p, t, key, false, coin)
    case Look(key, coin) => FindRehashes(p, t, key, false, coin)
    case Move(_) => false
    case WeakKeys(_) => false
    case WeakValues(_) => false
  }

  /** How many tombstones the action counts a second time. */
  function Doubles(t: Table, a: Action): nat
    requires |t.keys| == |t.values|
  {
    if a.WeakValues? then |Doubled(a.c, t)| else 0
  }

  /** One action adds to the surplus what it doubles, or clears it by a rehash. */
  lemma StepSurplus(p: Policy, t: Table, a: Action)
    requires GoodPolicy(p) && Inv(p, t) && |t.keys| > 0 && Storable(a)
    ensures Surplus(Step(p, t, a)) == if Rehashes(p, t, a) then 0 else Surplus(t) + Doubles(t, a)
  {
    hide Inv, GoodPolicy, Set, Delete, TableFind, ScanKeys, ScanValues, FindRehashes, SetRehashes, Doubled;
    match a
    case Put(key, value, coin, coin') => SetSurplus(p, t, key, value, coin, coin');
    case Drop(key, coin) => DeleteSurplus(p, t, key, coin);
    case Look(key, coin) => FindSurplus(p, t, key, false, coin);
    case Move(loc) =>
    case WeakKeys(c) => ScanKeysKeeps(p, c, t);
    case WeakValues(c) =>
      InvIsCore(p, t);
      ScanValuesSurplus(p, c, t);
  }

  /** The table when it is the turn of action `i`. */
  function Before(p: Policy, t: Table, actions: seq<Action>, i: nat): (r: Table)
    requires |t.keys| == |t.values| > 0 && i <= |actions|
    ensures |r.keys| == |r.values| > 0
  {
    Run(p, t, actions[..i])
  }

  ghost predicate DoublesAt(p: Policy, t: Table, actions: seq<Action>, i: nat)
    requires |t.keys| == |t.values| > 0
  {
    i < |actions| && Doubles(Before(p, t, actions, i), actions[i]) > 0
  }

  ghost predicate RehashesAt(p: Policy, t: Table, actions: seq<Action>, i: nat)
    requires |t.keys| == |t.values| > 0
  {
    i < |actions| && Rehashes(p, Before(p, t, actions, i), actions[i])
  }

  /** Every scan of the run that took a tombstone's value for splatted was followed by a rehash. */
  ghost predicate Settled(p: Policy, t: Table, actions: seq<Action>)
    requires |t.keys| == |t.values| > 0
  {
    forall i: nat :: DoublesAt(p, t, actions, i) ==> exists j: nat :: i < j && RehashesAt(p, t, actions, j)
  }

  lemma {:induction false} RunAppends(p: Policy, t: Table, actions: seq<Action>, a: Action)
    requires |t.keys| == |t.values| > 0
    ensures Run(p, t, actions + [a]) == Step(p, Run(p, t, actions), a)
    decreases |actions|
  {
    hide Step;
    if actions == [] {
      assert [] + [a] == [a];
    } else {
      assert (actions + [a])[1..] == actions[1..] + [a];
      RunAppends(p, Step(p, t, actions[0]), actions[1..], a);
    }
  }

  /** The events of a run so far do not depend on what comes after. */
  lemma EventsOfPrefix(p: Policy, t: Table, actions: seq<Action>, a: Action, i: nat)
    requires |t.keys| == |t.values| > 0 && i < |actions|
    ensures DoublesAt(p, t, actions + [a], i) == DoublesAt(p, t, actions, i)
    ensures RehashesAt(p, t, actions + [a], i) == RehashesAt(p, t, actions, i)
  {
    assert (actions + [a])[..i] == actions[..i] && (actions + [a])[i] == actions[i];
  }

  lemma LastEvent(p: Policy, t: Table, actions: seq<Action>, a: Action)
    requires |t.keys| == |t.values| > 0
    ensures DoublesAt(p, t, actions + [a], |actions|) <==> Doubles(Run(p, t, actions), a) > 0
    ensures RehashesAt(p, t, actions + [a], |actions|) <==> Rehashes(p, Run(p, t, actions), a)
  {
    assert (actions + [a])[..|actions|] == actions;
  }

  /** A run is settled after one more action if that rehashes, or if it was settled and the action doubles
      nothing. */
  lemma SettledStep(p: Policy, t: Table, actions: seq<Action>, a: Action)
    requires |t.keys| == |t.values| > 0
    ensures Settled(p, t, actions + [a]) <==>
              (Rehashes(p, Run(p, t, actions), a) || (Settled(p, t, actions) && Doubles(Run(p, t, actions), a) == 0))
  {
    hide Rehashes, Doubles, Run;
    var n, all := |actions|, actions + [a];
    LastEvent(p, t, actions, a);
    RehashDoublesNothing(p, t, actions, a);
    forall i: nat | i < n
      ensures DoublesAt(p, t, all, i) == DoublesAt(p, t, actions, i)
      ensures RehashesAt(p, t, all, i) == RehashesAt(p, t, actions, i)
    {
      EventsOfPrefix(p, t, actions, a, i);
    }
    OnlyTheirOwn(p, t, actions);
    OnlyTheirOwn(p, t, all);
    if RehashesAt(p, t, all, n) {
      forall i: nat | DoublesAt(p, t, all, i) ensures exists j: nat :: i < j && RehashesAt(p, t, all, j) {
        assert i < n;
      }
    } else {
      SettledWithout(p, t, actions, a);
    }
  }

  lemma OnlyTheirOwn(p: Policy, t: Table, actions: seq<Action>)
    requires |t.keys| == |t.values| > 0
    ensures forall i: nat :: DoublesAt(p, t, actions, i) || RehashesAt(p, t, actions, i) ==> i < |actions|
  {
  }

  lemma RehashDoublesNothing(p: Policy, t: Table, actions: seq<Action>, a: Action)
    requires |t.keys| == |t.values| > 0
    ensures Rehashes(p, Run(p, t, actions), a) ==> Doubles(Run(p, t, actions), a) == 0
  {
  }

  lemma SettledWithout(p: Policy, t: Table, actions: seq<Action>, a: Action)
    requires |t.keys| == |t.values| > 0 && !RehashesAt(p, t, actions + [a], |actions|)
    ensures Settled(p, t, actions + [a]) <==> Settled(p, t, actions) && !DoublesAt(p, t, actions + [a], |actions|)
  {
    hide DoublesAt, RehashesAt;
    var n, all := |actions|, actions + [a];
    forall i: nat | i < n
      ensures DoublesAt(p, t, all, i) == DoublesAt(p, t, actions, i)
      ensures RehashesAt(p, t, all, i) == RehashesAt(p, t, actions, i)
    {
      EventsOfPrefix(p, t, actions, a, i);
    }
    OnlyTheirOwn(p, t, actions);
    OnlyTheirOwn(p, t, all);
    if Settled(p, t, all) {
      forall i: nat | DoublesAt(p, t, actions, i) ensures exists j: nat :: i < j && RehashesAt(p, t, actions, j) {
        var j: nat :| i < j && RehashesAt(p, t, all, j);
      }
    }
    if Settled(p, t, actions) && !DoublesAt(p, t, all, n) {
      forall i: nat | DoublesAt(p, t, all, i) ensures exists j: nat :: i < j && RehashesAt(p, t, all, j) {
        var j: nat :| i < j && RehashesAt(p, t, actions, j);
      }
    }
  }

  /** From a table that counts right, the deleted counter is right at the end of a run exactly when every scan
      that took a tombstone's value for splatted was followed by a rehash. It is never below the truth. */
  lemma {:induction false} CountedIffSettled(p: Policy, t: Table, actions: seq<Action>)
    requires GoodPolicy(p) && Inv(p, t) && Counted(t) && |t.keys| > 0 && StorableRun(actions)
    ensures Surplus(Run(p, t, actions)) >= 0
    ensures Counted(Run(p, t, actions)) <==> Settled(p, t, actions)
    decreases |actions|
  {
    hide GoodPolicy, Inv, Step, Rehashes, Doubles, Settled, Contents;
    InvLengths(p, t);
    if actions == [] {
      NothingToSettle(p, t);
    } else {
      var n := |actions| - 1;
      var prefix, a := actions[..n], actions[n];
      assert actions == prefix + [a];
      CountedIffSettled(p, t, prefix);
      RunAgrees(p, t, prefix);
      RunAppends(p, t, prefix, a);
      StepSurplus(p, Run(p, t, prefix), a);
      SettledStep(p, t, prefix, a);
      RehashDoublesNothing(p, t, prefix, a);
    }
  }

  lemma NothingToSettle(p: Policy, t: Table)
    requires |t.keys| == |t.values| > 0
    ensures Settled(p, t, [])
  {
  }

  /** When a rehash comes up in a run, its assertion about the number of keys holds exactly when the run up to
      there is settled. */
  lemma RehashAssertionOverRuns(p: Policy, t: Table, actions: seq<Action>, i: nat, newLength: nat, key: Option<nat>)
    requires GoodPolicy(p) && Inv(p, t) && Counted(t) && |t.keys| > 0 && StorableRun(actions) && i <= |actions|
    requires IsPow2(newLength) && |Before(p, t, actions, i).keys| <= newLength
    ensures newLength > 0
    ensures var s := Before(p, t, actions, i);
            s.used >= s.deleted && Rehash(p, s, newLength, key).table.used == s.used - s.deleted <==>
              Settled(p, t, actions[..i])
  {
    hide GoodPolicy, Run, Rehash, Settled, Contents, Distinct, Located;
    RunAgrees(p, t, actions[..i]);
    CountedIffSettled(p, t, actions[..i]);
    LiveFits(Before(p, t, actions, i).keys);
    RehashAssertionIff(p, Before(p, t, actions, i), newLength, key);
  }

  lemma LiveFits(keys: seq<Ref>)
    ensures |Live(keys)| <= |keys|
  {
    BelowSize(|keys|);
    SubsetSize(Live(keys), Below(|keys|));
  }

  /** If the filter rejects NULL there is never anything to settle. */
  lemma RejectingNullRunIsSettled(p: Policy, t: Table, actions: seq<Action>)
    requires GoodPolicy(p) && Inv(p, t) && |t.keys| > 0 && StorableRun(actions)
    requires forall i :: 0 <= i < |actions| && actions[i].WeakValues? ==> !actions[i].c.passes(Null)
    ensures |t.values| == |t.keys| && Settled(p, t, actions)
  {
    hide Inv, GoodPolicy, DoublesAt;
    InvLengths(p, t);
    forall i: nat ensures !DoublesAt(p, t, actions, i) {
      DoublesNoneAt(p, t, actions, i);
    }
  }

  lemma DoublesNoneAt(p: Policy, t: Table, actions: seq<Action>, i: nat)
    requires GoodPolicy(p) && Inv(p, t) && |t.keys| == |t.values| > 0 && StorableRun(actions)
    requires i < |actions| && actions[i].WeakValues? ==> !actions[i].c.passes(Null)
    ensures !DoublesAt(p, t, actions, i)
  {
    hide Inv, GoodPolicy, Doubled, Run, Contents;
    if i < |actions| && actions[i].WeakValues? {
      RunAgrees(p, t, actions[..i]);
      InvIsCore(p, Before(p, t, actions, i));
      RejectingNullDoublesNone(p, actions[i].c, Before(p, t, actions, i));
    }
  }

  /** From a fresh table of any requested length, whatever the filters of the scans let pass: contents and
      answers are those of the map, at most half of the buckets are used, and `table_size` computes the
      size of the map exactly when the run is settled. */
  lemma EveryRun(p: Policy, length: nat, loc: Placement, actions: seq<Action>)
    requires GoodPolicy(p) && StorableRun(actions)
    ensures var t0 := NewTable(RoundUpFrom(1, length), loc);
            var t := Run(p, t0, actions);
            && Inv(p, t) && Abs(t) == MapRun(p, map[], actions)
            && Answers(p, t0, actions) == MapAnswers(p, map[], actions)
            && t.used <= |t.keys| / 2 && |MapRun(p, map[], actions)| <= t.used
            && t.used - t.deleted <= |MapRun(p, map[], actions)|
            && (t.used - t.deleted == |MapRun(p, map[], actions)| <==> Settled(p, t0, actions))
  {
    hide GoodPolicy, Run, MapRun, Answers, MapAnswers, Settled, Contents;
    assert Pow2(0) == 1;
    RoundUpIsPow2(1, length);
    var t0 := NewTable(RoundUpFrom(1, length), loc);
    NewTableIsEmpty(p, RoundUpFrom(1, length), loc);
    RunAgrees(p, t0, actions);
    CountedIffSettled(p, t0, actions);
    SizeIsCardinality(p, Run(p, t0, actions));
    CountsAgree(p, Run(p, t0, actions));
  }
}
