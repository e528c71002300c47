/** Linear probing over a power-of-two table without tombstones, as values: what keeps every
    stored key reachable, and how removal repairs the chains it breaks. */
module LinearProbing {
  import opened Words
  import opened Optional
  import opened Counting

  /** A key or data pointer; zero is NULL. */
  type Ptr = nat

  datatype Entry = Entry(key: Ptr, data: Ptr)

  const FREE := Entry(0, 0)

  /** The user's hash followed by the secondary hash, and `compare(a, b) == 0`. */
  datatype Policy = Policy(hash: Ptr -> Word, same: (Ptr, Ptr) -> bool)

  ghost predicate GoodPolicy(p: Policy) {
    && (forall a :: p.same(a, a))
    && (forall a, b :: p.same(a, b) ==> p.same(b, a))
    && (forall a, b, c :: p.same(a, b) && p.same(b, c) ==> p.same(a, c))
    && (forall a, b :: p.same(a, b) ==> p.hash(a) == p.hash(b))
  }

  /** `calc_index` */
  function Home(p: Policy, n: nat, key: Ptr): (i: nat)
    requires n > 0
    ensures i < n
  {
    p.hash(key) % n
  }

  function Next(n: nat, i: nat): (j: nat)
    requires i < n
    ensures j < n
  {
    if i + 1 < n then i + 1 else 0
  }

  // ---- Searching ---------------------------------------------------------------------------

  predicate Stops(p: Policy, e: Entry, key: Ptr) {
    e.key == 0 || p.same(key, e.key)
  }

  function FindFrom(p: Policy, t: seq<Entry>, key: Ptr, d: nat): Option<nat>
    requires d <= |t|
    decreases |t| - d
  {
    if d == |t| then None
    else
      var i := Ahead(|t|, Home(p, |t|, key), d);
      if Stops(p, t[i], key) then Some(i) else FindFrom(p, t, key, d + 1)
  }

  /** The slot that holds the key, or else the first free slot of its chain. */
  function Find(p: Policy, t: seq<Entry>, key: Ptr): Option<nat> {
    FindFrom(p, t, key, 0)
  }

  /** Slot `i` is the first at which the search for `key` stops. */
  ghost predicate FirstStop(p: Policy, t: seq<Entry>, key: Ptr, i: nat) {
    && i < |t|
    && Stops(p, t[i], key)
    && forall q: nat :: q < |t| && Dist(|t|, Home(p, |t|, key), q) < Dist(|t|, Home(p, |t|, key), i) ==> !Stops(p, t[q], key)
  }

  lemma {:induction false} FindIsFirstStopFrom(p: Policy, t: seq<Entry>, key: Ptr, d: nat)
    requires d <= |t|
    requires forall q: nat :: q < |t| && Dist(|t|, Home(p, |t|, key), q) < d ==> !Stops(p, t[q], key)
    ensures match FindFrom(p, t, key, d)
            case Some(i) => FirstStop(p, t, key, i)
            case None => forall q: nat :: q < |t| ==> !Stops(p, t[q], key)
    decreases |t| - d
  {
    if d < |t| {
      var i := Ahead(|t|, Home(p, |t|, key), d);
      if !Stops(p, t[i], key) {
        forall q: nat | q < |t| && Dist(|t|, Home(p, |t|, key), q) < d + 1 ensures !Stops(p, t[q], key) {
          if Dist(|t|, Home(p, |t|, key), q) == d { assert q == i; }
        }
        FindIsFirstStopFrom(p, t, key, d + 1);
      }
    }
  }

  lemma FindIsFirstStop(p: Policy, t: seq<Entry>, key: Ptr)
    ensures match Find(p, t, key)
            case Some(i) => FirstStop(p, t, key, i)
            case None => forall q: nat :: q < |t| ==> !Stops(p, t[q], key)
  {
    FindIsFirstStopFrom(p, t, key, 0);
  }

  // ---- Reachability of stored keys -----------------------------------------------------------

  /** Slot `q` lies on the way from `h` to `s`, both included. */
  predicate OnPath(n: nat, h: nat, s: nat, q: nat)
    requires h < n && s < n && q < n
  {
    Dist(n, h, q) <= Dist(n, h, s)
  }

  function Occupied(t: seq<Entry>): set<nat> {
    set s: nat | s < |t| && t[s].key != 0
  }

  /** Every slot from an entry's home to its position is occupied. */
  ghost predicate Chain(p: Policy, t: seq<Entry>) {
    forall s: nat, q: nat :: s < |t| && q < |t| && t[s].key != 0 && OnPath(|t|, Home(p, |t|, t[s].key), s, q)
      ==> t[q].key != 0
  }

  /** No entry other than the one at `z` has `z` on its way. */
  ghost predicate Anchor(p: Policy, t: seq<Entry>, z: nat) {
    && z < |t|
    && forall s: nat :: s < |t| && s != z && t[s].key != 0 ==> !OnPath(|t|, Home(p, |t|, t[s].key), s, z)
  }

  ghost predicate Distinct(p: Policy, t: seq<Entry>) {
    forall r: nat, s: nat :: r < s < |t| && t[r].key != 0 && t[s].key != 0 ==> !p.same(t[r].key, t[s].key)
  }

  /** The invariant of the table. A free slot is always an anchor, so the last clause adds something
      only when the table is completely full. */
  ghost predicate Good(p: Policy, t: seq<Entry>) {
    && Chain(p, t)
    && Distinct(p, t)
    && (|t| > 0 ==> exists z: nat :: Anchor(p, t, z))
  }

  lemma FreeSlotIsAnchor(p: Policy, t: seq<Entry>, z: nat)
    requires Chain(p, t) && z < |t| && t[z].key == 0
    ensures Anchor(p, t, z)
  {
  }

  /** Filling the free slot at the end of a chain makes that slot an anchor. */
  lemma FilledSlotIsAnchor(p: Policy, t: seq<Entry>, z: nat, e: Entry)
    requires Chain(p, t) && z < |t| && t[z].key == 0
    ensures Anchor(p, t[z := e], z)
  {
  }

  /** A stored key is found where it is. */
  lemma FindPresent(p: Policy, t: seq<Entry>, key: Ptr, s: nat)
    requires GoodPolicy(p) && Chain(p, t) && Distinct(p, t)
    requires s < |t| && t[s].key != 0 && p.same(key, t[s].key)
    ensures Find(p, t, key) == Some(s)
  {
    FindIsFirstStop(p, t, key);
    var h := Home(p, |t|, key);
    assert Home(p, |t|, t[s].key) == h;
    var i := Find(p, t, key).value;
    if Dist(|t|, h, i) <= Dist(|t|, h, s) {
      assert OnPath(|t|, h, s, i);
      assert p.same(t[i].key, t[s].key) && p.same(t[s].key, t[i].key);
      if i < s { assert false; } else if s < i { assert false; }
    }
  }

  // ---- The abstract map --------------------------------------------------------------------

  ghost predicate UniqueKeys(t: seq<Entry>) {
    forall r: nat, s: nat :: r < s < |t| && t[r].key != 0 && t[s].key != 0 ==> t[r].key != t[s].key
  }

  lemma DistinctUnique(p: Policy, t: seq<Entry>)
    requires GoodPolicy(p) && Distinct(p, t)
    ensures UniqueKeys(t)
  {
  }

  function KeysOf(t: seq<Entry>): set<Ptr> {
    set s: nat | s < |t| && t[s].key != 0 :: t[s].key
  }

  ghost function SlotOf(t: seq<Entry>, k: Ptr): (s: nat)
    requires k in KeysOf(t)
    ensures s < |t| && t[s].key == k && k != 0
  {
    var s: nat :| s < |t| && t[s].key == k && k != 0;
    s
  }

  /** The finite map from stored key to data. */
  ghost function Contents(t: seq<Entry>): map<Ptr, Ptr> {
    map k | k in KeysOf(t) :: t[SlotOf(t, k)].data
  }

  lemma ContentsAt(t: seq<Entry>, s: nat)
    requires UniqueKeys(t) && s < |t| && t[s].key != 0
    ensures t[s].key in Contents(t) && Contents(t)[t[s].key] == t[s].data
  {
    assert t[s].key in KeysOf(t);
    var r := SlotOf(t, t[s].key);
    if r < s { assert false; } else if s < r { assert false; }
  }

  lemma ContentsIs(t: seq<Entry>, m: map<Ptr, Ptr>)
    requires UniqueKeys(t)
    requires forall s: nat :: s < |t| && t[s].key != 0 ==> t[s].key in m && m[t[s].key] == t[s].data
    requires forall k :: k in m ==> k in KeysOf(t)
    ensures Contents(t) == m
  {
    var c := Contents(t);
    forall k | k in c ensures k in m && c[k] == m[k] {
      var s := SlotOf(t, k);
    }
    assert c.Keys == m.Keys;
  }

  /** The number of occupied slots is the size of the map. */
  lemma {:induction false} SizeIsCardinality(t: seq<Entry>)
    requires UniqueKeys(t)
    ensures |Occupied(t)| == |Contents(t)|
  {
    KeysOfSize(t);
    assert Contents(t).Keys == KeysOf(t);
  }

  lemma {:induction false} KeysOfSize(t: seq<Entry>)
    requires UniqueKeys(t)
    ensures |KeysOf(t)| == |Occupied(t)|
  {
    if t == [] {
      assert KeysOf(t) == {} && Occupied(t) == {};
    } else {
      var n := |t| - 1;
      assert t == t[..n] + [t[n]];
      KeysOfSize(t[..n]);
      AppendSize(t[..n], t[n]);
    }
  }

  lemma AppendSize(t: seq<Entry>, e: Entry)
    requires UniqueKeys(t + [e])
    ensures |KeysOf(t + [e])| - |KeysOf(t)| == |Occupied(t + [e])| - |Occupied(t)|
  {
    OccupiedAppend(t, e);
    KeysOfAppend(t, e);
    assert |t| !in Occupied(t);
  }

  lemma OccupiedAppend(t: seq<Entry>, e: Entry)
    ensures Occupied(t + [e]) == if e.key == 0 then Occupied(t) else Occupied(t) + {|t|}
  {
  }

  lemma KeysOfAppend(t: seq<Entry>, e: Entry)
    ensures KeysOf(t + [e]) == if e.key == 0 then KeysOf(t) else KeysOf(t) + {e.key}
    ensures UniqueKeys(t + [e]) && e.key != 0 ==> e.key !in KeysOf(t)
  {
    forall k | k in KeysOf(t) ensures k in KeysOf(t + [e]) {
      var s: nat :| s < |t| && t[s].key != 0 && t[s].key == k;
      assert (t + [e])[s].key == k;
    }
    if e.key != 0 {
      assert (t + [e])[|t|].key == e.key;
    }
    if UniqueKeys(t + [e]) && e.key != 0 && e.key in KeysOf(t) {
      var s: nat :| s < |t| && t[s].key != 0 && t[s].key == e.key;
      AppendKeepsSlot(t, e, s);
      assert false;
    }
  }

  lemma AppendKeepsSlot(t: seq<Entry>, e: Entry, s: nat)
    requires s < |t|
    ensures (t + [e])[s] == t[s] && (t + [e])[|t|] == e
  {
  }

  lemma ContentsAppend(t: seq<Entry>, e: Entry)
    requires UniqueKeys(t + [e])
    ensures Contents(t + [e]) == if e.key == 0 then Contents(t) else Contents(t)[e.key := e.data]
  {
    var u := t + [e];
    KeysOfAppend(t, e);
    assert forall s: nat :: s < |t| ==> u[s] == t[s];
    assert UniqueKeys(t);
    var m := if e.key == 0 then Contents(t) else Contents(t)[e.key := e.data];
    forall s: nat | s < |u| && u[s].key != 0 ensures u[s].key in m && m[u[s].key] == u[s].data {
      if s < |t| { ContentsAt(t, s); }
    }
    ContentsIs(u, m);
  }

  /** The stored key that `key` compares equal to. */
  ghost function Rep(p: Policy, m: map<Ptr, Ptr>, key: Ptr): (r: Option<Ptr>)
    ensures r.Some? ==> r.value in m && p.same(key, r.value)
    ensures r.None? ==> forall k :: k in m ==> !p.same(key, k)
  {
    if k :| k in m && p.same(key, k) then Some(k) else None
  }

  /** Searching decides membership in the map, in both directions. */
  lemma FindDecides(p: Policy, t: seq<Entry>, key: Ptr)
    requires GoodPolicy(p) && Chain(p, t) && Distinct(p, t)
    ensures var f := Find(p, t, key);
            && (f.Some? ==> f.value < |t|)
            && (Rep(p, Contents(t), key).Some? <==> f.Some? && t[f.value].key != 0)
            && (Rep(p, Contents(t), key).Some? ==>
                  Rep(p, Contents(t), key).value == t[f.value].key && Contents(t)[t[f.value].key] == t[f.value].data)
            && (f.None? ==> Occupied(t) == Below(|t|))
  {
    DistinctUnique(p, t);
    FindIsFirstStop(p, t, key);
    var f := Find(p, t, key);
    var r := Rep(p, Contents(t), key);
    if r.Some? {
      FindPresent(p, t, key, SlotOf(t, r.value));
      ContentsAt(t, f.value);
    }
    if f.Some? && t[f.value].key != 0 {
      ContentsAt(t, f.value);
    }
  }

  // ---- Insertion -----------------------------------------------------------------------------

  /** Storing a key in the free slot its search found. `k` is the key itself or a duplicate. */
  lemma InsertKeeps(p: Policy, t: seq<Entry>, key: Ptr, i: nat, k: Ptr, data: Ptr)
    requires GoodPolicy(p) && Chain(p, t) && Distinct(p, t)
    requires Find(p, t, key) == Some(i) && i < |t| && t[i].key == 0 && k != 0 && p.same(key, k)
    ensures var t' := t[i := Entry(k, data)];
            && Good(p, t')
            && Contents(t') == Contents(t)[k := data]
            && |Occupied(t')| == |Occupied(t)| + 1
  {
    var t' := t[i := Entry(k, data)];
    FindIsFirstStop(p, t, key);
    InsertChain(p, t, key, i, k, data);
    InsertDistinct(p, t, key, i, k, data);
    FilledSlotIsAnchor(p, t, i, Entry(k, data));
    assert Occupied(t') == Occupied(t) + {i};
    InsertContents(p, t, key, i, k, data);
  }

  lemma InsertChain(p: Policy, t: seq<Entry>, key: Ptr, i: nat, k: Ptr, data: Ptr)
    requires GoodPolicy(p) && Chain(p, t) && FirstStop(p, t, key, i) && t[i].key == 0 && k != 0 && p.same(key, k)
    ensures Chain(p, t[i := Entry(k, data)])
  {
    var t' := t[i := Entry(k, data)];
    assert Home(p, |t|, k) == Home(p, |t|, key);
    forall s: nat, q: nat | s < |t'| && q < |t'| && t'[s].key != 0 && OnPath(|t'|, Home(p, |t'|, t'[s].key), s, q)
      ensures t'[q].key != 0
    {
      if s == i && q != i {
        assert !Stops(p, t[q], key);
      }
    }
  }

  lemma InsertDistinct(p: Policy, t: seq<Entry>, key: Ptr, i: nat, k: Ptr, data: Ptr)
    requires GoodPolicy(p) && Chain(p, t) && Distinct(p, t)
    requires Find(p, t, key) == Some(i) && i < |t| && t[i].key == 0 && k != 0 && p.same(key, k)
    ensures Distinct(p, t[i := Entry(k, data)])
    ensures forall s: nat :: s < |t| && t[s].key != 0 ==> !p.same(t[s].key, k)
  {
    var t' := t[i := Entry(k, data)];
    forall s: nat | s < |t| && t[s].key != 0 ensures !p.same(t[s].key, k) && !p.same(k, t[s].key) {
      if p.same(t[s].key, k) || p.same(k, t[s].key) {
        assert p.same(key, t[s].key);
        FindPresent(p, t, key, s);
        assert false;
      }
    }
  }

  lemma InsertContents(p: Policy, t: seq<Entry>, key: Ptr, i: nat, k: Ptr, data: Ptr)
    requires GoodPolicy(p) && Chain(p, t) && Distinct(p, t)
    requires Find(p, t, key) == Some(i) && i < |t| && t[i].key == 0 && k != 0 && p.same(key, k)
    ensures Contents(t[i := Entry(k, data)]) == Contents(t)[k := data]
  {
    var t' := t[i := Entry(k, data)];
    InsertDistinct(p, t, key, i, k, data);
    DistinctUnique(p, t);
    DistinctUnique(p, t');
    var m := Contents(t)[k := data];
    forall s: nat | s < |t'| && t'[s].key != 0 ensures t'[s].key in m && m[t'[s].key] == t'[s].data {
      if s != i { ContentsAt(t, s); }
    }
    forall x | x in m ensures x in KeysOf(t') {
      if x == k {
        assert t'[i].key == k;
      } else {
        var s := SlotOf(t, x);
        assert t'[s].key == x;
      }
    }
    ContentsIs(t', m);
  }

  // ---- Removal -------------------------------------------------------------------------------

  /** The repair loop: `r` is the hole (still holding a stale copy), `index` the slot under
      inspection. An entry moves into the hole when the hole lies on its way. */
  function ShiftFrom(p: Policy, t: seq<Entry>, r: nat, index: nat, i: nat, bound: nat): (u: seq<Entry>)
    requires r < |t| && index < |t| && i <= bound
    ensures |u| == |t|
    decreases bound - i
  {
    if i == bound || t[index].key == 0 then t[r := FREE]
    else
      var e := Home(p, |t|, t[index].key);
      if Dist(|t|, e, index) > Dist(|t|, e, r)
      then ShiftFrom(p, t[r := t[index]], index, Next(|t|, index), i + 1, bound)
      else ShiftFrom(p, t, r, Next(|t|, index), i + 1, bound)
  }

  /** `entry_remove`: the loop runs at most as often as there are other entries. */
  function RemoveAt(p: Policy, t: seq<Entry>, r: nat): (u: seq<Entry>)
    requires r < |t| && t[r].key != 0
    ensures |u| == |t|
  {
    assert r in Occupied(t);
    ShiftFrom(p, t, r, Next(|t|, r), 0, |Occupied(t)| - 1)
  }

  /** The position of slot `x` when the ring is cut open just behind the anchor `z`. */
  function Line(n: nat, z: nat, x: nat): (c: nat)
    requires z < n && x < n
    ensures c < n
  {
    Dist(n, Next(n, z), x)
  }

  /** On the opened ring an entry whose way avoids the anchor sits at or after its home. */
  lemma AnchorOrders(n: nat, z: nat, h: nat, s: nat)
    requires z < n && h < n && s < n && (s == z || !OnPath(n, h, s, z))
    ensures Line(n, z, h) <= Line(n, z, s)
  {
  }

  /** On the opened ring the way from home to position is an interval. */
  lemma PathIsInterval(n: nat, z: nat, h: nat, s: nat, q: nat)
    requires z < n && h < n && s < n && q < n && Line(n, z, h) <= Line(n, z, s)
    ensures OnPath(n, h, s, q) <==> Line(n, z, h) <= Line(n, z, q) <= Line(n, z, s)
    ensures Dist(n, h, s) == Line(n, z, s) - Line(n, z, h)
  {
  }

  /** The way of the entry at `s`, on the ring opened behind `z`, contains `q`. */
  predicate Crosses(p: Policy, t: seq<Entry>, z: nat, s: nat, q: nat)
    requires z < |t| && s < |t| && q < |t|
  {
    Line(|t|, z, Home(p, |t|, t[s].key)) <= Line(|t|, z, q) <= Line(|t|, z, s)
  }

  /** What the loop has established after `i` turns from the original table `o` and slot `r0`. */
  ghost predicate Shifting(p: Policy, o: seq<Entry>, r0: nat, z: nat, t: seq<Entry>, r: nat, index: nat, i: nat) {
    var n := |o|;
    && |t| == n && z < n && r0 < n && r < n && index < n && i < n
    && (i + 1 < n ==> index == Ahead(n, r0, i + 1))
    && o[r0].key != 0
    // occupancy has not changed, and everything scanned is occupied
    && (forall s: nat :: s < n ==> (t[s].key != 0 <==> o[s].key != 0))
    && (forall s: nat :: s < n && Dist(n, r0, s) <= i ==> o[s].key != 0)
    // the hole is among the scanned slots, at or after the start
    && Dist(n, r0, r) <= i
    && Line(n, z, r0) <= Line(n, z, r)
    // what lies ahead is untouched
    && (forall s: nat :: s < n && Dist(n, r0, s) > i ==> t[s] == o[s])
    // every entry outside the hole is at or after its home, with all slots in between occupied
    && (forall s: nat :: s < n && s != r && t[s].key != 0 ==> Line(n, z, Home(p, n, t[s].key)) <= Line(n, z, s))
    && (forall s: nat, q: nat :: s < n && q < n && s != r && t[s].key != 0 && Crosses(p, t, z, s, q) ==> t[q].key != 0)
    // no scanned entry's way crosses the hole
    && (forall s: nat :: s < n && s != r && Dist(n, r0, s) <= i ==> !Crosses(p, t, z, s, r))
  }

  /** The entries outside the hole are distinct, are the original ones outside `r0`, and those that
      sit before slot `r0` were before it. */
  ghost predicate Carried(p: Policy, o: seq<Entry>, r0: nat, t: seq<Entry>, r: nat) {
    && |t| == |o| && r0 < |o| && r < |o|
    && (forall a: nat, b: nat :: a < |t| && b < |t| && a != b && a != r && b != r && t[a].key != 0 && t[b].key != 0 ==>
          !p.same(t[a].key, t[b].key))
    && (forall s: nat :: s < |t| && s != r && t[s].key != 0 ==> From(o, r0, s, t[s]))
    && (forall u: nat :: u < |o| && u != r0 && o[u].key != 0 ==> Into(t, r, o[u]))
  }

  ghost predicate From(o: seq<Entry>, r0: nat, s: nat, e: Entry) {
    exists u: nat :: u < |o| && u != r0 && o[u] == e && (s < r0 ==> u < r0)
  }

  ghost predicate Into(t: seq<Entry>, r: nat, e: Entry) {
    exists s: nat :: s < |t| && s != r && t[s] == e
  }

  lemma ShiftingStarts(p: Policy, o: seq<Entry>, r0: nat, z: nat)
    requires GoodPolicy(p) && Chain(p, o) && Anchor(p, o, z) && r0 < |o| && o[r0].key != 0
    ensures Shifting(p, o, r0, z, o, r0, Next(|o|, r0), 0)
  {
    var n := |o|;
    forall s: nat | s < n && o[s].key != 0 ensures Line(n, z, Home(p, n, o[s].key)) <= Line(n, z, s) {
      AnchorOrders(n, z, Home(p, n, o[s].key), s);
    }
    forall s: nat, q: nat | s < n && q < n && o[s].key != 0 && Crosses(p, o, z, s, q) ensures o[q].key != 0 {
      PathIsInterval(n, z, Home(p, n, o[s].key), s, q);
    }
  }

  lemma CarriedStarts(p: Policy, o: seq<Entry>, r0: nat)
    requires GoodPolicy(p) && Distinct(p, o) && r0 < |o|
    ensures Carried(p, o, r0, o, r0)
  {
    forall a: nat, b: nat | a < |o| && b < |o| && a != b && o[a].key != 0 && o[b].key != 0
      ensures !p.same(o[a].key, o[b].key)
    {
      if a < b { assert !p.same(o[a].key, o[b].key); } else { assert !p.same(o[b].key, o[a].key); }
    }
  }

  /** An entry is moved only before the scan passes the cut, and exactly when its home is at or
      before the hole. */
  lemma MoveTest(p: Policy, o: seq<Entry>, r0: nat, z: nat, t: seq<Entry>, r: nat, index: nat, i: nat)
    requires Shifting(p, o, r0, z, t, r, index, i) && i + 1 < |t| && t[index].key != 0
    ensures var n, e := |t|, Home(p, |t|, t[index].key);
            Dist(n, e, index) > Dist(n, e, r) <==>
              Line(n, z, r0) < Line(n, z, index) && Line(n, z, e) <= Line(n, z, r)
    ensures Line(|t|, z, r0) < Line(|t|, z, index) ==> Line(|t|, z, r) < Line(|t|, z, index)
    ensures index != r
  {
    hide Home;
  }

  lemma ShiftMoves(p: Policy, o: seq<Entry>, r0: nat, z: nat, t: seq<Entry>, r: nat, index: nat, i: nat)
    requires Shifting(p, o, r0, z, t, r, index, i) && i + 1 < |t| && t[index].key != 0
    requires var e := Home(p, |t|, t[index].key); Dist(|t|, e, index) > Dist(|t|, e, r)
    ensures Shifting(p, o, r0, z, t[r := t[index]], index, Next(|t|, index), i + 1)
  {
    hide Home, Crosses;
    MoveTest(p, o, r0, z, t, r, index, i);
    MoveKeepsWays(p, o, r0, z, t, r, index, i);
    MoveKeepsHoleClear(p, o, r0, z, t, r, index, i);
  }

  /** After a move all ways are still occupied. */
  lemma MoveKeepsWays(p: Policy, o: seq<Entry>, r0: nat, z: nat, t: seq<Entry>, r: nat, index: nat, i: nat)
    requires Shifting(p, o, r0, z, t, r, index, i) && i + 1 < |t| && t[index].key != 0
    requires var e := Home(p, |t|, t[index].key); Dist(|t|, e, index) > Dist(|t|, e, r)
    ensures var t' := t[r := t[index]];
            forall s: nat, q: nat :: s < |t| && q < |t| && s != index && t'[s].key != 0 && Crosses(p, t', z, s, q) ==> t'[q].key != 0
  {
    hide Home;
    MoveTest(p, o, r0, z, t, r, index, i);
    var n, t' := |t|, t[r := t[index]];
    forall s: nat, q: nat | s < n && q < n && s != index && t'[s].key != 0 && Crosses(p, t', z, s, q)
      ensures t'[q].key != 0
    {
      if s == r {
        assert Crosses(p, t, z, index, q);
      } else {
        assert Crosses(p, t, z, s, q);
      }
    }
  }

  /** After a move no scanned entry's way crosses the new hole. */
  lemma MoveKeepsHoleClear(p: Policy, o: seq<Entry>, r0: nat, z: nat, t: seq<Entry>, r: nat, index: nat, i: nat)
    requires Shifting(p, o, r0, z, t, r, index, i) && i + 1 < |t| && t[index].key != 0
    requires var e := Home(p, |t|, t[index].key); Dist(|t|, e, index) > Dist(|t|, e, r)
    ensures var t' := t[r := t[index]];
            forall s: nat :: s < |t| && s != index && Dist(|t|, r0, s) <= i + 1 ==> !Crosses(p, t', z, s, index)
  {
    hide Home;
    MoveTest(p, o, r0, z, t, r, index, i);
    var n, t' := |t|, t[r := t[index]];
    forall s: nat | s < n && s != index && Dist(n, r0, s) <= i + 1 ensures !Crosses(p, t', z, s, index) {
      assert Dist(n, r0, s) <= i;
    }
  }

  lemma ShiftPasses(p: Policy, o: seq<Entry>, r0: nat, z: nat, t: seq<Entry>, r: nat, index: nat, i: nat)
    requires Shifting(p, o, r0, z, t, r, index, i) && i + 1 < |t| && t[index].key != 0
    requires var e := Home(p, |t|, t[index].key); Dist(|t|, e, index) <= Dist(|t|, e, r)
    ensures Shifting(p, o, r0, z, t, r, Next(|t|, index), i + 1)
  {
    hide Home, Crosses;
    PassKeepsHoleClear(p, o, r0, z, t, r, index, i);
  }

  /** An entry that stays does not have the hole on its way. */
  lemma PassKeepsHoleClear(p: Policy, o: seq<Entry>, r0: nat, z: nat, t: seq<Entry>, r: nat, index: nat, i: nat)
    requires Shifting(p, o, r0, z, t, r, index, i) && i + 1 < |t| && t[index].key != 0
    requires var e := Home(p, |t|, t[index].key); Dist(|t|, e, index) <= Dist(|t|, e, r)
    ensures forall s: nat :: s < |t| && s != r && Dist(|t|, r0, s) <= i + 1 ==> !Crosses(p, t, z, s, r)
    ensures forall s: nat :: s < |t| && Dist(|t|, r0, s) <= i + 1 ==> o[s].key != 0
  {
    hide Home;
    MoveTest(p, o, r0, z, t, r, index, i);
    var n := |t|;
    forall s: nat | s < n && s != r && Dist(n, r0, s) <= i + 1 ensures !Crosses(p, t, z, s, r) {
      if Dist(n, r0, s) == i + 1 { assert s == index; }
    }
  }

  /** The entry about to move is an original one, and it does not jump ahead of the start. */
  lemma MoverIsOriginal(p: Policy, o: seq<Entry>, r0: nat, z: nat, t: seq<Entry>, r: nat, index: nat, i: nat)
    requires Shifting(p, o, r0, z, t, r, index, i) && i + 1 < |t|
    ensures t[index] == o[index] && index != r && index != r0 && (r < r0 ==> index < r0)
  {
  }

  lemma CarriedMoves(p: Policy, o: seq<Entry>, r0: nat, t: seq<Entry>, r: nat, index: nat)
    requires GoodPolicy(p) && Carried(p, o, r0, t, r) && index < |t| && t[index].key != 0
    requires t[index] == o[index] && index != r && index != r0 && (r < r0 ==> index < r0)
    ensures Carried(p, o, r0, t[r := t[index]], index)
  {
    var t' := t[r := t[index]];
    forall s: nat | s < |t'| && s != index && t'[s].key != 0 ensures From(o, r0, s, t'[s]) {
      if s == r {
        assert o[index] == t'[s] && index != r0;
      } else {
        assert From(o, r0, s, t[s]);
      }
    }
    forall u: nat | u < |o| && u != r0 && o[u].key != 0 ensures Into(t', index, o[u]) {
      var s: nat :| s < |t| && s != r && t[s] == o[u];
      if s == index { assert t'[r] == o[u]; } else { assert t'[s] == o[u]; }
    }
  }

  /** The finished table: `r` is the only slot freed, all chains are whole, and nothing is lost. */
  ghost predicate Repaired(p: Policy, o: seq<Entry>, r0: nat, u: seq<Entry>) {
    && Chain(p, u)
    && (exists r: nat :: Carried(p, o, r0, u, r) && u[r].key == 0 && Occupied(u) == Occupied(o) - {r} && r in Occupied(o))
  }

  /** When the scan stops at a free slot or has seen every entry, no way crosses the hole. */
  lemma NoCrossing(p: Policy, o: seq<Entry>, r0: nat, z: nat, t: seq<Entry>, r: nat, index: nat, i: nat, s: nat)
    requires Shifting(p, o, r0, z, t, r, index, i)
    requires (i + 1 < |o| && t[index].key == 0) || i + 1 == |Occupied(o)|
    requires s < |t| && s != r && t[s].key != 0
    ensures !Crosses(p, t, z, s, r)
  {
    hide Home;
    if Dist(|o|, r0, s) > i {
      if i + 1 == |Occupied(o)| {
        assert s in Occupied(o) && s !in Arc(|o|, r0, i);
        ScannedAll(o, r0, i);
        assert false;
      } else if Crosses(p, t, z, s, r) {
        assert false;
      }
    }
  }

  lemma ScannedAll(o: seq<Entry>, r0: nat, i: nat)
    requires r0 < |o| && i < |o| && i + 1 == |Occupied(o)|
    requires forall s: nat :: s < |o| && Dist(|o|, r0, s) <= i ==> o[s].key != 0
    ensures Occupied(o) == Arc(|o|, r0, i)
  {
    ArcSize(|o|, r0, i);
    SubsetSize(Arc(|o|, r0, i), Occupied(o));
  }

  /** Clearing the hole then completes the repair. */
  lemma ShiftEnds(p: Policy, o: seq<Entry>, r0: nat, z: nat, t: seq<Entry>, r: nat, index: nat, i: nat)
    requires Shifting(p, o, r0, z, t, r, index, i) && Carried(p, o, r0, t, r)
    requires (i + 1 < |o| && t[index].key == 0) || i + 1 == |Occupied(o)|
    ensures Repaired(p, o, r0, t[r := FREE])
  {
    forall s: nat | s < |o| && s != r && t[s].key != 0 ensures !Crosses(p, t, z, s, r) {
      NoCrossing(p, o, r0, z, t, r, index, i, s);
    }
    ClearedChain(p, o, r0, z, t, r, index, i);
    CarriedClears(p, o, r0, t, r);
    ClearedOccupied(p, o, r0, z, t, r, index, i);
  }

  lemma ClearedChain(p: Policy, o: seq<Entry>, r0: nat, z: nat, t: seq<Entry>, r: nat, index: nat, i: nat)
    requires Shifting(p, o, r0, z, t, r, index, i)
    requires forall s: nat :: s < |o| && s != r && t[s].key != 0 ==> !Crosses(p, t, z, s, r)
    ensures Chain(p, t[r := FREE])
  {
    var n, u := |t|, t[r := FREE];
    forall s: nat, q: nat | s < n && q < n && u[s].key != 0 && OnPath(n, Home(p, n, u[s].key), s, q) ensures u[q].key != 0 {
      PathIsInterval(n, z, Home(p, n, t[s].key), s, q);
      assert Crosses(p, t, z, s, q);
    }
  }

  lemma ClearedOccupied(p: Policy, o: seq<Entry>, r0: nat, z: nat, t: seq<Entry>, r: nat, index: nat, i: nat)
    requires Shifting(p, o, r0, z, t, r, index, i)
    ensures Occupied(t[r := FREE]) == Occupied(o) - {r} && r in Occupied(o)
  {
  }

  lemma CarriedClears(p: Policy, o: seq<Entry>, r0: nat, t: seq<Entry>, r: nat)
    requires Carried(p, o, r0, t, r)
    ensures Carried(p, o, r0, t[r := FREE], r)
  {
    var u := t[r := FREE];
    forall x: nat | x < |o| && x != r0 && o[x].key != 0 ensures Into(u, r, o[x]) {
      var s: nat :| s < |t| && s != r && t[s] == o[x];
      assert u[s] == o[x];
    }
    forall s: nat | s < |u| && s != r && u[s].key != 0 ensures From(o, r0, s, u[s]) {
      assert From(o, r0, s, t[s]);
    }
  }

  lemma {:induction false} ShiftRepairs(p: Policy, o: seq<Entry>, r0: nat, z: nat, t: seq<Entry>, r: nat, index: nat, i: nat)
    requires GoodPolicy(p) && Shifting(p, o, r0, z, t, r, index, i) && Carried(p, o, r0, t, r)
    requires i < |Occupied(o)|
    ensures Repaired(p, o, r0, ShiftFrom(p, t, r, index, i, |Occupied(o)| - 1))
    decreases |Occupied(o)| - i
  {
    hide Shifting, Carried, Repaired, GoodPolicy, Home;
    OccupiedFits(o);
    ShiftingBasics(p, o, r0, z, t, r, index, i);
    if i + 1 == |Occupied(o)| || t[index].key == 0 {
      ShiftEnds(p, o, r0, z, t, r, index, i);
    } else {
      var e := Home(p, |t|, t[index].key);
      if Dist(|t|, e, index) > Dist(|t|, e, r) {
        ShiftMoves(p, o, r0, z, t, r, index, i);
        MoverIsOriginal(p, o, r0, z, t, r, index, i);
        CarriedMoves(p, o, r0, t, r, index);
        ShiftRepairs(p, o, r0, z, t[r := t[index]], index, Next(|t|, index), i + 1);
      } else {
        ShiftPasses(p, o, r0, z, t, r, index, i);
        ShiftRepairs(p, o, r0, z, t, r, Next(|t|, index), i + 1);
      }
    }
  }

  lemma ShiftingBasics(p: Policy, o: seq<Entry>, r0: nat, z: nat, t: seq<Entry>, r: nat, index: nat, i: nat)
    requires Shifting(p, o, r0, z, t, r, index, i)
    ensures |t| == |o| && r < |t| && index < |t| && i < |t|
  {
  }

  lemma OccupiedFits(o: seq<Entry>)
    ensures |Occupied(o)| <= |o|
  {
    BelowSize(|o|);
    SubsetSize(Occupied(o), Below(|o|));
  }

  /** No slot before `r0` holds an entry that was not already before `r0`. */
  ghost predicate NoneMovedBefore(o: seq<Entry>, u: seq<Entry>, r0: nat) {
    forall s: nat :: s < r0 && s < |u| && u[s].key != 0 ==> exists x: nat :: x < r0 && x < |o| && o[x] == u[s]
  }

  /** Removal takes exactly one key out of the map and leaves a good table, also when its chain wraps
      round the end and when the table was completely full. */
  lemma RemoveKeeps(p: Policy, t: seq<Entry>, r0: nat)
    requires GoodPolicy(p) && Good(p, t) && r0 < |t| && t[r0].key != 0
    ensures var u := RemoveAt(p, t, r0);
            && Good(p, u)
            && Contents(u) == Contents(t) - {t[r0].key}
            && |Occupied(u)| == |Occupied(t)| - 1
            && NoneMovedBefore(t, u, r0)
  {
    RemoveRepairs(p, t, r0);
    RepairedIsGood(p, t, r0, RemoveAt(p, t, r0));
  }

  lemma RemoveRepairs(p: Policy, t: seq<Entry>, r0: nat)
    requires GoodPolicy(p) && Good(p, t) && r0 < |t| && t[r0].key != 0
    ensures Repaired(p, t, r0, RemoveAt(p, t, r0))
  {
    hide Shifting, GoodPolicy, ShiftFrom, Chain, Distinct, Carried, Repaired, Home;
    assert r0 in Occupied(t);
    var z: nat :| Anchor(p, t, z);
    ShiftingStarts(p, t, r0, z);
    CarriedStarts(p, t, r0);
    ShiftRepairs(p, t, r0, z, t, r0, Next(|t|, r0), 0);
  }

  lemma RepairedIsGood(p: Policy, t: seq<Entry>, r0: nat, u: seq<Entry>)
    requires GoodPolicy(p) && Distinct(p, t) && r0 < |t| && t[r0].key != 0 && Repaired(p, t, r0, u)
    ensures Good(p, u)
    ensures Contents(u) == Contents(t) - {t[r0].key}
    ensures |Occupied(u)| == |Occupied(t)| - 1
    ensures NoneMovedBefore(t, u, r0)
  {
    var r: nat :| Carried(p, t, r0, u, r) && u[r].key == 0 && Occupied(u) == Occupied(t) - {r} && r in Occupied(t);
    FreeSlotIsAnchor(p, u, r);
    RemoveContents(p, t, r0, u, r);
    StaysBehind(p, t, r0, u, r);
  }

  lemma StaysBehind(p: Policy, t: seq<Entry>, r0: nat, u: seq<Entry>, r: nat)
    requires Carried(p, t, r0, u, r) && u[r].key == 0
    ensures NoneMovedBefore(t, u, r0)
  {
    forall s: nat | s < r0 && s < |u| && u[s].key != 0 ensures exists x: nat :: x < r0 && x < |t| && t[x] == u[s] {
      assert From(t, r0, s, u[s]);
    }
  }

  lemma RemoveContents(p: Policy, t: seq<Entry>, r0: nat, u: seq<Entry>, r: nat)
    requires GoodPolicy(p) && Distinct(p, t) && r0 < |t| && t[r0].key != 0
    requires Carried(p, t, r0, u, r) && u[r].key == 0
    ensures Distinct(p, u) && Contents(u) == Contents(t) - {t[r0].key}
  {
    DistinctUnique(p, t);
    DistinctUnique(p, u);
    var m := Contents(t) - {t[r0].key};
    forall s: nat | s < |u| && u[s].key != 0 ensures u[s].key in m && m[u[s].key] == u[s].data {
      var x: nat :| x < |t| && x != r0 && t[x] == u[s];
      ContentsAt(t, x);
      if x < r0 { assert t[x].key != t[r0].key; } else { assert t[r0].key != t[x].key; }
    }
    forall k | k in m ensures k in KeysOf(u) {
      var x := SlotOf(t, k);
      assert Into(u, r, t[x]);
    }
    ContentsIs(u, m);
  }

  // ---- Why the anchor is needed ----------------------------------------------------------------

  /** In a completely full table the chains alone do not make removal safe: here four keys in four
      slots all have whole chains, and removing one of them makes another unreachable. The
      operations never produce such a table, because `Good` asks for an anchor. */
  lemma ChainsAloneAreNotEnough() returns (p: Policy, t: seq<Entry>)
    ensures GoodPolicy(p) && Chain(p, t) && Distinct(p, t) && |t| == 4 && |Occupied(t)| == 4
    ensures t[0].key == 4
    ensures forall z: nat :: !Anchor(p, t, z)
    ensures var u := RemoveAt(p, t, 0);
            2 in Contents(u) && Find(p, u, 2) == Some(2) && u[2].key == 0
  {
    hide Chain, Distinct, Anchor, Find, RemoveAt, Contents;
    p := Policy((k: Ptr) => if k < WORD_LIMIT then k else 0, (a: Ptr, b: Ptr) => a == b);
    t := [Entry(4, 1), Entry(2, 1), Entry(1, 1), Entry(3, 1)];
    assert Occupied(t) == {0, 1, 2, 3};
    FourChains(p, t);
    FourHaveNoAnchor(p, t);
    RemovalLosesKey(p, t);
  }

  lemma FourChains(p: Policy, t: seq<Entry>)
    requires forall a, b :: p.same(a, b) <==> a == b
    requires t == [Entry(4, 1), Entry(2, 1), Entry(1, 1), Entry(3, 1)]
    ensures Chain(p, t) && Distinct(p, t)
  {
    hide Home;
    assert forall s: nat :: s < 4 ==> t[s].key != 0;
  }

  lemma FourHaveNoAnchor(p: Policy, t: seq<Entry>)
    requires forall k: Ptr :: k < 5 ==> p.hash(k) == k
    requires t == [Entry(4, 1), Entry(2, 1), Entry(1, 1), Entry(3, 1)]
    ensures forall z: nat :: !Anchor(p, t, z)
  {
    assert Home(p, 4, t[1].key) == 2 && Home(p, 4, t[2].key) == 1;
    forall z: nat | z < 4 ensures !Anchor(p, t, z) {
      assert OnPath(4, 2, 1, z);
      assert OnPath(4, 1, 2, 1);
    }
  }

  lemma RemovalLosesKey(p: Policy, t: seq<Entry>)
    requires forall k: Ptr :: k < 5 ==> p.hash(k) == k
    requires forall a, b :: p.same(a, b) <==> a == b
    requires t == [Entry(4, 1), Entry(2, 1), Entry(1, 1), Entry(3, 1)] && |Occupied(t)| == 4
    ensures var u := RemoveAt(p, t, 0);
            2 in Contents(u) && Find(p, u, 2) == Some(2) && u[2].key == 0
  {
    var x, y, w := Entry(2, 1), Entry(1, 1), Entry(3, 1);
    var t1 := t[0 := x];
    var t2 := t1[1 := y];
    assert ShiftFrom(p, t2, 2, 3, 2, 3) == ShiftFrom(p, t2, 2, 0, 3, 3) == t2[2 := FREE];
    assert ShiftFrom(p, t1, 1, 2, 1, 3) == ShiftFrom(p, t2, 2, 3, 2, 3);
    assert ShiftFrom(p, t, 0, 1, 0, 3) == ShiftFrom(p, t1, 1, 2, 1, 3);
    var u := RemoveAt(p, t, 0);
    assert u == [x, y, FREE, w];
    assert u[0].key == 2;
    assert FindFrom(p, u, 2, 0) == Some(2) by { assert Ahead(4, 2, 0) == 2; }
  }
}
