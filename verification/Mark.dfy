/** Reachability along the edges of a finite graph. */
module Reachability {

  ghost function Successors<T>(edges: map<T, set<T>>, s: set<T>): set<T> {
    set x, y | x in s && x in edges && y in edges[x] :: y
  }

  /** The nodes within `n` steps of the root. */
  ghost function Within<T>(edges: map<T, set<T>>, root: T, n: nat): set<T> {
    if n == 0 then {root}
    else Within(edges, root, n - 1) + Successors(edges, Within(edges, root, n - 1))
  }

  ghost predicate Reachable<T>(edges: map<T, set<T>>, root: T, x: T) {
    exists n: nat :: x in Within(edges, root, n)
  }

  ghost predicate Closed<T>(edges: map<T, set<T>>, s: set<T>) {
    forall x :: x in s && x in edges ==> edges[x] <= s
  }

  /** Following an edge from a reachable node stays among the reachable ones. */
  lemma ReachableStep<T>(edges: map<T, set<T>>, root: T, x: T, y: T)
    requires Reachable(edges, root, x) && x in edges && y in edges[x]
    ensures Reachable(edges, root, y)
  {
    var n: nat :| x in Within(edges, root, n);
    assert y in Within(edges, root, n + 1);
  }

  /** Any closed set that contains the root contains everything reachable. */
  lemma {:induction false} ReachableIsLeast<T>(edges: map<T, set<T>>, root: T, s: set<T>, n: nat)
    requires root in s && Closed(edges, s)
    ensures Within(edges, root, n) <= s
  {
    if n > 0 { ReachableIsLeast(edges, root, s, n - 1); }
  }
}

/** The mark phase: a depth-first walk over holders and the memories they share, using the colour of
    a memory as its visited flag. */
module Mark {
  import opened Reachability

  datatype Color = White | Gray | Black

  /** One slot of a memory: raw data, or a reference to a holder, which may be NULL. */
  datatype Info = Raw | Ref(target: Holder?)

  class Memory {
    var color: Color
    var keepMemory: bool
    var infos: seq<Info>

    constructor ()
      ensures color == Gray && !keepMemory && infos == []
    {
      color, keepMemory, infos := Gray, false, [];
    }
  }

  class Holder {
    /** NULL until the memory is asked for the first time. */
    var memory: Memory?
    var deallocated: bool

    constructor ()
      ensures !deallocated && memory == null
    {
      deallocated := false;
      memory := null;
    }

    /** `get_memory`: creates the memory on first use. */
    method GetMemory() returns (m: Memory)
      modifies this`memory
      ensures memory == m && (old(memory) != null ==> m == old(memory))
      ensures old(memory) == null ==> fresh(m) && m.color == Gray && m.infos == [] && !m.keepMemory
    {
      if memory == null {
        memory := new Memory();
      }
      m := memory;
    }

    /** `push(ManagedObjectHeap *)`: appends a reference and answers its index. */
    method Push(value: Holder?) returns (index: nat)
      modifies this`memory, if memory == null then {} else {memory}
      ensures memory != null && (old(memory) != null ==> memory == old(memory))
      ensures old(memory) == null ==> fresh(memory)
      ensures var before := if old(memory) == null then [] else old(memory.infos);
              index == |before| && memory.infos == before + [Ref(value)]
      ensures old(memory) != null ==> memory.color == old(memory.color) && memory.keepMemory == old(memory.keepMemory)
    {
      var m := GetMemory();
      index := |m.infos|;
      m.infos := m.infos + [Ref(value)];
    }
  }

  // ---- States as values -----------------------------------------------------------------------

  /** Every holder with its memory and flag, every memory with its parts. */
  datatype State = State(memory: map<Holder, Memory?>, dead: map<Holder, bool>,
                         infos: map<Memory, seq<Info>>, color: map<Memory, Color>, keep: map<Memory, bool>)

  ghost function Memories(heap: set<Holder>): set<Memory>
    reads heap
  {
    set h | h in heap && h.memory != null :: h.memory
  }

  ghost function Observe(heap: set<Holder>): State
    reads heap, Memories(heap)
  {
    State(map h | h in heap :: h.memory, map h | h in heap :: h.deallocated,
          map m | m in Memories(heap) :: m.infos, map m | m in Memories(heap) :: m.color,
          map m | m in Memories(heap) :: m.keepMemory)
  }

  predicate SlotWithin(info: Info, s: set<Holder>) {
    info.Ref? && info.target != null ==> info.target in s
  }

  ghost predicate SlotsWithin(infos: seq<Info>, s: set<Holder>) {
    forall i :: 0 <= i < |infos| ==> SlotWithin(infos[i], s)
  }

  /** The maps fit together, and no reference leads out of the heap. */
  ghost predicate Whole(c: State) {
    && c.dead.Keys == c.memory.Keys
    && c.infos.Keys == c.color.Keys == c.keep.Keys
    && (forall h :: h in c.memory && c.memory[h] != null ==> c.memory[h] in c.infos)
    && (forall m :: m in c.infos ==> SlotsWithin(c.infos[m], c.memory.Keys))
  }

  /** The colour that a holder gives its memory. */
  function Shade(c: State, h: Holder): (r: Color)
    requires h in c.dead
    ensures r == White <==> c.dead[h]
    ensures r == Black <==> !c.dead[h]
  {
    if c.dead[h] then White else Black
  }

  /** The memory of `h` has been marked. */
  ghost predicate Visited(c: State, h: Holder) {
    && h in c.memory
    && c.memory[h] != null && c.memory[h] in c.color && c.memory[h] in c.keep
    && c.color[c.memory[h]] != Gray && !c.keep[c.memory[h]]
  }

  ghost predicate SlotVisited(c: State, info: Info) {
    info.Ref? && info.target != null ==> Visited(c, info.target)
  }

  ghost predicate SlotsVisited(c: State, infos: seq<Info>, n: nat) {
    forall i :: 0 <= i < n && i < |infos| ==> SlotVisited(c, infos[i])
  }

  /** Following references out of gray memories of the region's holders stays in the region. */
  ghost predicate Enclosed(s: State, region: set<Holder>)
    requires Whole(s)
  {
    && region <= s.memory.Keys
    && forall h :: h in region && s.memory[h] != null && s.color[s.memory[h]] == Gray ==>
          SlotsWithin(s.infos[s.memory[h]], region)
  }

  /** Some holder of the region shares this memory. */
  ghost predicate HeldBy(s: State, region: set<Holder>, m: Memory) {
    exists g :: g in region && g in s.memory && s.memory[g] == m
  }

  /** Some holder of the region shares this memory and would give it this colour. */
  ghost predicate ShadedBy(s: State, region: set<Holder>, m: Memory, color: Color) {
    exists g :: g in region && g in s.memory && g in s.dead && s.memory[g] == m && color == Shade(s, g)
  }

  /** A memory that existed before marking: only its colour and flag may have changed, the colour only
      from gray to the shade of some holder in the region. */
  ghost predicate Touched(s: State, c: State, region: set<Holder>, m: Memory)
    requires m in s.infos && Whole(s) && Whole(c)
  {
    && m in c.infos && c.infos[m] == s.infos[m]
    && (c.color[m] == s.color[m] || (s.color[m] == Gray && ShadedBy(s, region, m, c.color[m])))
    && (c.keep[m] == s.keep[m] || (!c.keep[m] && HeldBy(s, region, m)))
  }

  /** What marking may have done to a holder: made it a memory of its own shade, or nothing. */
  ghost predicate Made(s: State, c: State, region: set<Holder>, h: Holder)
    requires h in s.memory && Whole(s) && Whole(c)
  {
    && h in c.memory && c.dead[h] == s.dead[h]
    && (s.memory[h] != null ==> c.memory[h] == s.memory[h])
    && (s.memory[h] == null && c.memory[h] != null ==>
          h in region && c.memory[h] !in s.infos && c.infos[c.memory[h]] == [] && c.color[c.memory[h]] == Shade(s, h))
  }

  /** The memories this walk has coloured are done, except those whose references are still being followed. */
  ghost predicate Completed(s: State, c: State, pending: set<Memory>, m: Memory)
    requires m in s.infos && m in c.infos && Whole(s) && Whole(c)
  {
    s.color[m] == Gray && c.color[m] != Gray ==>
      !c.keep[m] && (m !in pending ==> SlotsVisited(c, c.infos[m], |c.infos[m]|))
  }

  /** The invariant of the walk that started in state `s` and has reached `c`. */
  ghost predicate Marking(s: State, c: State, region: set<Holder>, pending: set<Memory>) {
    && Whole(s) && Whole(c)
    && c.memory.Keys == s.memory.Keys
    && (forall h :: h in s.memory ==> Made(s, c, region, h))
    && (forall m :: m in s.infos ==> Touched(s, c, region, m))
    && (forall m :: m in s.infos ==> Completed(s, c, pending, m))
    && (forall m :: m in c.infos && m !in s.infos ==> c.infos[m] == [] && c.color[m] != Gray && !c.keep[m])
  }

  // ---- One step of the walk ---------------------------------------------------------------------

  /** The holder with its memory, which is `m`, made if it had none. */
  function WithMemory(c: State, h: Holder, m: Memory): State
    requires h in c.memory
  {
    if c.memory[h] != null then c
    else State(c.memory[h := m], c.dead, c.infos[m := []], c.color[m := Gray], c.keep[m := false])
  }

  /** The part of `mark` before its loop. */
  function Painted(c: State, h: Holder, m: Memory): State
    requires h in c.memory && h in c.dead
  {
    var c1 := WithMemory(c, h, m);
    var c2 := c1.(keep := c1.keep[m := false]);
    if m in c2.color && c2.color[m] == Gray then c2.(color := c2.color[m := Shade(c, h)]) else c2
  }

  /** Whatever was visited stays visited, and memories stay where they are. */
  ghost predicate Later(c: State, c': State) {
    && (forall x :: x in c.memory && Visited(c, x) ==> Visited(c', x))
    && (forall x :: x in c.memory && c.memory[x] != null ==> x in c'.memory && c'.memory[x] == c.memory[x])
    && Unmade(c') <= Unmade(c)
    && (Unmade(c') == Unmade(c) ==> GrayOf(c') <= GrayOf(c))
  }

  ghost function Unmade(c: State): set<Holder> {
    set h | h in c.memory && c.memory[h] == null
  }

  ghost function GrayOf(c: State): set<Memory> {
    set m | m in c.color && c.color[m] == Gray
  }

  lemma LaterTransitive(a: State, b: State, c: State)
    requires Later(a, b) && Later(b, c)
    ensures Later(a, c)
  {
  }

  /** What the walk holds after painting the memory `m` of `h`, which is pending if it was gray. */
  ghost predicate PaintDone(s: State, c: State, region: set<Holder>, pending: set<Memory>, h: Holder, m: Memory)
    requires h in c.memory && h in c.dead
  {
    var c' := Painted(c, h, m);
    var gray := c.memory[h] == null || (m in c.color && c.color[m] == Gray);
    && Marking(s, c', region, if gray then pending + {m} else pending)
    && Visited(c', h) && Later(c, c')
    && (gray && Unmade(c') == Unmade(c) ==> GrayOf(c') < GrayOf(c))
  }

  lemma PaintKeepsOld(s: State, c: State, region: set<Holder>, pending: set<Memory>, h: Holder)
    requires Marking(s, c, region, pending) && h in region && h in s.memory && c.memory[h] != null
    ensures PaintDone(s, c, region, pending, h, c.memory[h])
  {
    hide SlotsWithin, Touched, Completed, Made, Painted, Visited, Unmade, GrayOf;
    PaintKeepsVisits(c, h);
    PaintKeepsSlots(s, c, Painted(c, h, c.memory[h]), region, pending, h);
    PaintTouches(s, c, region, pending, h);
    PaintShape(s, c, region, pending, h);
    PaintAdvances(c, h);
  }

  /** Painting a memory undoes no visit, and visits its holder. */
  lemma PaintKeepsVisits(c: State, h: Holder)
    requires Whole(c) && h in c.memory && c.memory[h] != null
    ensures forall x :: x in c.memory && Visited(c, x) ==> Visited(Painted(c, h, c.memory[h]), x)
    ensures Visited(Painted(c, h, c.memory[h]), h)
  {
    hide SlotsWithin;
  }

  /** Painting moves no memory and leaves those made by the walk done. */
  lemma PaintShape(s: State, c: State, region: set<Holder>, pending: set<Memory>, h: Holder)
    requires Marking(s, c, region, pending) && h in s.memory && c.memory[h] != null
    ensures var c' := Painted(c, h, c.memory[h]);
            && c'.memory == c.memory
            && (forall n :: n in c'.infos && n !in s.infos ==>
                  n in c'.color && n in c'.keep && c'.infos[n] == [] && c'.color[n] != Gray && !c'.keep[n])
  {
    hide Made, Touched, Completed, SlotsWithin;
  }

  lemma PaintAdvances(c: State, h: Holder)
    requires Whole(c) && h in c.memory && c.memory[h] != null
    ensures var m, c' := c.memory[h], Painted(c, h, c.memory[h]);
            && Unmade(c') == Unmade(c) && GrayOf(c') <= GrayOf(c)
            && (c.color[m] == Gray ==> GrayOf(c') < GrayOf(c))
  {
    var m, c' := c.memory[h], Painted(c, h, c.memory[h]);
    if c.color[m] == Gray { assert m in GrayOf(c) && m !in GrayOf(c'); }
  }

  lemma PaintTouches(s: State, c: State, region: set<Holder>, pending: set<Memory>, h: Holder)
    requires Marking(s, c, region, pending) && h in region && h in s.memory && c.memory[h] != null
    ensures Whole(Painted(c, h, c.memory[h]))
    ensures forall n :: n in s.infos ==> Touched(s, Painted(c, h, c.memory[h]), region, n)
    ensures forall x :: x in s.memory ==> Made(s, Painted(c, h, c.memory[h]), region, x)
  {
    hide SlotsWithin, HeldBy, ShadedBy, Visited;
    PaintIsWhole(c, h);
    forall n | n in s.infos ensures Touched(s, Painted(c, h, c.memory[h]), region, n) {
      PaintTouchesOne(s, c, region, h, n);
    }
    forall x | x in s.memory ensures Made(s, Painted(c, h, c.memory[h]), region, x) {
      PaintMakesNone(s, c, region, h, x);
    }
  }

  lemma PaintIsWhole(c: State, h: Holder)
    requires Whole(c) && h in c.memory && c.memory[h] != null
    ensures Whole(Painted(c, h, c.memory[h]))
  {
  }

  lemma PaintTouchesOne(s: State, c: State, region: set<Holder>, h: Holder, n: Memory)
    requires Whole(s) && Whole(c) && h in c.memory && c.memory[h] != null && Whole(Painted(c, h, c.memory[h]))
    requires h in region && h in s.memory && Made(s, c, region, h) && n in s.infos && Touched(s, c, region, n)
    ensures Touched(s, Painted(c, h, c.memory[h]), region, n)
  {
    var m := c.memory[h];
    assert s.memory[h] != null ==> HeldBy(s, region, m);
    assert s.memory[h] != null ==> ShadedBy(s, region, m, Shade(s, h));
  }

  lemma PaintMakesNone(s: State, c: State, region: set<Holder>, h: Holder, x: Holder)
    requires Whole(s) && Whole(c) && h in c.memory && c.memory[h] != null && Whole(Painted(c, h, c.memory[h]))
    requires x in s.memory && Made(s, c, region, x)
    requires c.memory[h] in s.infos || c.color[c.memory[h]] != Gray
    ensures Made(s, Painted(c, h, c.memory[h]), region, x)
  {
  }

  lemma PaintKeepsSlots(s: State, c: State, c': State, region: set<Holder>, pending: set<Memory>, h: Holder)
    requires Marking(s, c, region, pending) && h in region && h in s.memory && c.memory[h] != null
    requires c' == Painted(c, h, c.memory[h])
    requires forall x :: x in c.memory && Visited(c, x) ==> Visited(c', x)
    ensures Whole(c')
    ensures forall n :: n in s.infos ==>
              n in c'.infos && Completed(s, c', if c.color[c.memory[h]] == Gray then pending + {c.memory[h]} else pending, n)
  {
    hide SlotsWithin, Completed, Visited, Made, Painted, HeldBy, ShadedBy;
    PaintTouches(s, c, region, pending, h);
    forall n | n in s.infos
      ensures n in c'.infos && Completed(s, c', if c.color[c.memory[h]] == Gray then pending + {c.memory[h]} else pending, n)
    {
      assert Touched(s, c, region, n) && Completed(s, c, pending, n);
      PaintKeepsSlotsOf(s, c, c', region, pending, h, n);
    }
  }

  lemma PaintKeepsSlotsOf(s: State, c: State, c': State, region: set<Holder>, pending: set<Memory>, h: Holder, n: Memory)
    requires Whole(s) && Whole(c) && Whole(c') && h in c.memory && c.memory[h] != null && c' == Painted(c, h, c.memory[h])
    requires n in s.infos && Touched(s, c, region, n) && Completed(s, c, pending, n)
    requires forall x :: x in c.memory && Visited(c, x) ==> Visited(c', x)
    ensures n in c'.infos && Completed(s, c', if c.color[c.memory[h]] == Gray then pending + {c.memory[h]} else pending, n)
  {
  }

  /** A holder without a memory gets one, of its own shade. */
  lemma PaintKeepsNew(s: State, c: State, region: set<Holder>, pending: set<Memory>, h: Holder, m: Memory)
    requires Marking(s, c, region, pending) && h in region && h in s.memory && c.memory[h] == null && m !in c.infos
    ensures PaintDone(s, c, region, pending, h, m)
  {
    FreshIsNew(s, c, region, pending, m);
    hide Made, Completed, SlotsWithin, HeldBy, ShadedBy, Visited, Later, Touched, Painted, Unmade, GrayOf;
    NewKeepsVisits(s, c, region, pending, h, m);
    NewIsWhole(c, h, m);
    NewTouchesNothing(s, c, region, pending, h, m);
    NewIsLater(c, h, m);
  }

  lemma FreshIsNew(s: State, c: State, region: set<Holder>, pending: set<Memory>, m: Memory)
    requires Marking(s, c, region, pending) && m !in c.infos
    ensures m !in s.infos
  {
    assert m in s.infos ==> Touched(s, c, region, m);
  }

  lemma NewIsLater(c: State, h: Holder, m: Memory)
    requires Whole(c) && h in c.memory && c.memory[h] == null && m !in c.infos
    requires forall x :: x in c.memory && Visited(c, x) ==> Visited(Painted(c, h, m), x)
    ensures Later(c, Painted(c, h, m)) && Unmade(Painted(c, h, m)) != Unmade(c)
  {
    assert h in Unmade(c) && h !in Unmade(Painted(c, h, m));
  }

  lemma NewKeepsVisits(s: State, c: State, region: set<Holder>, pending: set<Memory>, h: Holder, m: Memory)
    requires Whole(c) && h in c.memory && c.memory[h] == null && m !in c.infos
    ensures forall x :: x in c.memory && Visited(c, x) ==> Visited(Painted(c, h, m), x)
    ensures Visited(Painted(c, h, m), h)
  {
  }

  lemma NewIsWhole(c: State, h: Holder, m: Memory)
    requires Whole(c) && h in c.memory && c.memory[h] == null && m !in c.infos
    ensures Whole(Painted(c, h, m))
  {
  }

  lemma NewTouchesNothing(s: State, c: State, region: set<Holder>, pending: set<Memory>, h: Holder, m: Memory)
    requires Marking(s, c, region, pending) && h in region && h in s.memory && c.memory[h] == null
    requires m !in c.infos && m !in s.infos && Whole(Painted(c, h, m))
    requires forall x :: x in c.memory && Visited(c, x) ==> Visited(Painted(c, h, m), x)
    ensures Marking(s, Painted(c, h, m), region, pending + {m})
  {
    hide Visited, SlotsWithin, Made, Completed, HeldBy, ShadedBy;
    hide Painted;
    NewShape(s, c, region, pending, h, m);
    NewLeavesAll(s, c, region, pending, h, m);
    NewMakesAll(s, c, region, pending, h, m);
  }

  lemma NewShape(s: State, c: State, region: set<Holder>, pending: set<Memory>, h: Holder, m: Memory)
    requires Marking(s, c, region, pending) && h in s.memory && c.memory[h] == null && m !in c.infos
    ensures var c' := Painted(c, h, m);
            && c'.memory.Keys == s.memory.Keys
            && (forall n :: n in c'.infos && n !in s.infos ==>
                  n in c'.color && n in c'.keep && c'.infos[n] == [] && c'.color[n] != Gray && !c'.keep[n])
  {
    hide Made, Touched, Completed, SlotsWithin;
  }

  lemma NewLeavesAll(s: State, c: State, region: set<Holder>, pending: set<Memory>, h: Holder, m: Memory)
    requires Marking(s, c, region, pending) && h in s.memory && c.memory[h] == null
    requires m !in c.infos && m !in s.infos && Whole(Painted(c, h, m))
    requires forall x :: x in c.memory && Visited(c, x) ==> Visited(Painted(c, h, m), x)
    ensures forall n :: n in s.infos ==> Touched(s, Painted(c, h, m), region, n) && Completed(s, Painted(c, h, m), pending + {m}, n)
  {
    hide Painted, Visited, SlotsWithin, Made, Completed, HeldBy, ShadedBy;
    forall n | n in s.infos ensures Touched(s, Painted(c, h, m), region, n) && Completed(s, Painted(c, h, m), pending + {m}, n) {
      NewLeaves(s, c, region, pending, h, m, n);
    }
  }

  lemma NewMakesAll(s: State, c: State, region: set<Holder>, pending: set<Memory>, h: Holder, m: Memory)
    requires Marking(s, c, region, pending) && h in region && h in s.memory && c.memory[h] == null
    requires m !in c.infos && m !in s.infos && Whole(Painted(c, h, m))
    ensures forall x :: x in s.memory ==> Made(s, Painted(c, h, m), region, x)
  {
    hide Painted, Visited, SlotsWithin, Made, Completed, HeldBy, ShadedBy, Touched;
    forall x | x in s.memory ensures Made(s, Painted(c, h, m), region, x) {
      NewMakes(s, c, region, h, m, x);
    }
  }

  lemma NewMakes(s: State, c: State, region: set<Holder>, h: Holder, m: Memory, x: Holder)
    requires Whole(s) && Whole(c) && h in c.memory && c.memory[h] == null && m !in c.infos && Whole(Painted(c, h, m))
    requires h in region && h in s.memory && m !in s.infos && x in s.memory && Made(s, c, region, x) && Made(s, c, region, h)
    ensures Made(s, Painted(c, h, m), region, x)
  {
  }

  lemma NewLeaves(s: State, c: State, region: set<Holder>, pending: set<Memory>, h: Holder, m: Memory, n: Memory)
    requires Whole(s) && Whole(c) && h in c.memory && c.memory[h] == null && m !in c.infos && Whole(Painted(c, h, m))
    requires n in s.infos && Touched(s, c, region, n) && Completed(s, c, pending, n)
    requires forall x :: x in c.memory && Visited(c, x) ==> Visited(Painted(c, h, m), x)
    ensures Touched(s, Painted(c, h, m), region, n) && Completed(s, Painted(c, h, m), pending + {m}, n)
  {
  }

  /** The references of a gray memory of the region lead into the region. */
  lemma GraySlotsStayInside(s: State, c: State, region: set<Holder>, pending: set<Memory>, h: Holder)
    requires Marking(s, c, region, pending) && Enclosed(s, region) && h in region
    requires c.memory[h] != null && c.color[c.memory[h]] == Gray
    ensures SlotsWithin(c.infos[c.memory[h]], region)
  {
    assert Made(s, c, region, h);
    if s.memory[h] != null {
      assert Touched(s, c, region, s.memory[h]);
    }
  }

  lemma SlotsStayVisited(c: State, c': State, infos: seq<Info>, n: nat)
    requires Later(c, c') && SlotsVisited(c, infos, n)
    ensures SlotsVisited(c', infos, n)
  {
    forall i | 0 <= i < n && i < |infos| ensures SlotVisited(c', infos[i]) {
      assert SlotVisited(c, infos[i]);
    }
  }

  /** Once all its references are visited a memory is no longer pending. */
  lemma PendingDone(s: State, c: State, region: set<Holder>, pending: set<Memory>, m: Memory)
    requires Marking(s, c, region, pending + {m}) && m in c.infos && SlotsVisited(c, c.infos[m], |c.infos[m]|)
    ensures Marking(s, c, region, pending)
  {
    forall n | n in s.infos ensures Completed(s, c, pending, n) {
      assert Completed(s, c, pending + {m}, n);
    }
  }

  // ---- The order of the walk ---------------------------------------------------------------------

  /** The memories that these holders had before the walk. */
  ghost function Held(s: State, order: seq<Holder>): set<Memory> {
    set g | g in order && g in s.memory && s.memory[g] != null :: s.memory[g]
  }

  /** The holders on which marking `h` calls `mark`, in the order of the calls, when the memories in `done`
      have been seen already: depth first, a memory's references being followed when it is first seen. */
  ghost function Order(s: State, h: Holder, done: set<Memory>): seq<Holder>
    requires Whole(s) && h in s.memory
    decreases GrayOf(s) - done, 0
  {
    [h] +
    if s.memory[h] == null || s.color[s.memory[h]] != Gray || s.memory[h] in done then []
    else OrderSlots(s, s.infos[s.memory[h]], 0, done + {s.memory[h]})
  }

  ghost function OrderSlots(s: State, infos: seq<Info>, i: nat, done: set<Memory>): seq<Holder>
    requires Whole(s) && i <= |infos| && SlotsWithin(infos, s.memory.Keys)
    decreases GrayOf(s) - done, |infos| - i
  {
    if i == |infos| then []
    else
      assert SlotWithin(infos[i], s.memory.Keys);
      if infos[i].Ref? && infos[i].target != null then
        var first := Order(s, infos[i].target, done);
        first + OrderSlots(s, infos, i + 1, done + Held(s, first))
      else OrderSlots(s, infos, i + 1, done)
  }

  /** The first of these holders that had this memory, or NULL. */
  ghost function FirstOf(s: State, order: seq<Holder>, m: Memory): (g: Holder?)
    ensures g != null ==> g in order && g in s.memory && s.memory[g] == m
    ensures g == null <==> m !in Held(s, order)
  {
    if order == [] then null
    else if order[0] in s.memory && s.memory[order[0]] == m then order[0]
    else FirstOf(s, order[1..], m)
  }

  /** The colour of a memory after `mark` has been called on these holders: a gray one gets the shade of the
      first that holds it. */
  ghost function ColorAfter(s: State, order: seq<Holder>, m: Memory): Color
    requires Whole(s) && m in s.infos
  {
    var g := FirstOf(s, order, m);
    if s.color[m] == Gray && g != null then Shade(s, g) else s.color[m]
  }

  ghost predicate Colored(s: State, c: State, order: seq<Holder>)
    requires Whole(s)
  {
    forall m :: m in s.infos ==> m in c.color && c.color[m] == ColorAfter(s, order, m)
  }

  lemma {:induction false} FirstOfAppend(s: State, a: seq<Holder>, b: seq<Holder>, m: Memory)
    ensures FirstOf(s, a + b, m) == if FirstOf(s, a, m) != null then FirstOf(s, a, m) else FirstOf(s, b, m)
  {
    if a == [] {
      assert a + b == b;
    } else {
      assert (a + b)[1..] == a[1..] + b;
      FirstOfAppend(s, a[1..], b, m);
    }
  }

  lemma HeldAppend(s: State, a: seq<Holder>, b: seq<Holder>)
    ensures Held(s, a + b) == Held(s, a) + Held(s, b)
  {
  }

  /** Painting colours the next holder's memory as the order says. */
  lemma PaintColors(s: State, c: State, region: set<Holder>, pending: set<Memory>, before: seq<Holder>, h: Holder, m: Memory)
    requires Marking(s, c, region, pending) && Colored(s, c, before)
    requires h in s.memory && h in c.memory && h in c.dead && c.dead[h] == s.dead[h]
    requires if c.memory[h] == null then m !in c.infos else m == c.memory[h]
    ensures Colored(s, Painted(c, h, m), before + [h])
  {
    hide Marking, Visited, SlotsWithin;
    OriginalMemory(s, c, region, pending, h);
    forall n | n in s.infos ensures n in Painted(c, h, m).color && Painted(c, h, m).color[n] == ColorAfter(s, before + [h], n) {
      assert c.color[n] == ColorAfter(s, before, n);
      FirstOfAppend(s, before, [h], n);
      PaintColorsOne(s, c, before, h, m, n);
    }
  }

  /** What marking has left of the memory of a holder. */
  lemma OriginalMemory(s: State, c: State, region: set<Holder>, pending: set<Memory>, h: Holder)
    requires Marking(s, c, region, pending) && h in s.memory
    ensures h in c.memory && Whole(s) && Whole(c) && s.infos.Keys <= c.infos.Keys
    ensures h in s.dead && h in c.dead && c.dead[h] == s.dead[h]
    ensures s.memory[h] != null ==> c.memory[h] == s.memory[h] && c.infos[s.memory[h]] == s.infos[s.memory[h]]
    ensures s.memory[h] == null && c.memory[h] != null ==> c.memory[h] !in s.infos && c.color[c.memory[h]] != Gray
  {
    assert Made(s, c, region, h);
    forall n | n in s.infos ensures n in c.infos && c.infos[n] == s.infos[n] {
      assert Touched(s, c, region, n);
    }
  }

  lemma PaintColorsOne(s: State, c: State, before: seq<Holder>, h: Holder, m: Memory, n: Memory)
    requires Whole(s) && Whole(c) && s.infos.Keys <= c.infos.Keys && h in s.memory && h in c.memory && c.dead[h] == s.dead[h]
    requires if c.memory[h] == null then m !in c.infos else m == c.memory[h]
    requires s.memory[h] != null ==> c.memory[h] == s.memory[h]
    requires s.memory[h] == null && c.memory[h] != null ==> c.memory[h] !in s.infos
    requires n in s.infos && c.color[n] == ColorAfter(s, before, n)
    requires FirstOf(s, before + [h], n) == if FirstOf(s, before, n) != null then FirstOf(s, before, n) else FirstOf(s, [h], n)
    ensures n in Painted(c, h, m).color && Painted(c, h, m).color[n] == ColorAfter(s, before + [h], n)
  {
    hide SlotsWithin;
    assert FirstOf(s, [h], n) == if s.memory[h] == n then h else null;
  }

  /** A call follows references exactly when it finds its memory gray, which is when it sees it first. */
  lemma OrderUnfolds(s: State, c: State, region: set<Holder>, pending: set<Memory>, before: seq<Holder>, h: Holder, m: Memory)
    requires Marking(s, c, region, pending) && Colored(s, c, before) && h in s.memory && h in c.memory && h in c.dead
    requires if c.memory[h] == null then m !in c.infos else m == c.memory[h]
    ensures var gray := c.memory[h] == null || (m in c.color && c.color[m] == Gray);
            var infos := if m in Painted(c, h, m).infos then Painted(c, h, m).infos[m] else [];
            && (!gray ==> Order(s, h, Held(s, before)) == [h])
            && (gray ==> SlotsWithin(infos, s.memory.Keys))
            && (gray ==> Order(s, h, Held(s, before)) == [h] + OrderSlots(s, infos, 0, Held(s, before + [h])))
  {
    hide Marking, Visited;
    OriginalMemory(s, c, region, pending, h);
    HeldAppend(s, before, [h]);
    if s.memory[h] == null {
      assert Order(s, h, Held(s, before)) == [h];
    } else {
      assert c.color[m] == ColorAfter(s, before, m);
      assert Held(s, [h]) == {m};
    }
  }

  /** One reference of a memory. */
  lemma OrderStep(s: State, infos: seq<Info>, i: nat, before: seq<Holder>, first: seq<Holder>)
    requires Whole(s) && i < |infos| && SlotsWithin(infos, s.memory.Keys)
    requires if infos[i].Ref? && infos[i].target != null
             then infos[i].target in s.memory && first == Order(s, infos[i].target, Held(s, before)) else first == []
    ensures OrderSlots(s, infos, i, Held(s, before)) == first + OrderSlots(s, infos, i + 1, Held(s, before + first))
  {
    HeldAppend(s, before, first);
    if first == [] { assert before + first == before; }
  }

  // ---- The walk --------------------------------------------------------------------------------

  /** `get_memory`, on states. */
  method EnsureMemory(h: Holder, ghost heap: set<Holder>) returns (m: Memory)
    requires h in heap
    modifies h`memory
    ensures h.memory == m && (if old(h.memory) == null then fresh(m) && m.infos == [] && m.color == Gray else m == old(h.memory))
    ensures Observe(heap) == WithMemory(old(Observe(heap)), h, m)
    ensures Memories(heap) == old(Memories(heap)) + {m}
  {
    if h.memory == null {
      m := FirstMemory(h, heap);
    } else {
      m := h.GetMemory();
      assert Observe(heap) == old(Observe(heap));
      assert m in old(Memories(heap));
    }
  }

  /** The first `get_memory` of a holder. */
  method FirstMemory(h: Holder, ghost heap: set<Holder>) returns (m: Memory)
    requires h in heap && h.memory == null
    modifies h`memory
    ensures h.memory == m && fresh(m) && m.infos == [] && m.color == Gray
    ensures Observe(heap) == WithMemory(old(Observe(heap)), h, m)
    ensures Memories(heap) == old(Memories(heap)) + {m}
  {
    ghost var c := Observe(heap);
    m := h.GetMemory();
    assert Memories(heap) == old(Memories(heap)) + {m};
    ghost var c', w := Observe(heap), WithMemory(c, h, m);
    assert c'.memory == w.memory;
    assert c'.dead == w.dead;
    assert c'.infos == w.infos;
    assert c'.color == w.color;
    assert c'.keep == w.keep;
  }

  method ClearKeep(m: Memory, ghost heap: set<Holder>)
    requires m in Memories(heap)
    modifies m`keepMemory
    ensures !m.keepMemory
    ensures Observe(heap) == old(Observe(heap)).(keep := old(Observe(heap)).keep[m := false])
  {
    ghost var c := Observe(heap);
    m.keepMemory := false;
    assert Observe(heap).keep == c.keep[m := false];
  }

  method SetColor(m: Memory, color: Color, ghost heap: set<Holder>)
    requires m in Memories(heap)
    modifies m`color
    ensures Observe(heap) == old(Observe(heap)).(color := old(Observe(heap)).color[m := color])
    ensures m.color == color
  {
    ghost var c := Observe(heap);
    m.color := color;
    assert Observe(heap).color == c.color[m := color];
  }

  /** The statements of `mark` before its loop. */
  method Paint(h: Holder, ghost heap: set<Holder>) returns (m: Memory, gray: bool)
    requires h in heap
    modifies heap, Memories(heap)
    ensures h.memory == m && (if old(h.memory) == null then fresh(m) && gray else m == old(h.memory) && gray == (old(h.memory.color) == Gray))
    ensures Observe(heap) == Painted(old(Observe(heap)), h, m)
    ensures m.infos == if old(h.memory) == null then [] else old(h.memory.infos)
    ensures gray ==> m.color == if old(h.deallocated) then White else Black
    ensures !gray ==> m.color == old(h.memory.color)
    ensures !m.keepMemory
    ensures Memories(heap) == old(Memories(heap)) + {m}
  {
    hide Observe;
    ObserveHolder(heap, h);
    m := EnsureMemory(h, heap);
    ClearKeep(m, heap);
    ObserveHolder(heap, h);
    gray := m.color == Gray;
    if !gray {
    } else if h.deallocated {
      SetColor(m, White, heap);
    } else {
      SetColor(m, Black, heap);
    }
  }

  lemma RegionInHeap(s: State, c: State, region: set<Holder>, pending: set<Memory>, h: Holder)
    requires Marking(s, c, region, pending) && Enclosed(s, region) && h in region
    ensures h in c.memory && h in c.dead && c.memory.Keys == s.memory.Keys
    ensures c.memory[h] != null && c.memory[h] in c.color && c.color[c.memory[h]] == Gray ==>
              c.memory[h] in c.infos && SlotsWithin(c.infos[c.memory[h]], region)
    ensures c.memory[h] != null ==> c.memory[h] in c.infos && c.memory[h] in c.color
  {
    if c.memory[h] != null && c.color[c.memory[h]] == Gray {
      GraySlotsStayInside(s, c, region, pending, h);
    }
  }

  lemma PaintIsRight(s: State, c: State, region: set<Holder>, pending: set<Memory>, h: Holder, m: Memory)
    requires Marking(s, c, region, pending) && h in region && h in s.memory && h in c.memory && h in c.dead
    requires if c.memory[h] == null then m !in c.infos else m == c.memory[h]
    ensures var c' := Painted(c, h, m);
            var gray := c.memory[h] == null || (m in c.color && c.color[m] == Gray);
            && Marking(s, c', region, if gray then pending + {m} else pending)
            && Visited(c', h) && Later(c, c')
            && (gray && Unmade(c') == Unmade(c) ==> GrayOf(c') < GrayOf(c))
  {
    if c.memory[h] == null {
      PaintKeepsNew(s, c, region, pending, h, m);
    } else {
      PaintKeepsOld(s, c, region, pending, h);
    }
  }

  lemma LaterReflexive(c: State)
    ensures Later(c, c)
  {
  }

  lemma NoSlotsVisited(c: State, infos: seq<Info>)
    ensures SlotsVisited(c, infos, 0)
  {
  }

  lemma Advance(c1: State, c2: State, c3: State, infos: seq<Info>, i: nat)
    requires Later(c1, c2) && Later(c2, c3) && SlotsVisited(c2, infos, i)
    requires i < |infos| && SlotVisited(c3, infos[i])
    ensures Later(c1, c3) && SlotsVisited(c3, infos, i + 1)
  {
    LaterTransitive(c1, c2, c3);
    SlotsStayVisited(c2, c3, infos, i);
  }

  lemma HolderKeeps(c1: State, c2: State, h: Holder, m: Memory)
    requires Later(c1, c2) && h in c1.memory && c1.memory[h] == m
    ensures h in c2.memory && c2.memory[h] == m
    ensures Visited(c1, h) ==> Visited(c2, h)
  {
  }

  lemma InfosKept(s: State, c: State, c': State, region: set<Holder>, pending: set<Memory>, m: Memory)
    requires Marking(s, c, region, pending) && Marking(s, c', region, pending) && m in c.infos && m in c'.infos
    ensures c'.infos[m] == c.infos[m]
  {
    assert m in s.infos ==> Touched(s, c, region, m) && Touched(s, c', region, m);
  }

  /** The painting step within a walk. `before` are the holders on which `mark` has been called already. */
  method PaintStep(h: Holder, ghost heap: set<Holder>, ghost s: State, ghost region: set<Holder>, ghost pending: set<Memory>,
                   ghost before: seq<Holder>)
    returns (m: Memory, gray: bool)
    requires Marking(s, Observe(heap), region, pending) && Enclosed(s, region) && h in region
    requires Colored(s, Observe(heap), before)
    modifies heap, Memories(heap)
    ensures h in heap && h.memory == m && h in Observe(heap).memory && Observe(heap).memory[h] == m
    ensures Marking(s, Observe(heap), region, if gray then pending + {m} else pending)
    ensures Visited(Observe(heap), h) && Later(old(Observe(heap)), Observe(heap))
    ensures gray && Unmade(Observe(heap)) == old(Unmade(Observe(heap))) ==> GrayOf(Observe(heap)) < old(GrayOf(Observe(heap)))
    ensures gray ==> SlotsWithin(m.infos, region) && SlotsWithin(m.infos, s.memory.Keys)
    ensures fresh(Memories(heap) - old(Memories(heap)))
    ensures Colored(s, Observe(heap), before + [h])
    ensures Order(s, h, Held(s, before)) == [h] + if gray then OrderSlots(s, m.infos, 0, Held(s, before + [h])) else []
  {
    hide Marking, Later, Visited, SlotsVisited, Unmade, GrayOf, Painted, Enclosed, PaintDone, SlotsWithin, Whole, Observe;
    hide Colored, Order, OrderSlots, Held;
    ghost var c := Observe(heap);
    RegionInHeap(s, c, region, pending, h);
    ObserveHolder(heap, h);
    ObserveMemories(heap);
    m, gray := Paint(h, heap);
    PaintIsRight(s, c, region, pending, h, m);
    if gray {
      GraySlots(c, h, m, region);
    }
    ObserveHolder(heap, h);
    OriginalMemory(s, c, region, pending, h);
    PaintColors(s, c, region, pending, before, h, m);
    OrderUnfolds(s, c, region, pending, before, h, m);
  }

  /** `mark`. `s` is the state before the outermost call, `region` encloses everything it can reach, and
      `pending` are the memories whose references the calls in progress are following. `before` are the
      holders on which `mark` has been called so far, and `order` those on which this call does. */
  method MarkFrom(h: Holder, ghost heap: set<Holder>, ghost s: State, ghost region: set<Holder>, ghost pending: set<Memory>,
                  ghost before: seq<Holder>)
    returns (ghost order: seq<Holder>)
    requires Marking(s, Observe(heap), region, pending) && Enclosed(s, region) && h in region
    requires Colored(s, Observe(heap), before)
    modifies heap, Memories(heap)
    ensures Marking(s, Observe(heap), region, pending)
    ensures Visited(Observe(heap), h)
    ensures Later(old(Observe(heap)), Observe(heap))
    ensures fresh(Memories(heap) - old(Memories(heap)))
    ensures order == Order(s, h, Held(s, before)) && Colored(s, Observe(heap), before + order)
    decreases Unmade(Observe(heap)), GrayOf(Observe(heap)), 0
  {
    hide Marking, Later, Visited, SlotsVisited, Unmade, GrayOf, Painted, Enclosed, PaintDone, SlotsWithin, Whole, Observe;
    hide Colored, Order, OrderSlots, Held;
    ghost var c := Observe(heap);
    var m, gray := PaintStep(h, heap, s, region, pending, before);
    ghost var c1 := Observe(heap);
    order := [h];
    if gray {
      NotLarger(c, c1);
      ghost var rest := MarkSlots(h, m, heap, s, region, pending, before + [h]);
      SlotsDone(s, c, c1, Observe(heap), region, pending, h, m);
      order := order + rest;
      assert before + order == (before + [h]) + rest;
    }
  }

  lemma SlotsDone(s: State, c: State, c1: State, c2: State, region: set<Holder>, pending: set<Memory>, h: Holder, m: Memory)
    requires Later(c, c1) && Later(c1, c2) && Visited(c1, h) && h in c1.memory && c1.memory[h] == m
    requires Marking(s, c2, region, pending + {m}) && m in c2.infos && SlotsVisited(c2, c2.infos[m], |c2.infos[m]|)
    ensures Marking(s, c2, region, pending) && Visited(c2, h) && Later(c, c2)
  {
    PendingDone(s, c2, region, pending, m);
    LaterTransitive(c, c1, c2);
  }

  /** The loop of `mark` over the slots of a memory that has just been coloured. */
  method MarkSlots(ghost h: Holder, m: Memory, ghost heap: set<Holder>, ghost s: State, ghost region: set<Holder>,
                   ghost pending: set<Memory>, ghost before: seq<Holder>)
    returns (ghost order: seq<Holder>)
    requires Marking(s, Observe(heap), region, pending + {m}) && Enclosed(s, region)
    requires h in heap && h.memory == m && SlotsWithin(m.infos, region) && SlotsWithin(m.infos, s.memory.Keys)
    requires Colored(s, Observe(heap), before)
    modifies heap, Memories(heap)
    ensures Marking(s, Observe(heap), region, pending + {m})
    ensures m in Observe(heap).infos && SlotsVisited(Observe(heap), Observe(heap).infos[m], |Observe(heap).infos[m]|)
    ensures Later(old(Observe(heap)), Observe(heap))
    ensures fresh(Memories(heap) - old(Memories(heap)))
    ensures order == OrderSlots(s, old(m.infos), 0, Held(s, before)) && Colored(s, Observe(heap), before + order)
    decreases Unmade(Observe(heap)), GrayOf(Observe(heap)), 2
  {
    hide Marking, Later, Visited, SlotsVisited, Unmade, GrayOf, Painted, Enclosed, PaintDone, SlotsWithin, Whole, Observe;
    hide Colored, Order, OrderSlots, Held;
    ghost var c1 := Observe(heap);
    ghost var infos := m.infos;
    var n := |m.infos|;
    var i := 0;
    order := [];
    assert before + order == before;
    StartIsWhole(s, c1, region, pending + {m});
    NoSlotsVisited(c1, infos);
    LaterReflexive(c1);
    ObserveHolder(heap, h);
    while i < n
      invariant i <= n == |infos| && m.infos == infos && h.memory == m
      invariant m in Observe(heap).infos && Observe(heap).infos[m] == infos
      invariant Marking(s, Observe(heap), region, pending + {m})
      invariant Later(c1, Observe(heap))
      invariant fresh(Memories(heap) - old(Memories(heap)))
      invariant SlotsVisited(Observe(heap), infos, i)
      invariant Colored(s, Observe(heap), before + order)
      invariant OrderSlots(s, infos, 0, Held(s, before)) == order + OrderSlots(s, infos, i, Held(s, before + order))
    {
      ghost var c2 := Observe(heap);
      NotLarger(c1, c2);
      ghost var first := MarkSlot(h, m, i, heap, s, region, pending, before + order, infos);
      ghost var c3 := Observe(heap);
      Advance(c1, c2, c3, infos, i);
      OrderStep(s, infos, i, before + order, first);
      OrderGrows(s, infos, i, before, order, first);
      order := order + first;
      i := i + 1;
    }
    OrderEnds(s, infos, before + order);
    assert order + [] == order;
  }

  /** One turn of the loop. */
  method MarkSlot(ghost h: Holder, m: Memory, i: nat, ghost heap: set<Holder>, ghost s: State, ghost region: set<Holder>,
                  ghost pending: set<Memory>, ghost before: seq<Holder>, ghost infos: seq<Info>)
    returns (ghost first: seq<Holder>)
    requires Marking(s, Observe(heap), region, pending + {m}) && Enclosed(s, region)
    requires h in heap && h.memory == m && m.infos == infos && i < |infos|
    requires SlotsWithin(infos, region) && SlotsWithin(infos, s.memory.Keys)
    requires Colored(s, Observe(heap), before)
    modifies heap, Memories(heap)
    ensures Marking(s, Observe(heap), region, pending + {m})
    ensures h.memory == m && m.infos == infos && m in Observe(heap).infos && Observe(heap).infos[m] == infos
    ensures Later(old(Observe(heap)), Observe(heap)) && SlotVisited(Observe(heap), infos[i])
    ensures fresh(Memories(heap) - old(Memories(heap)))
    ensures Colored(s, Observe(heap), before + first)
    ensures if infos[i].Ref? && infos[i].target != null
            then infos[i].target in s.memory && first == Order(s, infos[i].target, Held(s, before)) else first == []
    decreases Unmade(Observe(heap)), GrayOf(Observe(heap)), 1
  {
    hide Marking, Later, Visited, SlotsVisited, Unmade, GrayOf, Painted, Enclosed, PaintDone, SlotsWithin, Whole, Observe;
    hide Colored, Order, OrderSlots, Held;
    ghost var c2 := Observe(heap);
    ObserveHolder(heap, h);
    SlotInRegion(infos, i, s.memory.Keys);
    var info := m.infos[i];
    if info.Ref? && info.target != null {
      SlotInRegion(infos, i, region);
      InRegionInHeap(s, c2, region, pending + {m}, heap);
      first := MarkFrom(info.target, heap, s, region, pending + {m}, before);
    } else {
      LaterReflexive(c2);
      first := [];
      assert before + first == before;
    }
    HolderKeeps(c2, Observe(heap), h, m);
    ObserveHolder(heap, h);
    InfosKept(s, c2, Observe(heap), region, pending + {m}, m);
  }

  lemma StartIsWhole(s: State, c: State, region: set<Holder>, pending: set<Memory>)
    requires Marking(s, c, region, pending)
    ensures Whole(s)
  {
  }

  lemma OrderGrows(s: State, infos: seq<Info>, i: nat, before: seq<Holder>, order: seq<Holder>, first: seq<Holder>)
    requires Whole(s) && i < |infos| && SlotsWithin(infos, s.memory.Keys)
    requires OrderSlots(s, infos, i, Held(s, before + order)) == first + OrderSlots(s, infos, i + 1, Held(s, before + order + first))
    ensures before + order + first == before + (order + first)
    ensures order + OrderSlots(s, infos, i, Held(s, before + order))
              == (order + first) + OrderSlots(s, infos, i + 1, Held(s, before + (order + first)))
  {
    hide OrderSlots, Held;
    assert before + order + first == before + (order + first);
  }

  lemma OrderEnds(s: State, infos: seq<Info>, before: seq<Holder>)
    requires Whole(s) && SlotsWithin(infos, s.memory.Keys)
    ensures OrderSlots(s, infos, |infos|, Held(s, before)) == []
  {
  }

  lemma ObserveHolder(heap: set<Holder>, h: Holder)
    requires h in heap || h in Observe(heap).memory
    ensures h in heap && h in Observe(heap).memory && Observe(heap).memory[h] == h.memory
    ensures h in Observe(heap).dead && Observe(heap).dead[h] == h.deallocated
    ensures h.memory != null ==> h.memory in Memories(heap)
    ensures h.memory != null ==> h.memory in Observe(heap).infos && Observe(heap).infos[h.memory] == h.memory.infos
    ensures h.memory != null ==> h.memory in Observe(heap).color && Observe(heap).color[h.memory] == h.memory.color
  {
  }

  lemma ObserveMemories(heap: set<Holder>)
    ensures Observe(heap).infos.Keys == Memories(heap)
  {
  }

  lemma GraySlots(c: State, h: Holder, m: Memory, region: set<Holder>)
    requires h in c.memory && h in c.dead
    requires c.memory[h] != null ==> c.memory[h] == m && m in c.infos && SlotsWithin(c.infos[m], region)
    ensures m in Painted(c, h, m).infos && SlotsWithin(Painted(c, h, m).infos[m], region)
  {
  }

  lemma NotLarger(c1: State, c2: State)
    requires Later(c1, c2)
    ensures Unmade(c2) <= Unmade(c1)
    ensures Unmade(c2) == Unmade(c1) ==> GrayOf(c2) <= GrayOf(c1)
  {
  }

  lemma InRegionInHeap(s: State, c: State, region: set<Holder>, pending: set<Memory>, heap: set<Holder>)
    requires Marking(s, c, region, pending) && Enclosed(s, region) && c == Observe(heap)
    ensures region <= heap
  {
  }

  lemma SlotInRegion(infos: seq<Info>, i: nat, region: set<Holder>)
    requires SlotsWithin(infos, region) && i < |infos|
    ensures SlotWithin(infos[i], region)
  {
  }

  // ---- What the whole walk achieves ----------------------------------------------------------------

  ghost function Targets(infos: seq<Info>): set<Holder> {
    set i | 0 <= i < |infos| && infos[i].Ref? && infos[i].target != null :: infos[i].target
  }

  /** The edges the walk may follow: the references of memories that are gray. */
  ghost function Edges(s: State): map<Holder, set<Holder>>
    requires Whole(s)
  {
    map h | h in s.memory ::
      if s.memory[h] != null && s.color[s.memory[h]] == Gray then Targets(s.infos[s.memory[h]]) else {}
  }

  /** The holders reachable from `h` through gray memories. */
  ghost function Reached(s: State, h: Holder): set<Holder>
    requires Whole(s)
  {
    set x | x in s.memory && Reachable<Holder>(Edges(s), h, x)
  }

  lemma ReachedIsEnclosed(s: State, h: Holder)
    requires Whole(s) && h in s.memory
    ensures Enclosed(s, Reached(s, h)) && h in Reached(s, h)
  {
    var region := Reached(s, h);
    assert h in Within<Holder>(Edges(s), h, 0);
    forall x | x in region && s.memory[x] != null && s.color[s.memory[x]] == Gray
      ensures SlotsWithin(s.infos[s.memory[x]], region)
    {
      var infos := s.infos[s.memory[x]];
      forall i | 0 <= i < |infos| ensures SlotWithin(infos[i], region) {
        assert SlotsWithin(infos, s.memory.Keys) && SlotWithin(infos[i], s.memory.Keys);
        if infos[i].Ref? && infos[i].target != null {
          ReachedGrows(s, h, x, infos[i].target, i);
        }
      }
    }
  }

  lemma ReachedGrows(s: State, h: Holder, x: Holder, y: Holder, i: nat)
    requires Whole(s) && x in Reached(s, h) && y in s.memory
    requires s.memory[x] != null && s.color[s.memory[x]] == Gray
    requires i < |s.infos[s.memory[x]]| && s.infos[s.memory[x]][i] == Ref(y)
    ensures y in Reached(s, h)
  {
    var edges := Edges(s);
    assert Reachable<Holder>(edges, h, x);
    assert y in Targets(s.infos[s.memory[x]]);
    assert y in edges[x];
    ReachableStep<Holder>(edges, h, x, y);
  }

  // ---- The order is a way to compute reachability --------------------------------------------------

  lemma {:induction false} OrderInside(s: State, region: set<Holder>, h: Holder, done: set<Memory>)
    requires Whole(s) && Enclosed(s, region) && h in region
    ensures forall x :: x in Order(s, h, done) ==> x in region
    decreases GrayOf(s) - done, 0
  {
    var m := s.memory[h];
    if m != null && s.color[m] == Gray && m !in done {
      OrderSlotsInside(s, region, s.infos[m], 0, done + {m});
    }
  }

  lemma {:induction false} OrderSlotsInside(s: State, region: set<Holder>, infos: seq<Info>, i: nat, done: set<Memory>)
    requires Whole(s) && Enclosed(s, region) && i <= |infos| && SlotsWithin(infos, region) && SlotsWithin(infos, s.memory.Keys)
    ensures forall x :: x in OrderSlots(s, infos, i, done) ==> x in region
    decreases GrayOf(s) - done, |infos| - i
  {
    if i < |infos| {
      assert SlotWithin(infos[i], s.memory.Keys) && SlotWithin(infos[i], region);
      if infos[i].Ref? && infos[i].target != null {
        OrderInside(s, region, infos[i].target, done);
        OrderSlotsInside(s, region, infos, i + 1, done + Held(s, Order(s, infos[i].target, done)));
      } else {
        OrderSlotsInside(s, region, infos, i + 1, done);
      }
    }
  }

  /** The references of this memory are all among these holders. */
  ghost predicate Followed(s: State, m: Memory, order: seq<Holder>)
    requires m in s.infos
  {
    forall y :: y in Targets(s.infos[m]) ==> y in order
  }

  /** Every gray memory first seen in the course of a call has its references followed in it. */
  lemma {:induction false} OrderFollows(s: State, h: Holder, done: set<Memory>)
    requires Whole(s) && h in s.memory
    ensures forall n :: n in Held(s, Order(s, h, done)) && n in s.infos && s.color[n] == Gray && n !in done ==>
              Followed(s, n, Order(s, h, done))
    decreases GrayOf(s) - done, 0
  {
    var m, order := s.memory[h], Order(s, h, done);
    if m != null && s.color[m] == Gray && m !in done {
      var rest := OrderSlots(s, s.infos[m], 0, done + {m});
      OrderSlotsFollow(s, s.infos[m], 0, done + {m});
      HeldAppend(s, [h], rest);
      assert Followed(s, m, order);
    }
  }

  lemma {:induction false} OrderSlotsFollow(s: State, infos: seq<Info>, i: nat, done: set<Memory>)
    requires Whole(s) && i <= |infos| && SlotsWithin(infos, s.memory.Keys)
    ensures var order := OrderSlots(s, infos, i, done);
            && (forall n :: n in Held(s, order) && n in s.infos && s.color[n] == Gray && n !in done ==> Followed(s, n, order))
            && (forall j :: i <= j < |infos| && infos[j].Ref? && infos[j].target != null ==> infos[j].target in order)
    decreases GrayOf(s) - done, |infos| - i
  {
    if i < |infos| {
      assert SlotWithin(infos[i], s.memory.Keys);
      if infos[i].Ref? && infos[i].target != null {
        var first := Order(s, infos[i].target, done);
        OrderFollows(s, infos[i].target, done);
        OrderSlotsFollow(s, infos, i + 1, done + Held(s, first));
        HeldAppend(s, first, OrderSlots(s, infos, i + 1, done + Held(s, first)));
        assert first[0] == infos[i].target;
      } else {
        OrderSlotsFollow(s, infos, i + 1, done);
      }
    }
  }

  /** The holders that a walk from `h` calls `mark` on are exactly those reachable through gray memories. */
  lemma OrderIsReached(s: State, h: Holder)
    requires Whole(s) && h in s.memory
    ensures forall x :: x in Order(s, h, {}) <==> x in Reached(s, h)
  {
    var order := Order(s, h, {});
    ReachedIsEnclosed(s, h);
    OrderInside(s, Reached(s, h), h, {});
    OrderFollows(s, h, {});
    var seen := set x | x in order;
    forall x | x in seen && x in Edges(s) ensures Edges(s)[x] <= seen {
      if Edges(s)[x] != {} { assert s.memory[x] in Held(s, order); }
    }
    forall x | x in Reached(s, h) ensures x in order {
      var n: nat :| x in Within<Holder>(Edges(s), h, n);
      ReachableIsLeast<Holder>(Edges(s), h, seen, n);
    }
  }

  /** Every holder reached has been visited. */
  lemma ReachedIsVisited(s: State, c: State, region: set<Holder>, h: Holder)
    requires Marking(s, c, region, {}) && Visited(c, h)
    ensures forall x :: x in Reached(s, h) ==> Visited(c, x)
  {
    var seen := set x | x in s.memory && Visited(c, x);
    forall x | x in seen && x in Edges(s) ensures Edges(s)[x] <= seen {
      VisitedIsClosed(s, c, region, x);
    }
    forall x | x in Reached(s, h) ensures Visited(c, x) {
      var n: nat :| x in Within<Holder>(Edges(s), h, n);
      ReachableIsLeast<Holder>(Edges(s), h, seen, n);
    }
  }

  lemma VisitedIsClosed(s: State, c: State, region: set<Holder>, x: Holder)
    requires Marking(s, c, region, {}) && x in s.memory && Visited(c, x)
    ensures forall y :: y in Edges(s)[x] ==> y in s.memory && Visited(c, y)
  {
    var m := s.memory[x];
    if m != null && s.color[m] == Gray {
      assert Made(s, c, region, x) && Touched(s, c, region, m) && Completed(s, c, {}, m);
      forall y | y in Edges(s)[x] ensures y in s.memory && Visited(c, y) {
        var i :| 0 <= i < |s.infos[m]| && s.infos[m][i] == Ref(y);
        assert SlotVisited(c, c.infos[m][i]);
      }
    }
  }

  /** The memories coloured are exactly the gray ones of the reached holders, each in the shade of a
      reached holder of its own; the flag is cleared on exactly the memories of reached holders; the
      memories made are exactly those of reached holders that had none; nothing else changes. */
  ghost predicate MarkedExactly(s: State, c: State, reached: set<Holder>)
    requires Whole(s) && Whole(c)
  {
    && c.memory.Keys == s.memory.Keys && c.dead == s.dead
    && (forall m :: m in s.infos ==> MemoryMarked(s, c, reached, m))
    && (forall h :: h in s.memory ==> HolderMarked(s, c, reached, h))
  }

  ghost predicate MemoryMarked(s: State, c: State, reached: set<Holder>, m: Memory)
    requires Whole(s) && Whole(c) && m in s.infos
  {
    && m in c.infos && c.infos[m] == s.infos[m]
    && (if s.color[m] == Gray && HeldBy(s, reached, m)
        then c.color[m] != Gray && ShadedBy(s, reached, m, c.color[m])
        else c.color[m] == s.color[m])
    && c.keep[m] == (s.keep[m] && !HeldBy(s, reached, m))
  }

  ghost predicate HolderMarked(s: State, c: State, reached: set<Holder>, h: Holder)
    requires Whole(s) && Whole(c) && h in s.memory
  {
    && h in c.memory
    && (s.memory[h] != null ==> c.memory[h] == s.memory[h])
    && (s.memory[h] == null ==> (c.memory[h] != null <==> h in reached))
    && (s.memory[h] == null && h in reached ==> c.memory[h] !in s.infos && c.color[c.memory[h]] == Shade(s, h))
  }

  lemma MarkingIsExact(s: State, c: State, h: Holder)
    requires Whole(s) && Marking(s, c, Reached(s, h), {}) && Visited(c, h)
    ensures MarkedExactly(s, c, Reached(s, h))
  {
    var reached := Reached(s, h);
    ReachedIsVisited(s, c, reached, h);
    forall m | m in s.infos ensures MemoryMarked(s, c, reached, m) {
      MemoryIsMarked(s, c, reached, m);
    }
    forall x | x in s.memory ensures HolderMarked(s, c, reached, x) && c.dead[x] == s.dead[x] {
      assert Made(s, c, reached, x);
      if x in reached { assert Visited(c, x); }
    }
  }

  lemma MemoryIsMarked(s: State, c: State, reached: set<Holder>, m: Memory)
    requires Marking(s, c, reached, {}) && m in s.infos
    requires forall x :: x in reached ==> Visited(c, x)
    ensures MemoryMarked(s, c, reached, m)
  {
    assert Touched(s, c, reached, m);
    if HeldBy(s, reached, m) {
      var g :| g in reached && g in s.memory && s.memory[g] == m;
      assert Made(s, c, reached, g);
    }
    ShadedIsHeld(s, reached, m, c.color[m]);
  }

  lemma ShadedIsHeld(s: State, region: set<Holder>, m: Memory, color: Color)
    ensures ShadedBy(s, region, m, color) ==> HeldBy(s, region, m)
  {
  }

  /** What the colours mean: a gray memory that ends black is held by a reached holder that is alive, one that
      ends white by a reached holder that is deallocated, and no other colours have changed. */
  ghost predicate ColorsAreHonest(s: State, c: State, reached: set<Holder>)
    requires Whole(s)
  {
    forall m :: m in s.infos ==> m in c.color && ColorIsHonest(s, c, reached, m)
  }

  ghost predicate ColorIsHonest(s: State, c: State, reached: set<Holder>, m: Memory)
    requires Whole(s) && m in s.infos && m in c.color
  {
    && (s.color[m] == Gray && c.color[m] == Black ==> exists g :: g in reached && g in s.memory && s.memory[g] == m && !s.dead[g])
    && (s.color[m] == Gray && c.color[m] == White ==> exists g :: g in reached && g in s.memory && s.memory[g] == m && s.dead[g])
    && (s.color[m] == Gray && HeldBy(s, reached, m) ==> c.color[m] != Gray)
    && (s.color[m] != Gray || !HeldBy(s, reached, m) ==> c.color[m] == s.color[m])
  }

  /** Of the holders that share a gray memory, the first that the walk comes to decides: deallocated means white,
      alive means black. */
  ghost predicate FirstHolderDecides(s: State, c: State, order: seq<Holder>)
    requires Whole(s)
  {
    forall m :: m in s.infos && m in c.color && s.color[m] == Gray && FirstOf(s, order, m) != null ==>
      c.color[m] == if s.dead[FirstOf(s, order, m)] then White else Black
  }

  lemma ColorsMean(s: State, c: State, reached: set<Holder>, order: seq<Holder>)
    requires Whole(s) && Whole(c) && MarkedExactly(s, c, reached) && Colored(s, c, order)
    ensures ColorsAreHonest(s, c, reached) && FirstHolderDecides(s, c, order)
  {
    forall m | m in s.infos ensures m in c.color && ColorIsHonest(s, c, reached, m) {
      assert MemoryMarked(s, c, reached, m);
    }
  }

  /** The root decides over its own gray memory, and over the one it is given if it had none. */
  lemma RootDecides(s: State, c: State, h: Holder)
    requires Whole(s) && Whole(c) && h in s.memory
    requires MarkedExactly(s, c, Reached(s, h)) && Colored(s, c, Order(s, h, {}))
    ensures h in c.memory && c.memory[h] != null
    ensures s.memory[h] == null || s.color[s.memory[h]] == Gray ==>
              c.color[c.memory[h]] == if s.dead[h] then White else Black
  {
    hide Reached, OrderSlots;
    ReachedIsEnclosed(s, h);
    assert HolderMarked(s, c, Reached(s, h), h);
    if s.memory[h] != null {
      assert Order(s, h, {})[0] == h;
      assert c.color[s.memory[h]] == ColorAfter(s, Order(s, h, {}), s.memory[h]);
    }
  }

  /** The walk goes depth first and in the order of the references: after the root the next call is for its first
      reference. */
  lemma FirstReferenceFirst(s: State, h: Holder, i: nat)
    requires Whole(s) && h in s.memory && s.memory[h] != null && s.color[s.memory[h]] == Gray
    requires i < |s.infos[s.memory[h]]| && s.infos[s.memory[h]][i].Ref? && s.infos[s.memory[h]][i].target != null
    requires forall j :: 0 <= j < i ==> s.infos[s.memory[h]][j].Raw? || s.infos[s.memory[h]][j].target == null
    ensures var order := Order(s, h, {}); |order| >= 2 && order[0] == h && order[1] == s.infos[s.memory[h]][i].target
  {
    FirstSlotFirst(s, s.infos[s.memory[h]], 0, i, {s.memory[h]});
    assert {} + {s.memory[h]} == {s.memory[h]};
  }

  lemma {:induction false} FirstSlotFirst(s: State, infos: seq<Info>, j: nat, i: nat, done: set<Memory>)
    requires Whole(s) && SlotsWithin(infos, s.memory.Keys) && j <= i < |infos|
    requires infos[i].Ref? && infos[i].target != null
    requires forall n :: j <= n < i ==> infos[n].Raw? || infos[n].target == null
    ensures var order := OrderSlots(s, infos, j, done); order != [] && order[0] == infos[i].target
    decreases i - j
  {
    if j < i {
      FirstSlotFirst(s, infos, j + 1, i, done);
    } else {
      assert SlotWithin(infos[i], s.memory.Keys);
      assert Order(s, infos[i].target, done)[0] == infos[i].target;
    }
  }

  /** What the walk does for one reference it does before it turns to the next, with everything found so far
      counting as seen. */
  lemma SlotsInOrder(s: State, infos: seq<Info>, i: nat, done: set<Memory>)
    requires Whole(s) && SlotsWithin(infos, s.memory.Keys) && i < |infos|
    ensures SlotWithin(infos[i], s.memory.Keys)
    ensures infos[i].Ref? && infos[i].target != null ==>
              Order(s, infos[i].target, done) <= OrderSlots(s, infos, i, done)
  {
    assert SlotWithin(infos[i], s.memory.Keys);
  }

  /** `mark` on the root of a collection: it ends on every graph, however cyclic or shared, and marks
      exactly what is reachable through gray memories. A memory that several of the holders share gets the
      shade of the one that the depth-first order meets first. */
  method MarkRoot(h: Holder, ghost heap: set<Holder>)
    requires h in heap && Whole(Observe(heap))
    modifies heap, Memories(heap)
    ensures Whole(Observe(heap))
    ensures MarkedExactly(old(Observe(heap)), Observe(heap), Reached(old(Observe(heap)), h))
    ensures Colored(old(Observe(heap)), Observe(heap), Order(old(Observe(heap)), h, {}))
    ensures ColorsAreHonest(old(Observe(heap)), Observe(heap), Reached(old(Observe(heap)), h))
    ensures FirstHolderDecides(old(Observe(heap)), Observe(heap), Order(old(Observe(heap)), h, {}))
    ensures h.memory != null
    ensures old(h.memory) == null || old(h.memory.color) == Gray ==>
              h.memory.color == if old(h.deallocated) then White else Black
    ensures fresh(Memories(heap) - old(Memories(heap)))
  {
    hide Observe, Marking, MarkedExactly, Enclosed, Reached, Visited, Colored, Order, OrderSlots;
    hide ColorsAreHonest, FirstHolderDecides;
    ghost var s := Observe(heap);
    ObserveHolder(heap, h);
    ReachedIsEnclosed(s, h);
    MarkingStarts(s, Reached(s, h));
    ghost var order := MarkFrom(h, heap, s, Reached(s, h), {}, []);
    assert [] + order == order;
    MarkingIsWhole(s, Observe(heap), Reached(s, h));
    MarkingIsExact(s, Observe(heap), h);
    ColorsMean(s, Observe(heap), Reached(s, h), order);
    RootDecides(s, Observe(heap), h);
    ObserveHolder(heap, h);
  }

  lemma MarkingStarts(s: State, region: set<Holder>)
    requires Whole(s)
    ensures Marking(s, s, region, {})
    ensures Colored(s, s, []) && Held(s, []) == {}
  {
  }

  lemma MarkingIsWhole(s: State, c: State, region: set<Holder>)
    requires Marking(s, c, region, {})
    ensures Whole(c)
  {
  }
}
