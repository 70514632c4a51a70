/** The runtime's allocator and its mark-and-sweep collector, over one arena. */
module Collecting {
  import opened Prelude
  import opened Heap

  /** A context's stack holds values and frame markers; a frame has its local variables. */
  datatype StackValue = Value(v: Slot) | FrameAt(locals: seq<Slot>)

  /** The values that a stack entry holds. */
  function StackSlots(v: StackValue): seq<Slot>
  {
    match v
    case Value(x) => [x]
    case FrameAt(locals) => locals
  }

  function StackRows(stack: seq<StackValue>): seq<seq<Slot>>
  {
    if stack == [] then [] else StackRows(stack[..|stack| - 1]) + [StackSlots(stack[|stack| - 1])]
  }

  function ContextRows(contexts: seq<seq<StackValue>>): seq<seq<Slot>>
  {
    if contexts == [] then [] else ContextRows(contexts[..|contexts| - 1]) + StackRows(contexts[|contexts| - 1])
  }

  /** The rows of values that the collector starts from: static fields, stacks and the local variables of frames. */
  function RootRows(statics: seq<seq<Slot>>, contexts: seq<seq<StackValue>>): seq<seq<Slot>>
  {
    statics + ContextRows(contexts)
  }

  /** A stack entry holds a value: its own, or one of its frame's local variables. */
  predicate EntryHolds(e: StackValue, v: Slot)
  {
    match e
    case Value(x) => x == v
    case FrameAt(locals) => v in locals
  }

  predicate StackHolds(stack: seq<StackValue>, v: Slot)
  {
    exists s :: 0 <= s < |stack| && EntryHolds(stack[s], v)
  }

  predicate RowsHold(rows: seq<seq<Slot>>, v: Slot)
  {
    exists i :: 0 <= i < |rows| && v in rows[i]
  }

  lemma RowsJoined(a: seq<seq<Slot>>, b: seq<seq<Slot>>, v: Slot)
    ensures RowsHold(a + b, v) <==> RowsHold(a, v) || RowsHold(b, v)
  {
    var c := a + b;
    forall i | 0 <= i < |a| && v in a[i] ensures RowsHold(c, v) {
      assert v in c[i];
    }
    forall i | 0 <= i < |b| && v in b[i] ensures RowsHold(c, v) {
      assert v in c[|a| + i];
    }
  }

  lemma RowsOfOne(row: seq<Slot>, v: Slot)
    ensures RowsHold([row], v) <==> v in row
  {
    assert [row][0] == row;
  }

  lemma {:induction false} StackRowsIff(stack: seq<StackValue>, v: Slot)
    ensures RowsHold(StackRows(stack), v) <==> StackHolds(stack, v)
    decreases |stack|
  {
    hide RowsHold;
    if stack == [] {
      NoRows(v);
    } else {
      var n := |stack| - 1;
      var less := stack[..n];
      StackRowsIff(less, v);
      RowsJoined(StackRows(less), [StackSlots(stack[n])], v);
      RowsOfOne(StackSlots(stack[n]), v);
      assert EntryHolds(stack[n], v) <==> v in StackSlots(stack[n]);
      assert forall s :: 0 <= s < n ==> less[s] == stack[s];
    }
  }

  lemma NoRows(v: Slot)
    ensures !RowsHold([], v)
  {
  }

  lemma {:induction false} ContextRowsIff(contexts: seq<seq<StackValue>>, v: Slot)
    ensures RowsHold(ContextRows(contexts), v) <==> exists k :: 0 <= k < |contexts| && StackHolds(contexts[k], v)
    decreases |contexts|
  {
    hide RowsHold, StackHolds;
    if contexts == [] {
      NoRows(v);
    } else {
      var n := |contexts| - 1;
      var less := contexts[..n];
      ContextRowsIff(less, v);
      StackRowsIff(contexts[n], v);
      RowsJoined(ContextRows(less), StackRows(contexts[n]), v);
      assert forall k :: 0 <= k < n ==> less[k] == contexts[k];
    }
  }

  /** A root: a value of a static field, a value on a stack, or a local variable of a stacked frame. */
  predicate IsRoot(statics: seq<seq<Slot>>, contexts: seq<seq<StackValue>>, v: Slot)
  {
    RowsHold(statics, v) || exists k :: 0 <= k < |contexts| && StackHolds(contexts[k], v)
  }

  lemma RootsIff(statics: seq<seq<Slot>>, contexts: seq<seq<StackValue>>, v: Slot)
    ensures RowsHold(RootRows(statics, contexts), v) <==> IsRoot(statics, contexts, v)
  {
    hide RowsHold, StackHolds;
    ContextRowsIff(contexts, v);
    RowsJoined(statics, ContextRows(contexts), v);
  }

  ghost predicate RootsOk(b: Blocks, lo: nat, hi: nat, rows: seq<seq<Slot>>)
  {
    forall row, v :: row in rows && v in row && InArena(v, lo, hi) ==> Live(b, v.address)
  }

  predicate RootsRanked(lo: nat, hi: nat, rows: seq<seq<Slot>>, rank: map<nat, nat>, top: nat)
  {
    (forall h :: h in rank ==> rank[h] < top) &&
    forall row, v :: row in rows && v in row && InArena(v, lo, hi) ==> v.address in rank
  }

  /** No root leads to a cycle. */
  ghost predicate RootsTame(b: Blocks, lo: nat, hi: nat, rows: seq<seq<Slot>>)
  {
    forall row, v :: row in rows && v in row && InArena(v, lo, hi) ==> NoCycle(b, lo, hi, v.address)
  }

  lemma AcyclicRoots(b: Blocks, lo: nat, hi: nat, rows: seq<seq<Slot>>)
    requires Acyclic(b, lo, hi) && RootsOk(b, lo, hi, rows)
    ensures RootsTame(b, lo, hi, rows)
  {
  }

  lemma TameRanked(b: Blocks, lo: nat, hi: nat, rows: seq<seq<Slot>>) returns (rank: map<nat, nat>, top: nat)
    requires ObjectsOk(b, lo, hi) && RootsOk(b, lo, hi, rows) && RootsTame(b, lo, hi, rows)
    ensures Ranks(b, lo, hi, rank) && RootsRanked(lo, hi, rows, rank, top)
  {
    hide NoCycle, ObjectsOk;
    DepthsRank(b, lo, hi);
    rank, top := Depths(b, lo, hi), |b| + 1;
  }

  /** Every arena pointer among these leads to an object that can be marked. */
  ghost predicate SlotsOk(b: Blocks, lo: nat, hi: nat, slots: seq<Slot>, rank: map<nat, nat>, top: nat)
  {
    forall v :: v in slots && InArena(v, lo, hi) ==> Live(b, v.address) && v.address in rank && rank[v.address] < top
  }

  ghost predicate ReachedFrom(b: Blocks, lo: nat, hi: nat, slots: seq<Slot>, h: nat)
  {
    exists v :: v in slots && InArena(v, lo, hi) && Reaches(b, lo, hi, v.address, h)
  }

  /** The blocks with a mark put on the reached objects; an external mark stays. */
  ghost predicate MarksAre(b: Blocks, c: Blocks, mark: nat, reached: iset<nat>)
  {
    SameObjects(b, c) &&
    forall h :: h in b ==> c[h].mark == if h in reached && b[h].mark != EXTERNAL then mark else b[h].mark
  }

  // ----- marking keeps what the collector relies on -----

  lemma MarkedObjectsOk(b: Blocks, c: Blocks, lo: nat, hi: nat, mark: nat, reached: iset<nat>)
    requires ObjectsOk(b, lo, hi) && MarksAre(b, c, mark, reached) && mark != EXTERNAL
    ensures ObjectsOk(c, lo, hi)
  {
    forall h | h in c ensures ObjectOk(c, lo, hi, h) {
      assert ObjectOk(b, lo, hi, h);
      forall k | Child(c, lo, hi, h, k) ensures Live(c, k) && c[h].mark != EXTERNAL {
        assert Child(b, lo, hi, h, k);
      }
    }
  }

  lemma MarkedRanks(b: Blocks, c: Blocks, lo: nat, hi: nat, rank: map<nat, nat>)
    requires Ranks(b, lo, hi, rank) && SameObjects(b, c)
    ensures Ranks(c, lo, hi, rank)
  {
    forall h, k | h in rank && Child(c, lo, hi, h, k) ensures k in rank && rank[k] < rank[h] {
      assert Child(b, lo, hi, h, k);
    }
  }

  lemma MarkedTiled(b: Blocks, c: Blocks, lo: nat, hi: nat)
    requires Tiled(b, lo, hi) && SameObjects(b, c)
    ensures Tiled(c, lo, hi)
    ensures UsageFrom(b, lo, hi, lo) == UsageFrom(c, lo, hi, lo)
    ensures forall free :: FreeListOk(b, free) ==> FreeListOk(c, free)
  {
    forall k: nat ensures Placed(c, lo, hi, k) {
      assert Placed(b, lo, hi, k);
    }
    forall j: nat, k: nat ensures Apart(c, j, k) {
      assert Apart(b, j, k);
    }
    UsageSame(b, c, lo, hi, lo);
  }

  /** Marking twice marks what either marking reaches. */
  lemma MarksCompose(b: Blocks, c: Blocks, d: Blocks, mark: nat, r1: iset<nat>, r2: iset<nat>)
    requires MarksAre(b, c, mark, r1) && MarksAre(c, d, mark, r2) && mark != EXTERNAL
    ensures MarksAre(b, d, mark, r1 + r2)
  {
  }

  ghost function Reached(b: Blocks, lo: nat, hi: nat, slots: seq<Slot>): iset<nat>
  {
    iset h | ReachedFrom(b, lo, hi, slots, h)
  }

  lemma ReachedSame(b: Blocks, c: Blocks, lo: nat, hi: nat, slots: seq<Slot>)
    requires SameObjects(b, c)
    ensures Reached(b, lo, hi, slots) == Reached(c, lo, hi, slots)
  {
    forall h: nat ensures ReachedFrom(b, lo, hi, slots, h) == ReachedFrom(c, lo, hi, slots, h) {
      forall v: Slot | v.Pointer? ensures Reaches(b, lo, hi, v.address, h) == Reaches(c, lo, hi, v.address, h) {
        SamePaths(b, c, lo, hi, v.address, h);
      }
    }
  }

  lemma ReachedNext(b: Blocks, lo: nat, hi: nat, slots: seq<Slot>, i: nat)
    requires i < |slots|
    ensures Reached(b, lo, hi, slots[..i + 1]) == Reached(b, lo, hi, slots[..i]) + Reached(b, lo, hi, [slots[i]])
  {
    assert slots[..i + 1] == slots[..i] + [slots[i]];
    forall h: nat
      ensures ReachedFrom(b, lo, hi, slots[..i + 1], h) <==>
        ReachedFrom(b, lo, hi, slots[..i], h) || ReachedFrom(b, lo, hi, [slots[i]], h)
    {
    }
  }

  /** One pointer reaches what its object reaches; anything else reaches nothing. */
  lemma ReachedOne(b: Blocks, lo: nat, hi: nat, v: Slot)
    ensures InArena(v, lo, hi) ==> Reached(b, lo, hi, [v]) == iset h | Reaches(b, lo, hi, v.address, h)
    ensures !InArena(v, lo, hi) ==> Reached(b, lo, hi, [v]) == iset{}
  {
    assert forall w :: w in [v] ==> w == v;
    if InArena(v, lo, hi) {
      assert v in [v];
      forall h: nat ensures ReachedFrom(b, lo, hi, [v], h) <==> Reaches(b, lo, hi, v.address, h) {
      }
    }
  }

  /** An object reaches itself and what its values reach. */
  lemma ReachedByValues(b: Blocks, lo: nat, hi: nat, o: nat)
    requires Live(b, o)
    ensures (iset h | Reaches(b, lo, hi, o, h)) == iset{o} + Reached(b, lo, hi, b[o].values)
  {
    forall h: nat ensures Reaches(b, lo, hi, o, h) <==> h == o || ReachedFrom(b, lo, hi, b[o].values, h) {
      ReachesByChild(b, lo, hi, o, h);
      if k :| Child(b, lo, hi, o, k) && Reaches(b, lo, hi, k, h) {
        assert InArena(Pointer(k), lo, hi);
      }
      if ReachedFrom(b, lo, hi, b[o].values, h) {
        var v :| v in b[o].values && InArena(v, lo, hi) && Reaches(b, lo, hi, v.address, h);
        assert Child(b, lo, hi, o, v.address);
      }
    }
  }

  ghost predicate ReachedFromRows(b: Blocks, lo: nat, hi: nat, rows: seq<seq<Slot>>, h: nat)
  {
    exists row :: row in rows && ReachedFrom(b, lo, hi, row, h)
  }

  /** What some row of values reaches. */
  ghost function RowsReached(b: Blocks, lo: nat, hi: nat, rows: seq<seq<Slot>>): iset<nat>
  {
    iset h | ReachedFromRows(b, lo, hi, rows, h)
  }

  /** What is reached from the roots, value by value. */
  lemma ReachedIff(b: Blocks, lo: nat, hi: nat, statics: seq<seq<Slot>>, contexts: seq<seq<StackValue>>, h: nat)
    ensures h in RowsReached(b, lo, hi, RootRows(statics, contexts)) <==>
      exists v :: IsRoot(statics, contexts, v) && InArena(v, lo, hi) && Reaches(b, lo, hi, v.address, h)
  {
    hide RootRows, IsRoot, Reaches;
    var rows := RootRows(statics, contexts);
    if h in RowsReached(b, lo, hi, rows) {
      var row :| row in rows && ReachedFrom(b, lo, hi, row, h);
      var v :| v in row && InArena(v, lo, hi) && Reaches(b, lo, hi, v.address, h);
      var i :| 0 <= i < |rows| && rows[i] == row;
      assert RowsHold(rows, v);
      RootsIff(statics, contexts, v);
      assert IsRoot(statics, contexts, v);
    }
    if v :| IsRoot(statics, contexts, v) && InArena(v, lo, hi) && Reaches(b, lo, hi, v.address, h) {
      RootsIff(statics, contexts, v);
      var i :| 0 <= i < |rows| && v in rows[i];
      assert ReachedFrom(b, lo, hi, rows[i], h);
    }
  }

  lemma RowsReachedNext(b: Blocks, lo: nat, hi: nat, rows: seq<seq<Slot>>, row: seq<Slot>)
    ensures RowsReached(b, lo, hi, rows + [row]) == RowsReached(b, lo, hi, rows) + Reached(b, lo, hi, row)
    ensures RowsReached(b, lo, hi, []) == iset{}
  {
    assert forall r :: r in rows + [row] <==> r in rows || r == row;
    forall h: nat
      ensures ReachedFromRows(b, lo, hi, rows + [row], h) <==>
        ReachedFromRows(b, lo, hi, rows, h) || ReachedFrom(b, lo, hi, row, h)
    {
    }
  }

  lemma RowOk(b: Blocks, c: Blocks, lo: nat, hi: nat, rows: seq<seq<Slot>>, row: seq<Slot>, rank: map<nat, nat>,
              top: nat)
    requires RootsOk(b, lo, hi, rows) && row in rows && SameObjects(b, c) && RootsRanked(lo, hi, rows, rank, top)
    ensures SlotsOk(c, lo, hi, row, rank, top)
  {
  }

  lemma {:induction false} StackRowsAt(stack: seq<StackValue>, i: nat)
    requires i < |stack|
    ensures StackSlots(stack[i]) in StackRows(stack)
  {
    if i < |stack| - 1 {
      StackRowsAt(stack[..|stack| - 1], i);
    }
  }

  lemma {:induction false} ContextRowsAt(contexts: seq<seq<StackValue>>, k: nat, row: seq<Slot>)
    requires k < |contexts| && row in StackRows(contexts[k])
    ensures row in ContextRows(contexts)
  {
    if k < |contexts| - 1 {
      ContextRowsAt(contexts[..|contexts| - 1], k, row);
    }
  }

  // ----- what a collection does -----

  /** No object carries the mark yet. */
  ghost predicate Fresh(b: Blocks, mark: nat)
  {
    forall h :: Live(b, h) ==> b[h].mark != mark
  }

  /** Every mark is external, or not younger than this. */
  ghost predicate Dated(b: Blocks, clock: nat)
  {
    forall h :: Live(b, h) ==> b[h].mark == EXTERNAL || b[h].mark <= clock
  }

  function Stamped(x: Block, mark: nat): Block
  {
    if x.mark == EXTERNAL then x else x.(mark := mark)
  }

  /**
   The reached and the external objects are what is left, their contents untouched, with the new mark unless they
   are external; the space of every other object is free.
   */
  ghost predicate Collected(b: Blocks, c: Blocks, mark: nat, reached: iset<nat>)
  {
    && (forall h :: Live(c, h) <==> Live(b, h) && (h in reached || b[h].mark == EXTERNAL))
    && (forall h :: Live(c, h) ==> c[h] == Stamped(b[h], mark))
    && (forall h :: Live(b, h) && !Live(c, h) ==> InFree(c, h, b[h].size))
  }

  /** Marking and sweeping leave the reached and the external objects. */
  lemma SweptCollected(b: Blocks, m: Blocks, s: Blocks, lo: nat, hi: nat, mark: nat, reached: iset<nat>)
    requires Tiled(b, lo, hi) && MarksAre(b, m, mark, reached) && SweptTo(m, s, mark, hi) && Fresh(b, mark) && mark != EXTERNAL
    ensures Collected(b, s, mark, reached)
  {
    forall h | h in b ensures h < hi {
      assert Placed(b, lo, hi, h);
    }
    forall h: nat | Live(b, h) && !Live(s, h) ensures InFree(s, h, b[h].size) {
      assert End(s, h) == h + b[h].size;
    }
  }

  /** What is left still points only at what is left. */
  lemma CollectedOk(b: Blocks, c: Blocks, lo: nat, hi: nat, mark: nat, rows: seq<seq<Slot>>)
    requires ObjectsOk(b, lo, hi) && RootsOk(b, lo, hi, rows) && mark != EXTERNAL
    requires Collected(b, c, mark, RowsReached(b, lo, hi, rows))
    ensures ObjectsOk(c, lo, hi) && RootsOk(c, lo, hi, rows)
  {
    forall h | h in c ensures ObjectOk(c, lo, hi, h) {
      assert Live(c, h) ==> ObjectOk(b, lo, hi, h);
      forall k | Child(c, lo, hi, h, k) ensures Live(c, k) && c[h].mark != EXTERNAL {
        assert Child(b, lo, hi, h, k);
        ReachedChild(b, lo, hi, rows, h, k);
      }
    }
    forall row, v | row in rows && v in row && InArena(v, lo, hi) ensures Live(c, v.address) {
      ReachesSelf(b, lo, hi, v.address);
    }
  }

  lemma ReachedChild(b: Blocks, lo: nat, hi: nat, rows: seq<seq<Slot>>, h: nat, k: nat)
    requires h in RowsReached(b, lo, hi, rows) && Child(b, lo, hi, h, k)
    ensures k in RowsReached(b, lo, hi, rows)
  {
    var row :| row in rows && ReachedFrom(b, lo, hi, row, h);
    var v :| v in row && InArena(v, lo, hi) && Reaches(b, lo, hi, v.address, h);
    var p :| Path(b, lo, hi, p) && p[0] == v.address && p[|p| - 1] == h;
    var q := p + [k];
    assert forall i :: 0 <= i < |q| - 1 ==> Child(b, lo, hi, q[i], q[i + 1]);
    assert Path(b, lo, hi, q);
    assert Reaches(b, lo, hi, v.address, k);
  }

  lemma RearrangedCollected(b: Blocks, s: Blocks, c: Blocks, mark: nat, reached: iset<nat>)
    requires Collected(b, s, mark, reached) && Rearranged(s, c)
    ensures Collected(b, c, mark, reached)
  {
  }

  /** After a collection no mark is younger than its own, and no object leads to a cycle that did not before. */
  lemma CollectedLater(b: Blocks, c: Blocks, lo: nat, hi: nat, mark: nat, reached: iset<nat>)
    requires Collected(b, c, mark, reached)
    ensures Dated(c, mark) && forall h :: Live(c, h) && NoCycle(b, lo, hi, h) ==> NoCycle(c, lo, hi, h)
  {
    hide NoCycle;
    forall h | Live(c, h) && NoCycle(b, lo, hi, h) ensures NoCycle(c, lo, hi, h) {
      FewerCycles(b, c, lo, hi, h);
    }
  }

  lemma DatedIsFresh(b: Blocks, clock: nat, now: nat)
    requires Dated(b, clock) && clock < now < EXTERNAL
    ensures Fresh(b, now) && Dated(b, now)
  {
  }

  lemma RearrangedOk(s: Blocks, c: Blocks, lo: nat, hi: nat, rows: seq<seq<Slot>>)
    requires ObjectsOk(s, lo, hi) && RootsOk(s, lo, hi, rows) && Rearranged(s, c)
    ensures ObjectsOk(c, lo, hi) && RootsOk(c, lo, hi, rows)
  {
    forall h | h in c ensures ObjectOk(c, lo, hi, h) {
      assert Live(c, h) ==> ObjectOk(s, lo, hi, h);
      forall k | Child(c, lo, hi, h, k) ensures Live(c, k) && c[h].mark != EXTERNAL {
        assert Child(s, lo, hi, h, k);
      }
    }
  }

  // ----- sweeping, sorting and coalescing -----

  /** Not marked, and not held from outside. */
  predicate Doomed(x: Block, mark: nat)
  {
    x.clazz.Some? && x.mark != mark && x.mark != EXTERNAL
  }

  /** A block after the sweep has passed it. */
  function Swept(x: Block, mark: nat): Block
  {
    if Doomed(x, mark) then x.(clazz := None, mark := EXTERNAL) else x
  }

  /** The blocks while the sweep is at pos. */
  ghost predicate SweptTo(b: Blocks, c: Blocks, mark: nat, pos: nat)
  {
    b.Keys == c.Keys && forall h :: h in b ==> c[h] == if h < pos then Swept(b[h], mark) else b[h]
  }

  /** Every byte of this stretch is in one free block. */
  ghost predicate InFree(b: Blocks, h: nat, size: nat)
  {
    exists f :: f in b && b[f].clazz.None? && f <= h && h + size <= End(b, f)
  }

  /** The same live objects, untouched, and no byte that was free is lost. */
  ghost predicate Rearranged(b: Blocks, c: Blocks)
  {
    (forall h :: Live(b, h) || Live(c, h) ==> h in b && h in c && b[h] == c[h]) &&
    (forall h: nat, size: nat :: InFree(b, h, size) ==> InFree(c, h, size))
  }

  class Runtime {
    const start: nat
    const end: nat
    var blocks: Blocks
    var freeList: seq<nat>
    var statics: seq<seq<Slot>>
    var contexts: seq<seq<StackValue>>
    var newObjects: int
    var newBytes: int
    var currentObjects: int
    var currentBytes: int
    var collectedObjects: int
    var gcEnabled: bool
    var gcLastAlloc: int
    /** The time of the last collection or allocation. */
    ghost var clock: nat

    /** What holds between any two operations. */
    ghost predicate Valid()
      reads this
    {
      && Dated(blocks, clock) && clock < EXTERNAL
      && 0 < start && Tiled(blocks, start, end) && FreeListOk(blocks, freeList)
      && ObjectsOk(blocks, start, end) && RootsOk(blocks, start, end, RootRows(statics, contexts))
      && currentObjects == UsageFrom(blocks, start, end, start).objects
      && currentBytes == UsageFrom(blocks, start, end, start).bytes
      && newObjects == currentObjects + collectedObjects
    }

    /** The arena starts as one free block. */
    constructor (start: nat, size: nat)
      requires start > 0 && size > 0
      ensures Valid() && this.start == start && end == start + size
      ensures blocks == map[start := Block(None, size, 0, [])] && freeList == [start]
      ensures gcEnabled && statics == [] && contexts == [] && newObjects == collectedObjects == 0 && clock == 0
    {
      this.start, end := start, start + size;
      blocks, freeList := map[start := Block(None, size, 0, [])], [start];
      statics, contexts := [], [];
      newObjects, newBytes, currentObjects, currentBytes, collectedObjects, gcLastAlloc := 0, 0, 0, 0, 0, 0;
      gcEnabled := true;
      clock := 0;
      new;
      OneBlock(this.start, end, blocks);
    }

    // ----- allocation -----

    /**
     A new object of a class; a collection comes first when three quarters of the arena are in use. None: there
     is no free block large enough, and the process ends. c and free are the blocks and the free list in between.
     */
    method AllocateObject(clazz: nat, fields: nat, extraValues: nat, now: nat)
      returns (obj: Option<nat>, ghost c: Blocks, ghost free: seq<nat>)
      requires Valid() && clock < now < EXTERNAL && RootsTame(blocks, start, end, RootRows(statics, contexts))
      modifies this
      ensures Valid() && clock == now && gcEnabled == old(gcEnabled) && statics == old(statics) && contexts == old(contexts)
      ensures obj.Some? ==> NewIn(old(blocks), blocks, obj.value, clazz, HEADER + (fields + extraValues) * VALUE)
      ensures Survive(old(blocks), blocks, RowsReached(old(blocks), start, end, RootRows(statics, contexts)))
      ensures if old(currentBytes) >= (end - start) / 4 * 3 && gcEnabled
        then Collected(old(blocks), c, now, RowsReached(old(blocks), start, end, RootRows(statics, contexts)))
        else c == old(blocks) && free == old(freeList) && collectedObjects == old(collectedObjects)
      ensures obj.Some? <==> exists h :: h in c && c[h].clazz.None? && c[h].size >= HEADER + (fields + extraValues) * VALUE
      ensures FreeListOk(c, free) && if obj.None? then blocks == c && freeList == free
        else PlacedIn(c, free, blocks, freeList, obj.value, clazz, HEADER + (fields + extraValues) * VALUE)
      ensures newObjects == old(newObjects) + if obj.Some? then 1 else 0
    {
      hide Dated, RootsTame, RowsReached, Collected, ObjectsOk, RootsOk, Tiled, UsageFrom, FreeListOk, Placement, PlacedIn,
           NewIn, Survive, RootRows, AsBefore;
      ghost var b, reached := blocks, RowsReached(blocks, start, end, RootRows(statics, contexts));
      CollectWhenFull(now);
      c, free := blocks, freeList;
      SurvivorsStay(b, c, now, reached);
      var enabled := gcEnabled;
      gcEnabled := false;
      var objSize := HEADER + (fields + extraValues) * VALUE;
      obj := Place(clazz, objSize);
      gcEnabled := enabled;
      if obj.Some? {
        PlacedPlacement(c, free, blocks, freeList, obj.value, clazz, objSize);
        PlacementNew(b, c, free, blocks, obj.value, clazz, objSize);
        SurvivorsRemain(b, c, blocks, reached);
      }
      DatedUntil(blocks, clock, now);
      clock := now;
    }

    /** Collect if three quarters of the arena are in use. */
    method CollectWhenFull(now: nat)
      requires Valid() && clock < now < EXTERNAL && RootsTame(blocks, start, end, RootRows(statics, contexts))
      modifies this`blocks, this`freeList, this`currentObjects, this`currentBytes, this`collectedObjects,
               this`gcLastAlloc, this`clock
      ensures Valid() && clock <= now
      ensures if old(currentBytes) >= (end - start) / 4 * 3 && gcEnabled
        then Collected(old(blocks), blocks, now, RowsReached(old(blocks), start, end, RootRows(statics, contexts)))
        else blocks == old(blocks) && freeList == old(freeList) && collectedObjects == old(collectedObjects)
    {
      hide Dated, RootsTame, RowsReached, Collected, ObjectsOk, RootsOk, Tiled, UsageFrom, FreeListOk, RootRows;
      var total := end - start;
      if currentBytes >= (total / 4) * 3 && gcEnabled {
        Gc(true, now);
      }
    }

    /** The first free block that is large enough; what is left of it becomes free again, unless it is too small. */
    method Place(clazz: nat, objSize: nat) returns (obj: Option<nat>)
      requires Valid() && objSize >= HEADER
      modifies this`blocks, this`freeList, this`newObjects, this`newBytes, this`currentObjects, this`currentBytes
      ensures Valid()
      ensures FreeListOk(old(blocks), old(freeList))
      ensures obj.Some? <==> exists h :: h in old(blocks) && old(blocks)[h].clazz.None? && old(blocks)[h].size >= objSize
      ensures if obj.None? then blocks == old(blocks) && freeList == old(freeList)
        else PlacedIn(old(blocks), old(freeList), blocks, freeList, obj.value, clazz, objSize)
      ensures newObjects == old(newObjects) + if obj.Some? then 1 else 0
      ensures obj.Some? ==> obj.value in blocks && objSize <= blocks[obj.value].size <= objSize + HEADER
      ensures forall h :: h in blocks && h !in old(blocks) ==> blocks[h].clazz.None? && blocks[h].size > HEADER
      ensures newBytes - old(newBytes) == if obj.Some? && obj.value in blocks then blocks[obj.value].size else 0
    {
      hide PlacedIn, ObjectsOk, RootsOk, UsageFrom, RootRows, Tiled, NewObject, Placement, Dated, FreeListOk;
      var i := FirstFit(objSize);
      FitsFree(blocks, freeList, objSize, i);
      if i == |freeList| {
        return None;
      }
      obj := Some(freeList[i]);
      ghost var b, free, o := blocks, freeList, freeList[i];
      var size := Carve(i, clazz, objSize);
      newObjects, newBytes := newObjects + 1, newBytes + size;
      currentObjects, currentBytes := currentObjects + 1, currentBytes + size;
      PlacedPlacement(b, free, blocks, freeList, o, clazz, objSize);
      PlacementElsewhere(b, free, blocks, o, clazz, objSize);
      PlacedObjectsOk(b, blocks, start, end, o, RootRows(statics, contexts));
      PlacedDated(b, blocks, o, clock);
    }

    method FirstFit(objSize: nat) returns (i: nat)
      requires FreeListOk(blocks, freeList)
      ensures i <= |freeList| && (i < |freeList| ==> freeList[i] in blocks && blocks[freeList[i]].size >= objSize)
      ensures forall k :: 0 <= k < i ==> freeList[k] in blocks && blocks[freeList[k]].size < objSize
    {
      i := 0;
      while i < |freeList| && blocks[freeList[i]].size < objSize
        invariant 0 <= i <= |freeList|
        invariant forall k :: 0 <= k < i ==> freeList[k] in blocks && blocks[freeList[k]].size < objSize
      {
        i := i + 1;
      }
    }

    /** Turn free block i into an object; gives its size. */
    method Carve(i: nat, clazz: nat, objSize: nat) returns (size: nat)
      requires Tiled(blocks, start, end) && FreeListOk(blocks, freeList) && i < |freeList| && objSize >= HEADER
      requires freeList[i] in blocks && blocks[freeList[i]].size >= objSize
      requires forall k :: 0 <= k < i ==> freeList[k] in blocks && blocks[freeList[k]].size < objSize
      modifies this`blocks, this`freeList
      ensures Tiled(blocks, start, end) && FreeListOk(blocks, freeList)
      ensures PlacedIn(old(blocks), old(freeList), blocks, freeList, old(freeList)[i], clazz, objSize)
      ensures var o := old(freeList)[i]; size >= HEADER && o in blocks && blocks[o] == NewObject(clazz, size)
      ensures objSize <= size <= objSize + HEADER && NewObject(clazz, size).size == size
      ensures forall h :: h in blocks && h !in old(blocks) ==> blocks[h].clazz.None? && blocks[h].size > HEADER
      ensures Boundary(blocks, start, end) && Boundary(old(blocks), start, end)
      ensures UsageFrom(blocks, start, end, start).objects == old(UsageFrom(blocks, start, end, start)).objects + 1
      ensures UsageFrom(blocks, start, end, start).bytes == old(UsageFrom(blocks, start, end, start)).bytes + size
    {
      hide Tiled, UsageFrom, Placement, NewObject, Without;
      ghost var b, free := blocks, freeList;
      assert free[i] in free && b[free[i]].clazz.None?;
      hide FreeListOk;
      FirstPlace(b, free, i, objSize);
      var o: nat := freeList[i];
      freeList := freeList[..i] + freeList[i + 1..];
      size := objSize;
      var freeSize := blocks[o].size - objSize;
      if freeSize > HEADER {
        freeList := freeList + [o + size];
        blocks := blocks[o + size := Block(None, freeSize, 0, [])];
      } else if freeSize > 0 {
        size := size + freeSize;
      }
      blocks := blocks[o := NewObject(clazz, size)];
      assert freeSize > HEADER ==> blocks == b[o := NewObject(clazz, size)][o + size := Block(None, freeSize, 0, [])];
      PlacedOk(b, free, start, end, i, blocks, freeList, clazz, objSize);
    }

    // ----- what the program does between allocations -----

    /** Store a value into an object. */
    method SetValue(o: nat, slot: nat, v: Slot)
      requires Valid() && Live(blocks, o) && slot < |blocks[o].values|
      requires InArena(v, start, end) ==> Live(blocks, v.address) && blocks[o].mark != EXTERNAL
      modifies this`blocks
      ensures Valid() && blocks == Stored(old(blocks), o, slot, v)
    {
      hide Tiled, FreeListOk, ObjectsOk, RootsOk, Dated, UsageFrom;
      ghost var b := blocks;
      blocks := Stored(blocks, o, slot, v);
      StoredTiled(b, blocks, start, end, o);
      StoredOk(b, blocks, start, end, o, slot, v, RootRows(statics, contexts));
      StoredDated(b, blocks, o, clock);
    }

    /** Hold an object that has no pointers into the arena from outside. */
    method SetExternalGC(o: nat)
      requires Valid() && Live(blocks, o) && forall v :: v in blocks[o].values ==> !InArena(v, start, end)
      modifies this`blocks
      ensures Valid() && blocks == old(blocks)[o := old(blocks)[o].(mark := EXTERNAL)]
    {
      hide ObjectsOk, RootsOk, Tiled, FreeListOk, Dated, UsageFrom;
      ghost var b := blocks;
      blocks := blocks[o := blocks[o].(mark := EXTERNAL)];
      StoredTiled(b, blocks, start, end, o);
      HeldOk(b, blocks, start, end, o, RootRows(statics, contexts));
      StoredDated(b, blocks, o, clock);
    }

    /** The program runs: its static fields, stacks and local variables change. */
    method SetRoots(statics: seq<seq<Slot>>, contexts: seq<seq<StackValue>>)
      requires Valid() && RootsOk(blocks, start, end, RootRows(statics, contexts))
      modifies this`statics, this`contexts
      ensures Valid() && this.statics == statics && this.contexts == contexts
    {
      this.statics, this.contexts := statics, contexts;
    }

    predicate IsObjectValid(v: Slot)
    {
      v.Pointer? && start <= v.address < end
    }

    /** Mark an object and everything it reaches; there is no check for marks that are already there. */
    method MarkObject(o: nat, mark: nat, ghost rank: map<nat, nat>)
      requires Live(blocks, o) && ObjectsOk(blocks, start, end) && mark != EXTERNAL
      requires Ranks(blocks, start, end, rank) && o in rank
      modifies this`blocks
      ensures MarksAre(old(blocks), blocks, mark, iset h | Reaches(old(blocks), start, end, o, h))
      decreases rank[o], 1, 0
    {
      ghost var b := blocks;
      if blocks[o].mark != EXTERNAL {
        blocks := blocks[o := blocks[o].(mark := mark)];
      }
      assert MarksAre(b, blocks, mark, iset{o});
      if blocks[o].clazz.None? {
        return;
      }
      MarkedObjectsOk(b, blocks, start, end, mark, iset{o});
      MarkedRanks(b, blocks, start, end, rank);
      ReachedSame(b, blocks, start, end, b[o].values);
      ReachedByValues(b, start, end, o);
      ghost var c := blocks;
      ValuesOk(c, start, end, o, rank);
      MarkSlots(blocks[o].values, mark, rank, rank[o]);
      MarksCompose(b, c, blocks, mark, iset{o}, Reached(b, start, end, b[o].values));
    }

    /** Mark whatever a row of values points to. */
    method MarkSlots(slots: seq<Slot>, mark: nat, ghost rank: map<nat, nat>, ghost top: nat)
      requires SlotsOk(blocks, start, end, slots, rank, top)
      requires ObjectsOk(blocks, start, end) && Ranks(blocks, start, end, rank) && mark != EXTERNAL
      modifies this`blocks
      ensures MarksAre(old(blocks), blocks, mark, Reached(old(blocks), start, end, slots))
      decreases top, 0, |slots|
    {
      ghost var b := blocks;
      assert Reached(b, start, end, slots[..0]) == iset{};
      for i := 0 to |slots|
        invariant MarksAre(b, blocks, mark, Reached(b, start, end, slots[..i]))
      {
        ghost var c := blocks;
        MarkedObjectsOk(b, c, start, end, mark, Reached(b, start, end, slots[..i]));
        MarkedRanks(b, c, start, end, rank);
        ReachedNext(b, start, end, slots, i);
        ReachedOne(b, start, end, slots[i]);
        ReachedOne(c, start, end, slots[i]);
        ReachedSame(b, c, start, end, [slots[i]]);
        if IsObjectValid(slots[i]) {
          MarkObject(slots[i].address, mark, rank);
          MarksCompose(b, c, blocks, mark, Reached(b, start, end, slots[..i]), Reached(b, start, end, [slots[i]]));
        }
      }
      assert slots[..|slots|] == slots;
    }

    /** Mark what one more row of values reaches; `done` are the rows that were marked from before, on blocks b. */
    method MarkRow(row: seq<Slot>, mark: nat, ghost b: Blocks, ghost done: seq<seq<Slot>>, ghost rank: map<nat, nat>,
                   ghost top: nat)
      requires MarksAre(b, blocks, mark, RowsReached(b, start, end, done)) && mark != EXTERNAL
      requires ObjectsOk(b, start, end) && Ranks(b, start, end, rank) && SlotsOk(blocks, start, end, row, rank, top)
      modifies this`blocks
      ensures MarksAre(b, blocks, mark, RowsReached(b, start, end, done + [row]))
    {
      ghost var c := blocks;
      MarkedObjectsOk(b, c, start, end, mark, RowsReached(b, start, end, done));
      MarkedRanks(b, c, start, end, rank);
      ReachedSame(b, c, start, end, row);
      RowsReachedNext(b, start, end, done, row);
      MarkSlots(row, mark, rank, top);
      MarksCompose(b, c, blocks, mark, RowsReached(b, start, end, done), Reached(b, start, end, row));
    }

    /** Mark from the static fields, and then from every context's stack and its frames. */
    method MarkRoots(mark: nat, ghost rank: map<nat, nat>, ghost top: nat)
      requires ObjectsOk(blocks, start, end) && RootsOk(blocks, start, end, RootRows(statics, contexts))
      requires Ranks(blocks, start, end, rank) && RootsRanked(start, end, RootRows(statics, contexts), rank, top)
      requires mark != EXTERNAL
      modifies this`blocks
      ensures MarksAre(old(blocks), blocks, mark, RowsReached(old(blocks), start, end, RootRows(statics, contexts)))
    {
      hide ObjectsOk, RootsOk, Ranks, RootsRanked, SlotsOk, MarksAre, RowsReached;
      ghost var b, rows := blocks, RootRows(statics, contexts);
      NothingMarked(b, start, end, mark);
      for i := 0 to |statics|
        invariant MarksAre(b, blocks, mark, RowsReached(b, start, end, statics[..i]))
      {
        assert rows[i] == statics[i] && statics[..i + 1] == statics[..i] + [statics[i]];
        MarksSame(b, blocks, mark, RowsReached(b, start, end, statics[..i]));
        RowOk(b, blocks, start, end, rows, statics[i], rank, top);
        MarkRow(statics[i], mark, b, statics[..i], rank, top);
      }
      assert statics[..|statics|] == statics == statics + ContextRows(contexts[..0]);
      for k := 0 to |contexts|
        invariant MarksAre(b, blocks, mark, RowsReached(b, start, end, statics + ContextRows(contexts[..k])))
      {
        ghost var done := statics + ContextRows(contexts[..k]);
        StackIsRoot(statics, contexts, k);
        MarkStack(contexts[k], mark, b, done, rank, top);
        ContextRowsNext(contexts, k);
        assert done + StackRows(contexts[k]) == statics + ContextRows(contexts[..k + 1]);
      }
      assert contexts[..|contexts|] == contexts;
    }

    /** Mark from every entry of one stack. */
    method MarkStack(stack: seq<StackValue>, mark: nat, ghost b: Blocks, ghost done: seq<seq<Slot>>,
                     ghost rank: map<nat, nat>, ghost top: nat)
      requires MarksAre(b, blocks, mark, RowsReached(b, start, end, done)) && mark != EXTERNAL
      requires ObjectsOk(b, start, end) && RootsOk(b, start, end, RootRows(statics, contexts))
      requires forall s :: 0 <= s < |stack| ==> StackSlots(stack[s]) in RootRows(statics, contexts)
      requires Ranks(b, start, end, rank) && RootsRanked(start, end, RootRows(statics, contexts), rank, top)
      modifies this`blocks
      ensures MarksAre(b, blocks, mark, RowsReached(b, start, end, done + StackRows(stack)))
    {
      hide ObjectsOk, RootsOk, Ranks, RootsRanked, SlotsOk, MarksAre, RowsReached;
      assert done + StackRows(stack[..0]) == done;
      for s := 0 to |stack|
        invariant MarksAre(b, blocks, mark, RowsReached(b, start, end, done + StackRows(stack[..s])))
      {
        ghost var now := done + StackRows(stack[..s]);
        var row := StackSlots(stack[s]);
        StackRowsNext(stack, s);
        assert now + [row] == done + StackRows(stack[..s + 1]);
        MarksSame(b, blocks, mark, RowsReached(b, start, end, now));
        RowOk(b, blocks, start, end, RootRows(statics, contexts), row, rank, top);
        MarkRow(row, mark, b, now, rank, top);
      }
      assert stack[..|stack|] == stack;
    }

    /**
     A collection: nothing happens if it is disabled, or neither forced nor due. Otherwise exactly the objects
     that the roots reach, and the external ones, are left.
     */
    method Gc(force: bool, now: nat)
      requires Valid() && clock < now < EXTERNAL && RootsTame(blocks, start, end, RootRows(statics, contexts))
      modifies this`blocks, this`freeList, this`currentObjects, this`currentBytes, this`collectedObjects,
               this`gcLastAlloc, this`clock
      ensures Valid() && clock == now
      ensures if gcEnabled && (force || newObjects > old(gcLastAlloc))
        then Collected(old(blocks), blocks, now, RowsReached(old(blocks), start, end, RootRows(statics, contexts)))
        else blocks == old(blocks) && freeList == old(freeList)
      ensures collectedObjects >= old(collectedObjects)
      ensures collectedObjects > old(collectedObjects) ==> Ascending(freeList) && Coalesced(blocks)
      ensures collectedObjects == old(collectedObjects) ==> freeList == old(freeList)
      ensures gcLastAlloc == if gcEnabled && (force || newObjects > old(gcLastAlloc)) then newObjects else old(gcLastAlloc)
    {
      hide Tiled, FreeListOk, ObjectsOk, RootsOk, RootsTame, Ranks, RootsRanked, MarksAre, Collected, Fresh, RowsReached,
           Dated, UsageFrom, Ascending, Coalesced, RootRows;
      DatedIsFresh(blocks, clock, now);
      clock := now;
      if !gcEnabled {
        return;
      }
      if force || newObjects > gcLastAlloc {
        ghost var b := blocks;
        ghost var reached := RowsReached(b, start, end, RootRows(statics, contexts));
        ghost var rank, top := TameRanked(b, start, end, RootRows(statics, contexts));
        MarkRoots(now, rank, top);
        MarksSame(b, blocks, now, reached);
        MarkedTiled(b, blocks, start, end);
        Reclaim(now, b);
        CollectedLater(b, blocks, start, end, now, reached);
        gcLastAlloc := newObjects;
      }
    }

    /** What follows the marking: b are the blocks before it. */
    method Reclaim(now: nat, ghost b: Blocks)
      requires 0 < start && Tiled(b, start, end) && Tiled(blocks, start, end) && FreeListOk(blocks, freeList)
      requires ObjectsOk(b, start, end) && RootsOk(b, start, end, RootRows(statics, contexts))
      requires MarksAre(b, blocks, now, RowsReached(b, start, end, RootRows(statics, contexts)))
      requires now != EXTERNAL && Fresh(b, now)
      modifies this`blocks, this`freeList, this`currentObjects, this`currentBytes, this`collectedObjects
      ensures Collected(b, blocks, now, RowsReached(b, start, end, RootRows(statics, contexts)))
      ensures Tiled(blocks, start, end) && FreeListOk(blocks, freeList)
      ensures ObjectsOk(blocks, start, end) && RootsOk(blocks, start, end, RootRows(statics, contexts))
      ensures currentObjects == UsageFrom(blocks, start, end, start).objects
      ensures currentBytes == UsageFrom(blocks, start, end, start).bytes
      ensures currentObjects + collectedObjects - old(collectedObjects) == old(UsageFrom(blocks, start, end, start).objects)
      ensures collectedObjects >= old(collectedObjects)
      ensures collectedObjects > old(collectedObjects) ==> Ascending(freeList) && Coalesced(blocks)
      ensures collectedObjects == old(collectedObjects) ==> freeList == old(freeList)
    {
      hide Tiled, FreeListOk, ObjectsOk, RootsOk, Rearranged, SweptTo, MarksAre, Collected, Fresh, RowsReached, UsageFrom,
           Ascending, Coalesced;
      ghost var m, rows := blocks, RootRows(statics, contexts);
      ghost var reached := RowsReached(b, start, end, rows);
      TiledAt(m, start, end, start);
      var freed := Sweep(now);
      ghost var s := blocks;
      SweptCollected(b, m, s, start, end, now, reached);
      CollectedOk(b, s, start, end, now, rows);
      if freed > 0 {
        SortAndCoalesce();
        RearrangedCollected(b, s, blocks, now, reached);
        RearrangedOk(s, blocks, start, end, rows);
      }
    }

    /** Collect one object. */
    method Free(h: nat)
      requires Tiled(blocks, start, end) && FreeListOk(blocks, freeList) && Live(blocks, h)
      modifies this`blocks, this`freeList, this`collectedObjects
      ensures blocks == old(blocks)[h := old(blocks)[h].(clazz := None, mark := EXTERNAL)]
      ensures collectedObjects == old(collectedObjects) + 1
      ensures Tiled(blocks, start, end) && Boundary(blocks, start, end) && FreeListOk(blocks, freeList)
      ensures Boundary(blocks, End(blocks, h), end) && Boundary(old(blocks), End(blocks, h), end)
      ensures UsageFrom(blocks, start, end, End(blocks, h)) == old(UsageFrom(blocks, start, end, End(blocks, h)))
      ensures var size: int := old(blocks)[h].size;
        UsageFrom(blocks, start, end, start) == Minus(old(UsageFrom(blocks, start, end, start)), Usage(1, size, -size))
    {
      ghost var b, free := blocks, freeList;
      collectedObjects := collectedObjects + 1;
      blocks := blocks[h := blocks[h].(clazz := None, mark := EXTERNAL)];
      freeList := freeList + [h];
      FreedUsage(b, blocks, start, end, h);
      FreedListed(b, free, h);
    }

    method SortAndCoalesce()
      requires 0 < start && Tiled(blocks, start, end) && FreeListOk(blocks, freeList)
      modifies this`blocks, this`freeList
      ensures Tiled(blocks, start, end) && FreeListOk(blocks, freeList) && Ascending(freeList) && Coalesced(blocks)
      ensures Rearranged(old(blocks), blocks)
      ensures UsageFrom(blocks, start, end, start) == old(UsageFrom(blocks, start, end, start))
    {
      hide Tiled, FreeListOk, Rearranged, UsageFrom, Ascending, Coalesced;
      TiledAt(blocks, start, end, start);
      ghost var free := freeList;
      FreeDistinct(blocks, free);
      SortFreeList();
      SortedFreeList(blocks, free, freeList);
      Coalesce();
    }

    /** Sweep: unmarked objects lose their class and join the free list; the survivors are counted. */
    method Sweep(mark: nat) returns (freed: int)
      requires Tiled(blocks, start, end) && FreeListOk(blocks, freeList)
      modifies this`blocks, this`freeList, this`currentObjects, this`currentBytes, this`collectedObjects
      ensures SweptTo(old(blocks), blocks, mark, end) && Tiled(blocks, start, end) && FreeListOk(blocks, freeList)
      ensures currentObjects == UsageFrom(blocks, start, end, start).objects
      ensures currentBytes == UsageFrom(blocks, start, end, start).bytes
      ensures currentObjects + collectedObjects - old(collectedObjects) == old(UsageFrom(blocks, start, end, start).objects)
      ensures freed == old(UsageFrom(blocks, start, end, start).bytes) - currentBytes >= 0
      ensures freed == 0 ==> blocks == old(blocks) && collectedObjects == old(collectedObjects)
      ensures collectedObjects == old(collectedObjects) ==> freed == 0 && freeList == old(freeList)
      ensures collectedObjects >= old(collectedObjects)
    {
      hide Tiled, FreeListOk, SweptTo, UsageFrom;
      ghost var b := blocks;
      TiledAt(b, start, end, start);
      ghost var all := UsageFrom(b, start, end, start);
      freed := 0;
      currentObjects, currentBytes := 0, 0;
      var pos := start;
      SweptStart(b, start, end, mark);
      while pos < end
        invariant Boundary(blocks, pos, end) && start <= pos <= end && SweptTo(b, blocks, mark, pos)
        invariant Tiled(blocks, start, end) && Boundary(blocks, start, end) && FreeListOk(blocks, freeList)
        invariant currentObjects == UsageFrom(blocks, start, end, start).objects - UsageFrom(blocks, start, end, pos).objects
        invariant currentBytes == UsageFrom(blocks, start, end, start).bytes - UsageFrom(blocks, start, end, pos).bytes
        invariant collectedObjects - old(collectedObjects) == all.objects - UsageFrom(blocks, start, end, start).objects
        invariant freed == all.bytes - UsageFrom(blocks, start, end, start).bytes >= 0
        invariant freed == 0 ==> blocks == b && collectedObjects == old(collectedObjects)
        invariant collectedObjects == old(collectedObjects) ==> freed == 0 && freeList == old(freeList)
        invariant collectedObjects >= old(collectedObjects)
        decreases end - pos
      {
        UsageStep(blocks, start, end, pos);
        SweptNext(b, blocks, start, end, mark, pos);
        var obj := blocks[pos];
        if obj.clazz.Some? {
          if obj.mark == mark || obj.mark == EXTERNAL {
            currentObjects := currentObjects + 1;
            currentBytes := currentBytes + obj.size;
          } else {
            freed := freed + obj.size;
            Free(pos);
          }
        }
        pos := pos + obj.size;
      }
      UsageAtEnd(blocks, start, end);
    }

    /** Put the free list in ascending order. */
    method SortFreeList()
      requires Distinct(freeList)
      modifies this`freeList
      ensures Ascending(freeList) && forall h :: h in freeList <==> h in old(freeList)
    {
      var list, sorted: seq<nat> := freeList, [];
      for i := 0 to |list|
        invariant Ascending(sorted) && forall h :: h in sorted <==> h in list[..i]
      {
        var x := list[i];
        assert x !in list[..i];
        var k := 0;
        while k < |sorted| && sorted[k] < x
          invariant 0 <= k <= |sorted| && forall j :: 0 <= j < k ==> sorted[j] < x
        {
          k := k + 1;
        }
        InsertAscending(sorted, k, x);
        sorted := sorted[..k] + [x] + sorted[k..];
        assert list[..i + 1] == list[..i] + [x];
      }
      assert list[..|list|] == list;
      freeList := sorted;
    }

    /** Merge touching free blocks, starting over after every merge. */
    method Coalesce()
      requires 0 < start && Tiled(blocks, start, end) && FreeListOk(blocks, freeList) && Ascending(freeList)
      modifies this`blocks, this`freeList
      ensures Tiled(blocks, start, end) && FreeListOk(blocks, freeList) && Ascending(freeList) && Coalesced(blocks)
      ensures Rearranged(old(blocks), blocks)
      ensures UsageFrom(blocks, start, end, start) == old(UsageFrom(blocks, start, end, start))
    {
      hide Tiled, FreeListOk, Rearranged, Merged, UsageFrom;
      ghost var b := blocks;
      TiledAt(b, start, end, start);
      ghost var usage := UsageFrom(b, start, end, start);
      RearrangedSelf(b);
      var changed := true;
      while changed
        invariant Tiled(blocks, start, end) && Boundary(blocks, start, end) && FreeListOk(blocks, freeList)
        invariant Ascending(freeList) && Rearranged(b, blocks)
        invariant UsageFrom(blocks, start, end, start) == usage
        invariant !changed ==> forall i :: 0 <= i < |freeList| - 1 ==> Touching(blocks, freeList[i], freeList[i + 1]) == false
        decreases |freeList|, changed
      {
        changed := false;
        ghost var length := |freeList|;
        var prev, prevEnd := 0, 0;
        var i := 0;
        while i < |freeList| && !changed
          invariant 0 <= i <= |freeList|
          invariant i == 0 ==> prevEnd == 0
          invariant !changed && i > 0 ==>
            prev == freeList[i - 1] && prev in blocks && prevEnd == End(blocks, prev)
          invariant !changed ==> forall j :: 0 <= j < i - 1 ==> Touching(blocks, freeList[j], freeList[j + 1]) == false
          invariant |freeList| == if changed then length - 1 else length
          invariant Tiled(blocks, start, end) && Boundary(blocks, start, end) && FreeListOk(blocks, freeList)
          invariant Ascending(freeList) && Rearranged(b, blocks)
          invariant UsageFrom(blocks, start, end, start) == usage
          decreases |freeList| - i, !changed
        {
          var free := freeList[i];
          FreeBlock(blocks, start, end, freeList, i);
          if free == prevEnd {
            FreeBlock(blocks, start, end, freeList, i - 1);
            MergeFree(blocks, start, end, freeList, i - 1);
            RearrangedMerge(b, blocks, start, end, prev);
            blocks := Merged(blocks, prev);
            freeList := freeList[..i] + freeList[i + 1..];
            changed := true;
          } else {
            prev, prevEnd := free, free + blocks[free].size;
            i := i + 1;
          }
        }
      }
      NoneTouching(blocks, start, end, freeList);
    }
  }

  /** The size an object gets: a remainder that could not hold a header is added to it. */
  function FitSize(free: nat, objSize: nat): nat
    requires objSize <= free
  {
    if free - objSize > HEADER then objSize else free
  }

  /** A new object in the first free block that fits, all of its values empty, and nothing else disturbed. */
  ghost predicate Placement(b: Blocks, free: seq<nat>, c: Blocks, o: nat, clazz: nat, objSize: nat)
  {
    && (exists k :: 0 <= k < |free| && free[k] == o &&
                    forall j :: 0 <= j < k ==> free[j] in b && b[free[j]].size < objSize)
    && o in b && b[o].clazz.None? && b[o].size >= objSize
    && o in c && c[o].clazz == Some(clazz) && c[o].size == FitSize(b[o].size, objSize) && c[o].mark == 0
    && (forall v :: v in c[o].values ==> v == Plain)
    && (forall h :: h != o ==> (Live(c, h) <==> Live(b, h)) && (Live(b, h) ==> c[h] == b[h]))
  }

  /** A list without the first place of an element. */
  function Without(s: seq<nat>, x: nat): seq<nat>
    requires x in s
  {
    var i := IndexOf(s, x);
    s[..i] + s[i + 1..]
  }

  /** A placement, and the free list afterwards: without the block, and with what is left of it at the end. */
  ghost predicate PlacedIn(b: Blocks, free: seq<nat>, c: Blocks, rest: seq<nat>, o: nat, clazz: nat, objSize: nat)
  {
    && Placement(b, free, c, o, clazz, objSize) && o in free
    && rest == Without(free, o) + if b[o].size - objSize > HEADER then [o + objSize] else []
  }

  lemma PlacedPlacement(b: Blocks, free: seq<nat>, c: Blocks, rest: seq<nat>, o: nat, clazz: nat, objSize: nat)
    requires PlacedIn(b, free, c, rest, o, clazz, objSize)
    ensures Placement(b, free, c, o, clazz, objSize)
  {
  }

  lemma FirstPlace(b: Blocks, free: seq<nat>, i: nat, objSize: nat)
    requires i < |free| && free[i] in b && b[free[i]].size >= objSize
    requires forall k :: 0 <= k < i ==> free[k] in b && b[free[k]].size < objSize
    ensures Without(free, free[i]) == free[..i] + free[i + 1..]
  {
    assert IndexOf(free, free[i]) == i;
  }

  /** A free block is large enough if and only if the search of the free list finds one. */
  lemma FitsFree(b: Blocks, free: seq<nat>, objSize: nat, i: nat)
    requires FreeListOk(b, free) && i <= |free| && (i < |free| ==> free[i] in b && b[free[i]].size >= objSize)
    requires forall k :: 0 <= k < i ==> free[k] in b && b[free[k]].size < objSize
    ensures i < |free| <==> exists h :: h in b && b[h].clazz.None? && b[h].size >= objSize
  {
    if i < |free| {
      assert free[i] in free;
    } else {
      forall h | h in b && b[h].clazz.None? ensures b[h].size < objSize {
        assert h in free;
      }
    }
  }

  /** Objects of b, as they were but for their marks; none has become external, and none has ceased to be. */
  ghost predicate AsBefore(b: Blocks, c: Blocks, h: nat)
  {
    Live(b, h) && Live(c, h) && c[h] == b[h].(mark := c[h].mark) && (c[h].mark == EXTERNAL <==> b[h].mark == EXTERNAL)
  }

  /** The new object, empty and without a mark, and the other objects as they were. */
  ghost predicate NewIn(b: Blocks, c: Blocks, o: nat, clazz: nat, objSize: nat)
  {
    && Live(c, o) && c[o].clazz == Some(clazz) && objSize <= c[o].size <= objSize + HEADER && c[o].mark == 0
    && (forall v :: v in c[o].values ==> v == Plain)
    && (forall h :: Live(c, h) && h != o ==> AsBefore(b, c, h))
  }

  /** The reached and the external objects are still there. */
  ghost predicate Survive(b: Blocks, c: Blocks, reached: iset<nat>)
  {
    forall h :: Live(b, h) && (b[h].mark == EXTERNAL || h in reached) ==> Live(c, h)
  }

  lemma SurvivorsStay(b: Blocks, c: Blocks, mark: nat, reached: iset<nat>)
    requires (b == c || Collected(b, c, mark, reached)) && mark != EXTERNAL
    ensures Survive(b, c, reached) && forall h :: Live(c, h) ==> AsBefore(b, c, h)
  {
  }

  lemma SurvivorsRemain(b: Blocks, c: Blocks, d: Blocks, reached: iset<nat>)
    requires Survive(b, c, reached) && forall h :: Live(c, h) ==> Live(d, h)
    ensures Survive(b, d, reached)
  {
  }

  lemma DatedUntil(b: Blocks, clock: nat, now: nat)
    requires Dated(b, clock) && clock <= now
    ensures Dated(b, now)
  {
  }

  lemma PlacedDated(b: Blocks, c: Blocks, o: nat, clock: nat)
    requires Dated(b, clock) && Live(c, o) && c[o].mark == 0
    requires forall h :: h != o ==> (Live(c, h) <==> Live(b, h)) && (Live(b, h) ==> c[h] == b[h])
    ensures Dated(c, clock)
  {
  }

  /** A new object has no values that lead anywhere, so that it closes no cycle. */
  lemma NewAcyclic(b: Blocks, c: Blocks, lo: nat, hi: nat, o: nat, clazz: nat, objSize: nat)
    requires NewIn(b, c, o, clazz, objSize)
    ensures NoCycle(c, lo, hi, o)
    ensures forall h :: Live(c, h) && h != o && NoCycle(b, lo, hi, h) ==> NoCycle(c, lo, hi, h)
  {
    assert forall x, y :: Child(c, lo, hi, x, y) ==> x != o && AsBefore(b, c, x) && Child(b, lo, hi, x, y);
    RankedNoCycle(c, lo, hi, map[o := 0], o);
    hide NoCycle;
    forall h | Live(c, h) && h != o && NoCycle(b, lo, hi, h) ensures NoCycle(c, lo, hi, h) {
      FewerCycles(b, c, lo, hi, h);
    }
  }

  lemma StoredDated(b: Blocks, c: Blocks, o: nat, clock: nat)
    requires Dated(b, clock) && Live(b, o) && o in c && c == b[o := c[o]] && c[o].mark in {b[o].mark, EXTERNAL}
    ensures Dated(c, clock)
  {
  }

  lemma HeldAcyclic(b: Blocks, lo: nat, hi: nat, o: nat)
    requires Acyclic(b, lo, hi) && Live(b, o)
    ensures Acyclic(b[o := b[o].(mark := EXTERNAL)], lo, hi)
  {
    hide NoCycle;
    var c := b[o := b[o].(mark := EXTERNAL)];
    assert forall x, y :: Child(c, lo, hi, x, y) ==> Child(b, lo, hi, x, y);
    forall h | Live(c, h) ensures NoCycle(c, lo, hi, h) {
      FewerCycles(b, c, lo, hi, h);
    }
  }

  /** The blocks after a value has been stored in an object. */
  function Stored(b: Blocks, o: nat, slot: nat, v: Slot): Blocks
    requires o in b && slot < |b[o].values|
  {
    b[o := b[o].(values := b[o].values[slot := v])]
  }

  /** Whatever leads to o is ranked above what it points to now. */
  lemma StoredRank(b: Blocks, lo: nat, hi: nat, o: nat, slot: nat, v: Slot, rank: map<nat, nat>) returns (r: map<nat, nat>)
    requires Ranks(b, lo, hi, rank) && Live(b, o) && slot < |b[o].values|
    requires InArena(v, lo, hi) ==> v.address in rank && !Reaches(b, lo, hi, v.address, o)
    ensures Ranks(Stored(b, o, slot, v), lo, hi, r) && r.Keys == rank.Keys
  {
    hide Reaches;
    var c := Stored(b, o, slot, v);
    var lift := if InArena(v, lo, hi) then rank[v.address] + 1 else 0;
    r := map h | h in rank :: rank[h] + if Reaches(b, lo, hi, h, o) then lift else 0;
    forall h, k | h in r && Child(c, lo, hi, h, k) ensures k in r && r[k] < r[h] {
      if Child(b, lo, hi, h, k) {
        ReachesByChild(b, lo, hi, h, o);
      } else {
        assert h == o && v == Pointer(k);
        ReachesSelf(b, lo, hi, o);
      }
    }
  }

  /** A way to o does not need the values of o. */
  lemma {:induction false} WayStays(b: Blocks, lo: nat, hi: nat, o: nat, slot: nat, v: Slot, p: seq<nat>)
    requires Live(b, o) && slot < |b[o].values| && Path(b, lo, hi, p) && p[|p| - 1] == o
    ensures Reaches(Stored(b, o, slot, v), lo, hi, p[0], o)
    decreases |p|
  {
    hide Reaches;
    var c := Stored(b, o, slot, v);
    ReachesByChild(c, lo, hi, p[0], o);
    if p[0] != o {
      assert Child(b, lo, hi, p[0], p[1]) && Child(c, lo, hi, p[0], p[1]);
      WayStays(b, lo, hi, o, slot, v, p[1..]);
    }
  }

  /** A store makes a cycle if and only if the object stored leads to the one it is stored in. */
  lemma StoredAcyclic(b: Blocks, lo: nat, hi: nat, o: nat, slot: nat, v: Slot)
    requires ObjectsOk(b, lo, hi) && Acyclic(b, lo, hi) && Live(b, o) && slot < |b[o].values|
    requires InArena(v, lo, hi) ==> Live(b, v.address)
    ensures Acyclic(Stored(b, o, slot, v), lo, hi) <==> !(InArena(v, lo, hi) && Reaches(b, lo, hi, v.address, o))
  {
    var c := Stored(b, o, slot, v);
    if InArena(v, lo, hi) && Reaches(b, lo, hi, v.address, o) {
      var p :| Path(b, lo, hi, p) && p[0] == v.address && p[|p| - 1] == o;
      WayStays(b, lo, hi, o, slot, v, p);
      assert c[o].values[slot] == v && Child(c, lo, hi, o, v.address);
      ReachesSelf(c, lo, hi, o);
      assert !NoCycle(c, lo, hi, o);
    } else {
      hide NoCycle, Reaches, Ranks;
      DepthsRank(b, lo, hi);
      var r := StoredRank(b, lo, hi, o, slot, v, Depths(b, lo, hi));
      forall h | Live(c, h) ensures NoCycle(c, lo, hi, h) {
        assert h in Depths(b, lo, hi);
        RankedNoCycle(c, lo, hi, r, h);
      }
    }
  }

  lemma PlacementNew(b: Blocks, c: Blocks, free: seq<nat>, d: Blocks, o: nat, clazz: nat, objSize: nat)
    requires Placement(c, free, d, o, clazz, objSize) && forall h :: Live(c, h) ==> AsBefore(b, c, h)
    ensures NewIn(b, d, o, clazz, objSize) && forall h :: Live(c, h) ==> Live(d, h)
  {
  }

  lemma PlacementElsewhere(b: Blocks, free: seq<nat>, c: Blocks, o: nat, clazz: nat, objSize: nat)
    requires Placement(b, free, c, o, clazz, objSize)
    ensures !Live(b, o) && forall h :: h != o ==> (Live(c, h) <==> Live(b, h)) && (Live(b, h) ==> c[h] == b[h])
  {
  }

  lemma StoredTiled(b: Blocks, c: Blocks, lo: nat, hi: nat, o: nat)
    requires Tiled(b, lo, hi) && Live(b, o) && o in c && c == b[o := c[o]]
    requires c[o].size == b[o].size && c[o].clazz == b[o].clazz
    ensures Tiled(c, lo, hi) && Boundary(b, lo, hi) && Boundary(c, lo, hi)
    ensures UsageFrom(c, lo, hi, lo) == UsageFrom(b, lo, hi, lo)
    ensures forall free :: FreeListOk(b, free) ==> FreeListOk(c, free)
  {
    UpdateTiled(b, lo, hi, o, c[o]);
    TiledAt(b, lo, hi, lo);
    TiledAt(c, lo, hi, lo);
    UsageSame(b, c, lo, hi, lo);
  }

  lemma StoredOk(b: Blocks, c: Blocks, lo: nat, hi: nat, o: nat, slot: nat, v: Slot, rows: seq<seq<Slot>>)
    requires ObjectsOk(b, lo, hi) && RootsOk(b, lo, hi, rows) && Live(b, o) && slot < |b[o].values|
    requires c == b[o := b[o].(values := b[o].values[slot := v])]
    requires InArena(v, lo, hi) ==> Live(b, v.address) && b[o].mark != EXTERNAL
    ensures ObjectsOk(c, lo, hi) && RootsOk(c, lo, hi, rows)
  {
    forall h | h in c ensures ObjectOk(c, lo, hi, h) {
      assert ObjectOk(b, lo, hi, h);
      forall k | Child(c, lo, hi, h, k) ensures Live(c, k) && c[h].mark != EXTERNAL {
        assert Child(b, lo, hi, h, k) || (h == o && v == Pointer(k));
      }
    }
  }

  lemma HeldOk(b: Blocks, c: Blocks, lo: nat, hi: nat, o: nat, rows: seq<seq<Slot>>)
    requires ObjectsOk(b, lo, hi) && RootsOk(b, lo, hi, rows) && Live(b, o) && c == b[o := b[o].(mark := EXTERNAL)]
    requires forall v :: v in b[o].values ==> !InArena(v, lo, hi)
    ensures ObjectsOk(c, lo, hi) && RootsOk(c, lo, hi, rows)
  {
    forall h | h in c ensures ObjectOk(c, lo, hi, h) {
      assert ObjectOk(b, lo, hi, h);
      forall k | Child(c, lo, hi, h, k) ensures Live(c, k) && c[h].mark != EXTERNAL {
        assert InArena(Pointer(k), lo, hi);
        assert Child(b, lo, hi, h, k);
      }
    }
  }

  lemma StackIsRoot(statics: seq<seq<Slot>>, contexts: seq<seq<StackValue>>, k: nat)
    requires k < |contexts|
    ensures forall s :: 0 <= s < |contexts[k]| ==> StackSlots(contexts[k][s]) in RootRows(statics, contexts)
  {
    forall s: nat | s < |contexts[k]| ensures StackSlots(contexts[k][s]) in RootRows(statics, contexts) {
      StackRowsAt(contexts[k], s);
      ContextRowsAt(contexts, k, StackSlots(contexts[k][s]));
    }
  }

  lemma NothingMarked(b: Blocks, lo: nat, hi: nat, mark: nat)
    ensures MarksAre(b, b, mark, RowsReached(b, lo, hi, []))
  {
  }

  lemma MarksSame(b: Blocks, c: Blocks, mark: nat, reached: iset<nat>)
    requires MarksAre(b, c, mark, reached)
    ensures SameObjects(b, c)
  {
  }

  lemma StackRowsNext(stack: seq<StackValue>, s: nat)
    requires s < |stack|
    ensures StackRows(stack[..s + 1]) == StackRows(stack[..s]) + [StackSlots(stack[s])]
  {
    assert stack[..s + 1][..s] == stack[..s];
  }

  lemma ContextRowsNext(contexts: seq<seq<StackValue>>, k: nat)
    requires k < |contexts|
    ensures ContextRows(contexts[..k + 1]) == ContextRows(contexts[..k]) + StackRows(contexts[k])
  {
    assert contexts[..k + 1][..k] == contexts[..k];
  }

  lemma FreeDistinct(b: Blocks, free: seq<nat>)
    requires FreeListOk(b, free)
    ensures Distinct(free)
  {
  }

  lemma SortedFreeList(b: Blocks, free: seq<nat>, sorted: seq<nat>)
    requires FreeListOk(b, free) && Ascending(sorted) && forall h :: h in sorted <==> h in free
    ensures FreeListOk(b, sorted)
  {
  }

  /** An object whose values are all empty. */
  function NewObject(clazz: nat, size: nat): (x: Block)
    requires size >= HEADER
    ensures x.clazz == Some(clazz) && x.size == size && x.mark == 0 && |x.values| == (size - HEADER) / VALUE
    ensures forall v :: v in x.values ==> v == Plain
  {
    Block(Some(clazz), size, 0, seq((size - HEADER) / VALUE, _ => Plain))
  }

  /** The blocks after an allocation from free block o. */
  predicate Carved(b: Blocks, c: Blocks, o: nat, clazz: nat, objSize: nat)
    requires o in b && b[o].clazz.None? && HEADER <= objSize <= b[o].size
  {
    var size: nat := FitSize(b[o].size, objSize);
    var x := NewObject(clazz, size);
    c == if size < b[o].size then b[o := x][o + size := Block(None, b[o].size - size, 0, [])] else b[o := x]
  }

  lemma PlacedOk(b: Blocks, free: seq<nat>, lo: nat, hi: nat, i: nat, c: Blocks, rest: seq<nat>, clazz: nat,
                 objSize: nat)
    requires Tiled(b, lo, hi) && FreeListOk(b, free) && i < |free| && HEADER <= objSize
    requires free[i] in b && b[free[i]].clazz.None? && objSize <= b[free[i]].size
    requires forall k :: 0 <= k < i ==> free[k] in b && b[free[k]].size < objSize
    requires Carved(b, c, free[i], clazz, objSize)
    requires var size := FitSize(b[free[i]].size, objSize);
      rest == free[..i] + free[i + 1..] + (if size < b[free[i]].size then [free[i] + size] else [])
    ensures Tiled(c, lo, hi) && FreeListOk(c, rest) && Placement(b, free, c, free[i], clazz, objSize)
    ensures Boundary(b, lo, hi) && Boundary(c, lo, hi)
    ensures var size := FitSize(b[free[i]].size, objSize);
      var u, v := UsageFrom(b, lo, hi, lo), UsageFrom(c, lo, hi, lo);
      v.objects == u.objects + 1 && v.bytes == u.bytes + size
  {
    hide Tiled, UsageFrom, FreeListOk, Placement, NewObject, Carved;
    var o: nat := free[i];
    CarvedTiled(b, c, lo, hi, o, clazz, objSize);
    CarvedUsage(b, c, lo, hi, o, clazz, objSize);
    CarvedFree(b, free, i, c, rest, clazz, objSize);
    CarvedPlacement(b, free, i, c, clazz, objSize);
  }

  lemma CarvedTiled(b: Blocks, c: Blocks, lo: nat, hi: nat, o: nat, clazz: nat, objSize: nat)
    requires Tiled(b, lo, hi) && o in b && b[o].clazz.None? && HEADER <= objSize <= b[o].size
    requires Carved(b, c, o, clazz, objSize)
    ensures Tiled(c, lo, hi) && Boundary(b, lo, hi) && Boundary(c, lo, hi)
    ensures FitSize(b[o].size, objSize) < b[o].size ==> o + FitSize(b[o].size, objSize) !in b
  {
    var size: nat := FitSize(b[o].size, objSize);
    if size < b[o].size {
      SplitTiled(b, lo, hi, o, c[o], c[o + size]);
    } else {
      UpdateTiled(b, lo, hi, o, c[o]);
    }
    TiledAt(b, lo, hi, lo);
    TiledAt(c, lo, hi, lo);
    hide Tiled, NewObject;
  }

  lemma CarvedPlacement(b: Blocks, free: seq<nat>, i: nat, c: Blocks, clazz: nat, objSize: nat)
    requires i < |free| && HEADER <= objSize
    requires free[i] in b && b[free[i]].clazz.None? && objSize <= b[free[i]].size
    requires FitSize(b[free[i]].size, objSize) < b[free[i]].size ==> free[i] + FitSize(b[free[i]].size, objSize) !in b
    requires forall k :: 0 <= k < i ==> free[k] in b && b[free[k]].size < objSize
    requires Carved(b, c, free[i], clazz, objSize)
    ensures Placement(b, free, c, free[i], clazz, objSize)
  {
    hide NewObject;
  }

  lemma CarvedFree(b: Blocks, free: seq<nat>, i: nat, c: Blocks, rest: seq<nat>, clazz: nat, objSize: nat)
    requires FreeListOk(b, free) && i < |free| && HEADER <= objSize
    requires free[i] in b && b[free[i]].clazz.None? && objSize <= b[free[i]].size
    requires Carved(b, c, free[i], clazz, objSize)
    requires var size := FitSize(b[free[i]].size, objSize);
      (size < b[free[i]].size ==> free[i] + size !in b) &&
      rest == free[..i] + free[i + 1..] + (if size < b[free[i]].size then [free[i] + size] else [])
    ensures FreeListOk(c, rest)
  {
    var o: nat, size: nat := free[i], FitSize(b[free[i]].size, objSize);
    forall h ensures h in free && h != o <==> h in free[..i] + free[i + 1..] {
      if h in free && h != o {
        var j :| 0 <= j < |free| && free[j] == h;
        assert h == if j < i then free[..i][j] else free[i + 1..][j - i - 1];
      }
    }
  }

  lemma CarvedUsage(b: Blocks, c: Blocks, lo: nat, hi: nat, o: nat, clazz: nat, objSize: nat)
    requires Tiled(b, lo, hi) && Tiled(c, lo, hi) && o in b && b[o].clazz.None? && HEADER <= objSize <= b[o].size
    requires Carved(b, c, o, clazz, objSize) && Boundary(b, lo, hi) && Boundary(c, lo, hi)
    ensures var size := FitSize(b[o].size, objSize);
      var u, v := UsageFrom(b, lo, hi, lo), UsageFrom(c, lo, hi, lo);
      v.objects == u.objects + 1 && v.bytes == u.bytes + size
  {
    hide Tiled, NewObject, UsageFrom;
    var size: nat := FitSize(b[o].size, objSize);
    TiledAt(b, lo, hi, o);
    TiledAt(c, lo, hi, o);
    UsageStep(b, lo, hi, o);
    UsageStep(c, lo, hi, o);
    if size < b[o].size {
      UsageStep(c, lo, hi, o + size);
      assert End(c, o + size) == End(b, o);
    }
    UsageSame(b, c, lo, hi, End(b, o));
    UsageChange(b, c, lo, hi, lo, o);
  }

  /** An object without pointers disturbs no other object. */
  lemma PlacedObjectsOk(b: Blocks, c: Blocks, lo: nat, hi: nat, o: nat, rows: seq<seq<Slot>>)
    requires ObjectsOk(b, lo, hi) && RootsOk(b, lo, hi, rows) && Live(c, o) && !Live(b, o)
    requires c[o].size >= HEADER && |c[o].values| == (c[o].size - HEADER) / VALUE && forall v :: v in c[o].values ==> v == Plain
    requires forall h :: h != o ==> (Live(c, h) <==> Live(b, h)) && (Live(b, h) ==> c[h] == b[h])
    ensures ObjectsOk(c, lo, hi) && RootsOk(c, lo, hi, rows)
  {
    forall h | h in c ensures ObjectOk(c, lo, hi, h) {
      assert Live(b, h) ==> ObjectOk(b, lo, hi, h);
      forall k | Child(c, lo, hi, h, k) ensures Live(c, k) && c[h].mark != EXTERNAL {
        assert h != o;
        assert Child(b, lo, hi, h, k);
      }
    }
  }

  lemma InsertAscending(s: seq<nat>, k: nat, x: nat)
    requires Ascending(s) && k <= |s| && x !in s
    requires (forall j :: 0 <= j < k ==> s[j] < x) && (k < |s| ==> s[k] >= x)
    ensures Ascending(s[..k] + [x] + s[k..])
  {
  }

  /** The second free block starts where the first one ends. */
  predicate Touching(b: Blocks, h: nat, k: nat)
  {
    h in b && End(b, h) == k
  }

  lemma FreeBlock(b: Blocks, lo: nat, hi: nat, free: seq<nat>, i: nat)
    requires Tiled(b, lo, hi) && FreeListOk(b, free) && i < |free|
    ensures free[i] in b && b[free[i]].clazz.None? && free[i] >= lo
  {
    assert Placed(b, lo, hi, free[i]);
  }

  lemma RearrangedSelf(b: Blocks)
    ensures Rearranged(b, b)
  {
  }

  /** Taking a free block into the free block before it. */
  lemma MergeFree(b: Blocks, lo: nat, hi: nat, free: seq<nat>, i: nat)
    requires Tiled(b, lo, hi) && FreeListOk(b, free) && Ascending(free)
    requires i + 1 < |free| && free[i] in b && End(b, free[i]) == free[i + 1]
    ensures free[i + 1] in b
    ensures Tiled(Merged(b, free[i]), lo, hi) && Boundary(Merged(b, free[i]), lo, hi)
    ensures var rest := free[..i + 1] + free[i + 2..]; FreeListOk(Merged(b, free[i]), rest) && Ascending(rest)
    ensures Boundary(b, lo, hi) && UsageFrom(Merged(b, free[i]), lo, hi, lo) == UsageFrom(b, lo, hi, lo)
  {
    hide Tiled, UsageFrom, Ascending, Distinct;
    var p, q := free[i], free[i + 1];
    assert q in free && p in free;
    MergeTiled(b, lo, hi, p);
    MergeUsage(b, lo, hi, p);
    WithoutOne(free, i + 1);
  }

  lemma WithoutOne(s: seq<nat>, i: nat)
    requires Ascending(s) && i < |s|
    ensures var rest := s[..i] + s[i + 1..];
      Ascending(rest) && Distinct(rest) && forall x :: x in rest <==> x in s && x != s[i]
  {
    var rest := s[..i] + s[i + 1..];
    forall x ensures x in rest <==> x in s && x != s[i] {
      if x in s && x != s[i] {
        var j :| 0 <= j < |s| && s[j] == x;
        assert x == if j < i then rest[j] else rest[j - 1];
      }
    }
  }

  lemma MergeUsage(b: Blocks, lo: nat, hi: nat, p: nat)
    requires Tiled(b, lo, hi) && p in b && b[p].clazz.None? && End(b, p) in b && b[End(b, p)].clazz.None?
    requires Tiled(Merged(b, p), lo, hi)
    ensures Boundary(b, lo, hi) && Boundary(Merged(b, p), lo, hi)
    ensures UsageFrom(Merged(b, p), lo, hi, lo) == UsageFrom(b, lo, hi, lo)
  {
    hide Tiled, UsageFrom;
    var q, c := End(b, p), Merged(b, p);
    TiledAt(b, lo, hi, p);
    TiledAt(b, lo, hi, q);
    TiledAt(c, lo, hi, p);
    assert End(c, p) == End(b, q);
    UsageSame(b, c, lo, hi, End(b, q));
    UsageStep(b, lo, hi, p);
    UsageStep(b, lo, hi, q);
    UsageStep(c, lo, hi, p);
    UsageChange(b, c, lo, hi, lo, p);
  }

  lemma RearrangedMerge(a: Blocks, b: Blocks, lo: nat, hi: nat, p: nat)
    requires Tiled(b, lo, hi) && Rearranged(a, b)
    requires p in b && b[p].clazz.None? && End(b, p) in b && b[End(b, p)].clazz.None?
    ensures Rearranged(a, Merged(b, p))
  {
    var q, c := End(b, p), Merged(b, p);
    assert Placed(b, lo, hi, p) && Placed(b, lo, hi, q);
    forall h: nat, size: nat | InFree(a, h, size) ensures InFree(c, h, size) {
      assert InFree(b, h, size);
      var f :| f in b && b[f].clazz.None? && f <= h && h + size <= End(b, f);
      assert h + size <= End(c, if f == q then p else f);
    }
  }

  /** In ascending order, free blocks that touch are neighbours in the list. */
  lemma NoneTouching(b: Blocks, lo: nat, hi: nat, free: seq<nat>)
    requires Tiled(b, lo, hi) && FreeListOk(b, free) && Ascending(free)
    requires forall i :: 0 <= i < |free| - 1 ==> Touching(b, free[i], free[i + 1]) == false
    ensures Coalesced(b)
  {
    forall h, k | h in b && k in b && b[h].clazz.None? && b[k].clazz.None? ensures End(b, h) != k {
      assert h in free && k in free && Placed(b, lo, hi, h);
      var i, j :| 0 <= i < |free| && 0 <= j < |free| && free[i] == h && free[j] == k;
      assert i < j ==> Touching(b, free[i], free[i + 1]) == false && Apart(b, h, free[i + 1]);
    }
  }

  lemma SweptStart(b: Blocks, lo: nat, hi: nat, mark: nat)
    requires Tiled(b, lo, hi)
    ensures SweptTo(b, b, mark, lo)
  {
    forall h | h in b ensures lo <= h {
      assert Placed(b, lo, hi, h);
    }
  }

  lemma SweptNext(b: Blocks, c: Blocks, lo: nat, hi: nat, mark: nat, pos: nat)
    requires Tiled(c, lo, hi) && SweptTo(b, c, mark, pos) && pos in c
    ensures b[pos] == c[pos]
    ensures SweptTo(b, c[pos := Swept(c[pos], mark)], mark, End(c, pos))
    ensures !Doomed(c[pos], mark) ==> SweptTo(b, c, mark, End(c, pos))
  {
    assert Placed(c, lo, hi, pos);
    forall h | h in b ensures h < End(c, pos) <==> h <= pos {
      assert Apart(c, pos, h);
    }
  }

  lemma FreedListed(b: Blocks, free: seq<nat>, h: nat)
    requires Live(b, h) && FreeListOk(b, free)
    ensures FreeListOk(b[h := b[h].(clazz := None, mark := EXTERNAL)], free + [h])
  {
  }

  lemma OneBlock(lo: nat, hi: nat, b: Blocks)
    requires 0 < lo < hi && b == map[lo := Block(None, hi - lo, 0, [])]
    ensures Tiled(b, lo, hi) && FreeListOk(b, [lo]) && ObjectsOk(b, lo, hi)
    ensures UsageFrom(b, lo, hi, lo) == Usage(0, 0, hi - lo)
  {
    forall k: nat ensures Placed(b, lo, hi, k) {
    }
    assert UsageFrom(b, lo, hi, hi) == Usage(0, 0, 0);
  }

  /** Freeing one object. */
  lemma FreedUsage(b: Blocks, c: Blocks, lo: nat, hi: nat, h: nat)
    requires Tiled(b, lo, hi) && Live(b, h) && c == b[h := b[h].(clazz := None, mark := EXTERNAL)]
    ensures Tiled(c, lo, hi)
    ensures Boundary(b, End(b, h), hi) && UsageFrom(b, lo, hi, End(b, h)) == UsageFrom(c, lo, hi, End(b, h))
    ensures var size: int := b[h].size;
      UsageFrom(c, lo, hi, h) == Minus(UsageFrom(b, lo, hi, h), Usage(1, size, -size)) &&
      UsageFrom(c, lo, hi, lo) == Minus(UsageFrom(b, lo, hi, lo), Usage(1, size, -size))
  {
    hide Tiled, UsageFrom;
    UpdateTiled(b, lo, hi, h, c[h]);
    TiledAt(b, lo, hi, h);
    TiledAt(c, lo, hi, h);
    UsageStep(b, lo, hi, h);
    UsageStep(c, lo, hi, h);
    UsageSame(b, c, lo, hi, End(b, h));
    UsageChange(b, c, lo, hi, lo, h);
  }

  lemma ValuesOk(b: Blocks, lo: nat, hi: nat, o: nat, rank: map<nat, nat>)
    requires Live(b, o) && ObjectsOk(b, lo, hi) && Ranks(b, lo, hi, rank) && o in rank
    ensures SlotsOk(b, lo, hi, b[o].values, rank, rank[o])
  {
    assert ObjectOk(b, lo, hi, o);
    forall v | v in b[o].values && InArena(v, lo, hi)
      ensures Live(b, v.address) && v.address in rank && rank[v.address] < rank[o]
    {
      assert Child(b, lo, hi, o, v.address);
    }
  }
}
