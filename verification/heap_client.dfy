/** Any sequence of requests to the runtime: what is kept however allocations, collections and stores follow each other. */
module HeapClient {
  import opened Prelude
  import opened Heap
  import opened Collecting

  datatype Request =
    | Allocate(clazz: nat, fields: nat, extraValues: nat)
    | Collect(force: bool)
    | Store(o: nat, slot: nat, v: Slot)
    | Hold(o: nat)
    | Roots(statics: seq<seq<Slot>>, contexts: seq<seq<StackValue>>)

  /** What requests change: the blocks, and where the roots are. */
  datatype Image = Image(blocks: Blocks, statics: seq<seq<Slot>>, contexts: seq<seq<StackValue>>)

  function Rows(s: Image): seq<seq<Slot>>
  {
    RootRows(s.statics, s.contexts)
  }

  /** Every arena pointer in the rows leads to an object. */
  predicate RowsLive(b: Blocks, lo: nat, hi: nat, rows: seq<seq<Slot>>)
  {
    forall row :: row in rows ==> forall v :: v in row ==> (InArena(v, lo, hi) ==> Live(b, v.address))
  }

  /** A store that keeps what the collector relies on: no dangling pointer, none in an external object, no cycle. */
  ghost predicate Allowed(b: Blocks, lo: nat, hi: nat, o: nat, slot: nat, v: Slot)
  {
    && Live(b, o) && slot < |b[o].values|
    && (InArena(v, lo, hi) ==> Live(b, v.address) && b[o].mark != EXTERNAL && !Reaches(b, lo, hi, v.address, o))
  }

  predicate CanHold(b: Blocks, lo: nat, hi: nat, o: nat)
  {
    Live(b, o) && forall v :: v in b[o].values ==> !InArena(v, lo, hi)
  }

  function SizeOf(fields: nat, extraValues: nat): nat
  {
    HEADER + (fields + extraValues) * VALUE
  }

  ghost predicate NoneFits(b: Blocks, size: nat)
  {
    forall h :: h in b && b[h].clazz.None? ==> b[h].size < size
  }

  /** What one request that is served does to the heap. */
  ghost predicate Serves(lo: nat, hi: nat, gcEnabled: bool, request: Request, s: Image, t: Image, now: nat)
  {
    var reached := RowsReached(s.blocks, lo, hi, Rows(s));
    match request
    case Allocate(clazz, fields, extra) =>
      t.statics == s.statics && t.contexts == s.contexts && Survive(s.blocks, t.blocks, reached) &&
      exists o :: NewIn(s.blocks, t.blocks, o, clazz, SizeOf(fields, extra))
    case Collect(force) =>
      t.statics == s.statics && t.contexts == s.contexts &&
      (Collected(s.blocks, t.blocks, now, reached) || (t.blocks == s.blocks && !(gcEnabled && force)))
    case Store(o, slot, v) =>
      t == if Allowed(s.blocks, lo, hi, o, slot, v) then s.(blocks := Stored(s.blocks, o, slot, v)) else s
    case Hold(o) =>
      t == if CanHold(s.blocks, lo, hi, o) then s.(blocks := s.blocks[o := s.blocks[o].(mark := EXTERNAL)]) else s
    case Roots(statics, contexts) =>
      t == if RowsLive(s.blocks, lo, hi, RootRows(statics, contexts)) then Image(s.blocks, statics, contexts) else s
  }

  /** Does an object reach another one? */
  method Leads(r: Runtime, from: nat, to: nat) returns (found: bool)
    requires r.Valid() && Live(r.blocks, from) && NoCycle(r.blocks, r.start, r.end, from)
    ensures found <==> Reaches(r.blocks, r.start, r.end, from, to)
    decreases |From(r.blocks, r.start, r.end, from)|
  {
    hide Reaches, NoCycle, From, Tiled, FreeListOk, RootsOk, UsageFrom, Dated;
    var b, values := r.blocks, r.blocks[from].values;
    ReachesByChild(b, r.start, r.end, from, to);
    found := from == to;
    for i := 0 to |values|
      invariant found ==> Reaches(b, r.start, r.end, from, to)
      invariant !found ==> from != to
      invariant !found ==>
        forall j :: 0 <= j < i && InArena(values[j], r.start, r.end) ==> !Reaches(b, r.start, r.end, values[j].address, to)
    {
      if !found && InArena(values[i], r.start, r.end) {
        assert ObjectOk(b, r.start, r.end, from) && Child(b, r.start, r.end, from, values[i].address);
        LessFromChild(b, r.start, r.end, from, values[i].address);
        found := Leads(r, values[i].address, to);
      }
    }
  }

  ghost function ImageOf(r: Runtime): Image
    reads r
  {
    Image(r.blocks, r.statics, r.contexts)
  }

  /** A store that is not allowed is left out. */
  method TryStore(r: Runtime, o: nat, slot: nat, v: Slot)
    requires r.Valid() && Acyclic(r.blocks, r.start, r.end)
    modifies r`blocks
    ensures r.Valid() && Acyclic(r.blocks, r.start, r.end)
    ensures Serves(r.start, r.end, r.gcEnabled, Store(o, slot, v), old(ImageOf(r)), ImageOf(r), r.clock)
  {
    hide Reaches, NoCycle, Tiled, FreeListOk, RootsOk, UsageFrom, Dated;
    if Live(r.blocks, o) && slot < |r.blocks[o].values| {
      if !InArena(v, r.start, r.end) {
        StoredAcyclic(r.blocks, r.start, r.end, o, slot, v);
        r.SetValue(o, slot, v);
      } else if Live(r.blocks, v.address) && r.blocks[o].mark != EXTERNAL {
        var cycle := Leads(r, v.address, o);
        if !cycle {
          StoredAcyclic(r.blocks, r.start, r.end, o, slot, v);
          r.SetValue(o, slot, v);
        }
      }
    }
  }

  /** One request; it is not served if an allocation finds no free block that is large enough. */
  method ServeOne(r: Runtime, request: Request, now: nat) returns (served: bool)
    requires r.Valid() && Acyclic(r.blocks, r.start, r.end) && r.clock < now < EXTERNAL
    modifies r
    ensures r.Valid() && Acyclic(r.blocks, r.start, r.end) && r.clock <= now && r.gcEnabled == old(r.gcEnabled)
    ensures served ==> Serves(r.start, r.end, r.gcEnabled, request, old(ImageOf(r)), ImageOf(r), now)
    ensures !served ==> request.Allocate? && NoneFits(r.blocks, SizeOf(request.fields, request.extraValues))
  {
    hide Tiled, FreeListOk, ObjectsOk, RootsOk, UsageFrom, Dated, Acyclic, Collected, NewIn, Survive, RowsReached, RootRows,
         RootsTame, PlacedIn, Stored;
    ghost var b, rows := r.blocks, RootRows(r.statics, r.contexts);
    ghost var reached := RowsReached(b, r.start, r.end, rows);
    AcyclicRoots(b, r.start, r.end, rows);
    served := true;
    match request {
      case Allocate(clazz, fields, extra) =>
        var obj;
        ghost var c, free;
        obj, c, free := r.AllocateObject(clazz, fields, extra, now);
        served := obj.Some?;
        if served {
          NewStaysAcyclic(b, r.blocks, r.start, r.end, obj.value, clazz, SizeOf(fields, extra));
        } else {
          StaysAcyclic(b, r.blocks, r.start, r.end, now, reached);
        }
      case Collect(force) =>
        r.Gc(force, now);
        StaysAcyclic(b, r.blocks, r.start, r.end, now, reached);
      case Store(o, slot, v) => TryStore(r, o, slot, v);
      case Hold(o) =>
        if CanHold(r.blocks, r.start, r.end, o) {
          HeldAcyclic(b, r.start, r.end, o);
          r.SetExternalGC(o);
        }
      case Roots(statics, contexts) =>
        if RowsLive(r.blocks, r.start, r.end, RootRows(statics, contexts)) {
          RowsAreRoots(r.blocks, r.start, r.end, RootRows(statics, contexts));
          r.SetRoots(statics, contexts);
        }
    }
  }

  /** The images between requests, each made from the one before by the request in its place. */
  ghost predicate Traced(lo: nat, hi: nat, gcEnabled: bool, requests: seq<Request>, trace: seq<Image>, time: nat)
  {
    0 < |trace| <= |requests| + 1 &&
    forall i :: 0 <= i < |trace| - 1 ==> Serves(lo, hi, gcEnabled, requests[i], trace[i], trace[i + 1], time + i + 1)
  }

  /**
   Serve requests one after another, at times that go by. Each does what it says, and whatever they are, the blocks
   tile the arena, the free list is exactly the blocks without a class, bytes in use and free bytes make up the arena,
   and the counters agree with the objects there are. It stops early only when an allocation finds no space.
   */
  method Serve(r: Runtime, requests: seq<Request>, time: nat) returns (served: nat, ghost trace: seq<Image>)
    requires r.Valid() && Acyclic(r.blocks, r.start, r.end) && r.clock <= time && time + |requests| < EXTERNAL
    modifies r
    ensures Traced(r.start, r.end, r.gcEnabled, requests, trace, time) && |trace| == served + 1
    ensures trace[0] == old(ImageOf(r)) && (served == |requests| ==> trace[served] == ImageOf(r))
    ensures served < |requests| ==>
      var last := requests[served];
      last.Allocate? && NoneFits(r.blocks, SizeOf(last.fields, last.extraValues))
    ensures r.Valid() && Acyclic(r.blocks, r.start, r.end)
    ensures Tiled(r.blocks, r.start, r.end) && FreeListOk(r.blocks, r.freeList) && Boundary(r.blocks, r.start, r.end)
    ensures var u := UsageFrom(r.blocks, r.start, r.end, r.start);
      u.bytes + u.free == r.end - r.start && r.currentBytes == u.bytes && r.currentObjects == u.objects
    ensures r.newObjects == r.currentObjects + r.collectedObjects
  {
    hide Tiled, FreeListOk, ObjectsOk, RootsOk, UsageFrom, Dated, Acyclic, Serves;
    served, trace := 0, [ImageOf(r)];
    var space := true;
    while space && served < |requests|
      invariant served <= |requests| && |trace| == served + 1 && trace[0] == old(ImageOf(r))
      invariant r.Valid() && Acyclic(r.blocks, r.start, r.end) && r.gcEnabled == old(r.gcEnabled)
      invariant Traced(r.start, r.end, r.gcEnabled, requests, trace, time)
      invariant if space then r.clock <= time + served && trace[served] == ImageOf(r)
                else served < |requests| && requests[served].Allocate? &&
                     NoneFits(r.blocks, SizeOf(requests[served].fields, requests[served].extraValues))
      decreases |requests| - served, space
    {
      space := ServeOne(r, requests[served], time + served + 1);
      if space {
        trace, served := trace + [ImageOf(r)], served + 1;
      }
    }
    TiledAt(r.blocks, r.start, r.end, r.start);
    UsageTotal(r.blocks, r.start, r.end, r.start);
  }

  lemma StaysAcyclic(b: Blocks, c: Blocks, lo: nat, hi: nat, mark: nat, reached: iset<nat>)
    requires Acyclic(b, lo, hi) && (c == b || Collected(b, c, mark, reached))
    ensures Acyclic(c, lo, hi)
  {
    if c != b {
      CollectedLater(b, c, lo, hi, mark, reached);
    }
    hide NoCycle;
  }

  lemma NewStaysAcyclic(b: Blocks, c: Blocks, lo: nat, hi: nat, o: nat, clazz: nat, objSize: nat)
    requires Acyclic(b, lo, hi) && NewIn(b, c, o, clazz, objSize)
    ensures Acyclic(c, lo, hi)
  {
    NewAcyclic(b, c, lo, hi, o, clazz, objSize);
    hide NoCycle;
  }

  lemma RowsAreRoots(b: Blocks, lo: nat, hi: nat, rows: seq<seq<Slot>>)
    requires RowsLive(b, lo, hi, rows)
    ensures RootsOk(b, lo, hi, rows)
  {
  }
}
