/** The arena: blocks that tile it, what they hold, and which of them can be reached. */
module Heap {
  import opened Prelude

  /** sizeof(Object) and sizeof(Value). */
  const HEADER: nat := 24
  const VALUE: nat := 16

  /** The mark of an object that native code holds on to. */
  const EXTERNAL: nat := 0xffff_ffff_ffff_ffff

  datatype Slot = Pointer(address: nat) | Plain

  /** An object, or free space if it has no class. */
  datatype Block = Block(clazz: Option<nat>, size: nat, mark: nat, values: seq<Slot>)
  type Blocks = map<nat, Block>

  /** How many objects there are, and how many bytes are in use and free. */
  datatype Usage = Usage(objects: int, bytes: int, free: int)

  predicate Live(b: Blocks, h: nat)
  {
    h in b && b[h].clazz.Some?
  }

  function End(b: Blocks, h: nat): nat
    requires h in b
  {
    h + b[h].size
  }

  // ----- tiling -----

  /** A place where a block starts, or the end of the arena. */
  predicate Boundary(b: Blocks, pos: nat, hi: nat)
  {
    pos in b || pos == hi
  }

  /** A block inside the arena, and another one where it ends. */
  predicate Placed(b: Blocks, lo: nat, hi: nat, h: nat)
  {
    h in b ==> lo <= h && b[h].size > 0 && End(b, h) <= hi && Boundary(b, End(b, h), hi)
  }

  predicate Apart(b: Blocks, h: nat, k: nat)
  {
    h in b && k in b && h < k ==> End(b, h) <= k
  }

  /** The blocks lie end to end from lo to hi. */
  ghost predicate Tiled(b: Blocks, lo: nat, hi: nat)
  {
    && lo <= hi && Boundary(b, lo, hi)
    && (forall h: nat {:trigger Placed(b, lo, hi, h)} :: Placed(b, lo, hi, h))
    && (forall h: nat, k: nat {:trigger Apart(b, h, k)} :: Apart(b, h, k))
  }

  /** Every byte of the arena belongs to exactly one block. */
  lemma {:induction false} TilesEveryByte(b: Blocks, lo: nat, hi: nat, pos: nat, a: nat) returns (h: nat)
    requires Tiled(b, lo, hi) && Boundary(b, pos, hi) && pos <= a < hi
    ensures h in b && h <= a < End(b, h)
    ensures forall k :: k in b && k <= a < End(b, k) ==> k == h
    decreases hi - pos
  {
    assert Placed(b, lo, hi, pos);
    if a < End(b, pos) {
      h := pos;
      forall k | k in b && k <= a < End(b, k) ensures k == h {
        assert Apart(b, h, k) && Apart(b, k, h);
      }
    } else {
      h := TilesEveryByte(b, lo, hi, End(b, pos), a);
    }
  }

  /** Resizing a block and putting another one into the space that is left. */
  lemma SplitTiled(b: Blocks, lo: nat, hi: nat, h: nat, x: Block, y: Block)
    requires Tiled(b, lo, hi) && h in b && 0 < x.size && 0 < y.size && x.size + y.size == b[h].size
    ensures h + x.size !in b && Tiled(b[h := x][h + x.size := y], lo, hi)
  {
    var n, c := h + x.size, b[h := x][h + x.size := y];
    assert Placed(b, lo, hi, h) && Apart(b, h, n);
    forall k: nat ensures Placed(c, lo, hi, k) {
      assert Placed(b, lo, hi, k);
    }
    forall j: nat, k: nat ensures Apart(c, j, k) {
      assert Apart(b, j, k) && Apart(b, j, h) && Apart(b, h, k) && Apart(b, h, j);
    }
  }

  lemma UpdateTiled(b: Blocks, lo: nat, hi: nat, h: nat, x: Block)
    requires Tiled(b, lo, hi) && h in b && x.size == b[h].size
    ensures Tiled(b[h := x], lo, hi)
  {
    var c := b[h := x];
    forall k: nat ensures Placed(c, lo, hi, k) {
      assert Placed(b, lo, hi, k);
    }
    forall j: nat, k: nat ensures Apart(c, j, k) {
      assert Apart(b, j, k);
    }
  }

  /** Block q, right after p, taken into it. */
  function Merged(b: Blocks, p: nat): Blocks
    requires p in b && End(b, p) in b
  {
    var q := End(b, p);
    (map h | h in b && h != q :: b[h])[p := b[p].(size := b[p].size + b[q].size)]
  }

  lemma MergeTiled(b: Blocks, lo: nat, hi: nat, p: nat)
    requires Tiled(b, lo, hi) && p in b && End(b, p) in b
    ensures Tiled(Merged(b, p), lo, hi)
  {
    var q, c := End(b, p), Merged(b, p);
    assert Placed(b, lo, hi, p) && Placed(b, lo, hi, q);
    forall k: nat ensures Placed(c, lo, hi, k) {
      assert Placed(b, lo, hi, k) && Apart(b, k, p) && Apart(b, p, k);
    }
    forall j: nat, k: nat ensures Apart(c, j, k) {
      assert Apart(b, j, k) && Apart(b, q, k) && Apart(b, p, k);
    }
    assert lo in b && lo != q by { assert Placed(b, lo, hi, p); }
  }

  // ----- usage -----

  function UsageOf(x: Block): Usage
  {
    if x.clazz.Some? then Usage(1, x.size, 0) else Usage(0, 0, x.size)
  }

  function Plus(a: Usage, b: Usage): Usage
  {
    Usage(a.objects + b.objects, a.bytes + b.bytes, a.free + b.free)
  }

  function Minus(a: Usage, b: Usage): Usage
  {
    Usage(a.objects - b.objects, a.bytes - b.bytes, a.free - b.free)
  }

  /** The usage of the blocks from pos on. */
  ghost function UsageFrom(b: Blocks, lo: nat, hi: nat, pos: nat): Usage
    requires Tiled(b, lo, hi) && Boundary(b, pos, hi)
    decreases hi - pos
  {
    assert Placed(b, lo, hi, pos);
    if pos in b then Plus(UsageOf(b[pos]), UsageFrom(b, lo, hi, End(b, pos))) else Usage(0, 0, 0)
  }

  /** Bytes in use and free bytes make up the arena. */
  lemma {:induction false} UsageTotal(b: Blocks, lo: nat, hi: nat, pos: nat)
    requires Tiled(b, lo, hi) && Boundary(b, pos, hi)
    ensures UsageFrom(b, lo, hi, pos).bytes + UsageFrom(b, lo, hi, pos).free == hi - pos
    ensures UsageFrom(b, lo, hi, pos).objects >= 0 && UsageFrom(b, lo, hi, pos).bytes >= 0
    decreases hi - pos
  {
    assert Placed(b, lo, hi, pos);
    if pos in b {
      UsageTotal(b, lo, hi, End(b, pos));
    }
  }

  predicate SameUse(b: Blocks, c: Blocks, h: nat)
  {
    (h in b <==> h in c) && (h in b ==> UsageOf(b[h]) == UsageOf(c[h]))
  }

  lemma TiledAt(b: Blocks, lo: nat, hi: nat, pos: nat)
    requires Tiled(b, lo, hi)
    ensures Placed(b, lo, hi, pos) && lo <= hi && Boundary(b, lo, hi)
  {
  }

  lemma UsageAtEnd(b: Blocks, lo: nat, hi: nat)
    requires Tiled(b, lo, hi)
    ensures UsageFrom(b, lo, hi, hi) == Usage(0, 0, 0)
  {
    assert Placed(b, lo, hi, hi);
  }

  lemma UsageStep(b: Blocks, lo: nat, hi: nat, pos: nat)
    requires Tiled(b, lo, hi) && Boundary(b, pos, hi) && lo <= pos < hi
    ensures pos in b && b[pos].size > 0 && End(b, pos) <= hi && Boundary(b, End(b, pos), hi)
    ensures UsageFrom(b, lo, hi, pos) == Plus(UsageOf(b[pos]), UsageFrom(b, lo, hi, End(b, pos)))
  {
    assert Placed(b, lo, hi, pos);
  }

  lemma BlocksApart(b: Blocks, lo: nat, hi: nat, h: nat, k: nat)
    requires Tiled(b, lo, hi)
    ensures Apart(b, h, k)
  {
  }

  lemma {:induction false} UsageSame(b: Blocks, c: Blocks, lo: nat, hi: nat, pos: nat)
    requires Tiled(b, lo, hi) && Tiled(c, lo, hi) && Boundary(b, pos, hi)
    requires forall h: nat :: h >= pos ==> SameUse(b, c, h)
    ensures Boundary(c, pos, hi) && UsageFrom(b, lo, hi, pos) == UsageFrom(c, lo, hi, pos)
    decreases hi - pos
  {
    hide Tiled, UsageFrom;
    TiledAt(b, lo, hi, pos);
    TiledAt(c, lo, hi, pos);
    assert SameUse(b, c, pos);
    if pos in b {
      UsageStep(b, lo, hi, pos);
      UsageStep(c, lo, hi, pos);
      UsageSame(b, c, lo, hi, End(b, pos));
    } else {
      UsageAtEnd(b, lo, hi);
      UsageAtEnd(c, lo, hi);
    }
  }

  /** Changes at and after h change every usage before it alike. */
  lemma {:induction false} UsageChange(b: Blocks, c: Blocks, lo: nat, hi: nat, pos: nat, h: nat)
    requires Tiled(b, lo, hi) && Tiled(c, lo, hi) && Boundary(b, pos, hi) && pos <= h && h in b && h in c
    requires forall k: nat :: k < h ==> SameUse(b, c, k)
    ensures Boundary(c, pos, hi)
    ensures Minus(UsageFrom(c, lo, hi, pos), UsageFrom(b, lo, hi, pos))
         == Minus(UsageFrom(c, lo, hi, h), UsageFrom(b, lo, hi, h))
    decreases hi - pos
  {
    hide Tiled, UsageFrom;
    TiledAt(b, lo, hi, pos);
    TiledAt(b, lo, hi, h);
    TiledAt(c, lo, hi, pos);
    if pos < h {
      assert SameUse(b, c, pos);
      UsageStep(b, lo, hi, pos);
      UsageStep(c, lo, hi, pos);
      BlocksApart(b, lo, hi, pos, h);
      UsageChange(b, c, lo, hi, End(b, pos), h);
    }
  }

  // ----- the free list -----

  predicate Distinct(s: seq<nat>)
  {
    forall i, j :: 0 <= i < j < |s| ==> s[i] != s[j]
  }

  /** The free list holds every block without a class, once. */
  ghost predicate FreeListOk(b: Blocks, free: seq<nat>)
  {
    Distinct(free) && forall h :: h in free <==> h in b && b[h].clazz.None?
  }

  predicate Ascending(s: seq<nat>)
  {
    forall i, j :: 0 <= i < j < |s| ==> s[i] < s[j]
  }

  /** No two free blocks touch. */
  predicate Coalesced(b: Blocks)
  {
    forall h, k :: h in b && k in b && b[h].clazz.None? && b[k].clazz.None? ==> End(b, h) != k
  }

  // ----- pointers -----

  /** An object pointer into the arena. */
  predicate InArena(v: Slot, lo: nat, hi: nat)
  {
    v.Pointer? && lo <= v.address < hi
  }

  predicate Child(b: Blocks, lo: nat, hi: nat, h: nat, k: nat)
  {
    Live(b, h) && Pointer(k) in b[h].values && lo <= k < hi
  }

  /** Arena pointers lead to objects, external objects have none, and an object's values fill it. */
  ghost predicate ObjectOk(b: Blocks, lo: nat, hi: nat, h: nat)
  {
    Live(b, h) ==>
      && b[h].size >= HEADER && |b[h].values| == (b[h].size - HEADER) / VALUE
      && forall k :: Child(b, lo, hi, h, k) ==> Live(b, k) && b[h].mark != EXTERNAL
  }

  ghost predicate ObjectsOk(b: Blocks, lo: nat, hi: nat)
  {
    forall h :: h in b ==> ObjectOk(b, lo, hi, h)
  }

  predicate Path(b: Blocks, lo: nat, hi: nat, p: seq<nat>)
  {
    |p| > 0 && forall i :: 0 <= i < |p| - 1 ==> Child(b, lo, hi, p[i], p[i + 1])
  }

  ghost predicate Reaches(b: Blocks, lo: nat, hi: nat, from: nat, to: nat)
  {
    exists p :: Path(b, lo, hi, p) && p[0] == from && p[|p| - 1] == to
  }

  lemma ReachesSelf(b: Blocks, lo: nat, hi: nat, h: nat)
    ensures Reaches(b, lo, hi, h, h)
  {
    assert Path(b, lo, hi, [h]);
  }

  /** What an object reaches is itself and what its children reach. */
  lemma ReachesByChild(b: Blocks, lo: nat, hi: nat, h: nat, to: nat)
    ensures Reaches(b, lo, hi, h, to) <==>
      h == to || exists k :: Child(b, lo, hi, h, k) && Reaches(b, lo, hi, k, to)
  {
    ReachesSelf(b, lo, hi, h);
    if h != to && Reaches(b, lo, hi, h, to) {
      var p :| Path(b, lo, hi, p) && p[0] == h && p[|p| - 1] == to;
      assert Child(b, lo, hi, p[0], p[1]);
      assert Path(b, lo, hi, p[1..]);
      assert Reaches(b, lo, hi, p[1], to);
    }
    if k :| Child(b, lo, hi, h, k) && Reaches(b, lo, hi, k, to) {
      var p :| Path(b, lo, hi, p) && p[0] == k && p[|p| - 1] == to;
      var q := [h] + p;
      assert forall i :: 0 <= i < |q| - 1 ==> Child(b, lo, hi, q[i], q[i + 1]);
      assert Path(b, lo, hi, q);
    }
  }

  // ----- cycles -----

  /** No cycle can be reached from h. */
  ghost predicate NoCycle(b: Blocks, lo: nat, hi: nat, h: nat)
  {
    forall k, l :: Reaches(b, lo, hi, h, k) && Child(b, lo, hi, k, l) ==> !Reaches(b, lo, hi, l, k)
  }

  ghost predicate Acyclic(b: Blocks, lo: nat, hi: nat)
  {
    forall h :: Live(b, h) ==> NoCycle(b, lo, hi, h)
  }

  /** Numbers that fall from every ranked object to what it points to, which is ranked as well. */
  ghost predicate Ranks(b: Blocks, lo: nat, hi: nat, rank: map<nat, nat>)
  {
    forall h, k :: h in rank && Child(b, lo, hi, h, k) ==> k in rank && rank[k] < rank[h]
  }

  /** The blocks that can be reached. */
  ghost function From(b: Blocks, lo: nat, hi: nat, h: nat): set<nat>
  {
    set k | k in b && Reaches(b, lo, hi, h, k)
  }

  /** How much every object reaches that reaches no cycle. */
  ghost function Depths(b: Blocks, lo: nat, hi: nat): map<nat, nat>
  {
    map h | h in b && NoCycle(b, lo, hi, h) :: |From(b, lo, hi, h)|
  }

  lemma ReachesOn(b: Blocks, lo: nat, hi: nat, h: nat, k: nat)
    requires Child(b, lo, hi, h, k)
    ensures forall l :: Reaches(b, lo, hi, k, l) ==> Reaches(b, lo, hi, h, l)
  {
    forall l | Reaches(b, lo, hi, k, l) ensures Reaches(b, lo, hi, h, l) {
      ReachesByChild(b, lo, hi, h, l);
    }
  }

  lemma LessFromChild(b: Blocks, lo: nat, hi: nat, h: nat, k: nat)
    requires NoCycle(b, lo, hi, h) && Child(b, lo, hi, h, k)
    ensures NoCycle(b, lo, hi, k) && |From(b, lo, hi, k)| < |From(b, lo, hi, h)|
  {
    hide Reaches;
    ReachesOn(b, lo, hi, h, k);
    ReachesSelf(b, lo, hi, h);
    var more, less := From(b, lo, hi, h), From(b, lo, hi, k);
    assert h in more && h !in less && less <= more;
    assert |more| == |less| + |more - less| by { assert more == less + (more - less); }
    assert h in more - less;
  }

  lemma DepthsRank(b: Blocks, lo: nat, hi: nat)
    requires ObjectsOk(b, lo, hi)
    ensures Ranks(b, lo, hi, Depths(b, lo, hi))
    ensures forall h :: h in Depths(b, lo, hi) ==> Depths(b, lo, hi)[h] <= |b|
  {
    hide Reaches, NoCycle;
    var rank := Depths(b, lo, hi);
    forall h, k | h in rank && Child(b, lo, hi, h, k) ensures k in rank && rank[k] < rank[h] {
      assert ObjectOk(b, lo, hi, h);
      LessFromChild(b, lo, hi, h, k);
    }
    forall h | h in rank ensures rank[h] <= |b| {
      var all, some := b.Keys, From(b, lo, hi, h);
      assert |all| == |some| + |all - some| by { assert all == some + (all - some); }
    }
  }

  lemma {:induction false} RankFalls(b: Blocks, lo: nat, hi: nat, rank: map<nat, nat>, h: nat, k: nat)
    requires Ranks(b, lo, hi, rank) && h in rank && Reaches(b, lo, hi, h, k)
    ensures k in rank && rank[k] <= rank[h]
    decreases rank[h]
  {
    hide Reaches;
    ReachesByChild(b, lo, hi, h, k);
    if h != k {
      var l :| Child(b, lo, hi, h, l) && Reaches(b, lo, hi, l, k);
      RankFalls(b, lo, hi, rank, l, k);
    }
  }

  lemma RankedNoCycle(b: Blocks, lo: nat, hi: nat, rank: map<nat, nat>, h: nat)
    requires Ranks(b, lo, hi, rank) && h in rank
    ensures NoCycle(b, lo, hi, h)
  {
    hide Reaches;
    forall k, l | Reaches(b, lo, hi, h, k) && Child(b, lo, hi, k, l) ensures !Reaches(b, lo, hi, l, k) {
      RankFalls(b, lo, hi, rank, h, k);
      if Reaches(b, lo, hi, l, k) {
        RankFalls(b, lo, hi, rank, l, k);
      }
    }
  }

  /** Taking pointers away makes no cycle. */
  lemma FewerCycles(b: Blocks, c: Blocks, lo: nat, hi: nat, h: nat)
    requires NoCycle(b, lo, hi, h) && forall x, y :: Child(c, lo, hi, x, y) ==> Child(b, lo, hi, x, y)
    ensures NoCycle(c, lo, hi, h)
  {
    forall x, y | Reaches(c, lo, hi, x, y) ensures Reaches(b, lo, hi, x, y) {
      var p :| Path(c, lo, hi, p) && p[0] == x && p[|p| - 1] == y;
      assert Path(b, lo, hi, p);
    }
  }

  lemma {:induction false} PathsEnd(b: Blocks, lo: nat, hi: nat, h: nat, p: seq<nat>)
    requires NoCycle(b, lo, hi, h) && Path(b, lo, hi, p) && p[0] == h
    ensures |p| <= |From(b, lo, hi, h)| + 1
    decreases |p|
  {
    if |p| > 1 {
      assert Child(b, lo, hi, p[0], p[1]);
      LessFromChild(b, lo, hi, h, p[1]);
      PathsEnd(b, lo, hi, p[1], p[1..]);
    }
  }

  lemma {:induction false} LongPath(b: Blocks, lo: nat, hi: nat, h: nat, k: nat, l: nat, n: nat) returns (p: seq<nat>)
    requires Reaches(b, lo, hi, h, k) && Child(b, lo, hi, k, l) && Reaches(b, lo, hi, l, k)
    ensures Path(b, lo, hi, p) && p[0] == h && p[|p| - 1] == k && |p| > n
  {
    if n == 0 {
      p :| Path(b, lo, hi, p) && p[0] == h && p[|p| - 1] == k;
    } else {
      var first := LongPath(b, lo, hi, h, k, l, n - 1);
      var round :| Path(b, lo, hi, round) && round[0] == l && round[|round| - 1] == k;
      p := first + round;
    }
  }

  ghost predicate PathsWithin(b: Blocks, lo: nat, hi: nat, h: nat, n: nat)
  {
    forall p :: Path(b, lo, hi, p) && p[0] == h ==> |p| <= n
  }

  /** Marking follows every path, whatever is marked already: it ends if and only if no cycle can be reached. */
  lemma MarkingEnds(b: Blocks, lo: nat, hi: nat, h: nat)
    ensures NoCycle(b, lo, hi, h) <==> exists n: nat :: PathsWithin(b, lo, hi, h, n)
  {
    if NoCycle(b, lo, hi, h) {
      forall p | Path(b, lo, hi, p) && p[0] == h ensures |p| <= |From(b, lo, hi, h)| + 1 {
        PathsEnd(b, lo, hi, h, p);
      }
      assert PathsWithin(b, lo, hi, h, |From(b, lo, hi, h)| + 1);
    } else {
      var k, l :| Reaches(b, lo, hi, h, k) && Child(b, lo, hi, k, l) && Reaches(b, lo, hi, l, k);
      forall n: nat ensures !PathsWithin(b, lo, hi, h, n) {
        var p := LongPath(b, lo, hi, h, k, l, n);
      }
    }
  }

  /** The same objects with the same values, whatever their marks. */
  predicate SameObjects(b: Blocks, c: Blocks)
  {
    b.Keys == c.Keys && forall h :: h in b ==> c[h] == b[h].(mark := c[h].mark)
  }

  lemma SamePaths(b: Blocks, c: Blocks, lo: nat, hi: nat, from: nat, to: nat)
    requires SameObjects(b, c)
    ensures Reaches(b, lo, hi, from, to) <==> Reaches(c, lo, hi, from, to)
  {
    forall p: seq<nat> ensures Path(b, lo, hi, p) == Path(c, lo, hi, p) {
      assert forall h, k :: Child(b, lo, hi, h, k) == Child(c, lo, hi, h, k);
    }
  }
}
