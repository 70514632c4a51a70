/** Certified transformations keep code well-formed, and keep its variables as safe to propagate as they were. */
module Preservation {
  import opened Prelude
  import opened Int64
  import opened Opcodes
  import opened Machine
  import opened Simulation
  import opened WellFormedCode

  type Instrs = seq<Instr>

  predicate Certified(c: Instrs, argc: nat, d: Instrs, k: Cert)
  {
    Certifies(c, argc, Indexed(d), k) && k.places[|c|] == |d| && |c| !in k.mid
  }

  // ----- variables -----

  predicate Writes(i: Instr, v: nat)
  {
    (i.StoreVar? || i.IncVar?) && i.v == v
  }

  /** v is a local variable with one writing instruction. */
  predicate WrittenOnce(c: Instrs, argc: nat, v: nat)
  {
    v > argc && forall i, j :: 0 <= i < |c| && 0 <= j < |c| && Writes(c[i], v) && Writes(c[j], v) ==> i == j
  }

  predicate Loaded(c: Instrs, v: nat)
  {
    exists i :: 0 <= i < |c| && c[i] == LoadVar(v)
  }

  predicate CatchSlot(c: Instrs, v: nat)
  {
    exists i :: 0 <= i < |c| && c[i].PushTry? && c[i].v == v
  }

  /** Nothing but v's one store decides its value. */
  predicate Settled(c: Instrs, argc: nat, v: nat)
  {
    WrittenOnce(c, argc, v) && !CatchSlot(c, v)
  }

  /** No store of v has an operand that the optimiser could take for a constant. */
  predicate OpaqueWrite(c: Instrs, v: nat, i: nat)
    requires i < |c|
  {
    Writes(c[i], v) ==>
      c[i].IncVar? || (i > 0 && (c[i - 1].CallStatic? || c[i - 1].PushC? || c[i - 1].Not?))
  }

  predicate Computed(c: Instrs, v: nat)
  {
    forall i :: 0 <= i < |c| ==> OpaqueWrite(c, v, i)
  }

  /** What a variable with a single store must satisfy before its loads may be replaced by a constant. */
  predicate SafeStore(c: Instrs, argc: nat, i: nat)
    requires i < |c|
  {
    c[i].StoreVar? && WrittenOnce(c, argc, c[i].v) && Loaded(c, c[i].v) ==>
      && !CatchSlot(c, c[i].v)
      && (i > 0 && c[i - 1].LoadVar? ==> Settled(c, argc, c[i - 1].v) || Computed(c, c[i - 1].v))
  }

  /**
   No variable that is written once and read is a catch variable, or a copy of a variable that is
   written more than once.
   */
  predicate Safe(c: Instrs, argc: nat)
  {
    forall i :: 0 <= i < |c| ==> SafeStore(c, argc, i)
  }

  predicate SlotBelow(i: Instr, n: nat)
  {
    i.LoadVar? || i.StoreVar? || i.IncVar? || i.PushTry? ==> i.v < n
  }

  predicate SlotsBelow(c: Instrs, n: nat)
  {
    forall i :: 0 <= i < |c| ==> SlotBelow(c[i], n)
  }

  // ----- walking over the groups of a certificate -----

  /** Instructions a to b - 1 were kept, dropped or folded together. */
  predicate Cluster(c: Instrs, d: Instrs, k: Cert, a: nat, b: nat)
    requires |k.places| == |c| + 1
  {
    a < |c| && a !in k.mid &&
    ((Kept(c, Indexed(d), k, a) && b == a + 1) || (Dropped(c, k, a) && b == a + 2) ||
     (Folded(c, Indexed(d), k, a) && b == a + 3))
  }

  /** The group that instruction i belongs to. */
  lemma GroupOf(c: Instrs, argc: nat, d: Instrs, k: Cert, i: nat) returns (a: nat, b: nat)
    requires Certified(c, argc, d, k) && i < |c|
    ensures a <= i < b <= |c| && Cluster(c, d, k, a, b) && b !in k.mid
  {
    hide Kept, Folded, Dropped, CleanTargets, KnownWrites;
    a := 0;
    while true
      invariant a <= i && a !in k.mid
      decreases i - a
    {
      b := NextOf(c, argc, d, k, a);
      if i < b {
        return;
      }
      a := b;
    }
  }

  lemma NextOf(c: Instrs, argc: nat, d: Instrs, k: Cert, a: nat) returns (b: nat)
    requires Certified(c, argc, d, k) && a < |c| && a !in k.mid
    ensures a < b <= |c| && b !in k.mid && Cluster(c, d, k, a, b)
    ensures forall i :: a < i < b ==> i in k.mid
    ensures k.places[b] == k.places[a] + (if Dropped(c, k, a) && b == a + 2 then 0 else 1)
  {
    hide Fetch, Stands, Compute, CleanTargets, KnownWrites;
    assert Kept(c, Indexed(d), k, a) || Dropped(c, k, a) || Folded(c, Indexed(d), k, a);
    b := if Kept(c, Indexed(d), k, a) then a + 1 else if Dropped(c, k, a) then a + 2 else a + 3;
    if b == a + 3 {
      IndexedFetch(d, k.places[a]);
    } else if b == a + 1 {
      IndexedFetch(d, k.places[a]);
    }
  }

  /** The group just before an instruction that starts one. */
  lemma GroupBefore(c: Instrs, argc: nat, d: Instrs, k: Cert, pc: nat) returns (a: nat)
    requires Certified(c, argc, d, k) && 0 < pc <= |c| && pc !in k.mid
    ensures a < pc && a !in k.mid && Cluster(c, d, k, a, pc)
    ensures k.places[pc] == k.places[a] + (if Dropped(c, k, a) && pc == a + 2 then 0 else 1)
  {
    hide Kept, Folded, Dropped, CleanTargets, KnownWrites;
    a := 0;
    while true
      invariant a < pc && a !in k.mid
      decreases pc - a
    {
      var b := NextOf(c, argc, d, k, a);
      if b == pc {
        return;
      }
      a := b;
    }
  }

  /** The instruction that the new instruction j comes from. */
  lemma Origin(c: Instrs, argc: nat, d: Instrs, k: Cert, j: nat) returns (a: nat)
    requires Certified(c, argc, d, k) && j < |d|
    ensures a < |c| && a !in k.mid && k.places[a] == j
    ensures (Kept(c, Indexed(d), k, a) && Stands(c, k, a, d[j])) || (Folded(c, Indexed(d), k, a) && d[j].PushI?)
  {
    hide Fetch, Compute, CleanTargets, KnownWrites;
    a := 0;
    while true
      invariant a <= |c| && a !in k.mid && k.places[a] <= j
      decreases |c| - a
    {
      hide Kept, Folded, Dropped, CleanTargets, KnownWrites;
      var b := NextOf(c, argc, d, k, a);
      if k.places[b] > j {
        break;
      }
      a := b;
    }
    IndexedFetch(d, j);
  }

  /** Neither a store nor an arithmetic instruction: it was kept, if what follows it starts a group. */
  lemma KeptBefore(c: Instrs, argc: nat, d: Instrs, k: Cert, pc: nat)
    requires Certified(c, argc, d, k) && 0 < pc <= |c| && pc !in k.mid
    requires !c[pc - 1].StoreVar? && !c[pc - 1].Arith?
    ensures pc - 1 !in k.mid && Kept(c, Indexed(d), k, pc - 1)
    ensures 0 < k.places[pc] <= |d| && k.places[pc - 1] == k.places[pc] - 1 && Stands(c, k, pc - 1, d[k.places[pc] - 1])
  {
    hide Fetch, Compute, CleanTargets, KnownWrites;
    var a := GroupBefore(c, argc, d, k, pc);
    IndexedFetch(d, k.places[a]);
  }

  lemma {:induction false} PlacesMonotone(c: Instrs, argc: nat, d: Instrs, k: Cert, a: nat, b: nat)
    requires Certified(c, argc, d, k) && a <= b <= |c| && a !in k.mid && b !in k.mid
    ensures k.places[a] <= k.places[b]
    ensures a < b && !Dropped(c, k, a) ==> k.places[a] < k.places[b]
    decreases b - a
  {
    hide Kept, Folded, Dropped, CleanTargets, KnownWrites;
    if a < b {
      var n := NextOf(c, argc, d, k, a);
      PlacesMonotone(c, argc, d, k, n, b);
    }
  }

  /** Data movement and constants are kept as they are, and arithmetic stays arithmetic. */
  lemma StandsShape(c: Instrs, k: Cert, pc: nat, j: Instr)
    requires pc < |c| && Stands(c, k, pc, j)
    ensures c[pc].Dup? || c[pc].Swap? || c[pc].PushI? || c[pc].Return? ==> j == c[pc]
    ensures c[pc].Arith? ==> j.Arith? && j.op == c[pc].op
    ensures Growth(j) == Growth(c[pc]) && Pops(j) <= (if j.Dup? then 1 else Pops(c[pc]))
    ensures j.Dup? ==> c[pc].Dup? || (pc > 0 && c[pc - 1].LoadVar?)
    ensures j.StoreVar? || j.IncVar? || j.Return? || j.Throw? ==> j == c[pc]
    ensures Target(j).Some? ==>
      Target(c[pc]).Some? && Placed(k, Target(c[pc]).value) && Target(j).value == k.places[Target(c[pc]).value]
  {
  }

  /** A group and what it became grow the stack alike. */
  lemma GroupGrowth(c: Instrs, d: Instrs, k: Cert, a: nat, b: nat)
    requires |k.places| == |c| + 1 && b <= |c| && Cluster(c, d, k, a, b)
    ensures k.places[b] == k.places[a] + (if Dropped(c, k, a) && b == a + 2 then 0 else 1)
    ensures if Dropped(c, k, a) && b == a + 2 then Height(c, b) == Height(c, a)
      else k.places[a] < |d| && Height(c, b) == Height(c, a) + Growth(d[k.places[a]])
  {
    hide Stands, Compute;
    if b == a + 1 {
      assert Kept(c, Indexed(d), k, a);
      StandsShape(c, k, a, d[k.places[a]]);
    } else if b == a + 2 {
      assert Height(c, a + 2) == Height(c, a + 1) - 1;
    } else {
      assert Height(c, a + 3) == Height(c, a + 2) - 1 && Height(c, a + 2) == Height(c, a + 1) + 1;
    }
  }

  /** Operand heights are the same before and after. */
  lemma {:induction false} HeightKept(c: Instrs, argc: nat, d: Instrs, k: Cert, pc: nat)
    requires Certified(c, argc, d, k) && pc <= |c| && pc !in k.mid
    ensures k.places[pc] <= |d| && Height(d, k.places[pc]) == Height(c, pc)
    decreases pc
  {
    hide Kept, Folded, Dropped, CleanTargets, KnownWrites, Cluster;
    if pc > 0 {
      var a := GroupBefore(c, argc, d, k, pc);
      PlacesMonotone(c, argc, d, k, pc, |c|);
      HeightKept(c, argc, d, k, a);
      GroupGrowth(c, d, k, a, pc);
    }
  }

  /** The instruction before a kept one that pushes, duplicates or swaps. */
  lemma SameBefore(c: Instrs, argc: nat, d: Instrs, k: Cert, pc: nat)
    requires Certified(c, argc, d, k) && 0 < pc <= |c| && pc !in k.mid
    requires c[pc - 1].Dup? || c[pc - 1].Swap? || c[pc - 1].PushI?
    ensures pc - 1 !in k.mid && 0 < k.places[pc] <= |d| && k.places[pc - 1] == k.places[pc] - 1
    ensures d[k.places[pc] - 1] == c[pc - 1]
  {
    KeptBefore(c, argc, d, k, pc);
    hide Certified, Stands;
    StandsShape(c, k, pc - 1, d[k.places[pc] - 1]);
  }

  /** An arithmetic instruction that no constant feeds directly was kept. */
  lemma ArithBefore(c: Instrs, argc: nat, d: Instrs, k: Cert, pc: nat)
    requires Certified(c, argc, d, k) && 0 < pc <= |c| && pc !in k.mid
    requires c[pc - 1].Arith? && !(pc >= 3 && c[pc - 2].PushI? && c[pc - 3].PushI?)
    ensures pc - 1 !in k.mid && 0 < k.places[pc] <= |d| && k.places[pc - 1] == k.places[pc] - 1
    ensures d[k.places[pc] - 1].Arith?
  {
    var a := GroupBefore(c, argc, d, k, pc);
    assert a == pc - 1 && Kept(c, Indexed(d), k, a) by {
      hide Certified, Kept, Fetch, Compute;
    }
    KeptFetch(c, d, k, a);
    hide Certified, Stands;
    StandsShape(c, k, a, d[k.places[a]]);
  }

  lemma KeptFetch(c: Instrs, d: Instrs, k: Cert, pc: nat)
    requires pc < |c| && |k.places| == |c| + 1 && Kept(c, Indexed(d), k, pc)
    ensures k.places[pc] < |d| && k.places[pc + 1] == k.places[pc] + 1 && Stands(c, k, pc, d[k.places[pc]])
    ensures pc + 1 !in k.mid
  {
    hide Stands;
  }

  lemma FedKept(c: Instrs, argc: nat, d: Instrs, k: Cert, pc: nat)
    requires Certified(c, argc, d, k) && pc < |c| && pc !in k.mid && Fed(c, pc)
    ensures k.places[pc] <= |d| && Fed(d, k.places[pc])
  {
    hide Certified;
    if c[pc - 1].Dup? {
      SameBefore(c, argc, d, k, pc);
    } else {
      ArithBefore(c, argc, d, k, pc);
      SameBefore(c, argc, d, k, pc - 1);
      if c[pc - 2].PushI? {
        SameBefore(c, argc, d, k, pc - 2);
      }
    }
  }

  lemma SoundKept(c: Instrs, argc: nat, d: Instrs, k: Cert, j: nat)
    requires Certified(c, argc, d, k) && WellFormed(c) && j < |d|
    ensures Sound(d, 0, j) && (Target(d[j]).Some? ==> Target(d[j]).value < |d|)
  {
    hide Certified, Height, Fed, Stands, Folded, Kept, Placed;
    var a := Origin(c, argc, d, k, j);
    HeightKept(c, argc, d, k, a);
    assert Sound(c, 0, a);
    if !d[j].PushI? {
      StandsShape(c, k, a, d[j]);
      if d[j].StoreVar? && Height(c, a) >= 2 {
        FedKept(c, argc, d, k, a);
      }
      if d[j].Dup? && !c[a].Dup? {
        DuplicateHeight(c, a);
      }
      if Target(d[j]).Some? {
        TargetKept(c, argc, d, k, Target(c[a]).value);
      }
    }
  }

  lemma TargetKept(c: Instrs, argc: nat, d: Instrs, k: Cert, t: nat)
    requires Certified(c, argc, d, k) && WellFormed(c) && t < |c| && Placed(k, t)
    ensures k.places[t] < |d| && Height(d, k.places[t]) == Height(c, t)
  {
    hide Certified, WellFormed, Height;
    HeightKept(c, argc, d, k, t);
    LastKept(c, argc, d, k);
    PlacesMonotone(c, argc, d, k, t, |c| - 1);
  }

  lemma DuplicateHeight(c: Instrs, a: nat)
    requires WellFormed(c) && 0 < a < |c| && c[a - 1].LoadVar?
    ensures Height(c, a) >= 1
  {
    assert Sound(c, 0, a - 1);
  }

  lemma LastKept(c: Instrs, argc: nat, d: Instrs, k: Cert)
    requires Certified(c, argc, d, k) && WellFormed(c)
    ensures |c| - 1 !in k.mid && |d| > 0 && k.places[|c| - 1] == |d| - 1 && d[|d| - 1].Return?
  {
    hide Fetch, Compute, CleanTargets, KnownWrites, Height, Sound;
    KeptBefore(c, argc, d, k, |c|);
  }

  lemma WellFormedKept(c: Instrs, argc: nat, d: Instrs, k: Cert)
    requires Certified(c, argc, d, k) && WellFormed(c)
    ensures WellFormed(d)
  {
    LastKept(c, argc, d, k);
    forall j: nat | j < |d| ensures Sound(d, 0, j) && (Target(d[j]).Some? ==> Target(d[j]).value < |d|) {
      SoundKept(c, argc, d, k, j);
    }
  }

  lemma SlotsKept(c: Instrs, argc: nat, d: Instrs, k: Cert, n: nat)
    requires Certified(c, argc, d, k) && SlotsBelow(c, n)
    ensures SlotsBelow(d, n)
  {
    forall j: nat | j < |d| ensures SlotBelow(d[j], n) {
      var a := Origin(c, argc, d, k, j);
      assert SlotBelow(c[a], n);
    }
  }

  // ----- safety of constant propagation -----

  /** A variable instruction of the new code stands for the same instruction of the old one. */
  lemma VariableOrigin(c: Instrs, argc: nat, d: Instrs, k: Cert, j: nat) returns (a: nat)
    requires Certified(c, argc, d, k) && j < |d| && (d[j].LoadVar? || d[j].StoreVar? || d[j].IncVar? || d[j].PushTry?)
    ensures a < |c| && a !in k.mid && k.places[a] == j && Kept(c, Indexed(d), k, a) && Stands(c, k, a, d[j])
    ensures d[j] == Moved(k, c[a]) && (d[j].LoadVar? ==> d[j].v !in k.dead)
    ensures (c[a].LoadVar? || c[a].StoreVar? || c[a].IncVar? || c[a].PushTry?) && c[a].v == d[j].v
    ensures d[j].StoreVar? == c[a].StoreVar? && d[j].IncVar? == c[a].IncVar? && d[j].LoadVar? == c[a].LoadVar?
  {
    a := Origin(c, argc, d, k, j);
  }

  /** A write to a slot that is still read survives. */
  lemma WriteSurvives(c: Instrs, argc: nat, d: Instrs, k: Cert, i: nat, v: nat)
    requires Certified(c, argc, d, k) && i < |c| && Writes(c[i], v) && v !in k.dead
    ensures i !in k.mid && !Dropped(c, k, i) && k.places[i] < |d| && d[k.places[i]] == c[i]
  {
    var a, b := GroupOf(c, argc, d, k, i);
    WriteGroup(c, d, k, a, b, i, v);
  }

  lemma WriteGroup(c: Instrs, d: Instrs, k: Cert, a: nat, b: nat, i: nat, v: nat)
    requires |k.places| == |c| + 1 && Cluster(c, d, k, a, b) && a <= i < b <= |c| && Writes(c[i], v) && v !in k.dead
    ensures i !in k.mid && !Dropped(c, k, i) && k.places[i] < |d| && d[k.places[i]] == c[i]
  {
    hide Compute;
  }

  lemma WrittenOnceBefore(c: Instrs, argc: nat, d: Instrs, k: Cert, v: nat)
    requires Certified(c, argc, d, k) && WrittenOnce(d, argc, v) && v !in k.dead
    ensures WrittenOnce(c, argc, v)
  {
    forall i, j | 0 <= i < |c| && 0 <= j < |c| && Writes(c[i], v) && Writes(c[j], v) ensures i == j {
      WriteSurvives(c, argc, d, k, i, v);
      WriteSurvives(c, argc, d, k, j, v);
      PlacesMonotone(c, argc, d, k, if i < j then i else j, if i < j then j else i);
    }
  }

  lemma SettledAfter(c: Instrs, argc: nat, d: Instrs, k: Cert, v: nat)
    requires Certified(c, argc, d, k) && Settled(c, argc, v)
    ensures Settled(d, argc, v)
  {
    forall i: nat, j: nat | i < |d| && j < |d| && Writes(d[i], v) && Writes(d[j], v) ensures i == j {
      var a := VariableOrigin(c, argc, d, k, i);
      var b := VariableOrigin(c, argc, d, k, j);
    }
    NotCaughtAfter(c, argc, d, k, v);
  }

  lemma NotCaughtAfter(c: Instrs, argc: nat, d: Instrs, k: Cert, v: nat)
    requires Certified(c, argc, d, k) && !CatchSlot(c, v)
    ensures !CatchSlot(d, v)
  {
    forall j: nat | j < |d| && d[j].PushTry? ensures d[j].v != v {
      var a := VariableOrigin(c, argc, d, k, j);
    }
  }

  lemma ComputedAfter(c: Instrs, argc: nat, d: Instrs, k: Cert, v: nat)
    requires Certified(c, argc, d, k) && Computed(c, v)
    ensures Computed(d, v)
  {
    forall j: nat | j < |d| ensures OpaqueWrite(d, v, j) {
      if Writes(d[j], v) {
        var a := VariableOrigin(c, argc, d, k, j);
        assert OpaqueWrite(c, v, a);
        if c[a].StoreVar? {
          KeptBefore(c, argc, d, k, a);
        }
      }
    }
  }

  lemma SafeKept(c: Instrs, argc: nat, d: Instrs, k: Cert)
    requires Certified(c, argc, d, k) && WellFormed(c) && Safe(c, argc)
    ensures Safe(d, argc)
  {
    forall j: nat | j < |d| ensures SafeStore(d, argc, j) {
      if d[j].StoreVar? && WrittenOnce(d, argc, d[j].v) && Loaded(d, d[j].v) {
        SafeStoreKept(c, argc, d, k, j);
      }
    }
  }

  lemma SafeStoreKept(c: Instrs, argc: nat, d: Instrs, k: Cert, j: nat)
    requires Certified(c, argc, d, k) && WellFormed(c) && Safe(c, argc)
    requires j < |d| && d[j].StoreVar? && WrittenOnce(d, argc, d[j].v) && Loaded(d, d[j].v)
    ensures SafeStore(d, argc, j)
  {
    hide Certifies, WrittenOnce, Computed, CatchSlot;
    var v := d[j].v;
    var a := VariableOrigin(c, argc, d, k, j);
    var l: nat :| l < |d| && d[l] == LoadVar(v);
    var b := VariableOrigin(c, argc, d, k, l);
    assert c[b] == LoadVar(v) && Loaded(c, v);
    WrittenOnceBefore(c, argc, d, k, v);
    assert SafeStore(c, argc, a);
    NotCaughtAfter(c, argc, d, k, v);
    if j > 0 && d[j - 1].LoadVar? {
      LoadBefore(c, argc, d, k, a);
      var u := d[j - 1].v;
      if Settled(c, argc, u) {
        SettledAfter(c, argc, d, k, u);
      } else {
        ComputedAfter(c, argc, d, k, u);
      }
    }
  }

  /** A load just before a store was just before it all along: a dropped store cannot have stood between them. */
  lemma LoadBefore(c: Instrs, argc: nat, d: Instrs, k: Cert, a: nat)
    requires Certified(c, argc, d, k) && WellFormed(c) && a < |c| && a !in k.mid && c[a].StoreVar?
    requires 0 < k.places[a] <= |d| && d[k.places[a] - 1].LoadVar?
    ensures a > 0 && c[a - 1] == d[k.places[a] - 1]
  {
    StoreIsFed(c, a);
    var b := GroupBefore(c, argc, d, k, a);
    assert |k.places| == |c| + 1;
    hide Certified, WellFormed;
    LoadGroup(c, d, k, b, a);
  }

  lemma StoreIsFed(c: Instrs, a: nat)
    requires WellFormed(c) && a < |c| && c[a].StoreVar?
    ensures a > 0
  {
    assert Sound(c, 0, a);
  }

  /** Two stores in a row need two operands, the first of them a duplicate. */
  lemma StoresApart(c: Instrs, a: nat)
    requires WellFormed(c) && 2 <= a < |c| && c[a].StoreVar? && c[a - 1].StoreVar?
    ensures !c[a - 2].PushI?
  {
    assert Sound(c, 0, a) && Sound(c, 0, a - 1);
    assert Height(c, a) == Height(c, a - 1) - 1;
  }

  lemma LoadGroup(c: Instrs, d: Instrs, k: Cert, a: nat, b: nat)
    requires |k.places| == |c| + 1 && b < |c| && Cluster(c, d, k, a, b) && WellFormed(c) && c[b].StoreVar?
    requires 0 < k.places[b] <= |d| && d[k.places[b] - 1].LoadVar?
    ensures c[b - 1] == d[k.places[b] - 1]
  {
    hide Compute, WellFormed;
    if b == a + 2 {
      StoresApart(c, b);
    }
  }
}
