/**
 The peephole optimiser: constants are propagated through variables, stores to variables that are
 never read are removed, and arithmetic on constants is folded, until nothing gets shorter.
 */
module Optimiser {
  import opened Prelude
  import opened Int64
  import opened Opcodes
  import opened Machine
  import opened Simulation
  import opened Removal
  import opened Preservation

  // ----- pass 1: types and last known values, along the code -----

  /** `types` and `lasts` are what the scan believes of every variable. */
  datatype Scan = Scan(code: Instrs, prev: nat, last: Option<int64>, types: seq<nat>, lasts: seq<Option<int64>>)

  predicate Scannable(s: Scan)
  {
    |s.types| == |s.lasts| && SlotsBelow(s.code, |s.types|)
  }

  function ScanStart(c: Instrs, slots: nat): Scan
  {
    Scan(c, 0, None, seq(slots, _ => 0), seq(slots, _ => None))
  }

  /** An arithmetic instruction that follows a typed operand takes its type. */
  predicate TakesType(prev: nat, i: Instr)
  {
    prev != 0 && Digit(i) == 0 && Group(i) == 2
  }

  function WithType(i: Instr): Instr
  {
    match i
    case Arith(op, _) => Arith(op, Integer)
    case Not(_) => Not(Integer)
    case _ => i
  }

  function Infer(s: Scan, n: nat): (t: Scan)
    requires Scannable(s) && n < |s.code|
    ensures Scannable(t) && |t.types| == |s.types| && |t.code| == |s.code|
  {
    match s.code[n]
    case LoadVar(v) => s.(prev := s.types[v], last := s.lasts[v])
    case StoreVar(v) => s.(types := s.types[v := s.prev], lasts := s.lasts[v := s.last])
    case IncVar(v, _) => s.(types := s.types[v := 0])
    case PushI(k) => s.(prev := 1, last := Some(k))
    case Dup => s.(last := None)
    case i =>
      if TakesType(s.prev, i) then s.(code := s.code[n := WithType(i)], last := None)
      else s.(prev := Digit(i), last := None)
  }

  /** The second of two loads of one variable becomes DUP. */
  function Pair(s: Scan, n: nat): (t: Scan)
    requires Scannable(s) && n < |s.code|
    ensures Scannable(t) && |t.types| == |s.types| && |t.code| == |s.code|
  {
    if n + 1 < |s.code| && s.code[n].LoadVar? && s.code[n + 1] == s.code[n]
    then s.(code := s.code[n + 1 := Dup])
    else s
  }

  /** The scan of the first n instructions. */
  function ScanTo(c: Instrs, slots: nat, n: nat): (s: Scan)
    requires SlotsBelow(c, slots) && n <= |c|
    ensures Scannable(s) && |s.types| == slots && |s.code| == |c|
  {
    if n == 0 then ScanStart(c, slots) else Pair(Infer(ScanTo(c, slots, n - 1), n - 1), n - 1)
  }

  // ----- pass 2: loads of known variables -----

  function WriteCount(c: Instrs, v: nat, n: nat): nat
    requires n <= |c|
  {
    if n == 0 then 0 else WriteCount(c, v, n - 1) + (if Writes(c[n - 1], v) then 1 else 0)
  }

  /** `this` and the arguments are stored once by the call. */
  function Stored(c: Instrs, argc: nat, v: nat): nat
  {
    (if v <= argc then 1 else 0) + WriteCount(c, v, |c|)
  }

  /** The constant that the optimiser takes variable v to be. */
  function Constant(s: Scan, argc: nat, v: nat): Option<int64>
    requires Scannable(s) && v < |s.types|
  {
    if Stored(s.code, argc, v) == 1 && s.types[v] == 1 then s.lasts[v] else None
  }

  function PropagateAt(s: Scan, argc: nat, i: Instr): Instr
    requires Scannable(s)
  {
    if i.LoadVar? && i.v < |s.types| && Constant(s, argc, i.v).Some?
    then PushI(Constant(s, argc, i.v).value)
    else i
  }

  function Propagate(s: Scan, argc: nat): (d: Instrs)
    requires Scannable(s)
    ensures |d| == |s.code|
  {
    seq(|s.code|, j requires 0 <= j < |s.code| => PropagateAt(s, argc, s.code[j]))
  }

  function Rewritten(c: Instrs, argc: nat, slots: nat): (d: Instrs)
    requires SlotsBelow(c, slots)
    ensures |d| == |c|
  {
    Propagate(ScanTo(c, slots, |c|), argc)
  }

  // ----- pass 3: constant stores to variables that are never read -----

  predicate Unread(c: Instrs, v: nat)
  {
    forall j :: 0 <= j < |c| ==> !Reads(c[j], {v})
  }

  predicate DeadStore(c: Instrs, i: nat)
    requires i < |c|
  {
    i > 0 && c[i].StoreVar? && c[i - 1].PushI? && Unread(c, c[i].v)
  }

  predicate InDeadStore(c: Instrs, i: nat)
    requires i < |c|
  {
    DeadStore(c, i) || (i + 1 < |c| && DeadStore(c, i + 1))
  }

  /** Every dead store, and the push before it. */
  function DeadCode(c: Instrs): set<nat>
  {
    set i: nat | i < |c| && InDeadStore(c, i)
  }

  function VarsPass(c: Instrs, argc: nat, slots: nat): (d: Instrs)
    requires SlotsBelow(c, slots)
    ensures |d| <= |c|
  {
    var e := Rewritten(c, argc, slots);
    Remove(e, DeadCode(e))
  }

  // ----- folding -----

  predicate Foldable(c: Instrs, i: nat)
    requires i < |c|
  {
    i >= 2 && c[i].Arith? && c[i].ty == Integer && c[i - 1].PushI? && c[i - 2].PushI?
  }

  /** AND is folded bit by bit, although it is executed as a logical and. */
  function FoldValue(op: BinOp, l: int64, r: int64): Option<int64>
  {
    if op == And then Some(BitAnd(l, r)) else Compute(op, l, r)
  }

  function FoldedAt(c: Instrs, i: nat): Option<int64>
    requires i < |c| && Foldable(c, i)
  {
    FoldValue(c[i].op, c[i - 1].i, c[i - 2].i)
  }

  /** A division that traps is folded by trapping: the optimiser does not survive it. */
  predicate FoldTraps(c: Instrs)
  {
    exists i :: 0 <= i < |c| && Foldable(c, i) && FoldedAt(c, i).None?
  }

  function FoldAt(c: Instrs, i: nat): Instr
    requires i < |c| && !FoldTraps(c)
  {
    if Foldable(c, i) then PushI(FoldedAt(c, i).value) else c[i]
  }

  function WithFolds(c: Instrs): (d: Instrs)
    requires !FoldTraps(c)
    ensures |d| == |c|
  {
    seq(|c|, i requires 0 <= i < |c| => FoldAt(c, i))
  }

  predicate FoldedAway(c: Instrs, i: nat)
    requires i < |c|
  {
    (i + 1 < |c| && Foldable(c, i + 1)) || (i + 2 < |c| && Foldable(c, i + 2))
  }

  /** The operands of every folded instruction. */
  function Consumed(c: Instrs): set<nat>
  {
    set i: nat | i < |c| && FoldedAway(c, i)
  }

  function FoldPass(c: Instrs): (d: Option<Instrs>)
    ensures d.Some? ==> |d.value| <= |c|
  {
    if FoldTraps(c) then None else Some(Remove(WithFolds(c), Consumed(c)))
  }

  function FoldLoop(c: Instrs): (d: Option<Instrs>)
    ensures d.Some? ==> |d.value| <= |c|
    decreases |c|
  {
    match FoldPass(c)
    case None => None
    case Some(d) => if |d| < |c| then FoldLoop(d) else Some(d)
  }

  // ----- the optimiser -----

  lemma RemoveSlots(c: Instrs, r: set<nat>, n: nat)
    requires SlotsBelow(c, n)
    ensures SlotsBelow(Remove(c, r), n)
  {
    forall k: nat | k < |Remove(c, r)| ensures SlotBelow(Remove(c, r)[k], n) {
      var i := SurvivorFrom(c, r, |c|, k);
      SurvivorAt(c, r, |c|, i);
      assert SlotBelow(c[i], n);
    }
  }

  lemma {:induction false} FoldLoopSlots(c: Instrs, n: nat)
    requires SlotsBelow(c, n)
    ensures FoldLoop(c).Some? ==> SlotsBelow(FoldLoop(c).value, n)
    decreases |c|
  {
    if !FoldTraps(c) {
      RemoveSlots(WithFolds(c), Consumed(c), n);
      var d := FoldPass(c).value;
      if |d| < |c| {
        FoldLoopSlots(d, n);
      }
    }
  }

  /** One round of both passes. */
  function Round(c: Instrs, argc: nat, slots: nat): (d: Option<Instrs>)
    requires SlotsBelow(c, slots)
    ensures d.Some? ==> |d.value| <= |c| && SlotsBelow(d.value, slots)
  {
    var e := Rewritten(c, argc, slots);
    RemoveSlots(e, DeadCode(e), slots);
    FoldLoopSlots(VarsPass(c, argc, slots), slots);
    FoldLoop(VarsPass(c, argc, slots))
  }

  /** Rounds until one leaves the length alone. None: a folded division trapped. */
  function Optimised(c: Instrs, argc: nat, slots: nat): (d: Option<Instrs>)
    requires SlotsBelow(c, slots)
    ensures d.Some? ==> |d.value| <= |c|
    decreases |c|
  {
    match Round(c, argc, slots)
    case None => None
    case Some(d) => if |d| < |c| then Optimised(d, argc, slots) else Some(d)
  }
}
