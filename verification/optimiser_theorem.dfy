/** The optimiser as a whole: when it preserves behaviour, what it leaves, and where it goes wrong. */
module OptimiserTheorem {
  import opened Prelude
  import opened Int64
  import opened Opcodes
  import opened Machine
  import opened Simulation
  import opened WellFormedCode
  import opened Removal
  import opened Preservation
  import opened Optimiser
  import opened OptimiserProof

  /** A program before layout, with well-formed functions. */
  predicate Assembled(p: Program)
  {
    forall f :: 0 <= f < |p| ==> p[f].code.Indexed? && WellFormed(p[f].code.instrs)
  }

  predicate ReadyFunc(p: Program, f: nat)
  {
    Assembled(p) && f < |p| && Ready(p[f].code.instrs, p[f].sig.slots)
  }

  function WithCode(p: Program, f: nat, d: Instrs): Program
    requires f < |p|
  {
    p[f := Func(p[f].sig, Indexed(d))]
  }

  function SameCert(c: Instrs): Cert
  {
    Cert(seq(|c| + 1, j => j), {}, {}, map[])
  }

  lemma SameCertified(c: Instrs, argc: nat)
    requires WellFormed(c)
    ensures Certifies(c, argc, Indexed(c), SameCert(c))
  {
    WellFormedClean(c);
    NothingKnown(c, argc);
    hide WellFormed, CleanTargets, KnownWrites;
    forall pc: nat | pc < |c| ensures Kept(c, Indexed(c), SameCert(c), pc) {
      SameStands(c, pc);
      hide Stands;
    }
  }

  lemma SameStands(c: Instrs, pc: nat)
    requires WellFormed(c) && pc < |c|
    ensures Stands(c, SameCert(c), pc, c[pc])
  {
    if Target(c[pc]).Some? {
      TargetIsClean(c, pc);
      hide WellFormed;
    }
  }

  /** A certified pass over one function changes no behaviour of the program, and leaves the function ready for more. */
  lemma PassRefines(p: Program, f: nat, d: Instrs, k: Cert)
    requires ReadyFunc(p, f) && Certified(p[f].code.instrs, p[f].sig.argc, d, k)
    ensures ReadyFunc(WithCode(p, f, d), f) && Refines(p, WithCode(p, f, d))
  {
    hide Certifies, WellFormed, SlotsBelow, Refines;
    var c, argc, q := p[f].code.instrs, p[f].sig.argc, WithCode(p, f, d);
    WellFormedKept(c, argc, d, k);
    SlotsKept(c, argc, d, k, p[f].sig.slots);
    var ks := seq(|p|, g requires 0 <= g < |p| => if g == f then k else SameCert(p[g].code.instrs));
    forall g: nat | g < |p| ensures Certifies(p[g].code.instrs, p[g].sig.argc, q[g].code, ks[g]) {
      if g != f {
        SameCertified(p[g].code.instrs, p[g].sig.argc);
      }
    }
    TransformsRefines(p, q, ks);
  }

  // ----- where folding means what is executed -----

  /** A folded and is right if and only if an operand is zero or bit 0 is the only one the operands share. */
  lemma AndFoldsCorrectly(l: int64, r: int64)
    ensures FoldValue(And, l, r) == Compute(And, l, r) <==> l == 0 || r == 0 || ShareBit0Alone(l, r)
  {
    hide ShareBit0Alone;
    BitAndZero(l, r);
    BitAndOne(l, r);
  }

  /** What folding gives: the exact result of the operation, but for and the bits that are set in both operands. */
  lemma FoldIff(op: BinOp, l: int64, r: int64, x: int64)
    ensures FoldValue(op, l, r) == Some(x) <==>
      if op == And
      then forall k: nat :: HasBit(ToWord(x), k) <==> HasBit(ToWord(l), k) && HasBit(ToWord(r), k)
      else IsResult(op, l, r, x)
  {
    hide BitAnd, HasBit, IsResult, Compute;
    ComputeIff(op, l, r, x);
    forall k: nat ensures HasBit(ToWord(BitAnd(l, r)), k) <==> HasBit(ToWord(l), k) && HasBit(ToWord(r), k) {
      BitAndBits(l, r, k);
    }
    if op == And && forall k: nat :: HasBit(ToWord(x), k) <==> HasBit(ToWord(l), k) && HasBit(ToWord(r), k) {
      PowSpan();
      BitsDetermine(ToWord(x), ToWord(BitAnd(l, r)), 64);
      assert FromWord(ToWord(x)) == FromWord(ToWord(BitAnd(l, r)));
    }
  }

  lemma BitAndZero(l: int64, r: int64)
    ensures l == 0 || r == 0 ==> BitAnd(l, r) == 0
  {
    if r == 0 {
      BitAndNatZero(ToWord(l));
    }
  }

  lemma {:induction false} BitAndNatZero(x: nat)
    ensures BitAndNat(x, 0) == 0
    decreases x
  {
    if x > 0 {
      BitAndNatZero(x / 2);
    }
  }

  predicate FoldLoopAgrees(c: Instrs)
    decreases |c|
  {
    AndsAgree(c) &&
    match FoldPass(c)
    case None => true
    case Some(d) => |d| < |c| ==> FoldLoopAgrees(d)
  }

  /** In no round is a variable wrongly taken for a constant, or an and folded whose bits and truth differ. */
  predicate SoundThroughout(c: Instrs, argc: nat, slots: nat)
    requires SlotsBelow(c, slots)
    decreases |c|
  {
    ConstantsSound(c, argc, slots) && FoldLoopAgrees(VarsPass(c, argc, slots)) &&
    match Round(c, argc, slots)
    case None => true
    case Some(d) => |d| < |c| ==> SoundThroughout(d, argc, slots)
  }

  /** A write to v of a value that is no constant: an increment, or the result of a call, a comparison or a not. */
  predicate Varies(c: Instrs, v: nat, i: nat)
    requires i < |c|
  {
    Writes(c[i], v) && (c[i].IncVar? || (i > 0 && (c[i - 1].CallStatic? || c[i - 1].PushC? || c[i - 1].Not?)))
  }

  /** An argument, or a variable that is written a value that is no constant, is never taken for a constant. */
  predicate NeverConstant(c: Instrs, argc: nat, v: nat)
  {
    v <= argc || exists i :: 0 <= i < |c| && Varies(c, v, i)
  }

  /** An instruction whose result will not become a constant. */
  predicate Inconstant(c: Instrs, argc: nat, i: Instr)
  {
    i.PushC? || i.Not? || i.CallStatic? || i.Dup? || (i.LoadVar? && NeverConstant(c, argc, i.v))
  }

  /** An and one of whose operands is seen not to be a constant: the second one, or the first behind a simple second one. */
  predicate AndOpaque(c: Instrs, argc: nat, i: nat)
    requires i < |c|
  {
    c[i].Arith? && c[i].op == And ==>
      i > 0 && (Inconstant(c, argc, c[i - 1]) ||
                (i > 1 && (c[i - 1].PushI? || c[i - 1].LoadVar?) && Inconstant(c, argc, c[i - 2])))
  }

  predicate AndsOpaque(c: Instrs, argc: nat)
  {
    forall i {:trigger AndOpaque(c, argc, i)} :: 0 <= i < |c| ==> AndOpaque(c, argc, i)
  }

  lemma OpaqueAgrees(c: Instrs, argc: nat)
    requires AndsOpaque(c, argc)
    ensures AndsAgree(c)
  {
    forall i: nat | i < |c| && c[i].Arith? && c[i].op == And ensures !Foldable(c, i) {
      assert AndOpaque(c, argc, i);
    }
  }

  /** A variable that is still read keeps its inconstant write. */
  lemma NeverConstantKept(c: Instrs, argc: nat, d: Instrs, k: Cert, v: nat)
    requires Certified(c, argc, d, k) && NeverConstant(c, argc, v) && v !in k.dead
    ensures NeverConstant(d, argc, v)
  {
    if v > argc {
      var i :| 0 <= i < |c| && Varies(c, v, i);
      WriteSurvives(c, argc, d, k, i, v);
      if c[i].StoreVar? {
        KeptBefore(c, argc, d, k, i);
      }
      hide Certified;
      assert Varies(d, v, k.places[i]);
    }
  }

  /** It is in no certificate's table of constants. */
  lemma NeverConstantUnknown(c: Instrs, argc: nat, d: Instrs, k: Cert, v: nat)
    requires Certified(c, argc, d, k) && NeverConstant(c, argc, v)
    ensures v !in k.known
  {
    if v > argc {
      var i :| 0 <= i < |c| && Varies(c, v, i);
      assert KnownWrite(c, k.known, i);
    }
  }

  /** What stands before a kept instruction stays inconstant. */
  lemma InconstantKept(c: Instrs, argc: nat, d: Instrs, k: Cert, pc: nat)
    requires Certified(c, argc, d, k) && 0 < pc <= |c| && pc !in k.mid && Inconstant(c, argc, c[pc - 1])
    ensures 0 < k.places[pc] <= |d| && Inconstant(d, argc, d[k.places[pc] - 1])
  {
    var i := c[pc - 1];
    KeptBefore(c, argc, d, k, pc);
    if i.LoadVar? {
      NeverConstantUnknown(c, argc, d, k, i.v);
      if i.v !in k.dead {
        NeverConstantKept(c, argc, d, k, i.v);
      }
    }
    hide Certified, NeverConstant;
  }

  /** A simple push before a kept instruction stays one. */
  lemma PushKept(c: Instrs, argc: nat, d: Instrs, k: Cert, pc: nat)
    requires Certified(c, argc, d, k) && 0 < pc <= |c| && pc !in k.mid && (c[pc - 1].PushI? || c[pc - 1].LoadVar?)
    ensures pc - 1 !in k.mid && 0 < k.places[pc] <= |d| && k.places[pc - 1] == k.places[pc] - 1
    ensures var j := d[k.places[pc] - 1]; j.PushI? || j.LoadVar? || j.Dup?
  {
    KeptBefore(c, argc, d, k, pc);
    hide Certified;
  }

  lemma AndsOpaqueKept(c: Instrs, argc: nat, d: Instrs, k: Cert)
    requires Certified(c, argc, d, k) && AndsOpaque(c, argc)
    ensures AndsOpaque(d, argc)
  {
    hide Certified, Inconstant, Kept, Folded;
    forall j: nat | j < |d| ensures AndOpaque(d, argc, j) {
      if d[j].Arith? && d[j].op == And {
        var a := Origin(c, argc, d, k, j);
        assert AndOpaque(c, argc, a);
        AndOpaqueKept(c, argc, d, k, a);
      }
    }
  }

  lemma AndOpaqueKept(c: Instrs, argc: nat, d: Instrs, k: Cert, a: nat)
    requires Certified(c, argc, d, k) && a < |c| && a !in k.mid && k.places[a] < |d|
    requires c[a].Arith? && c[a].op == And && AndOpaque(c, argc, a)
    ensures AndOpaque(d, argc, k.places[a])
  {
    hide Certified, NeverConstant;
    if Inconstant(c, argc, c[a - 1]) {
      InconstantKept(c, argc, d, k, a);
    } else {
      PushKept(c, argc, d, k, a);
      InconstantKept(c, argc, d, k, a - 1);
    }
  }

  /** What a certified pass keeps of the code that the static conditions hold of. */
  predicate Static(c: Instrs, argc: nat, slots: nat)
  {
    Ready(c, slots) && Safe(c, argc) && AndsOpaque(c, argc)
  }

  lemma StaticKept(c: Instrs, argc: nat, slots: nat, d: Instrs, k: Cert)
    requires Static(c, argc, slots) && Certified(c, argc, d, k)
    ensures Static(d, argc, slots)
  {
    hide WellFormed, Safe, SlotsBelow, Certified, AndsOpaque;
    WellFormedKept(c, argc, d, k);
    SafeKept(c, argc, d, k);
    SlotsKept(c, argc, d, k, slots);
    AndsOpaqueKept(c, argc, d, k);
  }

  lemma {:induction false} StaticFolds(c: Instrs, argc: nat, slots: nat)
    requires Static(c, argc, slots)
    ensures FoldLoopAgrees(c)
    ensures FoldLoop(c).Some? ==> Static(FoldLoop(c).value, argc, slots)
    decreases |c|
  {
    OpaqueAgrees(c, argc);
    if !FoldTraps(c) {
      var d := FoldPass(c).value;
      hide WellFormed, SlotsBelow, Safe, AndsOpaque, Remove, Consumed, WithFolds, AndsAgree, FoldTraps, Certified;
      FoldsCertified(c, argc);
      StaticKept(c, argc, slots, d, FoldCert(c));
      if |d| < |c| {
        StaticFolds(d, argc, slots);
      }
    }
  }

  /**
   A condition that can be read off the assembled code: no variable that is written once and read is a
   catch variable or a copy of a variable written more than once, and every and has an operand that is seen not
   to be a constant: a comparison, a call, a not, an argument, or a variable written such a value or incremented.
   */
  lemma {:induction false} StaticIsSound(c: Instrs, argc: nat, slots: nat)
    requires Static(c, argc, slots)
    ensures SoundThroughout(c, argc, slots)
    decreases |c|
  {
    hide WellFormed, Safe, AndsOpaque, Rewritten, Remove, DeadCode, Certified, FoldLoopAgrees, SlotsBelow;
    SafeIsSound(c, argc, slots);
    hide ConstantsSound;
    var e := Rewritten(c, argc, slots);
    RewriteCertified(c, argc, slots);
    StaticKept(c, argc, slots, e, RewriteCert(c, argc, slots));
    var g := VarsPass(c, argc, slots);
    StoresCertified(e, argc, slots);
    StaticKept(e, argc, slots, g, StoreCert(e, slots));
    StaticFolds(g, argc, slots);
    match Round(c, argc, slots)
    case None =>
    case Some(d) =>
      if |d| < |c| {
        StaticIsSound(d, argc, slots);
      }
  }

  // ----- the theorem -----

  lemma {:induction false} FoldLoopRefines(p: Program, f: nat, d: Instrs)
    requires ReadyFunc(p, f) && FoldLoopAgrees(p[f].code.instrs) && FoldLoop(p[f].code.instrs) == Some(d)
    ensures ReadyFunc(WithCode(p, f, d), f) && Refines(p, WithCode(p, f, d))
    decreases |p[f].code.instrs|
  {
    hide Refines, Certified, WellFormed, AndsAgree, FoldTraps, Remove, WithFolds, Consumed;
    var c := p[f].code.instrs;
    var e := FoldPass(c).value;
    FoldsCertified(c, p[f].sig.argc);
    PassRefines(p, f, e, FoldCert(c));
    if |e| < |c| {
      var q := WithCode(p, f, e);
      FoldLoopRefines(q, f, d);
      RefinesTransitive(p, q, WithCode(q, f, d));
      assert WithCode(q, f, d) == WithCode(p, f, d);
    }
  }

  lemma RoundRefines(p: Program, f: nat, d: Instrs)
    requires ReadyFunc(p, f)
    requires var c, sig := p[f].code.instrs, p[f].sig;
      ConstantsSound(c, sig.argc, sig.slots) && FoldLoopAgrees(VarsPass(c, sig.argc, sig.slots)) &&
      Round(c, sig.argc, sig.slots) == Some(d)
    ensures ReadyFunc(WithCode(p, f, d), f) && Refines(p, WithCode(p, f, d))
  {
    hide Refines, Certified, WellFormed, ConstantsSound, FoldLoopAgrees, FoldLoop, Rewritten, Remove, DeadCode, SlotsBelow;
    var c, argc, slots := p[f].code.instrs, p[f].sig.argc, p[f].sig.slots;
    var e := Rewritten(c, argc, slots);
    RewriteCertified(c, argc, slots);
    PassRefines(p, f, e, RewriteCert(c, argc, slots));
    var p1 := WithCode(p, f, e);
    var g := VarsPass(c, argc, slots);
    StoresCertified(e, argc, slots);
    PassRefines(p1, f, g, StoreCert(e, slots));
    var p2 := WithCode(p1, f, g);
    FoldLoopRefines(p2, f, d);
    RefinesTransitive(p1, p2, WithCode(p2, f, d));
    RefinesTransitive(p, p1, WithCode(p2, f, d));
    assert WithCode(p2, f, d) == WithCode(p, f, d);
  }

  /**
   The whole optimiser, round after round of propagation, removal, folding and relocation, preserves
   every run of the program that the function is part of.
   */
  lemma {:induction false} OptimiserCorrect(p: Program, f: nat, d: Instrs)
    requires ReadyFunc(p, f)
    requires var c, sig := p[f].code.instrs, p[f].sig;
      SoundThroughout(c, sig.argc, sig.slots) && Optimised(c, sig.argc, sig.slots) == Some(d)
    ensures Refines(p, WithCode(p, f, d)) && ReadyFunc(WithCode(p, f, d), f)
    decreases |p[f].code.instrs|
  {
    hide Refines, WellFormed, ConstantsSound, FoldLoopAgrees, FoldLoop, VarsPass, Round, SlotsBelow;
    var c, argc, slots := p[f].code.instrs, p[f].sig.argc, p[f].sig.slots;
    var e := Round(c, argc, slots).value;
    RoundRefines(p, f, e);
    if |e| < |c| {
      var q := WithCode(p, f, e);
      OptimiserCorrect(q, f, d);
      RefinesTransitive(p, q, WithCode(q, f, d));
      assert WithCode(q, f, d) == WithCode(p, f, d);
    }
  }

  // ----- what is left when it stops -----

  lemma {:induction false} NothingRemoved(c: Instrs, r: set<nat>)
    requires (forall a :: a in r ==> a < |c|) && |Remove(c, r)| == |c|
    ensures r == {} && Remove(c, r) == c
  {
    BelowCounts(r, |c|);
    RemoveNone(c);
  }

  lemma NothingFolded(c: Instrs)
    requires !FoldTraps(c) && Consumed(c) == {}
    ensures forall i :: 0 <= i < |c| ==> !Foldable(c, i)
    ensures WithFolds(c) == c
  {
    forall i: nat | i < |c| ensures !Foldable(c, i) {
      assert i > 0 ==> (FoldedAway(c, i - 1) ==> i - 1 in Consumed(c));
    }
  }

  lemma {:induction false} FoldLoopNormal(c: Instrs)
    requires FoldLoop(c).Some?
    ensures var d := FoldLoop(c).value;
      (forall i :: 0 <= i < |d| ==> !Foldable(d, i)) && (|d| == |c| ==> d == c)
    decreases |c|
  {
    hide FoldTraps, Consumed, WithFolds, Foldable, Remove;
    var d := FoldPass(c).value;
    if |d| < |c| {
      FoldLoopNormal(d);
    } else {
      assert forall a :: a in Consumed(c) ==> a < |c| by { ConsumedBound(c); }
      NothingRemoved(WithFolds(c), Consumed(c));
      NothingFolded(c);
    }
  }

  lemma ConsumedBound(c: Instrs)
    ensures forall a :: a in Consumed(c) ==> a < |c|
  {
  }

  /** When the rounds stop, nothing can be folded and no constant is stored to a variable that is never read. */
  lemma {:induction false} OptimisedNormal(c: Instrs, argc: nat, slots: nat)
    requires SlotsBelow(c, slots) && Optimised(c, argc, slots).Some?
    ensures var d := Optimised(c, argc, slots).value;
      forall i :: 0 <= i < |d| ==> !Foldable(d, i) && !DeadStore(d, i)
    decreases |c|
  {
    hide FoldLoop, Foldable, DeadStore, SlotsBelow, Rewritten, Remove, DeadCode;
    var d := Round(c, argc, slots).value;
    if |d| < |c| {
      OptimisedNormal(d, argc, slots);
    } else {
      var e := Rewritten(c, argc, slots);
      FoldLoopNormal(VarsPass(c, argc, slots));
      DeadCodeBound(e);
      NothingRemoved(e, DeadCode(e));
      NoDeadStores(e);
    }
  }

  lemma DeadCodeBound(c: Instrs)
    ensures forall a :: a in DeadCode(c) ==> a < |c|
  {
  }

  lemma NoDeadStores(c: Instrs)
    requires DeadCode(c) == {}
    ensures forall i :: 0 <= i < |c| ==> !DeadStore(c, i)
  {
    hide DeadStore;
    forall i: nat | i < |c| ensures !DeadStore(c, i) {
      assert InDeadStore(c, i) ==> i in DeadCode(c);
    }
  }
}
