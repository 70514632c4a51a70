/** The assembler: an instruction list that is appended to, patched, rewritten and erased from in place. */
module Assembling {
  import opened Prelude
  import opened Int64
  import opened Opcodes
  import opened Machine
  import opened Source
  import opened Compiler
  import opened Simulation
  import opened Removal
  import opened Preservation
  import opened Optimiser
  import opened OptimiserProof
  import opened OptimiserTheorem
  import Layout
  import opened Pipeline

  lemma {:induction false} AppendArgs(e: Expr, rest: List<Expr>, done: Instrs)
    ensures done + CompileArgs(Cons(e, rest)) == done + CompileExpr(e) + CompileArgs(rest)
  {
  }

  lemma PatchTest(e: Expr, t: nat)
    ensures var c := CompileTest(e, 0); |c| == TestSize(e) > 0 && c[|c| - 1 := Retarget(c[|c| - 1], t)] == CompileTest(e, t)
  {
    hide CompileExpr;
  }

  /** What the assembler knows of a variable while it scans. */
  datatype VarInfo = VarInfo(ty: nat, loaded: int, stored: nat, last: Option<int64>)

  function ReadCount(c: Instrs, v: nat, n: nat): nat
    requires n <= |c|
  {
    if n == 0 then 0 else ReadCount(c, v, n - 1) + (if Reads(c[n - 1], {v}) then 1 else 0)
  }

  /** After n instructions the table holds what the scan believes, and the counts so far. */
  predicate Tracks(vars: seq<VarInfo>, s: Scan, argc: nat, n: nat)
    requires Scannable(s) && n <= |s.code|
  {
    |vars| == |s.types| && forall v :: 0 <= v < |vars| ==>
      vars[v].ty == s.types[v] && vars[v].last == s.lasts[v] && vars[v].loaded == ReadCount(s.code, v, n) &&
      vars[v].stored == (if v <= argc then 1 else 0) + WriteCount(s.code, v, n)
  }

  /** The table after one more instruction. */
  function Noted(vars: seq<VarInfo>, s: Scan, i: Instr): seq<VarInfo>
    requires SlotBelow(i, |vars|)
  {
    match i
    case LoadVar(v) => vars[v := vars[v].(loaded := vars[v].loaded + 1)]
    case StoreVar(v) => vars[v := vars[v].(stored := vars[v].stored + 1, ty := s.prev, last := s.last)]
    case IncVar(v, _) => vars[v := vars[v].(ty := 0, loaded := vars[v].loaded + 1, stored := vars[v].stored + 1)]
    case _ => vars
  }

  lemma {:induction false} CountsPrefix(c: Instrs, d: Instrs, v: nat, n: nat)
    requires n <= |c| && n <= |d| && c[..n] == d[..n]
    ensures ReadCount(c, v, n) == ReadCount(d, v, n) && WriteCount(c, v, n) == WriteCount(d, v, n)
  {
    if n > 0 {
      assert c[..n - 1] == c[..n][..n - 1] == d[..n - 1];
      assert c[n - 1] == c[..n][n - 1] == d[n - 1];
      CountsPrefix(c, d, v, n - 1);
    }
  }

  lemma TracksStart(c: Instrs, slots: nat, argc: nat, vars: seq<VarInfo>)
    requires SlotsBelow(c, slots) && |vars| == slots
    requires forall v :: 0 <= v < slots ==> vars[v] == VarInfo(0, 0, if v <= argc then 1 else 0, None)
    ensures ScanTo(c, slots, 0) == ScanStart(c, slots) && Tracks(vars, ScanTo(c, slots, 0), argc, 0)
  {
  }

  lemma ScanNext(c: Instrs, slots: nat, i: nat)
    requires SlotsBelow(c, slots) && i < |c|
    ensures ScanTo(c, slots, i + 1) == Pair(Infer(ScanTo(c, slots, i), i), i)
  {
  }

  lemma TracksStep(c: Instrs, slots: nat, argc: nat, i: nat, vars: seq<VarInfo>)
    requires SlotsBelow(c, slots) && i < |c| && Tracks(vars, ScanTo(c, slots, i), argc, i)
    ensures SlotBelow(ScanTo(c, slots, i).code[i], |vars|)
    ensures Tracks(Noted(vars, ScanTo(c, slots, i), ScanTo(c, slots, i).code[i]), ScanTo(c, slots, i + 1), argc, i + 1)
  {
    var s, t := ScanTo(c, slots, i), ScanTo(c, slots, i + 1);
    assert SlotBelow(s.code[i], slots);
    StepKinds(s, i);
    hide ScanTo, TakesType, Digit, SlotsBelow, Infer, Pair;
    var after := Noted(vars, s, s.code[i]);
    forall v: nat | v < slots
      ensures after[v].ty == t.types[v] && after[v].last == t.lasts[v] && after[v].loaded == ReadCount(t.code, v, i + 1)
      ensures after[v].stored == (if v <= argc then 1 else 0) + WriteCount(t.code, v, i + 1)
    {
      CountsPrefix(s.code, t.code, v, i);
    }
  }

  /** One step of the scan rewrites only the instruction and the one after it, and neither into another access. */
  lemma StepKinds(s: Scan, i: nat)
    requires Scannable(s) && i < |s.code|
    ensures var t := Pair(Infer(s, i), i);
      t.code[..i] == s.code[..i] && t.types == Infer(s, i).types && t.lasts == Infer(s, i).lasts &&
      (forall v :: Reads(t.code[i], {v}) == Reads(s.code[i], {v}) && Writes(t.code[i], v) == Writes(s.code[i], v)) &&
      (s.code[i].StoreVar? ==> t.types == s.types[s.code[i].v := s.prev] && t.lasts == s.lasts[s.code[i].v := s.last]) &&
      (s.code[i].IncVar? ==> t.types == s.types[s.code[i].v := 0] && t.lasts == s.lasts) &&
      (!s.code[i].StoreVar? && !s.code[i].IncVar? ==> t.types == s.types && t.lasts == s.lasts)
  {
    hide TakesType, Digit;
  }

  class Assembler {
    var code: Instrs

    constructor ()
      ensures code == []
    {
      code := [];
    }

    // ----- structured code to instructions -----

    method PushInstruction(i: Instr)
      modifies this
      ensures code == old(code) + [i]
    {
      code := code + [i];
    }

    /** An expression whose result is needed. */
    method AssembleExpression(e: Expr)
      modifies this
      ensures code == old(code) + CompileExpr(e)
      decreases e, 1
    {
      match e {
        case Const(i) => PushInstruction(PushI(i));
        case Var(s) => PushInstruction(LoadVar(s));
        case Binary(op, ty, _, _) =>
          AssembleOperands(e);
          PushInstruction(Arith(op, ty));
        case Compare(c, ty, _, _) =>
          AssembleOperands(e);
          PushInstruction(Cmp(ty));
          PushInstruction(PushC(c));
        case Negate(ty, arg) =>
          AssembleExpression(arg);
          PushInstruction(Not(ty));
        case Assign(s, value) =>
          AssembleExpression(value);
          PushInstruction(Dup);
          PushInstruction(StoreVar(s));
        case PostStep(s, up) => AssembleStep(s, up);
        case Call(f, args) =>
          var count := AssembleArguments(args);
          PushInstruction(CallStatic(f, count));
      }
    }

    method AssembleOperands(e: Expr)
      requires e.Binary? || e.Compare?
      modifies this
      ensures code == old(code) + (CompileExpr(e.right) + CompileExpr(e.left))
      decreases e, 0
    {
      AssembleExpression(e.right);
      AssembleExpression(e.left);
    }

    /** ++ or -- whose old value is needed: the order of the subtraction's operands is swapped back. */
    method AssembleStep(slot: nat, up: bool)
      modifies this
      ensures code == old(code) + CompileExpr(PostStep(slot, up))
    {
      PushInstruction(LoadVar(slot));
      PushInstruction(Dup);
      PushInstruction(PushI(1));
      if !up {
        PushInstruction(Swap);
      }
      PushInstruction(Arith(if up then Add else Sub, Integer));
      PushInstruction(StoreVar(slot));
    }

    method AssembleArguments(args: List<Expr>) returns (count: nat)
      modifies this
      ensures code == old(code) + CompileArgs(args) && count == Length(args)
      decreases args, 0
    {
      count := 0;
      var rest := args;
      while rest.Cons?
        invariant code + CompileArgs(rest) == old(code) + CompileArgs(args)
        invariant count + Length(rest) == Length(args)
        invariant rest.Cons? ==> rest == args || rest < args
        decreases rest
      {
        AppendArgs(rest.head, rest.tail, code);
        AssembleExpression(rest.head);
        count := count + 1;
        rest := rest.tail;
      }
    }

    /** An expression whose result is not needed. */
    method AssembleEffect(eff: Effect)
      modifies this
      ensures code == old(code) + CompileEffect(eff)
    {
      match eff {
        case Set(s, value) =>
          AssembleExpression(value);
          PushInstruction(StoreVar(s));
        case Bump(s, up) => PushInstruction(IncVar(s, Amount(up)));
        case Invoke(f, args) =>
          var count := AssembleArguments(args);
          PushInstruction(CallStatic(f, count));
          PushInstruction(Pop);
      }
    }

    method AssembleOptional(eff: Option<Effect>)
      modifies this
      ensures code == old(code) + CompileOption(eff)
    {
      if eff.Some? {
        AssembleEffect(eff.value);
      }
    }

    /** The branch's target is filled in later. */
    method AssembleTest(e: Expr)
      modifies this
      ensures code == old(code) + CompileTest(e, 0)
    {
      AssembleExpression(e);
      LastOfExpr(old(code), e);
      var branch := None;
      if |code| > 2 {
        var last := code[|code| - 1];
        if last.PushC? && Fusible(last.cond) {
          code := code[..|code| - 1];
          branch := Some(Opposite(last.cond));
        }
      }
      if branch.None? {
        PushInstruction(PushI(0));
        PushInstruction(Cmp(Integer));
        branch := Some(Eq);
      }
      PushInstruction(Branch(branch.value, 0));
    }

    /** Fill in the target of the instruction at pos with the address of the next one. */
    method Patch(pos: nat)
      requires pos < |code|
      modifies this
      ensures code == old(code)[pos := Retarget(old(code)[pos], |old(code)|)]
    {
      code := code[pos := Retarget(code[pos], |code|)];
    }

    method AssembleBlock(b: Block)
      modifies this
      ensures code == old(code) + CompileBlock(b, |old(code)|)
      decreases b, 2
    {
      var rest := b;
      while rest.Cons?
        invariant rest == b || rest < b
        invariant code + CompileBlock(rest, |code|) == old(code) + CompileBlock(b, |old(code)|)
        decreases rest
      {
        BlockStep(rest, code);
        AssembleStatement(rest.head);
        rest := rest.tail;
      }
    }

    method AssembleStatement(s: Stmt)
      modifies this
      ensures code == old(code) + CompileStmt(s, |old(code)|)
      decreases s, 1
    {
      hide CompileBlock, CompileTest, CompileLoop, CompileExpr, CompileEffect;
      match s {
        case Do(eff) => AssembleEffect(eff);
        case If(_, _, _) => AssembleIf(s);
        case For(init, _, _, _) =>
          AssembleOptional(init);
          AssembleLoop(s);
        case Ret(result) => AssembleReturn(result);
        case Try(_, _, _) => AssembleTry(s);
        case Raise(value) =>
          AssembleExpression(value);
          PushInstruction(Throw);
      }
    }

    method AssembleReturn(result: Option<Expr>)
      modifies this
      ensures code == old(code) + CompileStmt(Ret(result), |old(code)|)
    {
      hide CompileExpr;
      if result.None? {
        PushInstruction(PushI(0));
      } else {
        AssembleExpression(result.value);
      }
      PushInstruction(Opcodes.Return);
    }

    method AssembleIf(s: Stmt)
      requires s.If?
      modifies this
      ensures code == old(code) + CompileStmt(s, |old(code)|)
      decreases s, 0
    {
      ghost var before := code;
      AssembleTest(s.test);
      var branchPos := |code| - 1;
      AssembleBlock(s.thn);
      var jumpPos := 0;
      if s.els.Some? {
        PushInstruction(Jmp(0));
        jumpPos := |code| - 1;
      }
      Patch(branchPos);
      ghost var mid := code;
      if s.els.Some? {
        AssembleBlock(s.els.value);
        Patch(jumpPos);
      }
      IfPatched(s, before, mid, code);
    }

    /** The loop from its test on. */
    method AssembleLoop(s: Stmt)
      requires s.For?
      modifies this
      ensures code == old(code) + CompileLoop(s.test, s.inc, s.body, |old(code)|)
      decreases s, 0
    {
      ghost var before := code;
      var top := |code|;
      AssembleTest(s.test);
      var branchPos := |code| - 1;
      AssembleBlock(s.body);
      AssembleOptional(s.inc);
      PushInstruction(Jmp(top));
      Patch(branchPos);
      LoopPatched(s, before, code);
    }

    method AssembleTry(s: Stmt)
      requires s.Try?
      modifies this
      ensures code == old(code) + CompileStmt(s, |old(code)|)
      decreases s, 0
    {
      ghost var before := code;
      PushInstruction(PushTry(s.excepVar, 0));
      var tryPos := |code| - 1;
      AssembleBlock(s.body);
      PushInstruction(PopTry);
      PushInstruction(Jmp(0));
      var jumpPos := |code| - 1;
      Patch(tryPos);
      AssembleBlock(s.handler);
      Patch(jumpPos);
      TryPatched(s, before, code);
    }

    /** A function's body, and the return that ends it. */
    method AssembleBody(body: Block)
      requires code == []
      modifies this
      ensures code == CompileBody(body)
    {
      AssembleBlock(body);
      PushInstruction(PushI(0));
      PushInstruction(Opcodes.Return);
    }

    // ----- erasing instructions -----

    method RemoveInstruction(pos: nat)
      requires pos < |code|
      modifies this
      ensures code == RemoveOne(old(code), pos)
    {
      code := code[..pos] + code[pos + 1..];
      ghost var rest := code;
      for i := 0 to |code|
        invariant |code| == |rest|
        invariant forall k :: 0 <= k < i ==> code[k] == Decrement(rest[k], pos)
        invariant forall k :: i <= k < |code| ==> code[k] == rest[k]
      {
        if AddressArg(OpNumber(code[i])).Some? {
          EncodeRoundTrip(code[i]);
          if Target(code[i]).value > pos {
            code := code[i := Retarget(code[i], Target(code[i]).value - 1)];
          }
        } else {
          EncodeRoundTrip(code[i]);
        }
      }
    }

    /** Remove a set of instructions, in ascending order, at the addresses they have by then. */
    method RemoveAll(removeList: set<nat>) returns (removed: bool)
      requires forall a :: a in removeList ==> a < |code|
      modifies this
      ensures code == Remove(old(code), removeList) && removed == (removeList != {})
    {
      ghost var c := code;
      removed := false;
      var pos := 0;
      RemoveNone(c);
      assert (set x | x in removeList && x < 0) == {};
      for a := 0 to |code|
        invariant code == Remove(c, set x | x in removeList && x < a)
        invariant pos == Below(removeList, a)
        invariant removed <==> exists x :: x in removeList && x < a
      {
        ghost var done := set x | x in removeList && x < a;
        assert (set x | x in removeList && x < a + 1) == if a in removeList then done + {a} else done;
        if a in removeList {
          RemoveNext(c, done, a);
          BelowPrefix(removeList, done, a);
          RemoveInstruction(a - pos);
          pos := pos + 1;
          removed := true;
        }
      }
      assert (set x | x in removeList && x < |c|) == removeList;
    }

    // ----- the optimiser -----

    /** One instruction of pass 1; s is what the scan believes before it. */
    method ScanInstruction(ghost s: Scan, i: nat, prevType: nat, last: Option<int64>, vars: seq<VarInfo>)
      returns (nextType: nat, nextLast: Option<int64>, nextVars: seq<VarInfo>)
      requires Scannable(s) && i < |code| && s.code == code && s.prev == prevType && s.last == last
      requires SlotBelow(code[i], |vars|) && |vars| == |s.types|
      requires forall v :: 0 <= v < |vars| ==> vars[v].ty == s.types[v] && vars[v].last == s.lasts[v]
      modifies this
      ensures nextVars == Noted(vars, s, s.code[i])
      ensures code == Pair(Infer(s, i), i).code
      ensures nextType == Pair(Infer(s, i), i).prev && nextLast == Pair(Infer(s, i), i).last
    {
      hide Digit, SlotsBelow, Pair;
      nextType, nextLast, nextVars := prevType, last, vars;
      match code[i] {
        case LoadVar(v) =>
          nextType := vars[v].ty;
          nextVars := vars[v := vars[v].(loaded := vars[v].loaded + 1)];
          nextLast := vars[v].last;
        case StoreVar(v) =>
          nextVars := vars[v := vars[v].(stored := vars[v].stored + 1, ty := prevType, last := last)];
        case IncVar(v, _) =>
          nextVars := vars[v := vars[v].(ty := 0, loaded := vars[v].loaded + 1, stored := vars[v].stored + 1)];
        case _ => nextType, nextLast := InferOther(s, i, prevType);
      }
      PairDuplicates(s, i);
      if i + 1 < |code| && code[i].LoadVar? && code[i + 1] == code[i] {
        code := code[i + 1 := Dup];
      }
    }

    /** An instruction that is no access to a variable. */
    method InferOther(ghost s: Scan, i: nat, prevType: nat) returns (nextType: nat, nextLast: Option<int64>)
      requires Scannable(s) && i < |code| && s.code == code && s.prev == prevType
      requires !code[i].LoadVar? && !code[i].StoreVar? && !code[i].IncVar?
      modifies this
      ensures code == Infer(s, i).code && nextType == Infer(s, i).prev && nextLast == Infer(s, i).last
    {
      hide Digit, SlotsBelow;
      var op := code[i];
      nextType, nextLast := prevType, None;
      if prevType != 0 && Digit(op) == 0 && Group(op) == 2 {
        code := code[i := WithType(op)];
      } else if !op.Dup? {
        nextType := Digit(op);
      }
      if op.PushI? {
        nextLast := Some(op.i);
      }
      KindOf(op);
      DigitOf(op);
    }

    /** Pass 1: types and last values along the code, arithmetic typed and double loads turned into DUP. */
    method ScanCode(argc: nat, slots: nat) returns (vars: seq<VarInfo>)
      requires SlotsBelow(code, slots)
      modifies this
      ensures code == ScanTo(old(code), slots, |old(code)|).code
      ensures Tracks(vars, ScanTo(old(code), slots, |old(code)|), argc, |code|)
    {
      hide ScanTo, Infer, Pair, Noted, SlotBelow, SlotsBelow, ReadCount, WriteCount;
      ghost var c := code;
      vars := seq(slots, v requires 0 <= v => VarInfo(0, 0, if v <= argc then 1 else 0, None));
      var prevType: nat, last := 0, None;
      TracksStart(c, slots, argc, vars);
      for i := 0 to |code|
        invariant |code| == |c| && code == ScanTo(c, slots, i).code
        invariant prevType == ScanTo(c, slots, i).prev && last == ScanTo(c, slots, i).last
        invariant Tracks(vars, ScanTo(c, slots, i), argc, i)
      {
        TracksStep(c, slots, argc, i, vars);
        ScanNext(c, slots, i);
        prevType, last, vars := ScanInstruction(ScanTo(c, slots, i), i, prevType, last, vars);
      }
    }

    /** Pass 2: loads of known variables become constants, and are no longer counted. */
    method ReplaceLoads(ghost s: Scan, argc: nat, infos: seq<VarInfo>) returns (vars: seq<VarInfo>)
      requires Scannable(s) && code == s.code && Tracks(infos, s, argc, |code|)
      modifies this
      ensures code == Propagate(s, argc) && |vars| == |infos|
      ensures forall v :: 0 <= v < |vars| ==> vars[v].loaded == ReadCount(code, v, |code|)
    {
      hide ScanTo, ReadCount, WriteCount, SlotsBelow;
      vars := infos;
      for i := 0 to |code|
        invariant |code| == |s.code| && |vars| == |infos|
        invariant forall j :: 0 <= j < i ==> code[j] == PropagateAt(s, argc, s.code[j])
        invariant forall j :: i <= j < |code| ==> code[j] == s.code[j]
        invariant forall v :: 0 <= v < |vars| ==>
          vars[v] == infos[v].(loaded := vars[v].loaded) && vars[v].loaded == ReadCount(code, v, |code|)
      {
        if code[i].LoadVar? {
          var v := code[i].v;
          LoadSlot(s, i);
          if vars[v].stored == 1 && vars[v].last.Some? && vars[v].ty == 1 {
            ReadCountWithout(code, i, vars[v].last.value);
            code := code[i := PushI(vars[v].last.value)];
            vars := vars[v := vars[v].(loaded := vars[v].loaded - 1)];
          }
        }
      }
    }

    /** Pass 3: the dead stores of constants, each with its push. */
    method FindDeadStores(vars: seq<VarInfo>) returns (removeList: set<nat>)
      requires SlotsBelow(code, |vars|)
      requires forall v :: 0 <= v < |vars| ==> vars[v].loaded == ReadCount(code, v, |code|)
      ensures removeList == DeadCode(code)
    {
      hide Unread, ReadCount, SlotsBelow;
      removeList := {};
      var prevOp := None;
      for i := 0 to |code|
        invariant prevOp == if i == 0 then None else Some(code[i - 1])
        invariant forall k: nat :: k in removeList <==> FoundBefore(code, i, k)
      {
        FoundNext(code, i);
        if code[i].StoreVar? {
          StoreSlot(code, |vars|, i);
          ReadCountZero(code, code[i].v, |code|);
          if vars[code[i].v].loaded == 0 && prevOp.Some? && prevOp.value.PushI? {
            removeList := removeList + {i - 1, i};
          }
        }
        prevOp := Some(code[i]);
      }
      DeadCodeIs(code, removeList);
    }

    method OptimiseVars(argc: nat, slots: nat) returns (changed: bool)
      requires SlotsBelow(code, slots)
      modifies this
      ensures code == VarsPass(old(code), argc, slots)
      ensures changed <==> |code| < |old(code)|
    {
      hide ScanTo, ReadCount, WriteCount, SlotsBelow, DeadStore, Remove;
      ghost var c := code;
      var vars := ScanCode(argc, slots);
      ghost var s := ScanTo(c, slots, |c|);
      var varPass := false;
      for v := 0 to slots
        invariant varPass <==> exists u :: 0 <= u < v && ((vars[u].stored == 1 && vars[u].last.Some?) || vars[u].loaded == 0)
      {
        if (vars[v].stored == 1 && vars[v].last.Some?) || vars[v].loaded == 0 {
          varPass := true;
        }
      }
      if varPass {
        vars := ReplaceLoads(s, argc, vars);
      } else {
        NothingKnownHere(s, argc, vars);
      }
      RewrittenSlots(c, argc, slots);
      var removePass := false;
      for v := 0 to slots
        invariant removePass <==> exists u :: 0 <= u < v && vars[u].loaded == 0
      {
        if vars[v].loaded == 0 {
          removePass := true;
        }
      }
      var removeList := {};
      ghost var e := code;
      if removePass {
        removeList := FindDeadStores(vars);
      } else {
        AllRead(code, vars);
      }
      DeadCodeBound(code);
      changed := RemoveAll(removeList);
      RemovedLength(e, removeList);
    }

    // ----- folding -----

    /** One pass over the code; false if a division of constants traps. */
    method FoldOnce() returns (ok: bool, changed: bool)
      modifies this
      ensures ok <==> FoldPass(old(code)).Some?
      ensures ok ==> code == FoldPass(old(code)).value && (changed <==> |code| < |old(code)|)
    {
      hide FoldValue, OpNumber, FoldPass, Digit, Group;
      ghost var c := code;
      changed := false;
      var removeList: set<nat> := {};
      var prevOp1, prevOp2 := None, None;
      for pos := 0 to |code|
        invariant |code| == |c|
        invariant prevOp1 == if pos < 1 then None else Some(c[pos - 1])
        invariant prevOp2 == if pos < 2 then None else Some(c[pos - 2])
        invariant forall j :: 0 <= j < pos ==> FoldDone(c, code, j)
        invariant forall j :: pos <= j < |c| ==> code[j] == c[j]
        invariant forall k: nat :: k in removeList <==>
          k < |c| && ((k + 1 < pos && Foldable(c, k + 1)) || (k + 2 < pos && Foldable(c, k + 2)))
        invariant changed <==> removeList != {}
      {
        var op := code[pos];
        KindOf(op);
        if pos >= 2 {
          KindOf(c[pos - 1]);
          KindOf(c[pos - 2]);
        }
        if Group(op) == 2 && Digit(op) == 1 && op.Arith? &&
           prevOp1.Some? && Group(prevOp1.value) == 3 && Digit(prevOp1.value) == 1 &&
           prevOp2.Some? && Group(prevOp2.value) == 3 && Digit(prevOp2.value) == 1 {
          assert Foldable(c, pos) && FoldDone(c, code, pos - 1) && FoldDone(c, code, pos - 2);
          assert code[pos - 1] == c[pos - 1] && code[pos - 2] == c[pos - 2];
          var i1, i2 := code[pos - 1].i, code[pos - 2].i;
          var result := FoldValue(op.op, i1, i2);
          if result.None? {
            FoldPassIs(c);
            ok := false;
            return;
          }
          ghost var was := code;
          code := code[pos := PushI(result.value)];
          forall j | 0 <= j < pos ensures FoldDone(c, code, j) {
            assert FoldDone(c, was, j);
          }
          removeList := removeList + {pos - 1, pos - 2};
          changed := true;
        }
        prevOp2 := prevOp1;
        prevOp1 := Some(op);
      }
      ok := true;
      FoldsDone(c, code, removeList);
      ConsumedBound(c);
      RemovedLength(code, removeList);
      FoldPassIs(c);
      changed := RemoveAll(removeList);
    }

    method OptimiseArithmetic() returns (ok: bool, changed: bool)
      modifies this
      ensures ok <==> FoldLoop(old(code)).Some?
      ensures ok ==> code == FoldLoop(old(code)).value && (changed <==> |code| < |old(code)|)
    {
      hide FoldPass;
      ghost var c := code;
      var again := true;
      ok, changed := true, false;
      while again
        invariant |code| <= |c| && (changed <==> |code| < |c|)
        invariant again ==> FoldLoop(code) == FoldLoop(c)
        invariant !again ==> FoldLoop(c) == Some(code)
        decreases |code|, again
      {
        ok, again := FoldOnce();
        if !ok {
          return;
        }
        if again {
          changed := true;
        }
      }
    }

    /** The whole optimiser: false if a folded division traps. */
    method Optimise(argc: nat, slots: nat) returns (ok: bool)
      requires SlotsBelow(code, slots)
      modifies this
      ensures ok <==> Optimised(old(code), argc, slots).Some?
      ensures ok ==> code == Optimised(old(code), argc, slots).value
    {
      hide VarsPass, FoldLoop, SlotsBelow;
      ghost var c := code;
      var changed := true;
      ok := true;
      while changed
        invariant SlotsBelow(code, slots)
        invariant changed ==> Optimised(code, argc, slots) == Optimised(c, argc, slots)
        invariant !changed ==> Optimised(c, argc, slots) == Some(code)
        decreases |code|, changed
      {
        ghost var d := Round(code, argc, slots);
        var removed := OptimiseVars(argc, slots);
        var folded;
        ok, folded := OptimiseArithmetic();
        if !ok {
          return;
        }
        changed := removed || folded;
      }
    }

    // ----- layout -----

    /** One instruction, written at position i; false if its address is out of range. */
    method EmitInstruction(inst: Instr, addresses: seq<nat>, words: array<nat>, i: nat) returns (ok: bool)
      requires |addresses| == |code| && i + 1 + |Args(inst)| <= words.Length
      requires forall j :: 0 <= j < |code| ==> addresses[j] == Layout.Address(code, j)
      modifies words
      ensures ok <==> Layout.TargetInRange(code, inst)
      ensures ok ==> words[i..i + 1 + |Args(inst)|] == Encode(Layout.Emitted(code, inst))
      ensures words[..i] == old(words[..i])
    {
      hide Args, OpNumber, AddressArg, Layout.Address, Layout.Emitted, Encode;
      EncodeRoundTrip(inst);
      var op, args, address := OpNumber(inst), Args(inst), AddressArg(OpNumber(inst));
      ok := true;
      words[i] := op;
      for j := 0 to ArgCount(op)
        invariant words[..i] == old(words[..i]) && words[i] == op
        invariant forall m :: 0 <= m < j ==> ArgEmitted(addresses, address, args[m], m, words[i + 1 + m])
      {
        var arg := args[j];
        if address == Some(j) {
          if arg >= |code| {
            assert Target(inst) == Some(arg);
            ok := false;
            return;
          }
          arg := addresses[arg];
        }
        words[i + 1 + j] := arg;
      }
      ghost var emitted := words[i + 1..i + 1 + |args|];
      EmittedArgs(code, inst, addresses, emitted);
      assert words[i..i + 1 + |args|] == [op] + emitted;
    }

    method ComputeAddresses() returns (addresses: seq<nat>, size: nat)
      ensures |addresses| == |code| && size == Layout.Address(code, |code|)
      ensures forall j :: 0 <= j < |code| ==> addresses[j] == Layout.Address(code, j)
    {
      hide Args;
      addresses, size := [], 0;
      for n := 0 to |code|
        invariant |addresses| == n && size == Layout.Address(code, n)
        invariant forall j :: 0 <= j < n ==> addresses[j] == Layout.Address(code, j)
      {
        addresses := addresses + [size];
        size := size + 1 + |Args(code[n])|;
      }
    }

    /** The layout pass: the address of every instruction first, then the words; false if an address is out of range. */
    method LayOut() returns (ok: bool, words: array<nat>)
      ensures fresh(words)
      ensures ok <==> Layout.Laid(code).Some?
      ensures ok ==> words[..] == Layout.Laid(code).value
    {
      hide Args, OpNumber, Encode, Layout.Emitted, Layout.TargetInRange, Layout.Address, Layout.WordsFor;
      var addresses, size := ComputeAddresses();
      words := new nat[size];
      var i: nat := 0;
      Layout.AtStart(code);
      for n := 0 to |code|
        invariant i == Layout.Address(code, n) <= words.Length
        invariant forall m :: 0 <= m < n ==> Layout.TargetInRange(code, code[m])
        invariant words[..i] == Layout.WordsFor(code[..n], code)
      {
        Layout.AddressMonotone(code, n + 1, |code|);
        Layout.AddressNext(code, n);
        ok := EmitInstruction(code[n], addresses, words, i);
        if !ok {
          return;
        }
        Layout.WordsForNext(code, n);
        var next := i + 1 + |Args(code[n])|;
        assert words[..next] == words[..i] + words[i..next];
        i := next;
      }
      ok := true;
      assert code[..|code|] == code && words[..i] == words[..];
      Layout.WordsForAll(code, |code|);
    }

    /** Everything that is done to one function; false if it is not given any words. */
    method Assemble(body: Block, sig: Sig) returns (ok: bool, words: array<nat>)
      requires code == [] && SlotsBelow(CompileBody(body), sig.slots)
      modifies this
      ensures ok <==> AssembledWords(body, sig).Some?
      ensures ok ==> words[..] == AssembledWords(body, sig).value && code == []
    {
      hide CompileBody, Optimised, Layout.Laid, SlotsBelow;
      AssembleBody(body);
      ok := Optimise(sig.argc, sig.slots);
      if !ok {
        words := new nat[0];
        return;
      }
      ok, words := LayOut();
      if ok {
        code := [];
      }
    }
  }

  /** The word that an argument is emitted as. */
  predicate ArgEmitted(addresses: seq<nat>, address: Option<nat>, arg: nat, j: nat, word: nat)
  {
    if address == Some(j) then arg < |addresses| && word == addresses[arg] else word == arg
  }

  lemma EmittedArgs(c: Instrs, inst: Instr, addresses: seq<nat>, emitted: seq<nat>)
    requires |addresses| == |c| && forall j :: 0 <= j < |c| ==> addresses[j] == Layout.Address(c, j)
    requires |emitted| == |Args(inst)|
    requires forall m :: 0 <= m < |emitted| ==>
      ArgEmitted(addresses, AddressArg(OpNumber(inst)), Args(inst)[m], m, emitted[m])
    ensures Layout.TargetInRange(c, inst) && [OpNumber(inst)] + emitted == Encode(Layout.Emitted(c, inst))
  {
    hide Args, OpNumber, AddressArg, Layout.Address;
    EncodeRoundTrip(inst);
    if Target(inst).Some? {
      var a := AddressArg(OpNumber(inst)).value;
      assert ArgEmitted(addresses, Some(a), Args(inst)[a], a, emitted[a]);
      RetargetWords(inst, Layout.Address(c, Target(inst).value));
      assert emitted == Args(inst)[a := emitted[a]];
    } else {
      assert emitted == Args(inst);
    }
  }

  /** What the second half of a step does to the code. */
  lemma PairDuplicates(s: Scan, i: nat)
    requires Scannable(s) && i < |s.code|
    ensures var t := Infer(s, i);
      Pair(t, i) == if i + 1 < |t.code| && t.code[i].LoadVar? && t.code[i + 1] == t.code[i]
                    then t.(code := t.code[i + 1 := Dup]) else t
  {
    hide Infer;
  }

  lemma DigitOf(i: Instr)
    ensures i.PushI? ==> Digit(i) == 1 && Group(i) == 3
    ensures i.Dup? ==> Digit(i) == 0 && Group(i) == 3
  {
  }

  lemma LoadSlot(s: Scan, i: nat)
    requires Scannable(s) && i < |s.code| && s.code[i].LoadVar?
    ensures s.code[i].v < |s.types|
  {
    assert SlotBelow(s.code[i], |s.types|);
  }

  /** A dead store before i, or the push before one. */
  predicate FoundBefore(c: Instrs, i: nat, k: nat)
    requires i <= |c|
  {
    (k < i && DeadStore(c, k)) || (k + 1 < i && DeadStore(c, k + 1))
  }

  lemma FoundNext(c: Instrs, i: nat)
    requires i < |c|
    ensures forall k: nat :: FoundBefore(c, i + 1, k) <==>
      FoundBefore(c, i, k) || (DeadStore(c, i) && (k == i || k + 1 == i))
  {
    forall k: nat
      ensures FoundBefore(c, i + 1, k) <==> FoundBefore(c, i, k) || (DeadStore(c, i) && (k == i || k + 1 == i))
    {
      hide DeadStore;
    }
  }

  lemma DeadCodeIs(c: Instrs, r: set<nat>)
    requires forall k: nat :: k in r <==> FoundBefore(c, |c|, k)
    ensures r == DeadCode(c)
  {
    forall k: nat ensures k in r <==> k in DeadCode(c) {
      hide DeadStore;
      assert k in r <==> FoundBefore(c, |c|, k);
      assert k < |c| ==> (k in DeadCode(c) <==> InDeadStore(c, k));
    }
  }

  lemma StoreSlot(c: Instrs, n: nat, i: nat)
    requires SlotsBelow(c, n) && i < |c| && c[i].StoreVar?
    ensures c[i].v < n
  {
    assert SlotBelow(c[i], n);
  }

  lemma ReadCountWithout(c: Instrs, i: nat, k: int64)
    requires i < |c| && c[i].LoadVar?
    ensures forall v: nat ::
      ReadCount(c[i := PushI(k)], v, |c|) == ReadCount(c, v, |c|) - (if c[i].v == v then 1 else 0)
  {
    forall v: nat
      ensures ReadCount(c[i := PushI(k)], v, |c|) == ReadCount(c, v, |c|) - (if c[i].v == v then 1 else 0)
    {
      ReadCountOne(c, i, k, v, |c|);
    }
  }

  lemma {:induction false} ReadCountOne(c: Instrs, i: nat, k: int64, v: nat, n: nat)
    requires i < |c| && c[i].LoadVar? && n <= |c|
    ensures ReadCount(c[i := PushI(k)], v, n) == ReadCount(c, v, n) - (if i < n && c[i].v == v then 1 else 0)
  {
    if n > 0 {
      ReadCountOne(c, i, k, v, n - 1);
    }
  }

  lemma {:induction false} ReadCountZero(c: Instrs, v: nat, n: nat)
    requires n <= |c|
    ensures ReadCount(c, v, n) == 0 <==> forall j :: 0 <= j < n ==> !Reads(c[j], {v})
    ensures n == |c| ==> (ReadCount(c, v, n) == 0 <==> Unread(c, v))
  {
    if n > 0 {
      ReadCountZero(c, v, n - 1);
    }
  }

  /** The first check found no known variable. */
  lemma NothingKnownHere(s: Scan, argc: nat, vars: seq<VarInfo>)
    requires Scannable(s) && Tracks(vars, s, argc, |s.code|)
    requires forall v :: 0 <= v < |vars| ==> !(vars[v].stored == 1 && vars[v].last.Some?)
    ensures Propagate(s, argc) == s.code
  {
    forall v: nat | v < |vars| ensures Constant(s, argc, v) == None {
    }
    hide Constant;
    forall i: nat | i < |s.code| ensures PropagateAt(s, argc, s.code[i]) == s.code[i] {
    }
  }

  lemma RewrittenSlots(c: Instrs, argc: nat, slots: nat)
    requires SlotsBelow(c, slots)
    ensures SlotsBelow(Rewritten(c, argc, slots), slots)
  {
    hide Constant, ScanTo;
    var s := ScanTo(c, slots, |c|);
    forall i: nat | i < |c| ensures SlotBelow(Rewritten(c, argc, slots)[i], slots) {
      assert SlotBelow(s.code[i], slots);
    }
  }

  /** The second check found every variable read. */
  lemma AllRead(c: Instrs, vars: seq<VarInfo>)
    requires SlotsBelow(c, |vars|)
    requires forall v :: 0 <= v < |vars| ==> vars[v].loaded == ReadCount(c, v, |c|) && vars[v].loaded != 0
    ensures DeadCode(c) == {}
  {
    forall i: nat | i < |c| ensures !DeadStore(c, i) {
      if c[i].StoreVar? {
        StoreSlot(c, |vars|, i);
        ReadCountZero(c, c[i].v, |c|);
      }
      hide ReadCount, Unread;
    }
    hide DeadStore;
  }

  lemma RemovedLength(c: Instrs, r: set<nat>)
    requires forall a :: a in r ==> a < |c|
    ensures |Remove(c, r)| < |c| <==> r != {}
  {
    BelowCounts(r, |c|);
    BelowNone(|c|);
  }

  /** Instruction j has been folded, if it can be. */
  predicate FoldDone(c: Instrs, d: Instrs, j: nat)
    requires j < |c| == |d|
  {
    if Foldable(c, j) then FoldedAt(c, j).Some? && d[j] == PushI(FoldedAt(c, j).value) else d[j] == c[j]
  }

  lemma FoldPassIs(c: Instrs)
    ensures FoldPass(c) == if FoldTraps(c) then None else Some(Remove(WithFolds(c), Consumed(c)))
  {
  }

  /** Integer constants and integer arithmetic, as the optimiser recognises them by their numbers. */
  lemma KindOf(i: Instr)
    ensures Group(i) == 3 && Digit(i) == 1 <==> i.PushI?
    ensures Group(i) == 2 && Digit(i) == 1 && i.Arith? <==> i.Arith? && i.ty == Integer
  {
  }

  lemma FoldsDone(c: Instrs, d: Instrs, r: set<nat>)
    requires |c| == |d| && forall j :: 0 <= j < |c| ==> FoldDone(c, d, j)
    requires forall k: nat :: k in r <==>
      k < |c| && ((k + 1 < |c| && Foldable(c, k + 1)) || (k + 2 < |c| && Foldable(c, k + 2)))
    ensures !FoldTraps(c) && d == WithFolds(c) && r == Consumed(c)
  {
    hide FoldedAt;
    forall i: nat | i < |c| && Foldable(c, i) ensures FoldedAt(c, i).Some? {
      assert FoldDone(c, d, i);
    }
    forall j: nat | j < |c| ensures d[j] == WithFolds(c)[j] {
      assert FoldDone(c, d, j);
    }
    hide Foldable;
    forall k: nat ensures k in r <==> k in Consumed(c) {
    }
  }

  lemma {:induction false} BelowPrefix(r: set<nat>, done: set<nat>, a: nat)
    requires forall x :: x < a ==> (x in r <==> x in done)
    ensures Below(r, a) == Below(done, a)
  {
    if a > 0 {
      BelowPrefix(r, done, a - 1);
    }
  }

  lemma BlockStep(b: Block, done: Instrs)
    requires b.Cons?
    ensures var c := CompileStmt(b.head, |done|);
      done + CompileBlock(b, |done|) == done + c + CompileBlock(b.tail, |done + c|)
  {
    hide CompileStmt;
  }

  lemma {:induction false} PatchIn(a: Instrs, c: Instrs, b: Instrs, k: nat, i: Instr)
    requires k < |c|
    ensures (a + c + b)[|a| + k := i] == a + c[k := i] + b
  {
  }

  lemma IfPatched(s: Stmt, before: Instrs, mid: Instrs, after: Instrs)
    requires s.If?
    requires var T, base := CompileTest(s.test, 0), |before|;
      var t := CompileBlock(s.thn, |before + T|);
      var j := if s.els.Some? then [Jmp(0)] else [];
      mid == (before + T + t + j)[base + |T| - 1 := Retarget(T[|T| - 1], |before + T + t + j|)]
    requires if s.els.None? then after == mid
      else var w := mid + CompileBlock(s.els.value, |mid|);
        after == w[|mid| - 1 := Retarget(w[|mid| - 1], |w|)]
    ensures after == before + CompileStmt(s, |before|)
  {
    hide CompileBlock, CompileTest;
    var T, base := CompileTest(s.test, 0), |before|;
    var t := CompileBlock(s.thn, |before + T|);
    var j := if s.els.Some? then [Jmp(0)] else [];
    PatchTest(s.test, |mid|);
    PatchIn(before, T, t + j, |T| - 1, Retarget(T[|T| - 1], |mid|));
    assert before + T + t + j == before + T + (t + j);
    assert mid == before + CompileTest(s.test, |mid|) + (t + j);
    if s.els.Some? {
      var f := CompileBlock(s.els.value, |mid|);
      var T1 := CompileTest(s.test, |mid|);
      assert mid + f == before + T1 + t + [Jmp(0)] + f;
      assert after == before + T1 + t + [Jmp(|mid + f|)] + f;
    }
  }

  lemma LoopPatched(s: Stmt, before: Instrs, after: Instrs)
    requires s.For?
    requires var T, base := CompileTest(s.test, 0), |before|;
      var b := CompileBlock(s.body, |before + T|);
      var w := before + T + b + CompileOption(s.inc) + [Jmp(base)];
      after == w[base + |T| - 1 := Retarget(T[|T| - 1], |w|)]
    ensures after == before + CompileLoop(s.test, s.inc, s.body, |before|)
  {
    hide CompileBlock, CompileTest, CompileOption;
    var T, base := CompileTest(s.test, 0), |before|;
    var b, c := CompileBlock(s.body, |before + T|), CompileOption(s.inc);
    var w := before + T + b + c + [Jmp(base)];
    PatchTest(s.test, |w|);
    PatchIn(before, T, b + c + [Jmp(base)], |T| - 1, Retarget(T[|T| - 1], |w|));
    assert w == before + T + (b + c + [Jmp(base)]);
  }

  lemma TryPatched(s: Stmt, before: Instrs, after: Instrs)
    requires s.Try?
    requires var base := |before|;
      var b := CompileBlock(s.body, base + 1);
      var w := before + [PushTry(s.excepVar, 0)] + b + [PopTry] + [Jmp(0)];
      var w1 := w[base := PushTry(s.excepVar, |w|)];
      var w2 := w1 + CompileBlock(s.handler, |w1|);
      after == w2[|w| - 1 := Jmp(|w2|)]
    ensures after == before + CompileStmt(s, |before|)
  {
    hide CompileBlock;
    var base := |before|;
    var b := CompileBlock(s.body, base + 1);
    var catchPos := base + 1 + |b| + 2;
    var h := CompileBlock(s.handler, catchPos);
    assert after == before + [PushTry(s.excepVar, catchPos)] + b + [PopTry, Jmp(catchPos + |h|)] + h;
  }

  lemma CompileNonEmpty(e: Expr)
    ensures |CompileExpr(e)| > 0
  {
  }

  lemma LastOfExpr(c: Instrs, e: Expr)
    ensures var d := c + CompileExpr(e);
      |d| > 0 && (d[|d| - 1].PushC? <==> e.Compare?)
    ensures e.Compare? ==> var d := c + CompileExpr(e);
      |d| > 2 && d[|d| - 1] == PushC(e.cond) &&
      d[..|d| - 1] == c + CompileExpr(e.right) + CompileExpr(e.left) + [Cmp(e.ty)]
  {
    if e.Compare? {
      CompileNonEmpty(e.left);
    }
  }
}
