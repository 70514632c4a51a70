/** The emitted code runs as the source program means. */
module CompilerProof {
  import opened Prelude
  import opened Int64
  import opened Opcodes
  import opened Machine
  import opened Source
  import opened Compiler

  // ----- code fragments and single steps -----

  predicate At(code: seq<Instr>, pc: nat, c: seq<Instr>)
  {
    pc + |c| <= |code| && code[pc..pc + |c|] == c
  }

  function CodeOf(src: Source, f: nat): seq<Instr>
    requires f < |src|
  {
    CompileBody(src[f].body)
  }

  lemma AtSplit(code: seq<Instr>, pc: nat, a: seq<Instr>, b: seq<Instr>)
    requires At(code, pc, a + b)
    ensures At(code, pc, a) && At(code, pc + |a|, b)
  {
    assert code[pc..pc + |a|] == code[pc..pc + |a + b|][..|a|] == a;
    assert code[pc + |a|..pc + |a| + |b|] == code[pc..pc + |a + b|][|a|..] == b;
  }

  /** One instruction of the emitted code. */
  lemma StepAt(src: Source, i: Instr, fr: Frame, cs: Frames, st: Stack)
    requires fr.f < |src| && At(CodeOf(src, fr.f), fr.pc, [i])
    ensures StepN(Compiled(src), Running(fr, cs, st), 1)
         == Execute(Compiled(src), i, fr.pc + 1, fr, cs, st)
  {
    var code := CodeOf(src, fr.f);
    assert code[fr.pc] == code[fr.pc..fr.pc + 1][0] == i;
    var s := Running(fr, cs, st);
    assert StepN(Compiled(src), s, 1) == StepN(Compiled(src), Step(Compiled(src), s), 0);
  }

  /** Continue a run of m steps with the data instruction at the pc it has reached. */
  lemma ThenData(src: Source, s: State, m: nat, i: Instr, fr: Frame, cs: Frames, st: Stack)
    requires StepN(Compiled(src), s, m) == Running(fr, cs, st)
    requires fr.f < |src| && At(CodeOf(src, fr.f), fr.pc, [i]) && !Control(i)
    ensures match Operate(i, fr.locals, fr.flags, st)
      case None => true
      case Some(d) =>
        StepN(Compiled(src), s, m + 1) ==
        Running(fr.(pc := fr.pc + 1, locals := d.locals, flags := d.flags), cs, d.stack)
  {
    hide StepN, Operate, Transfer;
    StepNAdd(Compiled(src), s, m, 1);
    StepAt(src, i, fr, cs, st);
  }

  /** Continue a run of m steps with the control instruction at the pc it has reached. */
  lemma ThenControl(src: Source, s: State, m: nat, i: Instr, fr: Frame, cs: Frames, st: Stack)
    requires StepN(Compiled(src), s, m) == Running(fr, cs, st)
    requires fr.f < |src| && At(CodeOf(src, fr.f), fr.pc, [i]) && Control(i)
    ensures StepN(Compiled(src), s, m + 1) == Transfer(Compiled(src), i, fr.pc + 1, fr, cs, st)
  {
    hide StepN, Operate, Transfer;
    StepNAdd(Compiled(src), s, m, 1);
    StepAt(src, i, fr, cs, st);
  }

  lemma ThenJmp(src: Source, s: State, m: nat, t: nat, fr: Frame, cs: Frames, st: Stack)
    requires StepN(Compiled(src), s, m) == Running(fr, cs, st)
    requires fr.f < |src| && At(CodeOf(src, fr.f), fr.pc, [Jmp(t)])
    ensures StepN(Compiled(src), s, m + 1) == Running(fr.(pc := t), cs, st)
  {
    hide StepN, Step, Execute, Unwind, PopArgs, Enter, ReturnFrom;
    ThenControl(src, s, m, Jmp(t), fr, cs, st);
  }

  lemma Here(src: Source, s: State)
    ensures StepN(Compiled(src), s, 0) == s
  {
  }

  /** Where an exception goes does not depend on the pc it was raised at. */
  lemma UnwindIgnoresPc(x: Value, fr: Frame, pc: nat, cs: Frames, st: Stack)
    ensures Unwind(x, fr.(pc := pc), cs, st) == Unwind(x, fr, cs, st)
  {
  }

  // ----- what a run of emitted code must reach -----

  ghost predicate ExprRuns(src: Source, r: ExprResult, fr: Frame, cs: Frames, st: Stack,
                           len: nat, fuel: nat, n: nat, fl: Flags)
  {
    var s := StepN(Compiled(src), Running(fr, cs, st), n);
    match r
    case Val(v, env) =>
      s == Running(fr.(pc := fr.pc + len, locals := env, flags := fl), cs, Push(Operand(v), st))
    case Thrown(x, env, pending) => s == Unwind(x, fr.(locals := env, flags := fl), cs, PushAll(pending, st))
    case Aborted => s == Failed
    case Undef => true
    case Timeout => n >= fuel && s.Running?
  }

  ghost predicate ArgsRun(src: Source, r: ArgsResult, fr: Frame, cs: Frames, st: Stack,
                          len: nat, fuel: nat, n: nat, fl: Flags)
  {
    var s := StepN(Compiled(src), Running(fr, cs, st), n);
    match r
    case Vals(vs, env) => s == Running(fr.(pc := fr.pc + len, locals := env, flags := fl), cs, PushAll(vs, st))
    case ArgsThrown(x, env, pending) => s == Unwind(x, fr.(locals := env, flags := fl), cs, PushAll(pending, st))
    case ArgsAborted => s == Failed
    case ArgsUndef => true
    case ArgsTimeout => n >= fuel && s.Running?
  }

  ghost predicate StmtRuns(src: Source, r: StmtResult, fr: Frame, cs: Frames, st: Stack,
                           len: nat, fuel: nat, n: nat, fl: Flags)
  {
    var s := StepN(Compiled(src), Running(fr, cs, st), n);
    match r
    case Normal(env, litter) =>
      s == Running(fr.(pc := fr.pc + len, locals := env, flags := fl), cs, PushAll(litter, st))
    case Returns(v, litter) => s == ReturnFrom(v, cs, PushAll(litter, st))
    case Throws(x, env, litter) => s == Unwind(x, fr.(locals := env, flags := fl), cs, PushAll(litter, st))
    case Aborts => s == Failed
    case Undefines => true
    case TimesOut => n >= fuel && s.Running?
  }

  /** A test ends with its branch taken exactly when its value is zero. */
  ghost predicate TestRuns(src: Source, r: ExprResult, e: Expr, target: nat, fr: Frame, cs: Frames, st: Stack,
                           fuel: nat, n: nat, fl: Flags)
  {
    match r
    case Val(v, env) =>
      v.Int? ==>
        StepN(Compiled(src), Running(fr, cs, st), n) ==
        Running(fr.(pc := if v.i != 0 then fr.pc + TestSize(e) else target, locals := env, flags := fl), cs, st)
    case _ => ExprRuns(src, r, fr, cs, st, TestSize(e), fuel, n, fl)
  }

  ghost predicate CallRuns(src: Source, r: CallResult, s0: State, cs: Frames, st: Stack, fuel: nat, n: nat)
  {
    var s := StepN(Compiled(src), s0, n);
    match r
    case Result(v) => s == Resume(v, cs, st)
    case Exception(x) => s == UnwindCallers(x, cs, st)
    case CallAborts => s == Failed
    case CallUndefined => true
    case CallTimesOut => n + 1 >= fuel && s.Running?
  }

  // ----- expressions -----

  /** Both operands of a binary operator, the right one first. */
  lemma {:induction false} SimOperands(src: Source, e: Expr, fr: Frame, cs: Frames, st: Stack, fuel: nat)
    returns (r: ArgsResult, n: nat, fl: Flags)
    requires e.Binary? || e.Compare?
    requires fr.f < |src| && At(CodeOf(src, fr.f), fr.pc, CompileExpr(e.right) + CompileExpr(e.left))
    ensures ArgsRun(src, r, fr, cs, st, |CompileExpr(e.right)| + |CompileExpr(e.left)|, fuel, n, fl)
    ensures match r
      case Vals(vs, env) =>
        vs.Cons? && vs.tail.Cons? && vs.tail.tail == Nil &&
        var right := Eval(src, e.right, fr.locals, fuel);
        right.Val? && right.v == vs.head && Eval(src, e.left, right.env, fuel) == Val(vs.tail.head, env)
      case ArgsThrown(x, env, pending) => Eval(src, e, fr.locals, fuel) == Thrown(x, env, pending)
      case ArgsAborted => Eval(src, e, fr.locals, fuel) == Aborted
      case ArgsUndef => Eval(src, e, fr.locals, fuel) == Undef
      case ArgsTimeout => Eval(src, e, fr.locals, fuel) == Timeout
    decreases fuel, 1, e, 0
  {
    hide StepN, Step, Execute, Transfer, Operate, Unwind, UnwindCallers, EvalArgs, CallFunction, EvalBinary, EvalCompare,
      CompileExpr, CodeOf, Compiled;
    var p := Compiled(src);
    var s := Running(fr, cs, st);
    var R, L := CompileExpr(e.right), CompileExpr(e.left);
    AtSplit(CodeOf(src, fr.f), fr.pc, R, L);
    n, fl := SimExpr(src, e.right, fr, cs, st, fuel);
    match Eval(src, e.right, fr.locals, fuel)
    case Val(rv, env1) =>
      var fr1 := fr.(pc := fr.pc + |R|, locals := env1, flags := fl);
      var st1 := Push(Operand(rv), st);
      var n2, fl2 := SimExpr(src, e.left, fr1, cs, st1, fuel);
      StepNAdd(p, s, n, n2);
      n, fl := n + n2, fl2;
      match Eval(src, e.left, env1, fuel) {
        case Val(lv, env2) =>
          r := Vals(Cons(rv, Cons(lv, Nil)), env2);
          assert PushAll(Cons(lv, Nil), st1) == Push(Operand(lv), st1);
        case Thrown(x, env2, pending) =>
          r := ArgsThrown(x, env2, Cons(rv, pending));
          UnwindIgnoresPc(x, fr.(locals := env2, flags := fl), fr1.pc, cs, PushAll(pending, st1));
        case Aborted => r := ArgsAborted;
        case Undef => r := ArgsUndef;
        case Timeout => r := ArgsTimeout;
      }
    case Thrown(x, env1, pending) => r := ArgsThrown(x, env1, pending);
    case Aborted => r := ArgsAborted;
    case Undef => r := ArgsUndef;
    case Timeout => r := ArgsTimeout;
  }

  lemma {:induction false} SimExpr(src: Source, e: Expr, fr: Frame, cs: Frames, st: Stack, fuel: nat)
    returns (n: nat, fl: Flags)
    requires fr.f < |src| && At(CodeOf(src, fr.f), fr.pc, CompileExpr(e))
    ensures ExprRuns(src, Eval(src, e, fr.locals, fuel), fr, cs, st, |CompileExpr(e)|, fuel, n, fl)
    decreases fuel, 1, e, 2
  {
    hide StepN, Step, Execute, Transfer, Unwind, UnwindCallers, EvalArgs, CallFunction, CodeOf, Compiled, Compute, Holds;
    var s := Running(fr, cs, st);
    Here(src, s);
    n, fl := 1, fr.flags;
    match e
    case Const(i) => ThenData(src, s, 0, PushI(i), fr, cs, st);
    case Var(slot) => ThenData(src, s, 0, LoadVar(slot), fr, cs, st);
    case Binary(_, _, _, _) => n, fl := SimBinary(src, e, fr, cs, st, fuel);
    case Compare(_, _, _, _) => n, fl := SimCompare(src, e, fr, cs, st, fuel);
    case Negate(_, _) => n, fl := SimNegate(src, e, fr, cs, st, fuel);
    case Assign(_, _) => n, fl := SimAssign(src, e, fr, cs, st, fuel);
    case PostStep(slot, up) => n := SimPostStep(src, slot, up, fr, cs, st, fuel);
    case Call(f, args) =>
      AtSplit(CodeOf(src, fr.f), fr.pc, CompileArgs(args), [CallStatic(f, Length(args))]);
      n, fl := SimInvoke(src, f, args, fr, cs, st, fuel);
  }

  lemma {:induction false} SimNegate(src: Source, e: Expr, fr: Frame, cs: Frames, st: Stack, fuel: nat)
    returns (n: nat, fl: Flags)
    requires e.Negate?
    requires fr.f < |src| && At(CodeOf(src, fr.f), fr.pc, CompileExpr(e))
    ensures ExprRuns(src, Eval(src, e, fr.locals, fuel), fr, cs, st, |CompileExpr(e)|, fuel, n, fl)
    decreases fuel, 1, e, 1
  {
    hide StepN, Step, Execute, Transfer, Unwind, UnwindCallers, EvalArgs, CallFunction, CodeOf, Compiled, Compute;
    AtSplit(CodeOf(src, fr.f), fr.pc, CompileExpr(e.arg), [Not(e.ty)]);
    n, fl := SimExpr(src, e.arg, fr, cs, st, fuel);
    match Eval(src, e.arg, fr.locals, fuel)
    case Val(v, env) =>
      var fr1 := fr.(pc := fr.pc + |CompileExpr(e.arg)|, locals := env, flags := fl);
      ThenData(src, Running(fr, cs, st), n, Not(e.ty), fr1, cs, Push(Operand(v), st));
      n := n + 1;
    case _ =>
  }

  lemma {:induction false} SimBinary(src: Source, e: Expr, fr: Frame, cs: Frames, st: Stack, fuel: nat)
    returns (n: nat, fl: Flags)
    requires e.Binary?
    requires fr.f < |src| && At(CodeOf(src, fr.f), fr.pc, CompileExpr(e))
    ensures ExprRuns(src, Eval(src, e, fr.locals, fuel), fr, cs, st, |CompileExpr(e)|, fuel, n, fl)
    decreases fuel, 1, e, 1
  {
    hide StepN, Step, Execute, Transfer, Unwind, UnwindCallers, EvalArgs, CallFunction, CodeOf, Compiled, Compute;
    var operands := CompileExpr(e.right) + CompileExpr(e.left);
    AtSplit(CodeOf(src, fr.f), fr.pc, operands, [Arith(e.op, e.ty)]);
    var r;
    r, n, fl := SimOperands(src, e, fr, cs, st, fuel);
    if r.Vals? {
      var fr1 := fr.(pc := fr.pc + |operands|, locals := r.env, flags := fl);
      ThenData(src, Running(fr, cs, st), n, Arith(e.op, e.ty), fr1, cs, PushAll(r.vs, st));
      TwoOperands(r.vs, st);
      n := n + 1;
    }
  }

  lemma TwoOperands(vs: List<Value>, st: Stack)
    requires vs.Cons? && vs.tail.Cons? && vs.tail.tail == Nil
    ensures PushAll(vs, st) == Push(Operand(vs.tail.head), Push(Operand(vs.head), st))
  {
    assert PushAll(vs.tail, Push(Operand(vs.head), st)) == Push(Operand(vs.tail.head), Push(Operand(vs.head), st));
  }

  lemma {:induction false} SimCompare(src: Source, e: Expr, fr: Frame, cs: Frames, st: Stack, fuel: nat)
    returns (n: nat, fl: Flags)
    requires e.Compare?
    requires fr.f < |src| && At(CodeOf(src, fr.f), fr.pc, CompileExpr(e))
    ensures ExprRuns(src, Eval(src, e, fr.locals, fuel), fr, cs, st, |CompileExpr(e)|, fuel, n, fl)
    decreases fuel, 1, e, 1
  {
    hide StepN, Step, Execute, Transfer, Operate, Unwind, UnwindCallers, EvalArgs, CallFunction, CodeOf, Compiled, Holds,
      CompareFlags;
    var operands := CompileExpr(e.right) + CompileExpr(e.left);
    assert CompileExpr(e) == operands + [Cmp(e.ty), PushC(e.cond)];
    AtSplit(CodeOf(src, fr.f), fr.pc, operands, [Cmp(e.ty), PushC(e.cond)]);
    var r;
    r, n, fl := SimOperands(src, e, fr, cs, st, fuel);
    if r.Vals? {
      TwoOperands(r.vs, st);
      if r.vs.head.Int? && r.vs.tail.head.Int? {
        var fr1 := fr.(pc := fr.pc + |operands|, locals := r.env, flags := fl);
        fl := CompareFlags(r.vs.tail.head.i, r.vs.head.i);
        CompareAndPush(src, Running(fr, cs, st), n, e.ty, e.cond, r.vs.tail.head.i, r.vs.head.i, fr1, cs, st);
        n := n + 2;
      }
    }
  }

  /** CMP; PUSHCx */
  lemma CompareAndPush(src: Source, s: State, m: nat, ty: Typing, c: Cond, l: int64, r: int64,
                       fr: Frame, cs: Frames, st: Stack)
    requires StepN(Compiled(src), s, m) == Running(fr, cs, Push(Operand(Int(l)), Push(Operand(Int(r)), st)))
    requires fr.f < |src| && At(CodeOf(src, fr.f), fr.pc, [Cmp(ty), PushC(c)])
    ensures var fl := CompareFlags(l, r);
      StepN(Compiled(src), s, m + 2)
      == Running(fr.(pc := fr.pc + 2, flags := fl), cs, Push(Operand(Truth(Holds(c, fl))), st))
  {
    hide StepN, Step, Execute, Transfer, CodeOf, Compiled, At, Holds, CompareFlags;
    AtIndex(CodeOf(src, fr.f), fr.pc, [Cmp(ty), PushC(c)], 0);
    AtIndex(CodeOf(src, fr.f), fr.pc, [Cmp(ty), PushC(c)], 1);
    ThenData(src, s, m, Cmp(ty), fr, cs, Push(Operand(Int(l)), Push(Operand(Int(r)), st)));
    ThenData(src, s, m + 1, PushC(c), fr.(pc := fr.pc + 1, flags := CompareFlags(l, r)), cs, st);
  }

  lemma {:induction false} SimAssign(src: Source, e: Expr, fr: Frame, cs: Frames, st: Stack, fuel: nat)
    returns (n: nat, fl: Flags)
    requires e.Assign?
    requires fr.f < |src| && At(CodeOf(src, fr.f), fr.pc, CompileExpr(e))
    ensures ExprRuns(src, Eval(src, e, fr.locals, fuel), fr, cs, st, |CompileExpr(e)|, fuel, n, fl)
    decreases fuel, 1, e, 1
  {
    hide StepN, Step, Execute, Transfer, Operate, Unwind, UnwindCallers, EvalArgs, CallFunction, CodeOf, Compiled;
    AtSplit(CodeOf(src, fr.f), fr.pc, CompileExpr(e.value), [Dup, StoreVar(e.slot)]);
    n, fl := SimExpr(src, e.value, fr, cs, st, fuel);
    match Eval(src, e.value, fr.locals, fuel) {
      case Val(v, env) =>
        if e.slot < |env| {
          var fr1 := fr.(pc := fr.pc + |CompileExpr(e.value)|, locals := env, flags := fl);
          DupAndStore(src, Running(fr, cs, st), n, e.slot, v, fr1, cs, st);
          n := n + 2;
        }
      case _ =>
    }
  }

  /** DUP; STORE_VAR */
  lemma DupAndStore(src: Source, s: State, m: nat, slot: nat, v: Value, fr: Frame, cs: Frames, st: Stack)
    requires StepN(Compiled(src), s, m) == Running(fr, cs, Push(Operand(v), st))
    requires fr.f < |src| && At(CodeOf(src, fr.f), fr.pc, [Dup, StoreVar(slot)]) && slot < |fr.locals|
    ensures StepN(Compiled(src), s, m + 2)
         == Running(fr.(pc := fr.pc + 2, locals := fr.locals[slot := v]), cs, Push(Operand(v), st))
  {
    hide StepN, Step, Execute, Transfer, CodeOf, Compiled, At;
    AtIndex(CodeOf(src, fr.f), fr.pc, [Dup, StoreVar(slot)], 0);
    AtIndex(CodeOf(src, fr.f), fr.pc, [Dup, StoreVar(slot)], 1);
    ThenData(src, s, m, Dup, fr, cs, Push(Operand(v), st));
    ThenData(src, s, m + 1, StoreVar(slot), fr.(pc := fr.pc + 1), cs, Push(Operand(v), Push(Operand(v), st)));
  }

  /** The k-th instruction of a fragment. */
  lemma AtIndex(code: seq<Instr>, pc: nat, c: seq<Instr>, k: nat)
    requires At(code, pc, c) && k < |c|
    ensures At(code, pc + k, [c[k]])
  {
    assert code[pc + k..pc + k + 1] == [c[k]];
  }

  lemma {:induction false} SimPostStep(src: Source, slot: nat, up: bool, fr: Frame, cs: Frames, st: Stack, fuel: nat)
    returns (n: nat)
    requires fr.f < |src| && At(CodeOf(src, fr.f), fr.pc, CompileExpr(PostStep(slot, up)))
    ensures ExprRuns(src, Eval(src, PostStep(slot, up), fr.locals, fuel), fr, cs, st,
                     |CompileExpr(PostStep(slot, up))|, fuel, n, fr.flags)
  {
    hide StepN, Step, Execute, Transfer, Operate, Unwind, CodeOf, Compiled, Wrap;
    var code := CodeOf(src, fr.f);
    var first := [LoadVar(slot), Dup, PushI(1)];
    var op := if up then [Arith(Add, Integer)] else [Swap, Arith(Sub, Integer)];
    AtSplit(code, fr.pc, first + op, [StoreVar(slot)]);
    AtSplit(code, fr.pc, first, op);
    n := 3 + |op| + 1;
    if slot < |fr.locals| && fr.locals[slot].Int? {
      PostStepLoads(src, slot, fr, cs, st);
      PostStepStores(src, slot, up, op, Running(fr, cs, st), fr.(pc := fr.pc + 3), cs, st);
    }
  }

  lemma PostStepLoads(src: Source, slot: nat, fr: Frame, cs: Frames, st: Stack)
    requires fr.f < |src| && At(CodeOf(src, fr.f), fr.pc, [LoadVar(slot), Dup, PushI(1)])
    requires slot < |fr.locals| && fr.locals[slot].Int?
    ensures var v := Operand(fr.locals[slot]);
      StepN(Compiled(src), Running(fr, cs, st), 3)
      == Running(fr.(pc := fr.pc + 3), cs, Push(Operand(Int(1)), Push(v, Push(v, st))))
  {
    hide StepN, Step, Execute, Transfer, CodeOf, Compiled, At;
    var s := Running(fr, cs, st);
    var c := [LoadVar(slot), Dup, PushI(1)];
    var v := Operand(fr.locals[slot]);
    Here(src, s);
    AtIndex(CodeOf(src, fr.f), fr.pc, c, 0);
    AtIndex(CodeOf(src, fr.f), fr.pc, c, 1);
    AtIndex(CodeOf(src, fr.f), fr.pc, c, 2);
    ThenData(src, s, 0, c[0], fr, cs, st);
    ThenData(src, s, 1, c[1], fr.(pc := fr.pc + 1), cs, Push(v, st));
    ThenData(src, s, 2, c[2], fr.(pc := fr.pc + 2), cs, Push(v, Push(v, st)));
  }

  lemma PostStepStores(src: Source, slot: nat, up: bool, op: seq<Instr>, s: State, fr: Frame, cs: Frames, st: Stack)
    requires op == if up then [Arith(Add, Integer)] else [Swap, Arith(Sub, Integer)]
    requires fr.f < |src| && At(CodeOf(src, fr.f), fr.pc, op)
    requires At(CodeOf(src, fr.f), fr.pc + |op|, [StoreVar(slot)])
    requires slot < |fr.locals| && fr.locals[slot].Int?
    requires var v := Operand(fr.locals[slot]);
      StepN(Compiled(src), s, 3) == Running(fr, cs, Push(Operand(Int(1)), Push(v, Push(v, st))))
    ensures StepN(Compiled(src), s, 3 + |op| + 1)
         == Running(fr.(pc := fr.pc + |op| + 1, locals := fr.locals[slot := Int(Wrap(fr.locals[slot].i + Amount(up)))]),
                    cs, Push(Operand(fr.locals[slot]), st))
  {
    hide StepN, Step, Execute, Transfer, CodeOf, Compiled, At, Wrap, Operate;
    var v := fr.locals[slot];
    var next := Int(Wrap(v.i + Amount(up)));
    PostStepComputes(src, up, op, s, v.i, fr, cs, st);
    var fr1, st1 := fr.(pc := fr.pc + |op|), Push(Operand(next), Push(Operand(v), st));
    OperateStore(slot, next, fr1.locals, fr.flags, st1.below);
    ThenData(src, s, 3 + |op|, StoreVar(slot), fr1, cs, st1);
  }

  lemma StepOperations(i: int64, locals: seq<Value>, fl: Flags, st: Stack)
    ensures var one, v := Operand(Int(1)), Operand(Int(i));
      && Operate(Arith(Add, Integer), locals, fl, Push(one, Push(v, st)))
         == Some(Data(locals, fl, Push(Operand(Int(Wrap(i + 1))), st)))
      && Operate(Swap, locals, fl, Push(one, Push(v, st))) == Some(Data(locals, fl, Push(v, Push(one, st))))
      && Operate(Arith(Sub, Integer), locals, fl, Push(v, Push(one, st)))
         == Some(Data(locals, fl, Push(Operand(Int(Wrap(i - 1))), st)))
  {
    hide Wrap;
  }

  lemma OperateStore(slot: nat, x: Value, locals: seq<Value>, fl: Flags, st: Stack)
    requires slot < |locals|
    ensures Operate(StoreVar(slot), locals, fl, Push(Operand(x), st)) == Some(Data(locals[slot := x], fl, st))
  {
  }

  /** The old value stays below the new one. */
  lemma PostStepComputes(src: Source, up: bool, op: seq<Instr>, s: State, i: int64, fr: Frame, cs: Frames, st: Stack)
    requires op == if up then [Arith(Add, Integer)] else [Swap, Arith(Sub, Integer)]
    requires fr.f < |src| && At(CodeOf(src, fr.f), fr.pc, op)
    requires var v := Operand(Int(i));
      StepN(Compiled(src), s, 3) == Running(fr, cs, Push(Operand(Int(1)), Push(v, Push(v, st))))
    ensures StepN(Compiled(src), s, 3 + |op|)
         == Running(fr.(pc := fr.pc + |op|), cs, Push(Operand(Int(Wrap(i + Amount(up)))), Push(Operand(Int(i)), st)))
  {
    hide StepN, Step, Execute, Transfer, CodeOf, Compiled, At, Wrap, Operate;
    var v, one := Operand(Int(i)), Operand(Int(1));
    StepOperations(i, fr.locals, fr.flags, Push(v, st));
    AtIndex(CodeOf(src, fr.f), fr.pc, op, 0);
    AtIndex(CodeOf(src, fr.f), fr.pc, op, |op| - 1);
    ThenData(src, s, 3, op[0], fr, cs, Push(one, Push(v, Push(v, st))));
    if !up {
      ThenData(src, s, 4, op[1], fr.(pc := fr.pc + 1), cs, Push(v, Push(one, Push(v, st))));
    }
  }

  lemma {:induction false} SimArgs(src: Source, args: List<Expr>, fr: Frame, cs: Frames, st: Stack, fuel: nat)
    returns (n: nat, fl: Flags)
    requires fr.f < |src| && At(CodeOf(src, fr.f), fr.pc, CompileArgs(args))
    ensures ArgsRun(src, EvalArgs(src, args, fr.locals, fuel), fr, cs, st, |CompileArgs(args)|, fuel, n, fl)
    ensures EvalArgs(src, args, fr.locals, fuel).Vals? ==>
      Length(EvalArgs(src, args, fr.locals, fuel).vs) == Length(args)
    decreases fuel, 1, args, 1
  {
    hide StepN, Step, Execute, Transfer, Unwind, UnwindCallers, Eval, CodeOf, Compiled, Operate, CompileExpr;
    var s := Running(fr, cs, st);
    Here(src, s);
    n, fl := 0, fr.flags;
    match args
    case Nil =>
    case Cons(e, rest) =>
      AtSplit(CodeOf(src, fr.f), fr.pc, CompileExpr(e), CompileArgs(rest));
      n, fl := SimExpr(src, e, fr, cs, st, fuel);
      match Eval(src, e, fr.locals, fuel) {
        case Val(v, env1) =>
          var fr1 := fr.(pc := fr.pc + |CompileExpr(e)|, locals := env1, flags := fl);
          var st1 := Push(Operand(v), st);
          var n2, fl2 := SimArgs(src, rest, fr1, cs, st1, fuel);
          StepNAdd(Compiled(src), s, n, n2);
          n, fl := n + n2, fl2;
          match EvalArgs(src, rest, env1, fuel) {
            case ArgsThrown(x, env2, pending) =>
              UnwindIgnoresPc(x, fr.(locals := env2, flags := fl), fr1.pc, cs, PushAll(pending, st1));
            case _ =>
          }
        case _ =>
      }
  }

  /** A call expression: arguments, CALL_STATIC, the callee's run, and one result on the caller's stack. */
  lemma {:induction false} SimInvoke(src: Source, f: nat, args: List<Expr>,
                                     fr: Frame, cs: Frames, st: Stack, fuel: nat)
    returns (n: nat, fl: Flags)
    requires fr.f < |src| && At(CodeOf(src, fr.f), fr.pc, CompileArgs(args))
    requires At(CodeOf(src, fr.f), fr.pc + |CompileArgs(args)|, [CallStatic(f, Length(args))])
    ensures ExprRuns(src, Eval(src, Call(f, args), fr.locals, fuel), fr, cs, st, |CompileArgs(args)| + 1, fuel, n, fl)
    decreases fuel, 1, args, 2
  {
    hide StepN, Step, Execute, Unwind, CodeOf, Operate, CompileExpr, CompileArgs, EvalArgs, Enter;
    var p := Compiled(src);
    var s := Running(fr, cs, st);
    n, fl := SimArgs(src, args, fr, cs, st, fuel);
    match EvalArgs(src, args, fr.locals, fuel)
    case Vals(vs, env) =>
      if fuel > 0 && Callable(p, f, Length(vs)) {
        var fr1 := fr.(pc := fr.pc + |CompileArgs(args)|, locals := env, flags := fl);
        ThenControl(src, s, n, CallStatic(f, Length(args)), fr1, cs, PushAll(vs, st));
        PopArgsPushAll(vs, 0, st, Nil);
        AppendNil(vs);
        var go := fr1.(pc := fr1.pc + 1);
        var n2 := SimCall(src, f, vs, Caller(go, cs), st, fuel);
        StepNAdd(p, s, n + 1, n2);
        n := n + 1 + n2;
        match CallFunction(src, f, vs, fuel) {
          case Exception(x) => UnwindIgnoresPc(x, fr.(locals := env, flags := fl), go.pc, cs, st);
          case _ =>
        }
      }
    case _ =>
  }

  // ----- calls -----

  /** RETURN finds its frame marker exactly when nothing was left behind. */
  lemma ReturnChecksLitter(v: Value, cs: Frames, litter: List<Value>, st: Stack)
    ensures ReturnFrom(v, cs, PushAll(litter, Push(Marker(Depth(cs)), st)))
         == if litter.Nil? then Resume(v, cs, st) else Failed
  {
    if litter.Cons? {
      PushAllTop(litter, Push(Marker(Depth(cs)), st));
    }
  }

  lemma {:induction false} PushAllTop(vs: List<Value>, st: Stack)
    requires vs.Cons?
    ensures PushAll(vs, st).Push? && PushAll(vs, st).top.Operand?
    decreases vs
  {
    if vs.tail.Cons? {
      PushAllTop(vs.tail, Push(Operand(vs.head), st));
    }
  }

  /** A function's run from entry to its result, its uncaught exception, or its abort. */
  lemma {:induction false} SimCall(src: Source, f: nat, vs: List<Value>, cs: Frames, st: Stack, fuel: nat)
    returns (n: nat)
    requires f < |src| && Callable(Compiled(src), f, Length(vs))
    ensures CallRuns(src, CallFunction(src, f, vs, fuel), Enter(Compiled(src), f, vs, cs, st), cs, st, fuel, n)
    decreases fuel, 0, vs, 0
  {
    hide StepN, Step, Execute, CompileBlock, ExecBlock, Resume, ReturnFrom, UnwindCallers, NewLocals;
    var s := Enter(Compiled(src), f, vs, cs, st);
    Here(src, s);
    n := 0;
    if fuel > 0 {
      var body := src[f].body;
      var code := CodeOf(src, f);
      var fr := NewFrame(Compiled(src), f, vs);
      var st1 := Push(Marker(Depth(cs)), st);
      var b := CompileBlock(body, 0);
      assert code[0..|code|] == code;
      AtSplit(code, 0, b, [PushI(0), Opcodes.Return]);
      var fl;
      n, fl := SimBlock(src, body, fr, cs, st1, fuel - 1);
      match ExecBlock(src, body, fr.locals, fuel - 1) {
        case Normal(env, litter) =>
          var fr1 := fr.(pc := |b|, locals := env, flags := fl);
          ReturnZero(src, s, n, fr1, cs, PushAll(litter, st1));
          n := n + 2;
          ReturnChecksLitter(Int(0), cs, litter, st);
        case Returns(v, litter) => ReturnChecksLitter(v, cs, litter, st);
        case Throws(x, env, litter) =>
          PopToMarkerPushAll(litter, st1);
          NoHandlers(x, fr.(locals := env, flags := fl), cs, PushAll(litter, st1), st);
        case _ =>
      }
    }
  }

  lemma NoHandlers(x: Value, fr: Frame, cs: Frames, st: Stack, rest: Stack)
    requires fr.handlers == [] && PopToMarker(st) == Some(rest)
    ensures Unwind(x, fr, cs, st) == UnwindCallers(x, cs, rest)
  {
  }

  /** PUSHI 0; RETURN */
  lemma ReturnZero(src: Source, s: State, m: nat, fr: Frame, cs: Frames, st: Stack)
    requires StepN(Compiled(src), s, m) == Running(fr, cs, st)
    requires fr.f < |src| && At(CodeOf(src, fr.f), fr.pc, [PushI(0), Opcodes.Return])
    ensures StepN(Compiled(src), s, m + 2) == ReturnFrom(Int(0), cs, st)
  {
    hide StepN, Step, Execute, ReturnFrom, CodeOf;
    assert [PushI(0), Opcodes.Return] == [PushI(0)] + [Opcodes.Return];
    AtSplit(CodeOf(src, fr.f), fr.pc, [PushI(0)], [Opcodes.Return]);
    ThenData(src, s, m, PushI(0), fr, cs, st);
    ThenControl(src, s, m + 1, Opcodes.Return, fr.(pc := fr.pc + 1), cs, Push(Operand(Int(0)), st));
  }

  // ----- statements -----

  lemma {:induction false} SimEffect(src: Source, eff: Effect, fr: Frame, cs: Frames, st: Stack, fuel: nat)
    returns (n: nat, fl: Flags)
    requires fr.f < |src| && At(CodeOf(src, fr.f), fr.pc, CompileEffect(eff))
    ensures StmtRuns(src, ExecEffect(src, eff, fr.locals, fuel), fr, cs, st, |CompileEffect(eff)|, fuel, n, fl)
    decreases fuel, 1, eff, 1
  {
    hide StepN, Step, Execute, Transfer, Unwind, UnwindCallers, Eval, EvalArgs, CallFunction, CodeOf, Compiled, ReturnFrom,
      CompileExpr, Wrap, At;
    var s := Running(fr, cs, st);
    var code := CodeOf(src, fr.f);
    Here(src, s);
    n, fl := 1, fr.flags;
    match eff
    case Set(slot, value) =>
      AtSplit(code, fr.pc, CompileExpr(value), [StoreVar(slot)]);
      n, fl := SimExpr(src, value, fr, cs, st, fuel);
      match Eval(src, value, fr.locals, fuel) {
        case Val(v, env) =>
          var fr1 := fr.(pc := fr.pc + |CompileExpr(value)|, locals := env, flags := fl);
          ThenData(src, s, n, StoreVar(slot), fr1, cs, Push(Operand(v), st));
          n := n + 1;
        case _ =>
      }
    case Bump(slot, up) => ThenData(src, s, 0, IncVar(slot, Amount(up)), fr, cs, st);
    case Invoke(f, args) => n, fl := SimCallEffect(src, f, args, fr, cs, st, fuel);
  }

  /** A call statement does what the call does, but for its value. */
  lemma InvokeIsCall(src: Source, f: nat, args: List<Expr>, env: Env, fuel: nat)
    ensures ExecEffect(src, Invoke(f, args), env, fuel) == OfExpr(Eval(src, Call(f, args), env, fuel))
  {
    hide EvalArgs, CallFunction;
  }

  lemma InvokeCode(code: seq<Instr>, pc: nat, f: nat, args: List<Expr>)
    requires At(code, pc, CompileEffect(Invoke(f, args)))
    ensures At(code, pc, CompileArgs(args))
    ensures At(code, pc + |CompileArgs(args)|, [CallStatic(f, Length(args))])
    ensures At(code, pc + |CompileArgs(args)| + 1, [Opcodes.Pop])
    ensures |CompileEffect(Invoke(f, args))| == |CompileArgs(args)| + 2
  {
    hide At, CompileArgs;
    var A, c := CompileArgs(args), [CallStatic(f, Length(args)), Opcodes.Pop];
    AtSplit(code, pc, A, c);
    AtIndex(code, pc + |A|, c, 0);
    AtIndex(code, pc + |A|, c, 1);
  }

  lemma {:induction false} SimCallEffect(src: Source, f: nat, args: List<Expr>, fr: Frame, cs: Frames, st: Stack,
                                         fuel: nat)
    returns (n: nat, fl: Flags)
    requires fr.f < |src| && At(CodeOf(src, fr.f), fr.pc, CompileEffect(Invoke(f, args)))
    ensures StmtRuns(src, ExecEffect(src, Invoke(f, args), fr.locals, fuel), fr, cs, st,
                     |CompileEffect(Invoke(f, args))|, fuel, n, fl)
    decreases fuel, 1, args, 3
  {
    hide StepN, Step, Execute, Transfer, Operate, Unwind, UnwindCallers, Eval, ExecEffect, CodeOf, Compiled, ReturnFrom,
      CompileArgs, CompileEffect, At;
    var A := CompileArgs(args);
    InvokeIsCall(src, f, args, fr.locals, fuel);
    InvokeCode(CodeOf(src, fr.f), fr.pc, f, args);
    n, fl := SimInvoke(src, f, args, fr, cs, st, fuel);
    match Eval(src, Call(f, args), fr.locals, fuel) {
      case Val(v, env) =>
        var fr1 := fr.(pc := fr.pc + |A| + 1, locals := env, flags := fl);
        ThenPop(src, Running(fr, cs, st), n, v, fr1, cs, st);
        n := n + 1;
      case _ =>
    }
  }

  lemma ThenPop(src: Source, s: State, m: nat, v: Value, fr: Frame, cs: Frames, st: Stack)
    requires StepN(Compiled(src), s, m) == Running(fr, cs, Push(Operand(v), st))
    requires fr.f < |src| && At(CodeOf(src, fr.f), fr.pc, [Opcodes.Pop])
    ensures StepN(Compiled(src), s, m + 1) == Running(fr.(pc := fr.pc + 1), cs, st)
  {
    hide StepN, Step, Execute, Transfer, CodeOf, Compiled, At;
    ThenData(src, s, m, Opcodes.Pop, fr, cs, Push(Operand(v), st));
  }

  lemma {:induction false} SimOption(src: Source, eff: Option<Effect>, fr: Frame, cs: Frames, st: Stack, fuel: nat)
    returns (n: nat, fl: Flags)
    requires fr.f < |src| && At(CodeOf(src, fr.f), fr.pc, CompileOption(eff))
    ensures StmtRuns(src, ExecOption(src, eff, fr.locals, fuel), fr, cs, st, |CompileOption(eff)|, fuel, n, fl)
    decreases fuel, 1, eff, 1
  {
    hide StepN, Step, Unwind, ReturnFrom, ExecEffect, Compiled, CodeOf;
    Here(src, Running(fr, cs, st));
    n, fl := 0, fr.flags;
    match eff
    case None =>
    case Some(e) => n, fl := SimEffect(src, e, fr, cs, st, fuel);
  }

  /** Both forms of a test fall through exactly when the test is non-zero. */
  lemma {:induction false} SimTest(src: Source, e: Expr, target: nat, fr: Frame, cs: Frames, st: Stack, fuel: nat)
    returns (n: nat, fl: Flags)
    requires fr.f < |src| && At(CodeOf(src, fr.f), fr.pc, CompileTest(e, target))
    ensures TestRuns(src, Eval(src, e, fr.locals, fuel), e, target, fr, cs, st, fuel, n, fl)
    decreases fuel, 1, e, 3
  {
    hide StepN, Step, Execute, Operate, Transfer, Unwind, Eval, CodeOf, Compiled, PushAll, CompileExpr;
    if e.Compare? && Fusible(e.cond) {
      n, fl := SimFusedTest(src, e, target, fr, cs, st, fuel);
    } else {
      var E := CompileExpr(e);
      AtSplit(CodeOf(src, fr.f), fr.pc, E, [PushI(0), Cmp(Integer), Branch(Eq, target)]);
      n, fl := SimExpr(src, e, fr, cs, st, fuel);
      match Eval(src, e, fr.locals, fuel) {
        case Val(v, env) =>
          if v.Int? {
            var fr1 := fr.(pc := fr.pc + |E|, locals := env, flags := fl);
            n, fl := CompareWithZero(src, Running(fr, cs, st), n, v.i, target, fr1, cs, st);
          }
        case _ =>
      }
    }
  }

  /** PUSHI 0; CMPI; BEQ */
  lemma CompareWithZero(src: Source, s: State, m: nat, i: int64, target: nat, fr: Frame, cs: Frames, st: Stack)
    returns (n: nat, fl: Flags)
    requires StepN(Compiled(src), s, m) == Running(fr, cs, Push(Operand(Int(i)), st))
    requires fr.f < |src| && At(CodeOf(src, fr.f), fr.pc, [PushI(0), Cmp(Integer), Branch(Eq, target)])
    ensures StepN(Compiled(src), s, n) == Running(fr.(pc := if i != 0 then fr.pc + 3 else target, flags := fl), cs, st)
  {
    hide StepN, Step, Execute, CodeOf, Compiled, At, Transfer;
    var c := [PushI(0), Cmp(Integer), Branch(Eq, target)];
    assert c == [PushI(0)] + [Cmp(Integer), Branch(Eq, target)];
    AtIndex(CodeOf(src, fr.f), fr.pc, c, 0);
    AtSplit(CodeOf(src, fr.f), fr.pc, [PushI(0)], [Cmp(Integer), Branch(Eq, target)]);
    ThenData(src, s, m, PushI(0), fr, cs, Push(Operand(Int(i)), st));
    CompareAndBranch(src, s, m + 1, Integer, Eq, target, 0, i, fr.(pc := fr.pc + 1), cs, st);
    n, fl := m + 3, CompareFlags(0, i);
  }

  /** CMP; Bx */
  lemma CompareAndBranch(src: Source, s: State, m: nat, ty: Typing, c: Cond, target: nat, l: int64, r: int64,
                         fr: Frame, cs: Frames, st: Stack)
    requires StepN(Compiled(src), s, m) == Running(fr, cs, Push(Operand(Int(l)), Push(Operand(Int(r)), st)))
    requires fr.f < |src| && At(CodeOf(src, fr.f), fr.pc, [Cmp(ty), Branch(c, target)])
    ensures var fl := CompareFlags(l, r);
      StepN(Compiled(src), s, m + 2)
      == Running(fr.(pc := if Jumps(c, fl) then target else fr.pc + 2, flags := fl), cs, st)
  {
    hide StepN, Step, Execute, CodeOf, Compiled, At, Jumps, CompareFlags, Unwind, ReturnFrom, PopArgs, Enter;
    AtIndex(CodeOf(src, fr.f), fr.pc, [Cmp(ty), Branch(c, target)], 0);
    AtIndex(CodeOf(src, fr.f), fr.pc, [Cmp(ty), Branch(c, target)], 1);
    ThenData(src, s, m, Cmp(ty), fr, cs, Push(Operand(Int(l)), Push(Operand(Int(r)), st)));
    ThenControl(src, s, m + 1, Branch(c, target), fr.(pc := fr.pc + 1, flags := CompareFlags(l, r)), cs, st);
  }

  lemma CompareOperands(src: Source, e: Expr, env: Env, fuel: nat)
    requires e.Compare?
    ensures var right := Eval(src, e.right, env, fuel);
      right.Val? ==>
        var left := Eval(src, e.left, right.env, fuel);
        left.Val? ==>
          var v := EvalCompare(e.cond, left.v, right.v);
          Eval(src, e, env, fuel) == if v.Some? then Val(v.value, left.env) else Undef
  {
  }

  lemma OppositeJumps(c: Cond, fl: Flags)
    requires Fusible(c)
    ensures Jumps(Opposite(c), fl) <==> !Holds(c, fl)
  {
  }

  lemma FusedCode(code: seq<Instr>, pc: nat, e: Expr, target: nat)
    requires e.Compare? && Fusible(e.cond) && At(code, pc, CompileTest(e, target))
    ensures At(code, pc, CompileExpr(e.right) + CompileExpr(e.left))
    ensures At(code, pc + |CompileExpr(e.right)| + |CompileExpr(e.left)|, [Cmp(e.ty), Branch(Opposite(e.cond), target)])
    ensures TestSize(e) == |CompileExpr(e.right)| + |CompileExpr(e.left)| + 2
  {
    hide At, CompileExpr;
    AtSplit(code, pc, CompileExpr(e.right) + CompileExpr(e.left), [Cmp(e.ty), Branch(Opposite(e.cond), target)]);
  }

  /** CMP; BNE, BGE or BG */
  lemma FusedJump(src: Source, e: Expr, target: nat, env: Env, s: State, m: nat, vs: List<Value>, fr: Frame, cs: Frames,
                  st: Stack, fuel: nat)
    returns (n: nat, fl: Flags)
    requires e.Compare? && Fusible(e.cond) && vs.Cons? && vs.tail.Cons? && vs.tail.tail == Nil
    requires StepN(Compiled(src), s, m) == Running(fr, cs, PushAll(vs, st))
    requires fr.f < |src| && At(CodeOf(src, fr.f), fr.pc, [Cmp(e.ty), Branch(Opposite(e.cond), target)])
    requires var right := Eval(src, e.right, env, fuel);
      right.Val? && right.v == vs.head && Eval(src, e.left, right.env, fuel) == Val(vs.tail.head, fr.locals)
    ensures var r := Eval(src, e, env, fuel);
      r == Undef ||
      (r.Val? && r.v.Int? && r.env == fr.locals &&
       StepN(Compiled(src), s, n)
       == Running(fr.(pc := if r.v.i != 0 then fr.pc + 2 else target, flags := fl), cs, st))
  {
    hide StepN, Step, Execute, Eval, CodeOf, Compiled, CompareFlags, Holds, Jumps, At;
    TwoOperands(vs, st);
    CompareOperands(src, e, env, fuel);
    n, fl := m + 2, fr.flags;
    if vs.head.Int? && vs.tail.head.Int? {
      fl := CompareFlags(vs.tail.head.i, vs.head.i);
      OppositeJumps(e.cond, fl);
      CompareAndBranch(src, s, m, e.ty, Opposite(e.cond), target, vs.tail.head.i, vs.head.i, fr, cs, st);
    }
  }

  lemma {:induction false} SimFusedTest(src: Source, e: Expr, target: nat, fr: Frame, cs: Frames, st: Stack, fuel: nat)
    returns (n: nat, fl: Flags)
    requires e.Compare? && Fusible(e.cond)
    requires fr.f < |src| && At(CodeOf(src, fr.f), fr.pc, CompileTest(e, target))
    ensures TestRuns(src, Eval(src, e, fr.locals, fuel), e, target, fr, cs, st, fuel, n, fl)
    decreases fuel, 1, e, 1
  {
    hide StepN, Step, Unwind, Eval, CodeOf, Compiled, CompileExpr, CompileTest, At, PushAll;
    var operands := CompileExpr(e.right) + CompileExpr(e.left);
    FusedCode(CodeOf(src, fr.f), fr.pc, e, target);
    var r;
    r, n, fl := SimOperands(src, e, fr, cs, st, fuel);
    if r.Vals? {
      var fr1 := fr.(pc := fr.pc + |operands|, locals := r.env, flags := fl);
      n, fl := FusedJump(src, e, target, fr.locals, Running(fr, cs, st), n, r.vs, fr1, cs, st, fuel);
    }
  }

  /** A run of one statement followed by a run of what comes after it. */
  lemma Sequence(src: Source, fr: Frame, cs: Frames, st: Stack, fuel: nat,
                 env: Env, litter: List<Value>, len1: nat, n1: nat, fl1: Flags,
                 r2: StmtResult, len2: nat, n2: nat, fl2: Flags)
    requires StmtRuns(src, Normal(env, litter), fr, cs, st, len1, fuel, n1, fl1)
    requires StmtRuns(src, r2, fr.(pc := fr.pc + len1, locals := env, flags := fl1), cs, PushAll(litter, st),
                      len2, fuel, n2, fl2)
    ensures StmtRuns(src, Above(litter, r2), fr, cs, st, len1 + len2, fuel, n1 + n2, fl2)
  {
    hide StepN, Step, Unwind, ReturnFrom, Compiled;
    StepNAdd(Compiled(src), Running(fr, cs, st), n1, n2);
    match r2
    case Normal(_, more) => PushAllAppend(litter, more, st);
    case Returns(_, more) => PushAllAppend(litter, more, st);
    case Throws(x, env2, more) =>
      PushAllAppend(litter, more, st);
      UnwindIgnoresPc(x, fr.(locals := env2, flags := fl2), fr.pc + len1, cs, PushAll(Append(litter, more), st));
    case _ =>
  }

  lemma AboveNil(r: StmtResult)
    ensures Above(Nil, r) == r
  {
  }

  lemma {:induction false} SimBlock(src: Source, b: Block, fr: Frame, cs: Frames, st: Stack, fuel: nat)
    returns (n: nat, fl: Flags)
    requires fr.f < |src| && At(CodeOf(src, fr.f), fr.pc, CompileBlock(b, fr.pc))
    ensures StmtRuns(src, ExecBlock(src, b, fr.locals, fuel), fr, cs, st, |CompileBlock(b, fr.pc)|, fuel, n, fl)
    decreases fuel, 1, b, 1
  {
    hide StepN, Step, Unwind, ReturnFrom, Compiled, CodeOf, Exec, CompileStmt;
    Here(src, Running(fr, cs, st));
    n, fl := 0, fr.flags;
    match b
    case Nil =>
    case Cons(s, rest) =>
      var c := CompileStmt(s, fr.pc);
      AtSplit(CodeOf(src, fr.f), fr.pc, c, CompileBlock(rest, fr.pc + |c|));
      n, fl := SimStmt(src, s, fr, cs, st, fuel);
      match Exec(src, s, fr.locals, fuel) {
        case Normal(env, litter) =>
          var fr1 := fr.(pc := fr.pc + |c|, locals := env, flags := fl);
          var n2, fl2 := SimBlock(src, rest, fr1, cs, PushAll(litter, st), fuel);
          Sequence(src, fr, cs, st, fuel, env, litter, |c|, n, fl,
                   ExecBlock(src, rest, env, fuel), |CompileBlock(rest, fr1.pc)|, n2, fl2);
          n, fl := n + n2, fl2;
        case _ =>
      }
  }

  lemma {:induction false} SimStmt(src: Source, s: Stmt, fr: Frame, cs: Frames, st: Stack, fuel: nat)
    returns (n: nat, fl: Flags)
    requires fr.f < |src| && At(CodeOf(src, fr.f), fr.pc, CompileStmt(s, fr.pc))
    ensures StmtRuns(src, Exec(src, s, fr.locals, fuel), fr, cs, st, |CompileStmt(s, fr.pc)|, fuel, n, fl)
    decreases fuel, 1, s, 4
  {
    hide StepN, Step, Unwind, ReturnFrom, Compiled, CodeOf, ExecEffect, CompileEffect, Transfer, Execute, Eval, CompileExpr;
    match s
    case Do(eff) => n, fl := SimEffect(src, eff, fr, cs, st, fuel);
    case If(_, _, _) => n, fl := SimIf(src, s, fr, cs, st, fuel);
    case For(_, _, _, _) => n, fl := SimFor(src, s, fr, cs, st, fuel);
    case Ret(None) =>
      Here(src, Running(fr, cs, st));
      ReturnZero(src, Running(fr, cs, st), 0, fr, cs, st);
      n, fl := 2, fr.flags;
    case Ret(Some(e)) => n, fl := SimLast(src, s, e, Opcodes.Return, fr, cs, st, fuel);
    case Try(_, _, _) => n, fl := SimTry(src, s, fr, cs, st, fuel);
    case Raise(e) => n, fl := SimLast(src, s, e, Throw, fr, cs, st, fuel);
  }

  /** An expression whose value RETURN or THROW takes. */
  lemma {:induction false} SimLast(src: Source, s: Stmt, e: Expr, last: Instr,
                                   fr: Frame, cs: Frames, st: Stack, fuel: nat)
    returns (n: nat, fl: Flags)
    requires (s == Ret(Some(e)) && last == Opcodes.Return) || (s == Raise(e) && last == Throw)
    requires fr.f < |src| && At(CodeOf(src, fr.f), fr.pc, CompileStmt(s, fr.pc))
    ensures StmtRuns(src, Exec(src, s, fr.locals, fuel), fr, cs, st, |CompileStmt(s, fr.pc)|, fuel, n, fl)
    decreases fuel, 1, s, 2
  {
    hide StepN, Step, Unwind, ReturnFrom, Compiled, CodeOf, Execute, Eval, CompileExpr, PopArgs, Enter;
    AtSplit(CodeOf(src, fr.f), fr.pc, CompileExpr(e), [last]);
    n, fl := SimExpr(src, e, fr, cs, st, fuel);
    match Eval(src, e, fr.locals, fuel) {
      case Val(v, env) =>
        var fr1 := fr.(pc := fr.pc + |CompileExpr(e)|, locals := env, flags := fl);
        ThenControl(src, Running(fr, cs, st), n, last, fr1, cs, Push(Operand(v), st));
        UnwindIgnoresPc(Exc(v), fr.(locals := env, flags := fl), fr1.pc + 1, cs, st);
        n := n + 1;
      case _ =>
    }
  }

  /** The pieces of an `if` and where they stand. */
  lemma IfPieces(code: seq<Instr>, pc: nat, s: Stmt)
    requires s.If? && At(code, pc, CompileStmt(s, pc))
    ensures var t := CompileBlock(s.thn, pc + TestSize(s.test));
      var after := pc + TestSize(s.test) + |t|;
      && At(code, pc, CompileTest(s.test, if s.els.None? then after else after + 1))
      && At(code, pc + TestSize(s.test), t)
      && |CompileStmt(s, pc)| == TestSize(s.test) + |t| + ElseSize(s, after)
      && (s.els.Some? ==>
            var f := CompileBlock(s.els.value, after + 1);
            At(code, after, [Jmp(after + 1 + |f|)]) && At(code, after + 1, f))
  {
    hide CompileTest, CompileBlock;
    var t := CompileBlock(s.thn, pc + TestSize(s.test));
    var after := pc + TestSize(s.test) + |t|;
    var T := CompileTest(s.test, if s.els.None? then after else after + 1);
    if s.els.Some? {
      var f := CompileBlock(s.els.value, after + 1);
      AtSplit(code, pc, T + t + [Jmp(after + 1 + |f|)], f);
      AtSplit(code, pc, T + t, [Jmp(after + 1 + |f|)]);
    }
    AtSplit(code, pc, T, t);
  }

  lemma {:induction false} SimIf(src: Source, s: Stmt, fr: Frame, cs: Frames, st: Stack, fuel: nat)
    returns (n: nat, fl: Flags)
    requires s.If?
    requires fr.f < |src| && At(CodeOf(src, fr.f), fr.pc, CompileStmt(s, fr.pc))
    ensures StmtRuns(src, Exec(src, s, fr.locals, fuel), fr, cs, st, |CompileStmt(s, fr.pc)|, fuel, n, fl)
    decreases fuel, 1, s, 2
  {
    hide StepN, Step, Unwind, ReturnFrom, Compiled, CodeOf, Execute, Transfer, Eval, CompileTest, CompileBlock, ExecBlock,
      PushAll, CompileStmt, At;
    IfPieces(CodeOf(src, fr.f), fr.pc, s);
    var size := TestSize(s.test);
    var after := fr.pc + size + |CompileBlock(s.thn, fr.pc + size)|;
    var target := if s.els.None? then after else after + 1;
    n, fl := SimTest(src, s.test, target, fr, cs, st, fuel);
    match Eval(src, s.test, fr.locals, fuel)
    case Val(v, env) =>
      AfterTest(src, fr, cs, st);
      if v.Int? && v.i != 0 {
        var n2, fl2 := SimThen(src, s, fr.(pc := fr.pc + size, locals := env, flags := fl), cs, st, fuel);
        Sequence(src, fr, cs, st, fuel, env, Nil, size, n, fl,
                 ExecBlock(src, s.thn, env, fuel), |CompileStmt(s, fr.pc)| - size, n2, fl2);
        AboveNil(ExecBlock(src, s.thn, env, fuel));
        n, fl := n + n2, fl2;
      } else if v.Int? && s.els.Some? {
        var n2, fl2 := SimBlock(src, s.els.value, fr.(pc := target, locals := env, flags := fl), cs, st, fuel);
        Sequence(src, fr, cs, st, fuel, env, Nil, target - fr.pc, n, fl,
                 ExecBlock(src, s.els.value, env, fuel), |CompileBlock(s.els.value, target)|, n2, fl2);
        AboveNil(ExecBlock(src, s.els.value, env, fuel));
        n, fl := n + n2, fl2;
      }
    case Thrown(_, _, _) =>
    case Aborted =>
    case Undef =>
    case Timeout =>
  }

  /** The true block, and the jump over the false block if there is one. */
  lemma {:induction false} SimThen(src: Source, s: Stmt, fr: Frame, cs: Frames, st: Stack, fuel: nat)
    returns (n: nat, fl: Flags)
    requires s.If? && fr.f < |src| && At(CodeOf(src, fr.f), fr.pc, CompileBlock(s.thn, fr.pc))
    requires s.els.Some? ==>
      var after := fr.pc + |CompileBlock(s.thn, fr.pc)|;
      At(CodeOf(src, fr.f), after, [Jmp(after + 1 + |CompileBlock(s.els.value, after + 1)|)])
    ensures StmtRuns(src, ExecBlock(src, s.thn, fr.locals, fuel), fr, cs, st,
                     |CompileBlock(s.thn, fr.pc)| + ElseSize(s, fr.pc + |CompileBlock(s.thn, fr.pc)|), fuel, n, fl)
    decreases fuel, 1, s, 1
  {
    hide StepN, Step, Unwind, ReturnFrom, Compiled, CodeOf, Execute, Transfer, CompileBlock, ExecBlock;
    n, fl := SimBlock(src, s.thn, fr, cs, st, fuel);
    match ExecBlock(src, s.thn, fr.locals, fuel)
    case Normal(env, litter) =>
      if s.els.Some? {
        var after := fr.pc + |CompileBlock(s.thn, fr.pc)|;
        ThenJmp(src, Running(fr, cs, st), n, after + 1 + |CompileBlock(s.els.value, after + 1)|,
                fr.(pc := after, locals := env, flags := fl), cs, PushAll(litter, st));
        n := n + 1;
      }
    case _ =>
  }

  function ElseSize(s: Stmt, after: nat): nat
    requires s.If?
  {
    match s.els
    case None => 0
    case Some(b) => 1 + |CompileBlock(b, after + 1)|
  }

  lemma {:induction false} SimFor(src: Source, s: Stmt, fr: Frame, cs: Frames, st: Stack, fuel: nat)
    returns (n: nat, fl: Flags)
    requires s.For?
    requires fr.f < |src| && At(CodeOf(src, fr.f), fr.pc, CompileStmt(s, fr.pc))
    ensures StmtRuns(src, Exec(src, s, fr.locals, fuel), fr, cs, st, |CompileStmt(s, fr.pc)|, fuel, n, fl)
    decreases fuel, 1, s, 3
  {
    hide StepN, Step, Unwind, ReturnFrom, Compiled, CodeOf, ExecLoop, ExecOption, CompileLoop, CompileOption;
    var I := CompileOption(s.init);
    var L := CompileLoop(s.test, s.inc, s.body, fr.pc + |I|);
    AtSplit(CodeOf(src, fr.f), fr.pc, I, L);
    n, fl := SimOption(src, s.init, fr, cs, st, fuel);
    match ExecOption(src, s.init, fr.locals, fuel) {
      case Normal(env, litter) =>
        var fr1 := fr.(pc := fr.pc + |I|, locals := env, flags := fl);
        var n2, fl2 := SimLoop(src, s, fr1, cs, PushAll(litter, st), fuel);
        Sequence(src, fr, cs, st, fuel, env, litter, |I|, n, fl, ExecLoop(src, s, env, fuel), |L|, n2, fl2);
        n, fl := n + n2, fl2;
      case _ =>
    }
  }

  /** What a pass does after its body: the increment, the jump back and the passes that follow. */
  function LoopBack(src: Source, s: Stmt, env: Env, fuel: nat): StmtResult
    requires s.For?
  {
    match ExecOption(src, s.inc, env, fuel)
    case Normal(env3, more) => Above(more, if fuel == 0 then TimesOut else ExecLoop(src, s, env3, fuel - 1))
    case other => other
  }

  /** A pass of the loop after its test. */
  function Pass(src: Source, s: Stmt, env: Env, fuel: nat): StmtResult
    requires s.For?
  {
    match ExecBlock(src, s.body, env, fuel)
    case Normal(env2, litter) => Above(litter, LoopBack(src, s, env2, fuel))
    case other => other
  }

  /** The loop, one pass at a time. */
  lemma {:induction false} SimLoop(src: Source, s: Stmt, fr: Frame, cs: Frames, st: Stack, fuel: nat)
    returns (n: nat, fl: Flags)
    requires s.For?
    requires fr.f < |src| && At(CodeOf(src, fr.f), fr.pc, CompileLoop(s.test, s.inc, s.body, fr.pc))
    ensures StmtRuns(src, ExecLoop(src, s, fr.locals, fuel), fr, cs, st,
                     |CompileLoop(s.test, s.inc, s.body, fr.pc)|, fuel, n, fl)
    decreases fuel, 1, s, 2
  {
    hide StepN, Step, Unwind, ReturnFrom, Compiled, CodeOf, Execute, Transfer, Eval, CompileTest, CompileBlock,
      CompileOption, ExecBlock, ExecOption, PushAll, At, CompileLoop;
    var size := TestSize(s.test);
    var b := CompileBlock(s.body, fr.pc + size);
    var c := CompileOption(s.inc);
    var end := fr.pc + size + |b| + |c| + 1;
    LoopPieces(CodeOf(src, fr.f), fr.pc, s);
    n, fl := SimTest(src, s.test, end, fr, cs, st, fuel);
    match Eval(src, s.test, fr.locals, fuel)
    case Val(v, env1) =>
      AfterTest(src, fr, cs, st);
      if v.Int? && v.i != 0 {
        var fr1 := fr.(pc := fr.pc + size, locals := env1, flags := fl);
        var n2, fl2 := SimPass(src, s, fr, fr1, cs, st, fuel);
        Sequence(src, fr, cs, st, fuel, env1, Nil, size, n, fl, Pass(src, s, env1, fuel), |b| + |c| + 1, n2, fl2);
        AboveNil(Pass(src, s, env1, fuel));
        n, fl := n + n2, fl2;
      }
    case Thrown(_, _, _) =>
    case Aborted =>
    case Undef =>
    case Timeout =>
  }

  /** The pieces of a loop and where they stand. */
  lemma LoopPieces(code: seq<Instr>, pc: nat, s: Stmt)
    requires s.For? && At(code, pc, CompileLoop(s.test, s.inc, s.body, pc))
    ensures var size := TestSize(s.test);
      var b, c := CompileBlock(s.body, pc + size), CompileOption(s.inc);
      && At(code, pc, CompileTest(s.test, pc + size + |b| + |c| + 1)) && At(code, pc + size, b)
      && At(code, pc + size + |b|, c) && At(code, pc + size + |b| + |c|, [Jmp(pc)])
      && |CompileLoop(s.test, s.inc, s.body, pc)| == size + |b| + |c| + 1
  {
    hide CompileTest, CompileBlock, CompileOption;
    var size := TestSize(s.test);
    var b, c := CompileBlock(s.body, pc + size), CompileOption(s.inc);
    var T := CompileTest(s.test, pc + size + |b| + |c| + 1);
    AtSplit(code, pc, T + b + c, [Jmp(pc)]);
    AtSplit(code, pc, T + b, c);
    AtSplit(code, pc, T, b);
  }

  lemma AfterTest(src: Source, fr: Frame, cs: Frames, st: Stack)
    ensures PushAll(Nil, st) == st
  {
  }

  lemma {:induction false} SimPass(src: Source, s: Stmt, top: Frame, fr: Frame, cs: Frames, st: Stack, fuel: nat)
    returns (n: nat, fl: Flags)
    requires s.For? && fr.f == top.f < |src| && fr.handlers == top.handlers
    requires At(CodeOf(src, fr.f), top.pc, CompileLoop(s.test, s.inc, s.body, top.pc))
    requires fr.pc == top.pc + TestSize(s.test)
    requires fr.pc + |CompileBlock(s.body, fr.pc)| + |CompileOption(s.inc)| + 1
          == top.pc + |CompileLoop(s.test, s.inc, s.body, top.pc)|
    requires At(CodeOf(src, fr.f), fr.pc, CompileBlock(s.body, fr.pc))
    requires At(CodeOf(src, fr.f), fr.pc + |CompileBlock(s.body, fr.pc)|, CompileOption(s.inc))
    requires At(CodeOf(src, fr.f), fr.pc + |CompileBlock(s.body, fr.pc)| + |CompileOption(s.inc)|, [Jmp(top.pc)])
    ensures StmtRuns(src, Pass(src, s, fr.locals, fuel), fr, cs, st,
                     |CompileBlock(s.body, fr.pc)| + |CompileOption(s.inc)| + 1, fuel, n, fl)
    decreases fuel, 1, s, 1
  {
    hide StepN, Step, Unwind, ReturnFrom, Compiled, CodeOf, Execute, Transfer, CompileBlock, CompileOption,
      CompileLoop, ExecBlock, LoopBack;
    var b := CompileBlock(s.body, fr.pc);
    n, fl := SimBlock(src, s.body, fr, cs, st, fuel);
    match ExecBlock(src, s.body, fr.locals, fuel) {
      case Normal(env, litter) =>
        var fr2 := fr.(pc := fr.pc + |b|, locals := env, flags := fl);
        var n2, fl2 := SimLoopBack(src, s, top, fr2, cs, PushAll(litter, st), fuel);
        Sequence(src, fr, cs, st, fuel, env, litter, |b|, n, fl,
                 LoopBack(src, s, env, fuel), |CompileOption(s.inc)| + 1, n2, fl2);
        n, fl := n + n2, fl2;
      case _ =>
    }
  }

  lemma {:induction false} SimLoopBack(src: Source, s: Stmt, top: Frame, fr: Frame, cs: Frames, st: Stack, fuel: nat)
    returns (n: nat, fl: Flags)
    requires s.For? && fr.f == top.f < |src| && fr.handlers == top.handlers
    requires At(CodeOf(src, fr.f), top.pc, CompileLoop(s.test, s.inc, s.body, top.pc))
    requires fr.pc + |CompileOption(s.inc)| + 1 == top.pc + |CompileLoop(s.test, s.inc, s.body, top.pc)|
    requires At(CodeOf(src, fr.f), fr.pc, CompileOption(s.inc))
    requires At(CodeOf(src, fr.f), fr.pc + |CompileOption(s.inc)|, [Jmp(top.pc)])
    ensures StmtRuns(src, LoopBack(src, s, fr.locals, fuel), fr, cs, st, |CompileOption(s.inc)| + 1, fuel, n, fl)
    decreases fuel, 1, s, 0
  {
    hide StepN, Step, Unwind, ReturnFrom, Compiled, CodeOf, Execute, CompileOption, CompileLoop, ExecOption, ExecLoop, Transfer;
    var s0 := Running(fr, cs, st);
    var c := CompileOption(s.inc);
    n, fl := SimOption(src, s.inc, fr, cs, st, fuel);
    match ExecOption(src, s.inc, fr.locals, fuel)
    case Normal(env, litter) =>
      var fr1 := fr.(pc := fr.pc + |c|, locals := env, flags := fl);
      var st1 := PushAll(litter, st);
      if fuel > 0 {
        ThenJmp(src, s0, n, top.pc, fr1, cs, st1);
        var n2, fl2 := SimLoop(src, s, fr1.(pc := top.pc), cs, st1, fuel - 1);
        StepNAdd(Compiled(src), s0, n + 1, n2);
        match ExecLoop(src, s, env, fuel - 1) {
          case Normal(_, more) => PushAllAppend(litter, more, st);
          case Returns(_, more) => PushAllAppend(litter, more, st);
          case Throws(x, env3, more) =>
            PushAllAppend(litter, more, st);
            UnwindIgnoresPc(x, fr.(locals := env3, flags := fl2), top.pc, cs, PushAll(Append(litter, more), st));
          case _ =>
        }
        n, fl := n + 1 + n2, fl2;
      }
    case _ =>
  }

  /** A throw in the body reaches this handler, with the enclosing handlers in force again. */
  lemma {:induction false} SimTry(src: Source, s: Stmt, fr: Frame, cs: Frames, st: Stack, fuel: nat)
    returns (n: nat, fl: Flags)
    requires s.Try?
    requires fr.f < |src| && At(CodeOf(src, fr.f), fr.pc, CompileStmt(s, fr.pc))
    ensures StmtRuns(src, Exec(src, s, fr.locals, fuel), fr, cs, st, |CompileStmt(s, fr.pc)|, fuel, n, fl)
    decreases fuel, 1, s, 1
  {
    hide StepN, Step, ReturnFrom, Compiled, CodeOf, Execute, CompileBlock, ExecBlock, Unwind, PopArgs, Enter, PushAll,
      At, CompileStmt, Transfer;
    var s0 := Running(fr, cs, st);
    var b := CompileBlock(s.body, fr.pc + 1);
    var catchPos := fr.pc + 1 + |b| + 2;
    var h := CompileBlock(s.handler, catchPos);
    TryPieces(CodeOf(src, fr.f), fr.pc, s);
    var fr1 := fr.(pc := fr.pc + 1, handlers := fr.handlers + [Handler(s.excepVar, catchPos)]);
    EnterTry(src, s.excepVar, catchPos, fr, cs, st);
    n, fl := SimBlock(src, s.body, fr1, cs, st, fuel);
    StepNAdd(Compiled(src), s0, 1, n);
    n := 1 + n;
    assert fr1.handlers[..|fr1.handlers| - 1] == fr.handlers;
    match ExecBlock(src, s.body, fr.locals, fuel)
    case Normal(env, litter) =>
      LeaveTry(src, s0, n, catchPos + |h|, fr1.(pc := fr.pc + 1 + |b|, locals := env, flags := fl), cs,
               PushAll(litter, st));
      n := n + 2;
    case Throws(x, env, litter) =>
      if s.excepVar < |env| {
        var env2 := env[s.excepVar := x];
        EnterHandler(x, fr1.(locals := env, flags := fl), cs, PushAll(litter, st));
        var n2, fl2 := SimBlock(src, s.handler, fr.(pc := catchPos, locals := env2, flags := fl), cs,
                                PushAll(litter, st), fuel);
        Sequence(src, fr, cs, st, fuel, env2, litter, catchPos - fr.pc, n, fl,
                 ExecBlock(src, s.handler, env2, fuel), |h|, n2, fl2);
        n, fl := n + n2, fl2;
      }
    case _ =>
  }

  /** The pieces of a `try` and where they stand. */
  lemma TryPieces(code: seq<Instr>, pc: nat, s: Stmt)
    requires s.Try? && At(code, pc, CompileStmt(s, pc))
    ensures var b := CompileBlock(s.body, pc + 1);
      var catchPos := pc + 1 + |b| + 2;
      var h := CompileBlock(s.handler, catchPos);
      && At(code, pc, [PushTry(s.excepVar, catchPos)]) && At(code, pc + 1, b)
      && At(code, pc + 1 + |b|, [PopTry, Jmp(catchPos + |h|)]) && At(code, catchPos, h)
      && |CompileStmt(s, pc)| == catchPos + |h| - pc
  {
    hide CompileBlock;
    var b := CompileBlock(s.body, pc + 1);
    var catchPos := pc + 1 + |b| + 2;
    var h := CompileBlock(s.handler, catchPos);
    var push, exit := PushTry(s.excepVar, catchPos), [PopTry, Jmp(catchPos + |h|)];
    AtSplit(code, pc, [push] + b + exit, h);
    AtSplit(code, pc, [push] + b, exit);
    AtSplit(code, pc, [push], b);
  }

  lemma EnterTry(src: Source, v: nat, t: nat, fr: Frame, cs: Frames, st: Stack)
    requires fr.f < |src| && At(CodeOf(src, fr.f), fr.pc, [PushTry(v, t)])
    ensures StepN(Compiled(src), Running(fr, cs, st), 1)
         == Running(fr.(pc := fr.pc + 1, handlers := fr.handlers + [Handler(v, t)]), cs, st)
  {
    hide StepN, Step, Execute, Unwind, PopArgs, Enter, ReturnFrom, CodeOf, Compiled, At;
    Here(src, Running(fr, cs, st));
    ThenControl(src, Running(fr, cs, st), 0, PushTry(v, t), fr, cs, st);
  }

  lemma EnterHandler(x: Value, fr: Frame, cs: Frames, st: Stack)
    requires |fr.handlers| > 0 && fr.handlers[|fr.handlers| - 1].excepVar < |fr.locals|
    ensures var h := fr.handlers[|fr.handlers| - 1];
      Unwind(x, fr, cs, st) == Running(fr.(pc := h.pc, locals := fr.locals[h.excepVar := x],
                                           handlers := fr.handlers[..|fr.handlers| - 1]), cs, st)
  {
  }

  /** POPTRY; JMP */
  lemma LeaveTry(src: Source, s: State, m: nat, t: nat, fr: Frame, cs: Frames, st: Stack)
    requires StepN(Compiled(src), s, m) == Running(fr, cs, st) && |fr.handlers| > 0
    requires fr.f < |src| && At(CodeOf(src, fr.f), fr.pc, [PopTry, Jmp(t)])
    ensures StepN(Compiled(src), s, m + 2)
         == Running(fr.(pc := t, handlers := fr.handlers[..|fr.handlers| - 1]), cs, st)
  {
    hide StepN, Step, Execute, CodeOf, Compiled, At, Unwind, PopArgs, Enter, ReturnFrom;
    AtIndex(CodeOf(src, fr.f), fr.pc, [PopTry, Jmp(t)], 0);
    AtIndex(CodeOf(src, fr.f), fr.pc, [PopTry, Jmp(t)], 1);
    ThenControl(src, s, m, PopTry, fr, cs, st);
    ThenJmp(src, s, m + 1, t, fr.(pc := fr.pc + 1, handlers := fr.handlers[..|fr.handlers| - 1]), cs, st);
  }

  // ----- the theorem -----

  /** How a machine run ends when the source call has this outcome. */
  function Final(r: CallResult, st: Stack): State
    requires !r.CallTimesOut?
  {
    match r
    case Result(v) => Returned(v, st)
    case Exception(x) => Uncaught(x, st)
    case CallAborts => Failed
    case CallUndefined => Undefined
  }

  /** Whatever the source call does, the machine does: the same result, the same exception, the same failure. */
  lemma CompiledEnds(src: Source, f: nat, vs: List<Value>, st: Stack, fuel: nat)
    requires Callable(Compiled(src), f, Length(vs))
    requires var r := CallFunction(src, f, vs, fuel); !r.CallTimesOut? && !r.CallUndefined?
    ensures Ends(Compiled(src), Enter(Compiled(src), f, vs, Bottom, st), Final(CallFunction(src, f, vs, fuel), st))
  {
    hide StepN, Enter, CallFunction;
    var n := SimCall(src, f, vs, Bottom, st, fuel);
  }

  /** While the source call is out of fuel the machine keeps running: n units of fuel last n - 1 steps or more. */
  lemma CompiledKeepsRunning(src: Source, f: nat, vs: List<Value>, st: Stack, n: nat)
    requires Callable(Compiled(src), f, Length(vs))
    requires CallFunction(src, f, vs, n + 1).CallTimesOut?
    ensures StepN(Compiled(src), Enter(Compiled(src), f, vs, Bottom, st), n).Running?
  {
    hide StepN, Enter, CallFunction;
    var s := Enter(Compiled(src), f, vs, Bottom, st);
    var m := SimCall(src, f, vs, Bottom, st, n + 1);
    if !StepN(Compiled(src), s, n).Running? {
      StepNAdd(Compiled(src), s, n, m - n);
      HaltedStays(Compiled(src), StepN(Compiled(src), s, n), m - n);
    }
  }

  /**
   Compiler correctness, both ways: the compiled run ends in `end` only if the source call terminates,
   and then either the source leaves the fragment or `end` is what the source says.
   */
  lemma CompilerCorrect(src: Source, f: nat, vs: List<Value>, st: Stack, end: State)
    requires Callable(Compiled(src), f, Length(vs))
    requires Ends(Compiled(src), Enter(Compiled(src), f, vs, Bottom, st), end)
    ensures exists fuel: nat :: var r := CallFunction(src, f, vs, fuel);
              !r.CallTimesOut? && (r.CallUndefined? || end == Final(r, st))
  {
    hide StepN, Enter, CallFunction;
    var s := Enter(Compiled(src), f, vs, Bottom, st);
    var n: nat :| StepN(Compiled(src), s, n) == end;
    var r := CallFunction(src, f, vs, n + 1);
    if r.CallTimesOut? {
      CompiledKeepsRunning(src, f, vs, st, n);
    } else if !r.CallUndefined? {
      CompiledEnds(src, f, vs, st, n + 1);
      EndsUnique(Compiled(src), s, end, Final(r, st));
    }
  }
}
