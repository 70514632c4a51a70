/** Programs whose meaning the optimiser changes. */
module OptimiserFaults {
  import opened Prelude
  import opened Int64
  import opened Opcodes
  import opened Machine
  import opened Source
  import opened Compiler
  import opened CompilerProof
  import opened Simulation
  import opened WellFormedCode
  import opened Removal
  import opened Preservation
  import opened Optimiser
  import opened OptimiserProof
  import opened OptimiserTheorem

  /** Nothing for the first pass to rewrite. */
  predicate Plain(c: Instrs, j: nat)
    requires j < |c|
  {
    WithType(c[j]) == c[j] && (j + 1 < |c| && c[j].LoadVar? ==> c[j + 1] != c[j])
  }

  lemma {:induction false} PlainScan(c: Instrs, slots: nat, n: nat)
    requires SlotsBelow(c, slots) && n <= |c| && forall j :: 0 <= j < |c| ==> Plain(c, j)
    ensures ScanTo(c, slots, n).code == c
  {
    if n > 0 {
      PlainScan(c, slots, n - 1);
      assert Plain(c, n - 1);
      hide TakesType, Digit;
    }
  }

  // ----- a logical and, folded bit by bit -----

  /** f() { return e; } */
  function ReturnFunction(e: Expr): Source
  {
    [SrcFunc(Sig(0, 1), Cons(Ret(Some(e)), Nil))]
  }

  function AndCode(l: int64, r: int64): Instrs
  {
    [PushI(r), PushI(l), Arith(And, Integer), Opcodes.Return, PushI(0), Opcodes.Return]
  }

  function ConstantCode(k: int64): Instrs
  {
    [PushI(k), Opcodes.Return, PushI(0), Opcodes.Return]
  }

  lemma ReturnCompiles(e: Expr)
    ensures CompileBody(ReturnFunction(e)[0].body) == CompileExpr(e) + [Opcodes.Return, PushI(0), Opcodes.Return]
  {
    var b := ReturnFunction(e)[0].body;
    assert CompileBlock(b, 0) == CompileStmt(b.head, 0) + CompileBlock(Nil, |CompileStmt(b.head, 0)|);
  }

  lemma AndCompiles(l: int64, r: int64)
    ensures CompileExpr(Binary(And, Integer, Const(l), Const(r))) == [PushI(r), PushI(l), Arith(And, Integer)]
  {
    assert CompileExpr(Const(r)) + CompileExpr(Const(l)) == [PushI(r), PushI(l)];
  }

  lemma ReturnMeans(e: Expr, x: Value)
    requires Eval(ReturnFunction(e), e, NewLocals(1, Nil), 0) == Val(x, NewLocals(1, Nil))
    ensures CallFunction(ReturnFunction(e), 0, Nil, 1) == Result(x)
  {
    var src, env := ReturnFunction(e), NewLocals(1, Nil);
    assert Exec(src, src[0].body.head, env, 0) == Returns(x, Nil);
    assert ExecBlock(src, src[0].body, env, 0) == Returns(x, Nil);
  }

  lemma AndFolds(l: int64, r: int64)
    ensures FoldPass(AndCode(l, r)) == Some(ConstantCode(BitAnd(l, r)))
    ensures FoldLoop(AndCode(l, r)) == Some(ConstantCode(BitAnd(l, r)))
  {
    var c, k := AndCode(l, r), BitAnd(l, r);
    hide BitAnd;
    assert Foldable(c, 2) && FoldedAt(c, 2) == Some(k);
    assert forall i :: 0 <= i < |c| && i != 2 ==> !Foldable(c, i);
    assert Consumed(c) == {0, 1} by {
      assert FoldedAway(c, 0) && FoldedAway(c, 1);
    }
    assert WithFolds(c) == [PushI(r), PushI(l), PushI(k), Opcodes.Return, PushI(0), Opcodes.Return];
    RemoveTwo(WithFolds(c));
    ConstantStays(k);
  }

  lemma RemoveTwo(c: Instrs)
    requires |c| == 6 && forall i :: 0 <= i < |c| ==> Target(c[i]).None?
    ensures Remove(c, {0, 1}) == c[2..]
  {
    var r := {0, 1};
    assert Below(r, 0) == 0 && Below(r, 1) == 1 && Below(r, 2) == 2 && Below(r, 3) == 2;
    assert Below(r, 4) == 2 && Below(r, 5) == 2 && Below(r, 6) == 2;
    forall k: nat | k < 4 ensures Remove(c, r)[k] == c[2..][k] {
      SurvivorAt(c, r, 6, k + 2);
    }
  }

  lemma ConstantStays(k: int64)
    ensures FoldLoop(ConstantCode(k)) == Some(ConstantCode(k))
  {
    var c := ConstantCode(k);
    assert Consumed(c) == {};
    assert WithFolds(c) == c;
    RemoveNone(c);
  }

  /** Code that touches no variable passes the propagation unchanged. */
  lemma NoVariables(c: Instrs, argc: nat, slots: nat)
    requires forall i :: 0 <= i < |c| ==>
      Plain(c, i) && !c[i].LoadVar? && !c[i].StoreVar? && !c[i].IncVar? && !c[i].PushTry?
    ensures SlotsBelow(c, slots) && VarsPass(c, argc, slots) == c
  {
    assert forall i :: 0 <= i < |c| ==> Plain(c, i);
    PlainScan(c, slots, |c|);
    assert Rewritten(c, argc, slots) == c;
    assert DeadCode(c) == {};
    RemoveNone(c);
  }

  lemma AndOptimises(l: int64, r: int64)
    ensures SlotsBelow(AndCode(l, r), 1)
    ensures Optimised(AndCode(l, r), 0, 1) == Some(ConstantCode(BitAnd(l, r)))
  {
    hide BitAnd, VarsPass, FoldLoop;
    AndFolds(l, r);
    ConstantStays(BitAnd(l, r));
    NoVariables(AndCode(l, r), 0, 1);
    NoVariables(ConstantCode(BitAnd(l, r)), 0, 1);
  }

  lemma AndMeans(l: int64, r: int64)
    ensures var e := Binary(And, Integer, Const(l), Const(r));
      CallFunction(ReturnFunction(e), 0, Nil, 1) == Result(Int(LogicalAnd(l, r)))
  {
    var e, env := Binary(And, Integer, Const(l), Const(r)), NewLocals(1, Nil);
    var src := ReturnFunction(e);
    assert Eval(src, Const(r), env, 0) == Val(Int(r), env);
    assert Eval(src, Const(l), env, 0) == Val(Int(l), env);
    ReturnMeans(e, Int(LogicalAnd(l, r)));
  }

  lemma AndSound(l: int64, r: int64)
    requires l == 0 || r == 0 || ShareBit0Alone(l, r)
    ensures SlotsBelow(AndCode(l, r), 1) && SoundThroughout(AndCode(l, r), 0, 1)
  {
    hide BitAnd, ShareBit0Alone, VarsPass, FoldLoop, FoldLoopAgrees;
    var c, d := AndCode(l, r), ConstantCode(BitAnd(l, r));
    NoVariables(c, 0, 1);
    NoVariables(d, 0, 1);
    AndFoldsCorrectly(l, r);
    AndFolds(l, r);
    ConstantStays(BitAnd(l, r));
    assert FoldLoopAgrees(d) by { ConstantAgrees(BitAnd(l, r)); }
    assert FoldLoopAgrees(c) by { AndAgrees(l, r); }
  }

  lemma ConstantAgrees(k: int64)
    ensures FoldLoopAgrees(ConstantCode(k))
  {
  }

  lemma AndAgrees(l: int64, r: int64)
    requires FoldValue(And, l, r) == Compute(And, l, r)
    ensures FoldLoopAgrees(AndCode(l, r))
  {
    hide FoldPass, BitAnd;
    AndFolds(l, r);
    ConstantAgrees(BitAnd(l, r));
  }

  /** For `return l && r;` the optimiser is right if and only if an operand is zero or they share bit 0 alone. */
  lemma AndFault(l: int64, r: int64)
    ensures CompileBody(ReturnFunction(Binary(And, Integer, Const(l), Const(r)))[0].body) == AndCode(l, r)
    ensures SlotsBelow(AndCode(l, r), 1)
    ensures var p := Compiled(ReturnFunction(Binary(And, Integer, Const(l), Const(r))));
      var d := Optimised(AndCode(l, r), 0, 1);
      d.Some? && (Refines(p, WithCode(p, 0, d.value)) <==> l == 0 || r == 0 || ShareBit0Alone(l, r))
  {
    hide BitAnd, ShareBit0Alone, Refines, Optimised, SoundThroughout, CallFunction, StepN, WellFormed, CompileBody, Enter;
    var e, k := Binary(And, Integer, Const(l), Const(r)), BitAnd(l, r);
    var p, q := Compiled(ReturnFunction(e)), Compiled(ReturnFunction(Const(k)));
    ReturnCompiles(e);
    AndCompiles(l, r);
    ReturnCompiles(Const(k));
    AndOptimises(l, r);
    var tail := [Opcodes.Return, PushI(0), Opcodes.Return];
    assert CompileExpr(e) + tail == AndCode(l, r) && CompileExpr(Const(k)) + tail == ConstantCode(k);
    assert q == WithCode(p, 0, ConstantCode(k));
    if l == 0 || r == 0 || ShareBit0Alone(l, r) {
      AndSound(l, r);
      CompiledWellFormed(ReturnFunction(e)[0].body);
      OptimiserCorrect(p, 0, ConstantCode(k));
    } else {
      AndMeans(l, r);
      ReturnMeans(Const(k), Int(k));
      CompiledEnds(ReturnFunction(e), 0, Nil, Empty, 1);
      CompiledEnds(ReturnFunction(Const(k)), 0, Nil, Empty, 1);
      AndFoldsCorrectly(l, r);
      DifferentEnds(p, q, Nil, Returned(Int(LogicalAnd(l, r)), Empty), Returned(Int(k), Empty));
    }
  }

  lemma DifferentEnds(p: Program, q: Program, vs: List<Value>, r1: State, r2: State)
    requires 0 < |p| && 0 < |q| && Callable(p, 0, Length(vs))
    requires Ends(p, Enter(p, 0, vs, Bottom, Empty), r1) && Ends(q, Enter(q, 0, vs, Bottom, Empty), r2)
    requires r1 != r2 && !r1.Undefined?
    ensures !Refines(p, q)
  {
    hide Ends, Enter;
    if Refines(p, q) {
      assert Agree(p, q, 0, vs, Empty, r1);
      EndsUnique(q, Enter(q, 0, vs, Bottom, Empty), r1, r2);
    }
  }

  // ----- a copy of a variable that is written on one branch -----

  /** f(u) { if (u) { u = k; } v = u; return e; } */
  function CopyBody(k: int64, e: Expr): Block
  {
    Cons(If(Var(1), Cons(Do(Set(1, Const(k))), Nil), None),
         Cons(Do(Set(2, Var(1))), Cons(Ret(Some(e)), Nil)))
  }

  function CopyFunction(k: int64, e: Expr): Source
  {
    [SrcFunc(Sig(1, 3), CopyBody(k, e))]
  }

  function CopyCode(k: int64): Instrs
  {
    [LoadVar(1), PushI(0), Cmp(Integer), Branch(Eq, 6), PushI(k), StoreVar(1),
     LoadVar(1), StoreVar(2), LoadVar(2), Opcodes.Return, PushI(0), Opcodes.Return]
  }

  lemma BranchCompiles(k: int64)
    ensures CompileStmt(CopyBody(k, Var(2)).head, 0)
         == [LoadVar(1), PushI(0), Cmp(Integer), Branch(Eq, 6), PushI(k), StoreVar(1)]
  {
    var s := CopyBody(k, Var(2)).head;
    assert CompileBlock(s.thn, 4) == CompileStmt(s.thn.head, 4) == [PushI(k), StoreVar(1)];
    assert TestSize(Var(1)) == |CompileTest(Var(1), 0)| == 4;
  }

  lemma CopyCompiles(k: int64, e: Expr, i: Instr)
    requires CompileExpr(e) == [i]
    ensures CompileBody(CopyBody(k, e)) == CopyCode(k)[8 := i]
  {
    var b := CopyBody(k, e);
    BranchCompiles(k);
    hide CompileTest;
    assert CompileBlock(b.tail.tail, 8) == CompileStmt(b.tail.tail.head, 8) == [i, Opcodes.Return];
    assert CompileBlock(b.tail, 6) == [LoadVar(1), StoreVar(2)] + CompileBlock(b.tail.tail, 8);
    assert CompileBlock(b, 0) == CompileStmt(b.head, 0) + CompileBlock(b.tail, 6);
  }

  lemma PlainStep(c: Instrs, slots: nat, n: nat)
    requires SlotsBelow(c, slots) && n < |c| && forall j :: 0 <= j < |c| ==> Plain(c, j)
    ensures ScanTo(c, slots, n).code == c && ScanTo(c, slots, n + 1) == Infer(ScanTo(c, slots, n), n)
  {
    PlainScan(c, slots, n);
    assert Plain(c, n);
    hide TakesType, Digit;
  }

  lemma CopyPlain(k: int64)
    ensures SlotsBelow(CopyCode(k), 3) && forall j :: 0 <= j < 12 ==> Plain(CopyCode(k), j)
    ensures WrittenOnce(CopyCode(k), 1, 2) && !WrittenOnce(CopyCode(k), 1, 1)
  {
  }

  /** The scan sees the store of k just before the copy, whatever the branch does. */
  lemma CopyScan(k: int64)
    ensures SlotsBelow(CopyCode(k), 3) && ScanTo(CopyCode(k), 3, 12).code == CopyCode(k)
    ensures ScanTo(CopyCode(k), 3, 12).types[2] == 1 && ScanTo(CopyCode(k), 3, 12).lasts[2] == Some(k)
  {
    hide ScanTo, TakesType, Digit, SlotsBelow, WrittenOnce, Plain;
    var c := CopyCode(k);
    CopyPlain(k);
    PlainScan(c, 3, 12);
    PlainStep(c, 3, 4);
    PlainStep(c, 3, 5);
    PlainStep(c, 3, 6);
    ValueStays(c, 1, 3, 2, 7, 12);
    assert ScanTo(c, 3, 5).prev == 1 && ScanTo(c, 3, 5).last == Some(k);
    assert ScanTo(c, 3, 6).types[1] == 1 && ScanTo(c, 3, 6).lasts[1] == Some(k);
    assert ScanTo(c, 3, 7).prev == 1 && ScanTo(c, 3, 7).last == Some(k);
  }

  lemma CopyRewritten(k: int64)
    ensures SlotsBelow(CopyCode(k), 3)
    ensures Rewritten(CopyCode(k), 1, 3) == CopyCode(k)[8 := PushI(k)]
  {
    hide ScanTo, SlotsBelow;
    CopyScan(k);
    CopyCounts(k);
    var c, s := CopyCode(k), ScanTo(CopyCode(k), 3, 12);
    assert Constant(s, 1, 2) == Some(k) && Constant(s, 1, 1) == None;
  }

  lemma CopyCounts(k: int64)
    ensures WriteCount(CopyCode(k), 2, 12) == 1 && WriteCount(CopyCode(k), 1, 12) == 1
  {
    var c := CopyCode(k);
    CountMore(c, 2, 7, 0);
    CountMore(c, 1, 5, 0);
    assert WriteCount(c, 2, 8) == 1 && WriteCount(c, 1, 6) == 1;
    CountMore(c, 2, 12, 8);
    CountMore(c, 1, 12, 6);
  }

  /** Called with u, the function returns what v is then: k if the branch is taken, and u, which is 0, if not. */
  lemma CopyMeans(k: int64, e: Expr, u: int64, x: int64)
    requires (e == Var(2) && x == if u != 0 then k else 0) || e == Const(x)
    ensures CallFunction(CopyFunction(k, e), 0, Cons(Int(u), Nil), 1) == Result(Int(x))
  {
    var src, b, env := CopyFunction(k, e), CopyBody(k, e), NewLocals(3, Cons(Int(u), Nil));
    assert env[1] == Int(u) && |env| == 3;
    var v := if u != 0 then k else 0;
    var env1 := env[1 := Int(v)];
    assert ExecBlock(src, b.head.thn.tail, env1, 0) == Normal(env1, Nil);
    if u != 0 {
      assert Eval(src, Const(k), env, 0) == Val(Int(k), env);
      assert ExecEffect(src, Set(1, Const(k)), env, 0) == Normal(env1, Nil);
      assert Exec(src, b.head.thn.head, env, 0) == Normal(env1, Nil);
      assert ExecBlock(src, b.head.thn, env, 0) == Normal(env1, Nil);
    } else {
      assert env1 == env;
    }
    assert Exec(src, b.head, env, 0) == Normal(env1, Nil);
    var env2 := env1[2 := Int(v)];
    assert Exec(src, b.tail.head, env1, 0) == Normal(env2, Nil);
    assert Exec(src, b.tail.tail.head, env2, 0) == Returns(Int(x), Nil);
    assert ExecBlock(src, b.tail.tail, env2, 0) == Returns(Int(x), Nil);
    assert ExecBlock(src, b.tail, env1, 0) == Returns(Int(x), Nil);
    assert ExecBlock(src, b, env, 0) == Returns(Int(x), Nil);
    assert Length(Cons(Int(u), Nil)) == 1 && src[0].sig == Sig(1, 3) && src[0].body == b;
  }

  /** Called with anything else than an integer, it leaves the fragment where it tests it. */
  lemma CopyLeaves(p: Program, k: int64, vs: List<Value>, st: Stack)
    requires |p| == 1 && p[0] == Func(Sig(1, 3), Indexed(CopyCode(k)))
    requires Length(vs) <= 1 && (vs.Cons? ==> !vs.head.Int?)
    ensures Ends(p, Enter(p, 0, vs, Bottom, st), Undefined)
  {
    hide Transfer;
    var s := Enter(p, 0, vs, Bottom, st);
    var locals := s.frame.locals;
    assert |locals| == 3 && locals[1] == if vs.Cons? then vs.head else Unset;
    if locals[1] == Unset {
      assert Step(p, s) == Undefined;
      assert StepN(p, s, 1) == StepN(p, Step(p, s), 0);
    } else {
      var s1, s2 := Step(p, s), Step(p, Step(p, s));
      assert s1 == Running(s.frame.(pc := 1), Bottom, Push(Operand(locals[1]), s.stack));
      assert s2 == Running(s.frame.(pc := 2), Bottom, Push(Operand(Int(0)), s1.stack));
      assert Step(p, s2) == Undefined;
      StepNAdd(p, s, 1, 2);
      StepNAdd(p, s1, 1, 1);
      assert StepN(p, s, 1) == StepN(p, s1, 0) && StepN(p, s1, 1) == StepN(p, s2, 0);
      assert StepN(p, s2, 1) == StepN(p, Step(p, s2), 0);
    }
  }

  /** No store in the result is dead, and nothing can be folded: the optimiser stops after one round. */
  lemma CopyOptimises(k: int64)
    ensures SlotsBelow(CopyCode(k), 3)
    ensures Optimised(CopyCode(k), 1, 3) == Some(CopyCode(k)[8 := PushI(k)])
  {
    hide Rewritten, FoldPass, DeadCode, Remove, SlotsBelow;
    var e := CopyCode(k)[8 := PushI(k)];
    CopyRewritten(k);
    CopyAlive(k);
    CopyUnfolded(k);
    RemoveNone(e);
    assert VarsPass(CopyCode(k), 1, 3) == e;
    assert FoldLoop(e) == Some(e);
  }

  lemma CopyAlive(k: int64)
    ensures DeadCode(CopyCode(k)[8 := PushI(k)]) == {}
  {
    var e := CopyCode(k)[8 := PushI(k)];
    assert e[6] == LoadVar(1) && Reads(e[6], {1});
  }

  lemma CopyUnfolded(k: int64)
    ensures FoldPass(CopyCode(k)[8 := PushI(k)]) == Some(CopyCode(k)[8 := PushI(k)])
  {
    var e := CopyCode(k)[8 := PushI(k)];
    assert forall i :: 0 <= i < |e| ==> !Foldable(e, i);
    hide Foldable;
    assert Consumed(e) == {};
    assert WithFolds(e) == e;
    RemoveNone(e);
  }

  /** With k = 0 the variable has that value anyhow. */
  lemma CopyHarmless(vs: List<Value>, st: Stack, end: State)
    requires Length(vs) <= 1
    ensures Agree(Compiled(CopyFunction(0, Var(2))), Compiled(CopyFunction(0, Const(0))), 0, vs, st, end)
  {
    hide StepN, Enter, CallFunction, Ends, CompileBody;
    var p, q := Compiled(CopyFunction(0, Var(2))), Compiled(CopyFunction(0, Const(0)));
    assert Callable(p, 0, Length(vs)) && Callable(q, 0, Length(vs));
    var s, t := Enter(p, 0, vs, Bottom, st), Enter(q, 0, vs, Bottom, st);
    if vs.Cons? && vs.head.Int? {
      assert vs == Cons(Int(vs.head.i), Nil);
      CopyMeans(0, Var(2), vs.head.i, 0);
      CopyMeans(0, Const(0), vs.head.i, 0);
      CompiledEnds(CopyFunction(0, Var(2)), 0, vs, st, 1);
      CompiledEnds(CopyFunction(0, Const(0)), 0, vs, st, 1);
      if Ends(p, s, end) {
        EndsUnique(p, s, end, Returned(Int(0), st));
      }
      if Ends(q, t, end) {
        EndsUnique(q, t, end, Returned(Int(0), st));
      }
    } else {
      CopyCompiles(0, Var(2), LoadVar(2));
      assert CopyCode(0)[8 := LoadVar(2)] == CopyCode(0);
      CopyLeaves(p, 0, vs, st);
      if Ends(p, s, end) {
        EndsUnique(p, s, end, Undefined);
      }
    }
  }

  /**
   Called with 0, this function returns 0 before optimisation and k after it: the linear scan takes v for k
   although u is written on one branch only.
   */
  lemma CopyFault(k: int64)
    ensures CompileBody(CopyBody(k, Var(2))) == CopyCode(k)
    ensures SlotsBelow(CopyCode(k), 3) && !ConstantsSound(CopyCode(k), 1, 3)
    ensures var p, d := Compiled(CopyFunction(k, Var(2))), Optimised(CopyCode(k), 1, 3);
      d.Some? && (Refines(p, WithCode(p, 0, d.value)) <==> k == 0)
  {
    hide Agree, Optimised, CallFunction, StepN, CompileBody, Enter, SoundThroughout, ConstantsSound, SlotsBelow;
    var vs := Cons(Int(0), Nil);
    var p, q := Compiled(CopyFunction(k, Var(2))), Compiled(CopyFunction(k, Const(k)));
    CopyCompiles(k, Var(2), LoadVar(2));
    CopyCompiles(k, Const(k), PushI(k));
    assert CopyCode(k)[8 := LoadVar(2)] == CopyCode(k);
    CopyOptimises(k);
    CopyUnsound(k);
    assert q == WithCode(p, 0, CopyCode(k)[8 := PushI(k)]);
    if k == 0 {
      forall f: nat, vs: List<Value>, st: Stack, end: State | f < |p| && Callable(p, f, Length(vs))
        ensures Agree(p, q, f, vs, st, end)
      {
        CopyHarmless(vs, st, end);
      }
    } else {
      CopyMeans(k, Var(2), 0, 0);
      CopyMeans(k, Const(k), 0, k);
      assert Length(vs) == 1 && Callable(p, 0, 1) && Callable(q, 0, 1);
      CompiledEnds(CopyFunction(k, Var(2)), 0, vs, Empty, 1);
      CompiledEnds(CopyFunction(k, Const(k)), 0, vs, Empty, 1);
      DifferentEnds(p, q, vs, Returned(Int(0), Empty), Returned(Int(k), Empty));
    }
  }

  lemma CopyKnown(k: int64)
    ensures SlotsBelow(CopyCode(k), 3) && 2 in Known(CopyCode(k), 1, 3)
  {
    hide ScanTo, SlotsBelow, WrittenOnce;
    var c := CopyCode(k);
    CopyScan(k);
    CopyCounts(k);
    assert c[8] == LoadVar(2) && Loaded(c, 2);
  }

  lemma CopyUnsound(k: int64)
    ensures SlotsBelow(CopyCode(k), 3) && !ConstantsSound(CopyCode(k), 1, 3)
  {
    hide Known, SlotsBelow, WrittenOnce, CatchSlot;
    var c := CopyCode(k);
    CopyPlain(k);
    CopyKnown(k);
    KnownIn(c, 1, 3, 2);
    assert c[7] == StoreVar(2) && c[6] == LoadVar(1) && !WrittenOnce(c, 1, 1);
    assert !ConstantSound(c, 1, 2);
  }
}
