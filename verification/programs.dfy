/**
 What small programs answer, for all arguments, stated without the functions that the machine and the semantics
 share: where arguments arrive, what operators give, and what loops, recursion and exceptions come to.
 */
module Programs {
  import opened Prelude
  import opened Int64
  import opened Opcodes
  import opened Machine
  import opened Source
  import opened CompilerProof
  import opened Simulation
  import opened Pipeline

  /** Function f has these arguments, at least this many slots, and this body. */
  predicate Defines(src: Source, f: nat, argc: nat, slots: nat, body: Block)
  {
    f < |src| && src[f].sig.argc == argc < slots <= src[f].sig.slots && src[f].body == body
  }

  function Answer(e: Expr): Block
  {
    Cons(Ret(Some(e)), Nil)
  }

  lemma Answered(src: Source, f: nat, e: Expr, vs: List<Value>, fuel: nat, v: Value, env: Env)
    requires f < |src| && Length(vs) <= src[f].sig.argc < src[f].sig.slots && src[f].body == Answer(e) && fuel > 0
    requires Eval(src, e, NewLocals(src[f].sig.slots, vs), fuel - 1) == Val(v, env)
    ensures CallFunction(src, f, vs, fuel) == Result(v)
  {
    hide Eval, NewLocals;
    var locals := NewLocals(src[f].sig.slots, vs);
    assert Exec(src, Ret(Some(e)), locals, fuel - 1) == Returns(v, Nil);
    assert ExecBlock(src, Answer(e), locals, fuel - 1) == Returns(v, Nil);
  }

  /** What a call answers, the assembled words leave on the stack. */
  lemma AssembledAnswers(src: Source, q: Program, f: nat, vs: List<Value>, st: Stack, fuel: nat)
    requires Built(src, q) && Callable(q, f, Length(vs)) && CallFunction(src, f, vs, fuel).Result?
    ensures Ends(q, Enter(q, f, vs, Bottom, st), Returned(CallFunction(src, f, vs, fuel).v, st))
  {
    hide Built, CallFunction, Enter, Ends;
    AssembledEnds(src, q, f, vs, st, fuel);
  }

  // ----- arguments -----

  /** The argument in place i is what slot i + 1 holds, and what the assembled words return for it. */
  lemma ArgumentArrives(src: Source, f: nat, i: nat, vs: List<Value>, fuel: nat)
    requires f < |src| && Length(vs) <= src[f].sig.argc < src[f].sig.slots && src[f].body == Answer(Var(i + 1))
    requires i < Length(vs) && Nth(vs, i) != Unset && fuel > 0
    ensures CallFunction(src, f, vs, fuel) == Result(Nth(vs, i))
    ensures forall q, st | Built(src, q) && Callable(q, f, Length(vs)) ::
      Ends(q, Enter(q, f, vs, Bottom, st), Returned(Nth(vs, i), st))
  {
    Answered(src, f, Var(i + 1), vs, fuel, Nth(vs, i), NewLocals(src[f].sig.slots, vs));
    hide CallFunction, Built, Ends, Enter, Callable;
    forall q, st | Built(src, q) && Callable(q, f, Length(vs))
      ensures Ends(q, Enter(q, f, vs, Bottom, st), Returned(Nth(vs, i), st))
    {
      AssembledAnswers(src, q, f, vs, st, fuel);
    }
  }

  function Ints(l: int64, r: int64): (vs: List<Value>)
    ensures Length(vs) == 2
  {
    assert Length(Cons(Int(r), Nil)) == 1;
    Cons(Int(l), Cons(Int(r), Nil))
  }

  lemma TwoLocals(slots: nat, l: int64, r: int64)
    requires slots > 2
    ensures var env := NewLocals(slots, Ints(l, r)); |env| == slots && env[1] == Int(l) && env[2] == Int(r)
  {
    assert Nth(Ints(l, r), 1) == Int(r);
  }

  // ----- operators -----

  /** `return a op b;` called with l and r gives what the operation must give, and is undefined where it traps. */
  lemma OperatorAnswers(src: Source, f: nat, op: BinOp, ty: Typing, l: int64, r: int64, fuel: nat)
    requires Defines(src, f, 2, 3, Answer(Binary(op, ty, Var(1), Var(2)))) && fuel > 0
    ensures forall x: int64 :: CallFunction(src, f, Ints(l, r), fuel) == Result(Int(x)) <==> IsResult(op, l, r, x)
    ensures CallFunction(src, f, Ints(l, r), fuel).CallUndefined? <==> op == Div && (r == 0 || (l == MIN && r == -1))
  {
    hide Compute, IsResult, NewLocals;
    var e, env := Binary(op, ty, Var(1), Var(2)), NewLocals(src[f].sig.slots, Ints(l, r));
    TwoLocals(src[f].sig.slots, l, r);
    assert Eval(src, Var(2), env, fuel - 1) == Val(Int(r), env) && Eval(src, Var(1), env, fuel - 1) == Val(Int(l), env);
    forall x: int64 ensures Compute(op, l, r) == Some(x) <==> IsResult(op, l, r, x) {
      ComputeIff(op, l, r, x);
    }
    ComputeIff(op, l, r, 0);
    if Compute(op, l, r).Some? {
      Answered(src, f, e, Ints(l, r), fuel, Int(Compute(op, l, r).value), env);
    } else {
      assert Exec(src, Ret(Some(e)), env, fuel - 1) == Undefines;
      assert ExecBlock(src, Answer(e), env, fuel - 1) == Undefines;
    }
  }

  /** `return a < b;` and its like give 1 or 0, as the integers compare wherever their difference fits in 64 bits. */
  lemma ComparisonAnswers(src: Source, f: nat, c: Cond, ty: Typing, l: int64, r: int64, fuel: nat)
    requires Defines(src, f, 2, 3, Answer(Compare(c, ty, Var(1), Var(2)))) && fuel > 0
    ensures CallFunction(src, f, Ints(l, r), fuel) in {Result(Int(0)), Result(Int(1))}
    ensures MIN <= r - l <= MAX ==>
      (CallFunction(src, f, Ints(l, r), fuel) == Result(Int(1)) <==> Mathematically(c, l, r))
  {
    hide NewLocals, Holds, CompareFlags;
    var e, env := Compare(c, ty, Var(1), Var(2)), NewLocals(src[f].sig.slots, Ints(l, r));
    TwoLocals(src[f].sig.slots, l, r);
    assert Eval(src, Var(2), env, fuel - 1) == Val(Int(r), env) && Eval(src, Var(1), env, fuel - 1) == Val(Int(l), env);
    ComparesCorrectly(l, r);
    Answered(src, f, e, Ints(l, r), fuel, Truth(Holds(c, CompareFlags(l, r))), env);
  }

  /** `return !a;` */
  lemma NegationAnswers(src: Source, f: nat, ty: Typing, l: int64, r: int64, fuel: nat)
    requires Defines(src, f, 2, 3, Answer(Negate(ty, Var(1)))) && fuel > 0
    ensures CallFunction(src, f, Ints(l, r), fuel) == Result(Int(if l == 0 then 1 else 0))
  {
    hide NewLocals;
    var env := NewLocals(src[f].sig.slots, Ints(l, r));
    TwoLocals(src[f].sig.slots, l, r);
    assert Eval(src, Var(1), env, fuel - 1) == Val(Int(l), env);
    Answered(src, f, Negate(ty, Var(1)), Ints(l, r), fuel, Int(if l == 0 then 1 else 0), env);
  }

  /** `b = a++; return b;` or `return a;`, and with `--`: b is the value before, and a differs from it by one. */
  lemma StepAnswers(src: Source, f: nat, up: bool, before: bool, l: int64, r: int64, fuel: nat)
    requires Defines(src, f, 2, 3, Cons(Do(Set(2, PostStep(1, up))), Answer(Var(if before then 2 else 1)))) && fuel > 0
    ensures var x := CallFunction(src, f, Ints(l, r), fuel);
      x.Result? && x.v.Int? && if before then x.v.i == l else (x.v.i - l - (if up then 1 else -1)) % SPAN == 0
  {
    hide NewLocals, Wrap;
    var env := NewLocals(src[f].sig.slots, Ints(l, r));
    TwoLocals(src[f].sig.slots, l, r);
    var x := Wrap(l + Amount(up));
    WrapIff(l + Amount(up), x);
    var env1 := env[1 := Int(x)];
    assert Eval(src, PostStep(1, up), env, fuel - 1) == Val(Int(l), env1);
    var env2 := env1[2 := Int(l)];
    assert ExecEffect(src, Set(2, PostStep(1, up)), env, fuel - 1) == Normal(env2, Nil);
    assert Exec(src, Do(Set(2, PostStep(1, up))), env, fuel - 1) == Normal(env2, Nil);
    var e := Var(if before then 2 else 1);
    var v := Int(if before then l else x);
    assert Eval(src, e, env2, fuel - 1) == Val(v, env2);
    assert Exec(src, Ret(Some(e)), env2, fuel - 1) == Returns(v, Nil);
    assert ExecBlock(src, Answer(e), env2, fuel - 1) == Returns(v, Nil);
    assert ExecBlock(src, src[f].body, env, fuel - 1) == Returns(v, Nil);
  }

  // ----- the order of evaluation -----

  /** `return a++ op a;`: the right operand is read before a changes. */
  lemma RightOperandFirst(src: Source, f: nat, op: BinOp, ty: Typing, l: int64, r: int64, fuel: nat)
    requires Defines(src, f, 2, 3, Answer(Binary(op, ty, PostStep(1, true), Var(1)))) && fuel > 0
    ensures forall x: int64 :: CallFunction(src, f, Ints(l, r), fuel) == Result(Int(x)) <==> IsResult(op, l, l, x)
  {
    hide Compute, IsResult, NewLocals, Wrap;
    var e, env := Binary(op, ty, PostStep(1, true), Var(1)), NewLocals(src[f].sig.slots, Ints(l, r));
    TwoLocals(src[f].sig.slots, l, r);
    var env1 := env[1 := Int(Wrap(l + 1))];
    assert Eval(src, Var(1), env, fuel - 1) == Val(Int(l), env);
    assert Eval(src, PostStep(1, true), env, fuel - 1) == Val(Int(l), env1);
    forall x: int64 ensures Compute(op, l, l) == Some(x) <==> IsResult(op, l, l, x) {
      ComputeIff(op, l, l, x);
    }
    if Compute(op, l, l).Some? {
      Answered(src, f, e, Ints(l, r), fuel, Int(Compute(op, l, l).value), env1);
    } else {
      assert Exec(src, Ret(Some(e)), env, fuel - 1) == Undefines;
      assert ExecBlock(src, Answer(e), env, fuel - 1) == Undefines;
    }
  }

  /** `b = 0 && a++; return a;`: both operands of && are evaluated. */
  lemma BothOperandsEvaluated(src: Source, f: nat, ty: Typing, l: int64, r: int64, fuel: nat)
    requires Defines(src, f, 2, 3, Cons(Do(Set(2, Binary(And, ty, Const(0), PostStep(1, true)))), Answer(Var(1))))
    requires fuel > 0
    ensures var x := CallFunction(src, f, Ints(l, r), fuel); x.Result? && x.v.Int? && (l + 1 - x.v.i) % SPAN == 0
  {
    hide NewLocals, Wrap;
    var env := NewLocals(src[f].sig.slots, Ints(l, r));
    TwoLocals(src[f].sig.slots, l, r);
    var x := Wrap(l + 1);
    WrapIff(l + 1, x);
    var e, env1 := Binary(And, ty, Const(0), PostStep(1, true)), env[1 := Int(x)];
    assert Eval(src, PostStep(1, true), env, fuel - 1) == Val(Int(l), env1);
    assert Eval(src, Const(0), env1, fuel - 1) == Val(Int(0), env1);
    assert Eval(src, e, env, fuel - 1) == Val(Int(0), env1);
    var env2 := env1[2 := Int(0)];
    assert Exec(src, Do(Set(2, e)), env, fuel - 1) == Normal(env2, Nil);
    assert Eval(src, Var(1), env2, fuel - 1) == Val(Int(x), env2);
    assert Exec(src, Ret(Some(Var(1))), env2, fuel - 1) == Returns(Int(x), Nil);
    assert ExecBlock(src, Answer(Var(1)), env2, fuel - 1) == Returns(Int(x), Nil);
    assert ExecBlock(src, src[f].body, env, fuel - 1) == Returns(Int(x), Nil);
  }

  /** `return g(a++, a);` where g returns its second argument: arguments are evaluated from the first to the last. */
  lemma ArgumentsInOrder(src: Source, f: nat, g: nat, l: int64, r: int64, fuel: nat)
    requires Defines(src, f, 2, 3, Answer(Call(g, Cons(PostStep(1, true), Cons(Var(1), Nil)))))
    requires Defines(src, g, 2, 3, Answer(Var(2))) && fuel > 1
    ensures var x := CallFunction(src, f, Ints(l, r), fuel); x.Result? && x.v.Int? && (l + 1 - x.v.i) % SPAN == 0
  {
    hide NewLocals, Wrap;
    var env := NewLocals(src[f].sig.slots, Ints(l, r));
    TwoLocals(src[f].sig.slots, l, r);
    var x := Wrap(l + 1);
    WrapIff(l + 1, x);
    var env1, args := env[1 := Int(x)], Cons(PostStep(1, true), Cons(Var(1), Nil));
    assert Eval(src, PostStep(1, true), env, fuel - 1) == Val(Int(l), env1);
    assert Eval(src, Var(1), env1, fuel - 1) == Val(Int(x), env1);
    assert EvalArgs(src, args.tail, env1, fuel - 1) == Vals(Cons(Int(x), Nil), env1);
    assert EvalArgs(src, args, env, fuel - 1) == Vals(Ints(l, x), env1);
    ArgumentArrives(src, g, 1, Ints(l, x), fuel - 1);
    assert Nth(Ints(l, x), 1) == Nth(Ints(l, x).tail, 0) == Int(x);
    Answered(src, f, Call(g, args), Ints(l, r), fuel, Int(x), env1);
  }

  // ----- a loop -----

  /** s = 0; for (i = 1; i <= n; i++) { s = s + i; } return s; with n, s and i in slots 1 to 3 */
  function SumBody(ty: Typing): Block
  {
    Cons(Do(Set(2, Const(0))), Cons(SumLoop(ty), Answer(Var(2))))
  }

  function SumLoop(ty: Typing): Stmt
  {
    For(Some(Set(3, Const(1))), Compare(Le, ty, Var(3), Var(1)), Some(Bump(3, true)),
        Cons(Do(Set(2, Binary(Add, ty, Var(2), Var(3)))), Nil))
  }

  function SumFrom(i: int, n: int): int
    decreases n - i
  {
    if i > n then 0 else i + SumFrom(i + 1, n)
  }

  lemma {:induction false} SumClosed(i: int, n: int)
    requires i <= n + 1
    ensures 2 * SumFrom(i, n) == (n + 1 - i) * (n + i)
    decreases n - i
  {
    if i <= n {
      SumClosed(i + 1, n);
      assert (n - i) * (n + i + 1) + 2 * i == (n + 1 - i) * (n + i);
    }
  }

  lemma WrapTwice(x: int, y: int)
    ensures Wrap(Wrap(x) + y) == Wrap(x + y)
  {
  }

  function SumEnv(env: Env, s: int64, i: int64): Env
    requires |env| > 3
  {
    env[2 := Int(s)][3 := Int(i)]
  }

  /** One turn of the loop's body and its step. */
  lemma SumTurn(src: Source, ty: Typing, env: Env, n: int64, s: int64, i: int64, fuel: nat)
    requires |env| > 3 && env[1] == Int(n) && 0 <= i <= n < MAX
    ensures var e := SumEnv(env, s, i);
      Eval(src, SumLoop(ty).test, e, fuel) == Val(Int(1), e) &&
      ExecBlock(src, SumLoop(ty).body, e, fuel) == Normal(SumEnv(env, Wrap(s + i), i), Nil) &&
      ExecOption(src, SumLoop(ty).inc, SumEnv(env, Wrap(s + i), i), fuel) == Normal(SumEnv(env, Wrap(s + i), i + 1), Nil)
  {
    hide Holds, CompareFlags;
    var e, e1 := SumEnv(env, s, i), SumEnv(env, Wrap(s + i), i);
    assert Eval(src, Var(1), e, fuel) == Val(Int(n), e) && Eval(src, Var(3), e, fuel) == Val(Int(i), e);
    ComparesCorrectly(i, n);
    assert Mathematically(Le, i, n);
    assert Eval(src, Var(2), e, fuel) == Val(Int(s), e);
    assert Eval(src, Binary(Add, ty, Var(2), Var(3)), e, fuel) == Val(Int(Wrap(s + i)), e);
    assert e[2 := Int(Wrap(s + i))] == e1;
    assert Exec(src, SumLoop(ty).body.head, e, fuel) == Normal(e1, Nil);
    assert e1[3 := Int(i + 1)] == SumEnv(env, Wrap(s + i), i + 1);
    assert Wrap(i + 1) == i + 1;
  }

  lemma SumEnds(src: Source, ty: Typing, env: Env, n: int64, s: int64, fuel: nat)
    requires |env| > 3 && env[1] == Int(n) && 0 <= n < MAX
    ensures ExecLoop(src, SumLoop(ty), SumEnv(env, s, n + 1), fuel) == Normal(SumEnv(env, s, n + 1), Nil)
  {
    hide Holds, CompareFlags;
    var e := SumEnv(env, s, n + 1);
    assert Eval(src, Var(1), e, fuel) == Val(Int(n), e) && Eval(src, Var(3), e, fuel) == Val(Int(n + 1), e);
    ComparesCorrectly(n + 1, n);
    assert !Mathematically(Le, n + 1, n);
    assert Eval(src, SumLoop(ty).test, e, fuel) == Val(Int(0), e);
  }

  lemma {:induction false} SumRuns(src: Source, ty: Typing, env: Env, n: int64, s: int64, i: int64, fuel: nat)
    requires |env| > 3 && env[1] == Int(n) && 1 <= i <= n + 1 && n < MAX && fuel > n - i
    ensures ExecLoop(src, SumLoop(ty), SumEnv(env, s, i), fuel)
         == Normal(SumEnv(env, Wrap(s + SumFrom(i, n)), n + 1), Nil)
    decreases n - i
  {
    hide Eval, ExecBlock, ExecOption, Wrap;
    if i == n + 1 {
      SumEnds(src, ty, env, n, s, fuel);
      WrapIff(s, s);
    } else {
      SumTurn(src, ty, env, n, s, i, fuel);
      SumRuns(src, ty, env, n, Wrap(s + i), i + 1, fuel - 1);
      WrapTwice(s + i, SumFrom(i + 1, n));
    }
  }

  /** The loop adds up the numbers from 1 to n, in 64 bits. */
  lemma SumAnswers(src: Source, f: nat, ty: Typing, n: int64, fuel: nat)
    requires Defines(src, f, 1, 4, SumBody(ty)) && 0 <= n < MAX && fuel > n + 1
    ensures CallFunction(src, f, Cons(Int(n), Nil), fuel) == Result(Int(Wrap(n * (n + 1) / 2)))
  {
    hide NewLocals, ExecLoop, Wrap;
    var vs := Cons(Int(n), Nil);
    assert Length(vs) == 1;
    var env := NewLocals(src[f].sig.slots, vs);
    assert |env| > 3 && env[1] == Int(n) by { OneLocal(src[f].sig.slots, n); }
    var e1, loop := env[2 := Int(0)], SumLoop(ty);
    assert Eval(src, Const(0), env, fuel - 1) == Val(Int(0), env) && Eval(src, Const(1), e1, fuel - 1) == Val(Int(1), e1);
    assert Exec(src, Do(Set(2, Const(0))), env, fuel - 1) == Normal(e1, Nil);
    assert ExecEffect(src, Set(3, Const(1)), e1, fuel - 1) == Normal(e1[3 := Int(1)], Nil);
    assert ExecOption(src, loop.init, e1, fuel - 1) == Normal(e1[3 := Int(1)], Nil);
    assert e1[3 := Int(1)] == SumEnv(env, 0, 1);
    SumRuns(src, ty, env, n, 0, 1, fuel - 1);
    SumClosed(1, n);
    var sum: int64 := Wrap(n * (n + 1) / 2);
    var e2 := SumEnv(env, sum, n + 1);
    assert Exec(src, loop, e1, fuel - 1) == Normal(e2, Nil);
    assert Exec(src, Ret(Some(Var(2))), e2, fuel - 1) == Returns(Int(sum), Nil);
    assert ExecBlock(src, Answer(Var(2)), e2, fuel - 1) == Returns(Int(sum), Nil);
    assert ExecBlock(src, Cons(loop, Answer(Var(2))), e1, fuel - 1) == Returns(Int(sum), Nil);
    assert ExecBlock(src, SumBody(ty), env, fuel - 1) == Returns(Int(sum), Nil);
  }

  lemma OneLocal(slots: nat, n: int64)
    requires slots > 1
    ensures var env := NewLocals(slots, Cons(Int(n), Nil)); |env| == slots && env[1] == Int(n)
  {
  }

  // ----- recursion -----

  /** if (n < 2) { return n; } return fib(n - 1) + fib(n - 2); */
  function FibBody(f: nat, ty: Typing): Block
  {
    Cons(If(Compare(Lt, ty, Var(1), Const(2)), Answer(Var(1)), None),
         Answer(Binary(Add, ty, FibCall(f, ty, 1), FibCall(f, ty, 2))))
  }

  function FibCall(f: nat, ty: Typing, k: int64): Expr
  {
    Call(f, Cons(Binary(Sub, ty, Var(1), Const(k)), Nil))
  }

  function Fib(n: nat): nat
  {
    if n < 2 then n else Fib(n - 1) + Fib(n - 2)
  }

  lemma FibCalls(src: Source, f: nat, ty: Typing, k: int64, env: Env, n: int64, fuel: nat, x: Value)
    requires |env| > 1 && env[1] == Int(n) && 0 < k <= n
    requires CallFunction(src, f, Cons(Int(n - k), Nil), fuel) == Result(x)
    ensures Eval(src, FibCall(f, ty, k), env, fuel) == Val(x, env)
  {
    hide CallFunction, Wrap;
    var e := Binary(Sub, ty, Var(1), Const(k));
    assert Eval(src, Var(1), env, fuel) == Val(Int(n), env);
    WrapIff(n - k, n - k);
    assert Eval(src, e, env, fuel) == Val(Int(n - k), env);
    assert EvalArgs(src, Cons(e, Nil), env, fuel) == Vals(Cons(Int(n - k), Nil), env);
  }

  lemma FibTests(src: Source, ty: Typing, env: Env, n: int64, fuel: nat)
    requires |env| > 1 && env[1] == Int(n) && n >= 0
    ensures Eval(src, Compare(Lt, ty, Var(1), Const(2)), env, fuel) == Val(Int(if n < 2 then 1 else 0), env)
  {
    hide Holds, CompareFlags;
    assert Eval(src, Var(1), env, fuel) == Val(Int(n), env) && Eval(src, Const(2), env, fuel) == Val(Int(2), env);
    ComparesCorrectly(n, 2);
    assert Mathematically(Lt, n, 2) <==> n < 2;
  }

  /** The recursive function computes the Fibonacci numbers, in 64 bits. */
  lemma {:induction false} FibAnswers(src: Source, f: nat, ty: Typing, n: int64, fuel: nat)
    requires Defines(src, f, 1, 2, FibBody(f, ty)) && 0 <= n < fuel
    ensures CallFunction(src, f, Cons(Int(n), Nil), fuel) == Result(Int(Wrap(Fib(n))))
    decreases n
  {
    hide NewLocals, Eval, Wrap;
    var vs := Cons(Int(n), Nil);
    assert Length(vs) == 1;
    var env, b := NewLocals(src[f].sig.slots, vs), FibBody(f, ty);
    OneLocal(src[f].sig.slots, n);
    FibTests(src, ty, env, n, fuel - 1);
    if n < 2 {
      FibStops(src, env, n, fuel - 1);
      assert Exec(src, b.head, env, fuel - 1) == Returns(Int(n), Nil);
      assert ExecBlock(src, b, env, fuel - 1) == Returns(Int(n), Nil);
      WrapIff(n, n);
    } else {
      FibAnswers(src, f, ty, n - 1, fuel - 1);
      FibAnswers(src, f, ty, n - 2, fuel - 1);
      FibCalls(src, f, ty, 1, env, n, fuel - 1, Int(Wrap(Fib(n - 1))));
      FibCalls(src, f, ty, 2, env, n, fuel - 1, Int(Wrap(Fib(n - 2))));
      FibAdds(src, f, ty, env, n, fuel - 1);
      assert Exec(src, b.head, env, fuel - 1) == Normal(env, Nil);
      assert Exec(src, b.tail.head, env, fuel - 1) == Returns(Int(Wrap(Fib(n))), Nil);
      assert ExecBlock(src, b.tail, env, fuel - 1) == Returns(Int(Wrap(Fib(n))), Nil);
      assert ExecBlock(src, b, env, fuel - 1) == Returns(Int(Wrap(Fib(n))), Nil);
    }
  }

  lemma FibStops(src: Source, env: Env, n: int64, fuel: nat)
    requires |env| > 1 && env[1] == Int(n)
    ensures ExecBlock(src, Answer(Var(1)), env, fuel) == Returns(Int(n), Nil)
  {
    assert Eval(src, Var(1), env, fuel) == Val(Int(n), env);
    assert Exec(src, Ret(Some(Var(1))), env, fuel) == Returns(Int(n), Nil);
  }

  lemma FibAdds(src: Source, f: nat, ty: Typing, env: Env, n: int64, fuel: nat)
    requires n >= 2
    requires Eval(src, FibCall(f, ty, 1), env, fuel) == Val(Int(Wrap(Fib(n - 1))), env)
    requires Eval(src, FibCall(f, ty, 2), env, fuel) == Val(Int(Wrap(Fib(n - 2))), env)
    ensures Eval(src, Binary(Add, ty, FibCall(f, ty, 1), FibCall(f, ty, 2)), env, fuel) == Val(Int(Wrap(Fib(n))), env)
  {
    hide FibCall, Wrap;
    WrapTwice(Fib(n - 1), Wrap(Fib(n - 2)));
    WrapTwice(Fib(n - 2), Fib(n - 1));
  }

  // ----- exceptions -----

  /** try { throw a; } catch (e) { return e; } with a and e in slots 1 and 2 */
  function CatchBody(): Block
  {
    Cons(Try(ThrowBody(), 2, Answer(Var(2))), Nil)
  }

  function ThrowBody(): Block
  {
    Cons(Raise(Var(1)), Nil)
  }

  /** try { g(a); } catch (e) { return e; } */
  function CatchFrom(g: nat): Block
  {
    Cons(Try(Cons(Do(Invoke(g, Cons(Var(1), Nil))), Nil), 2, Answer(Var(2))), Nil)
  }

  lemma Caught(src: Source, body: Block, env: Env, v: Value, fuel: nat)
    requires |env| > 2 && ExecBlock(src, body, env, fuel) == Throws(Exc(v), env, Nil)
    ensures ExecBlock(src, Cons(Try(body, 2, Answer(Var(2))), Nil), env, fuel) == Returns(Exc(v), Nil)
  {
    var env1 := env[2 := Exc(v)];
    assert Eval(src, Var(2), env1, fuel) == Val(Exc(v), env1);
    assert Exec(src, Ret(Some(Var(2))), env1, fuel) == Returns(Exc(v), Nil);
    assert ExecBlock(src, Answer(Var(2)), env1, fuel) == Returns(Exc(v), Nil);
    assert Exec(src, Try(body, 2, Answer(Var(2))), env, fuel) == Returns(Exc(v), Nil);
  }

  lemma ArgumentThrown(src: Source, env: Env, v: Value, fuel: nat)
    requires |env| > 1 && env[1] == v != Unset
    ensures Exec(src, Raise(Var(1)), env, fuel) == Throws(Exc(v), env, Nil)
    ensures ExecBlock(src, ThrowBody(), env, fuel) == Throws(Exc(v), env, Nil)
  {
    assert Eval(src, Var(1), env, fuel) == Val(v, env);
  }

  /**
   What a function throws arrives, as an exception object, in the catch variable around it, in the same function or
   in the one that called it; where nothing is around it, it leaves the call.
   */
  lemma ThrownArrives(src: Source, f: nat, g: nat, v: Value, fuel: nat)
    requires Defines(src, g, 1, 2, ThrowBody()) && v != Unset && fuel > 1
    ensures CallFunction(src, g, Cons(v, Nil), fuel) == Exception(Exc(v))
    ensures Defines(src, f, 1, 3, CatchBody()) || Defines(src, f, 1, 3, CatchFrom(g)) ==>
      CallFunction(src, f, Cons(v, Nil), fuel) == Result(Exc(v))
  {
    var vs := Cons(v, Nil);
    assert Length(vs) == 1;
    ArgumentThrown(src, NewLocals(src[g].sig.slots, vs), v, fuel - 1);
    ArgumentThrown(src, NewLocals(src[g].sig.slots, vs), v, fuel - 2);
    assert CallFunction(src, g, vs, fuel - 1) == Exception(Exc(v));
    if f < |src| && src[f].sig.slots > 2 {
      var env := NewLocals(src[f].sig.slots, vs);
      ArgumentThrown(src, env, v, fuel - 1);
      Caught(src, ThrowBody(), env, v, fuel - 1);
      var body := CatchFrom(g).head.body;
      assert Eval(src, Var(1), env, fuel - 1) == Val(v, env);
      assert EvalArgs(src, Cons(Var(1), Nil), env, fuel - 1) == Vals(vs, env);
      assert ExecEffect(src, Invoke(g, Cons(Var(1), Nil)), env, fuel - 1) == Throws(Exc(v), env, Nil);
      assert Exec(src, body.head, env, fuel - 1) == Throws(Exc(v), env, Nil);
      Caught(src, body, env, v, fuel - 1);
    }
  }
}
