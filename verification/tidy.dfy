/** Exceptions and pending operands: where a call may stand so that no operand is left on the stack. */
module TidyCalls {
  import opened Prelude
  import opened Int64
  import opened Opcodes
  import opened Machine
  import opened Source
  import opened Compiler
  import opened CompilerProof

  // ----- functions that let no exception out -----

  /** Every call in the expression is of a function in q. */
  predicate QuietExpr(q: set<nat>, e: Expr)
  {
    match e
    case Binary(_, _, l, r) => QuietExpr(q, l) && QuietExpr(q, r)
    case Compare(_, _, l, r) => QuietExpr(q, l) && QuietExpr(q, r)
    case Negate(_, arg) => QuietExpr(q, arg)
    case Assign(_, value) => QuietExpr(q, value)
    case Call(f, args) => f in q && QuietArgs(q, args)
    case _ => true
  }

  predicate QuietArgs(q: set<nat>, args: List<Expr>)
  {
    args.Cons? ==> QuietExpr(q, args.head) && QuietArgs(q, args.tail)
  }

  predicate QuietEffect(q: set<nat>, eff: Effect)
  {
    match eff
    case Set(_, value) => QuietExpr(q, value)
    case Bump(_, _) => true
    case Invoke(f, args) => f in q && QuietArgs(q, args)
  }

  /** Whatever is thrown inside is caught inside: throw and other calls stand only in the bodies of try statements. */
  predicate QuietStmt(q: set<nat>, s: Stmt)
  {
    match s
    case Do(eff) => QuietEffect(q, eff)
    case If(test, thn, els) => QuietExpr(q, test) && QuietBlock(q, thn) && (els.Some? ==> QuietBlock(q, els.value))
    case For(init, test, inc, body) =>
      (init.Some? ==> QuietEffect(q, init.value)) && QuietExpr(q, test) &&
      (inc.Some? ==> QuietEffect(q, inc.value)) && QuietBlock(q, body)
    case Ret(result) => result.Some? ==> QuietExpr(q, result.value)
    case Try(_, _, handler) => QuietBlock(q, handler)
    case Raise(_) => false
  }

  predicate QuietBlock(q: set<nat>, b: Block)
  {
    b.Cons? ==> QuietStmt(q, b.head) && QuietBlock(q, b.tail)
  }

  // ----- where a call may stand inside a try block -----

  /**
   A call of a function that is not in q stands only where nothing has been evaluated yet: in the right operand,
   or in the first argument.
   */
  predicate Tidy(q: set<nat>, e: Expr)
  {
    match e
    case Binary(_, _, l, r) => QuietExpr(q, l) && Tidy(q, r)
    case Compare(_, _, l, r) => QuietExpr(q, l) && Tidy(q, r)
    case Negate(_, arg) => Tidy(q, arg)
    case Assign(_, value) => Tidy(q, value)
    case Call(_, args) => TidyArgs(q, args)
    case _ => true
  }

  predicate TidyArgs(q: set<nat>, args: List<Expr>)
  {
    args.Cons? ==> Tidy(q, args.head) && QuietArgs(q, args.tail)
  }

  predicate TidyEffect(q: set<nat>, eff: Effect)
  {
    match eff
    case Set(_, value) => Tidy(q, value)
    case Bump(_, _) => true
    case Invoke(_, args) => TidyArgs(q, args)
  }

  predicate TidyStmt(q: set<nat>, s: Stmt)
  {
    match s
    case Do(eff) => TidyEffect(q, eff)
    case If(test, thn, els) => Tidy(q, test) && TidyBlock(q, thn) && (els.Some? ==> TidyBlock(q, els.value))
    case For(init, test, inc, body) =>
      (init.Some? ==> TidyEffect(q, init.value)) && Tidy(q, test) &&
      (inc.Some? ==> TidyEffect(q, inc.value)) && TidyBlock(q, body)
    case Ret(result) => result.Some? ==> Tidy(q, result.value)
    case Try(body, _, handler) => TidyBlock(q, body) && TidyBlock(q, handler)
    case Raise(value) => Tidy(q, value)
  }

  predicate TidyBlock(q: set<nat>, b: Block)
  {
    b.Cons? ==> TidyStmt(q, b.head) && TidyBlock(q, b.tail)
  }

  /** The bodies of try statements are tidy; everything else is arbitrary. */
  predicate LooseStmt(q: set<nat>, s: Stmt)
  {
    match s
    case If(_, thn, els) => LooseBlock(q, thn) && (els.Some? ==> LooseBlock(q, els.value))
    case For(_, _, _, body) => LooseBlock(q, body)
    case Try(body, _, handler) => TidyBlock(q, body) && LooseBlock(q, handler)
    case _ => true
  }

  predicate LooseBlock(q: set<nat>, b: Block)
  {
    b.Cons? ==> LooseStmt(q, b.head) && LooseBlock(q, b.tail)
  }

  /** Inside try blocks a call has nothing pending, unless its callee is one of those that let no exception out. */
  predicate TidySource(src: Source, q: set<nat>)
  {
    forall f :: 0 <= f < |src| ==> LooseBlock(q, src[f].body) && (f in q ==> QuietBlock(q, src[f].body))
  }

  lemma {:induction false} QuietIsTidy(q: set<nat>, e: Expr)
    requires QuietExpr(q, e)
    ensures Tidy(q, e)
  {
    match e
    case Binary(_, _, _, r) => QuietIsTidy(q, r);
    case Compare(_, _, _, r) => QuietIsTidy(q, r);
    case Negate(_, arg) => QuietIsTidy(q, arg);
    case Assign(_, value) => QuietIsTidy(q, value);
    case Call(_, args) =>
      if args.Cons? {
        QuietIsTidy(q, args.head);
      }
    case _ =>
  }

  lemma {:induction false} TidyIsLoose(q: set<nat>, b: Block)
    requires TidyBlock(q, b)
    ensures LooseBlock(q, b)
  {
    if b.Cons? {
      TidyIsLoose(q, b.tail);
      match b.head
      case If(_, thn, els) =>
        TidyIsLoose(q, thn);
        if els.Some? {
          TidyIsLoose(q, els.value);
        }
      case For(_, _, _, body) => TidyIsLoose(q, body);
      case Try(_, _, handler) => TidyIsLoose(q, handler);
      case _ =>
    }
  }

  // ----- nothing is pending where something could be caught, so nothing is left -----

  /** No frame marker is missed; a tidy expression has nothing pending, and a quiet one throws nothing. */
  predicate ExprOk(q: set<nat>, e: Expr, r: ExprResult)
  {
    !r.Aborted? && (r.Thrown? ==> !QuietExpr(q, e) && (Tidy(q, e) ==> r.pending.Nil?))
  }

  predicate ArgsOk(q: set<nat>, args: List<Expr>, r: ArgsResult)
  {
    !r.ArgsAborted? && (r.ArgsThrown? ==> !QuietArgs(q, args) && (TidyArgs(q, args) ==> r.pending.Nil?))
  }

  predicate EndOk(quiet: bool, tidy: bool, r: StmtResult)
  {
    !r.Aborts? && (r.Normal? || r.Returns? ==> r.litter.Nil?) && (r.Throws? ==> !quiet && (tidy ==> r.litter.Nil?))
  }

  lemma {:induction false} ExprKeeps(src: Source, q: set<nat>, e: Expr, env: Env, fuel: nat)
    requires TidySource(src, q)
    ensures ExprOk(q, e, Eval(src, e, env, fuel))
    decreases fuel, 1, e, 1
  {
    hide CallFunction, EvalArgs, TidySource, EvalBinary, EvalCompare;
    match e
    case Binary(_, _, _, _) => OperandsKeep(src, q, e, env, fuel);
    case Compare(_, _, _, _) => OperandsKeep(src, q, e, env, fuel);
    case Negate(_, arg) => ExprKeeps(src, q, arg, env, fuel);
    case Assign(_, value) => ExprKeeps(src, q, value, env, fuel);
    case Call(f, args) =>
      ArgsKeep(src, q, args, env, fuel);
      if EvalArgs(src, args, env, fuel).Vals? {
        CallTidy(src, q, f, EvalArgs(src, args, env, fuel).vs, fuel);
      }
    case Const(_) =>
    case Var(_) =>
    case PostStep(_, _) =>
  }

  lemma {:induction false} OperandsKeep(src: Source, q: set<nat>, e: Expr, env: Env, fuel: nat)
    requires TidySource(src, q) && (e.Binary? || e.Compare?)
    ensures ExprOk(q, e.right, Eval(src, e.right, env, fuel))
    ensures Eval(src, e.right, env, fuel).Val? ==>
      ExprOk(q, e.left, Eval(src, e.left, Eval(src, e.right, env, fuel).env, fuel))
    ensures QuietExpr(q, e.right) ==> Tidy(q, e.right)
    decreases fuel, 1, e, 0
  {
    hide Eval, TidySource;
    ExprKeeps(src, q, e.right, env, fuel);
    if Eval(src, e.right, env, fuel).Val? {
      ExprKeeps(src, q, e.left, Eval(src, e.right, env, fuel).env, fuel);
    }
    if QuietExpr(q, e.right) {
      QuietIsTidy(q, e.right);
    }
  }

  lemma {:induction false} ArgsKeep(src: Source, q: set<nat>, args: List<Expr>, env: Env, fuel: nat)
    requires TidySource(src, q)
    ensures ArgsOk(q, args, EvalArgs(src, args, env, fuel))
    decreases fuel, 1, args, 1
  {
    hide Eval, TidySource;
    if args.Cons? {
      ExprKeeps(src, q, args.head, env, fuel);
      if Eval(src, args.head, env, fuel).Val? {
        ArgsKeep(src, q, args.tail, Eval(src, args.head, env, fuel).env, fuel);
      }
    }
  }

  /** No call of such a program misses a frame marker, and no call of a function in q throws. */
  lemma {:induction false} CallTidy(src: Source, q: set<nat>, f: nat, vs: List<Value>, fuel: nat)
    requires TidySource(src, q)
    ensures !CallFunction(src, f, vs, fuel).CallAborts?
    ensures f in q ==> !CallFunction(src, f, vs, fuel).Exception?
    decreases fuel, 0
  {
    if fuel > 0 && f < |src| && Length(vs) <= src[f].sig.argc < src[f].sig.slots {
      BlockKeeps(src, q, src[f].body, NewLocals(src[f].sig.slots, vs), fuel - 1);
      hide ExecBlock;
    }
  }

  lemma {:induction false} EffectKeeps(src: Source, q: set<nat>, eff: Effect, env: Env, fuel: nat)
    requires TidySource(src, q)
    ensures EndOk(QuietEffect(q, eff), TidyEffect(q, eff), ExecEffect(src, eff, env, fuel))
    decreases fuel, 1, eff, 1
  {
    hide Eval, EvalArgs, CallFunction, TidySource;
    match eff
    case Set(_, value) => ExprKeeps(src, q, value, env, fuel);
    case Bump(_, _) =>
    case Invoke(f, args) =>
      ArgsKeep(src, q, args, env, fuel);
      if EvalArgs(src, args, env, fuel).Vals? {
        CallTidy(src, q, f, EvalArgs(src, args, env, fuel).vs, fuel);
      }
  }

  lemma {:induction false} OptionKeeps(src: Source, q: set<nat>, eff: Option<Effect>, env: Env, fuel: nat)
    requires TidySource(src, q)
    ensures EndOk(eff.Some? ==> QuietEffect(q, eff.value), eff.Some? ==> TidyEffect(q, eff.value),
                  ExecOption(src, eff, env, fuel))
    decreases fuel, 1, eff, 1
  {
    if eff.Some? {
      EffectKeeps(src, q, eff.value, env, fuel);
    }
  }

  lemma {:induction false} BlockKeeps(src: Source, q: set<nat>, b: Block, env: Env, fuel: nat)
    requires TidySource(src, q) && LooseBlock(q, b)
    ensures EndOk(QuietBlock(q, b), TidyBlock(q, b), ExecBlock(src, b, env, fuel))
    decreases fuel, 1, b, 1
  {
    hide Exec, TidySource;
    if b.Cons? {
      StmtKeeps(src, q, b.head, env, fuel);
      if Exec(src, b.head, env, fuel).Normal? {
        BlockKeeps(src, q, b.tail, Exec(src, b.head, env, fuel).env, fuel);
      }
    }
  }

  lemma {:induction false} StmtKeeps(src: Source, q: set<nat>, s: Stmt, env: Env, fuel: nat)
    requires TidySource(src, q) && LooseStmt(q, s)
    ensures EndOk(QuietStmt(q, s), TidyStmt(q, s), Exec(src, s, env, fuel))
    decreases fuel, 1, s, 1
  {
    hide Eval, ExecBlock, ExecLoop, ExecEffect, ExecOption, TidySource, Tidy, QuietExpr;
    match s
    case Do(eff) => EffectKeeps(src, q, eff, env, fuel);
    case If(test, thn, els) =>
      ExprKeeps(src, q, test, env, fuel);
      if Eval(src, test, env, fuel).Val? {
        BlockKeeps(src, q, thn, Eval(src, test, env, fuel).env, fuel);
        if els.Some? {
          BlockKeeps(src, q, els.value, Eval(src, test, env, fuel).env, fuel);
        }
      }
    case For(init, _, _, _) =>
      OptionKeeps(src, q, init, env, fuel);
      if ExecOption(src, init, env, fuel).Normal? {
        LoopKeeps(src, q, s, ExecOption(src, init, env, fuel).env, fuel);
      }
    case Ret(result) =>
      if result.Some? {
        ExprKeeps(src, q, result.value, env, fuel);
      }
    case Try(body, x, handler) =>
      TidyIsLoose(q, body);
      BlockKeeps(src, q, body, env, fuel);
      var r := ExecBlock(src, body, env, fuel);
      if r.Throws? && x < |r.env| {
        BlockKeeps(src, q, handler, r.env[x := r.x], fuel);
      }
    case Raise(value) => ExprKeeps(src, q, value, env, fuel);
  }

  lemma {:induction false} LoopKeeps(src: Source, q: set<nat>, s: Stmt, env: Env, fuel: nat)
    requires TidySource(src, q) && LooseStmt(q, s) && s.For?
    ensures EndOk(QuietStmt(q, s), TidyStmt(q, s), ExecLoop(src, s, env, fuel))
    decreases fuel, 1, s, 0
  {
    hide Eval, ExecBlock, ExecOption, TidySource, Tidy, QuietExpr;
    ExprKeeps(src, q, s.test, env, fuel);
    if Eval(src, s.test, env, fuel).Val? {
      BlockKeeps(src, q, s.body, Eval(src, s.test, env, fuel).env, fuel);
      var r := ExecBlock(src, s.body, Eval(src, s.test, env, fuel).env, fuel);
      if r.Normal? {
        OptionKeeps(src, q, s.inc, r.env, fuel);
        var r2 := ExecOption(src, s.inc, r.env, fuel);
        if r2.Normal? && fuel > 0 {
          LoopKeeps(src, q, s, r2.env, fuel - 1);
        }
      }
    }
  }

  /** So no run of the machine ends by missing a marker, unless the source call leaves the fragment. */
  lemma TidyNeverFails(src: Source, q: set<nat>, f: nat, vs: List<Value>, st: Stack, end: State)
    requires TidySource(src, q) && Callable(Compiled(src), f, Length(vs))
    requires Ends(Compiled(src), Enter(Compiled(src), f, vs, Bottom, st), end)
    ensures end.Failed? ==> exists fuel: nat :: CallFunction(src, f, vs, fuel).CallUndefined?
  {
    hide StepN, Enter, CallFunction, TidySource;
    CompilerCorrect(src, f, vs, st, end);
    var fuel: nat :| var r := CallFunction(src, f, vs, fuel);
                     !r.CallTimesOut? && (r.CallUndefined? || end == Final(r, st));
    CallTidy(src, q, f, vs, fuel);
  }

  predicate TryFree(b: Block)
  {
    b.Cons? ==>
      TryFree(b.tail) &&
      match b.head
      case If(_, thn, els) => TryFree(thn) && (els.Some? ==> TryFree(els.value))
      case For(_, _, _, body) => TryFree(body)
      case Try(_, _, _) => false
      case _ => true
  }

  lemma {:induction false} TryFreeIsLoose(b: Block)
    requires TryFree(b)
    ensures LooseBlock({}, b)
  {
    if b.Cons? {
      TryFreeIsLoose(b.tail);
      match b.head
      case If(_, thn, els) =>
        TryFreeIsLoose(thn);
        if els.Some? {
          TryFreeIsLoose(els.value);
        }
      case For(_, _, _, body) => TryFreeIsLoose(body);
      case _ =>
    }
  }

  /** In particular a program without try statements never misses a marker, wherever its calls stand. */
  lemma TryFreeNeverAborts(src: Source, f: nat, vs: List<Value>, fuel: nat)
    requires forall g :: 0 <= g < |src| ==> TryFree(src[g].body)
    ensures !CallFunction(src, f, vs, fuel).CallAborts?
  {
    forall g: nat | g < |src| ensures LooseBlock({}, src[g].body) {
      TryFreeIsLoose(src[g].body);
    }
    CallTidy(src, {}, f, vs, fuel);
    hide CallFunction, LooseBlock;
  }

  // ----- a call with a pending operand -----

  /** g() { throw 0; }   f() { try { x = g() + 1; } catch (e) { } return 2; } */
  function PendingSource(): Source
  {
    [SrcFunc(Sig(0, 3),
             Cons(Try(Cons(Do(Set(1, Binary(Add, Integer, Call(1, Nil), Const(1)))), Nil), 2, Nil),
                  Cons(Ret(Some(Const(2))), Nil))),
     SrcFunc(Sig(0, 1), Cons(Raise(Const(0)), Nil))]
  }

  /** The 1 that was pending is still on the stack after the catch, and RETURN takes it for the frame marker. */
  lemma PendingFails(st: Stack)
    ensures var p := Compiled(PendingSource()); Ends(p, Enter(p, 0, Nil, Bottom, st), Failed)
  {
    hide StepN, Enter;
    PendingAborts();
    CompiledEnds(PendingSource(), 0, Nil, st, 2);
  }

  lemma PendingAborts()
    ensures CallFunction(PendingSource(), 0, Nil, 2) == CallAborts
  {
    var src, env := PendingSource(), NewLocals(3, Nil);
    var x := Exc(Int(0));
    PendingTry(env);
    hide ExecBlock;
    var t := src[0].body.head;
    assert Exec(src, t, env, 1) == Normal(env[2 := x], Cons(Int(1), Nil));
    PendingReturn(env[2 := x]);
    PendingBody(env, env[2 := x]);
  }

  lemma PendingBody(env: Env, env1: Env)
    requires Exec(PendingSource(), PendingSource()[0].body.head, env, 1) == Normal(env1, Cons(Int(1), Nil))
    requires ExecBlock(PendingSource(), PendingSource()[0].body.tail, env1, 1) == Returns(Int(2), Nil)
    ensures ExecBlock(PendingSource(), PendingSource()[0].body, env, 1) == Returns(Int(2), Cons(Int(1), Nil))
  {
    hide Exec;
  }

  lemma PendingReturn(env: Env)
    ensures ExecBlock(PendingSource(), PendingSource()[0].body.tail, env, 1) == Returns(Int(2), Nil)
  {
    var src := PendingSource();
    assert Exec(src, src[0].body.tail.head, env, 1) == Returns(Int(2), Nil);
    hide Exec;
  }

  /** g's exception interrupts the addition, with its right operand already on the stack. */
  lemma PendingTry(env: Env)
    requires |env| == 3
    ensures var src := PendingSource();
      ExecBlock(src, src[0].body.head.body, env, 1) == Throws(Exc(Int(0)), env, Cons(Int(1), Nil)) &&
      ExecBlock(src, Nil, env[2 := Exc(Int(0))], 1) == Normal(env[2 := Exc(Int(0))], Nil)
  {
    var src, x := PendingSource(), Exc(Int(0));
    PendingCall();
    hide CallFunction;
    assert EvalArgs(src, Nil, env, 1) == Vals(Nil, env);
    assert Eval(src, Call(1, Nil), env, 1) == Thrown(x, env, Nil);
    var e := Binary(Add, Integer, Call(1, Nil), Const(1));
    assert Eval(src, e, env, 1) == Thrown(x, env, Cons(Int(1), Nil));
    assert Exec(src, src[0].body.head.body.head, env, 1) == Throws(x, env, Cons(Int(1), Nil));
  }

  lemma PendingCall()
    ensures CallFunction(PendingSource(), 1, Nil, 1) == Exception(Exc(Int(0)))
  {
    var src := PendingSource();
    assert Exec(src, src[1].body.head, NewLocals(1, Nil), 0) == Throws(Exc(Int(0)), NewLocals(1, Nil), Nil);
    assert ExecBlock(src, src[1].body, NewLocals(1, Nil), 0) == Throws(Exc(Int(0)), NewLocals(1, Nil), Nil);
  }
}
