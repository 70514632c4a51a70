/**
 The structured language the assembler is given, and its meaning. Names are resolved to slots, and
 the typing digit of an operator is the annotation the parser left on it.
 */
module Source {
  import opened Prelude
  import opened Int64
  import opened Opcodes
  import opened Machine

  datatype Expr =
    | Const(i: int64)
    | Var(slot: nat)
    | Binary(op: BinOp, ty: Typing, left: Expr, right: Expr)
    | Compare(cond: Cond, ty: Typing, left: Expr, right: Expr)
    | Negate(ty: Typing, arg: Expr)
    | Assign(slot: nat, value: Expr)
    | PostStep(slot: nat, up: bool)
    | Call(f: nat, args: List<Expr>)

  /** The expressions that may stand alone as statements, evaluated without a result. */
  datatype Effect =
    | Set(slot: nat, value: Expr)
    | Bump(slot: nat, up: bool)
    | Invoke(f: nat, args: List<Expr>)

  datatype Stmt =
    | Do(effect: Effect)
    | If(test: Expr, thn: List<Stmt>, els: Option<List<Stmt>>)
    | For(init: Option<Effect>, test: Expr, inc: Option<Effect>, body: List<Stmt>)
    | Ret(result: Option<Expr>)
    | Try(body: List<Stmt>, excepVar: nat, handler: List<Stmt>)
    | Raise(value: Expr)

  type Block = List<Stmt>
  datatype SrcFunc = SrcFunc(sig: Sig, body: Block)
  type Source = seq<SrcFunc>
  type Env = seq<Value>

  /**
   An exception leaves the operands that were already evaluated on the stack: `pending` are those of
   the interrupted expression. A handler does not remove them, so they stay under the function's later
   operands until it returns: `litter` are the values a statement leaves behind.
   */
  datatype ExprResult =
    | Val(v: Value, env: Env)
    | Thrown(x: Value, env: Env, pending: List<Value>)
    | Aborted
    | Undef
    | Timeout

  datatype ArgsResult =
    | Vals(vs: List<Value>, env: Env)
    | ArgsThrown(x: Value, env: Env, pending: List<Value>)
    | ArgsAborted
    | ArgsUndef
    | ArgsTimeout

  datatype StmtResult =
    | Normal(env: Env, litter: List<Value>)
    | Returns(v: Value, litter: List<Value>)
    | Throws(x: Value, env: Env, litter: List<Value>)
    | Aborts
    | Undefines
    | TimesOut

  /** Aborts is the run that returns false because RETURN missed its frame marker. */
  datatype CallResult =
    | Result(v: Value)
    | Exception(x: Value)
    | CallAborts
    | CallUndefined
    | CallTimesOut

  function Amount(up: bool): int64
  {
    if up then 1 else -1
  }

  function EvalBinary(op: BinOp, l: Value, r: Value): Option<Value>
  {
    if l.Int? && r.Int? then
      match Compute(op, l.i, r.i)
      case None => None
      case Some(x) => Some(Int(x))
    else None
  }

  function EvalCompare(c: Cond, l: Value, r: Value): Option<Value>
  {
    if l.Int? && r.Int? then Some(Truth(Holds(c, CompareFlags(l.i, r.i)))) else None
  }

  /** The right operand is evaluated before the left one, and `&&` evaluates both. */
  function Eval(src: Source, e: Expr, env: Env, fuel: nat): ExprResult
    decreases fuel, 1, e, 1
  {
    match e
    case Const(i) => Val(Int(i), env)
    case Var(s) => if s < |env| && env[s] != Unset then Val(env[s], env) else Undef
    case Binary(op, _, left, right) =>
      (match Eval(src, right, env, fuel)
       case Val(r, env1) =>
         (match Eval(src, left, env1, fuel)
          case Val(l, env2) =>
            (match EvalBinary(op, l, r)
             case None => Undef
             case Some(v) => Val(v, env2))
          case Thrown(x, env2, pending) => Thrown(x, env2, Cons(r, pending))
          case other => other)
       case other => other)
    case Compare(c, _, left, right) =>
      (match Eval(src, right, env, fuel)
       case Val(r, env1) =>
         (match Eval(src, left, env1, fuel)
          case Val(l, env2) =>
            (match EvalCompare(c, l, r)
             case None => Undef
             case Some(v) => Val(v, env2))
          case Thrown(x, env2, pending) => Thrown(x, env2, Cons(r, pending))
          case other => other)
       case other => other)
    case Negate(_, arg) =>
      (match Eval(src, arg, env, fuel)
       case Val(v, env1) => if v.Int? then Val(Truth(v.i == 0), env1) else Undef
       case other => other)
    case Assign(s, value) =>
      (match Eval(src, value, env, fuel)
       case Val(v, env1) => if s < |env1| then Val(v, env1[s := v]) else Undef
       case other => other)
    case PostStep(s, up) =>
      if s < |env| && env[s].Int? then Val(env[s], env[s := Int(Wrap(env[s].i + Amount(up)))]) else Undef
    case Call(f, args) =>
      (match EvalArgs(src, args, env, fuel)
       case Vals(vs, env1) =>
         (match CallFunction(src, f, vs, fuel)
          case Result(v) => Val(v, env1)
          case Exception(x) => Thrown(x, env1, Nil)
          case CallAborts => Aborted
          case CallUndefined => Undef
          case CallTimesOut => Timeout)
       case ArgsThrown(x, env1, pending) => Thrown(x, env1, pending)
       case ArgsAborted => Aborted
       case ArgsUndef => Undef
       case ArgsTimeout => Timeout)
  }

  /** Arguments are evaluated from the first to the last. */
  function EvalArgs(src: Source, args: List<Expr>, env: Env, fuel: nat): ArgsResult
    decreases fuel, 1, args, 1
  {
    match args
    case Nil => Vals(Nil, env)
    case Cons(e, rest) =>
      match Eval(src, e, env, fuel)
      case Val(v, env1) =>
        (match EvalArgs(src, rest, env1, fuel)
         case Vals(vs, env2) => Vals(Cons(v, vs), env2)
         case ArgsThrown(x, env2, pending) => ArgsThrown(x, env2, Cons(v, pending))
         case other => other)
      case Thrown(x, env1, pending) => ArgsThrown(x, env1, pending)
      case Aborted => ArgsAborted
      case Undef => ArgsUndef
      case Timeout => ArgsTimeout
  }

  /** Fuel bounds the depth of calls and the number of loop iterations, nothing else. */
  function CallFunction(src: Source, f: nat, vs: List<Value>, fuel: nat): CallResult
    decreases fuel, 0
  {
    if fuel == 0 then CallTimesOut
    else if f < |src| && Length(vs) <= src[f].sig.argc < src[f].sig.slots then
      match ExecBlock(src, src[f].body, NewLocals(src[f].sig.slots, vs), fuel - 1)
      case Normal(_, litter) => if litter.Nil? then Result(Int(0)) else CallAborts
      case Returns(v, litter) => if litter.Nil? then Result(v) else CallAborts
      case Throws(x, _, _) => Exception(x)
      case Aborts => CallAborts
      case Undefines => CallUndefined
      case TimesOut => CallTimesOut
    else CallUndefined
  }

  function OfExpr(r: ExprResult): StmtResult
  {
    match r
    case Val(_, env) => Normal(env, Nil)
    case Thrown(x, env, pending) => Throws(x, env, pending)
    case Aborted => Aborts
    case Undef => Undefines
    case Timeout => TimesOut
  }

  function ExecEffect(src: Source, eff: Effect, env: Env, fuel: nat): StmtResult
    decreases fuel, 1, eff, 1
  {
    match eff
    case Set(s, value) =>
      (match Eval(src, value, env, fuel)
       case Val(v, env1) => if s < |env1| then Normal(env1[s := v], Nil) else Undefines
       case other => OfExpr(other))
    case Bump(s, up) =>
      if s < |env| && env[s].Int? then Normal(env[s := Int(Wrap(env[s].i + Amount(up)))], Nil) else Undefines
    case Invoke(f, args) =>
      (match EvalArgs(src, args, env, fuel)
       case Vals(vs, env1) =>
         (match CallFunction(src, f, vs, fuel)
          case Result(_) => Normal(env1, Nil)
          case Exception(x) => Throws(x, env1, Nil)
          case CallAborts => Aborts
          case CallUndefined => Undefines
          case CallTimesOut => TimesOut)
       case ArgsThrown(x, env1, pending) => Throws(x, env1, pending)
       case ArgsAborted => Aborts
       case ArgsUndef => Undefines
       case ArgsTimeout => TimesOut)
  }

  function ExecOption(src: Source, eff: Option<Effect>, env: Env, fuel: nat): StmtResult
    decreases fuel, 1, eff, 1
  {
    match eff
    case None => Normal(env, Nil)
    case Some(e) => ExecEffect(src, e, env, fuel)
  }

  /** What follows a statement that left `litter` behind runs above it. */
  function Above(litter: List<Value>, r: StmtResult): StmtResult
  {
    match r
    case Normal(env, more) => Normal(env, Append(litter, more))
    case Returns(v, more) => Returns(v, Append(litter, more))
    case Throws(x, env, more) => Throws(x, env, Append(litter, more))
    case _ => r
  }

  function ExecBlock(src: Source, b: Block, env: Env, fuel: nat): StmtResult
    decreases fuel, 1, b, 1
  {
    match b
    case Nil => Normal(env, Nil)
    case Cons(s, rest) =>
      match Exec(src, s, env, fuel)
      case Normal(env1, litter) => Above(litter, ExecBlock(src, rest, env1, fuel))
      case other => other
  }

  function Exec(src: Source, s: Stmt, env: Env, fuel: nat): StmtResult
    decreases fuel, 1, s, 1
  {
    match s
    case Do(eff) => ExecEffect(src, eff, env, fuel)
    case If(test, thn, els) =>
      (match Eval(src, test, env, fuel)
       case Val(v, env1) =>
         if !v.Int? then Undefines
         else if v.i != 0 then ExecBlock(src, thn, env1, fuel)
         else (match els
               case None => Normal(env1, Nil)
               case Some(b) => ExecBlock(src, b, env1, fuel))
       case other => OfExpr(other))
    case For(init, _, _, _) =>
      (match ExecOption(src, init, env, fuel)
       case Normal(env1, litter) => Above(litter, ExecLoop(src, s, env1, fuel))
       case other => other)
    case Ret(None) => Returns(Int(0), Nil)
    case Ret(Some(e)) =>
      (match Eval(src, e, env, fuel)
       case Val(v, _) => Returns(v, Nil)
       case other => OfExpr(other))
    case Try(body, x, handler) =>
      (match ExecBlock(src, body, env, fuel)
       case Throws(exc, env1, litter) =>
         if x < |env1| then Above(litter, ExecBlock(src, handler, env1[x := exc], fuel)) else Undefines
       case other => other)
    case Raise(e) =>
      (match Eval(src, e, env, fuel)
       case Val(v, env1) => Throws(Exc(v), env1, Nil)
       case other => OfExpr(other))
  }

  /** The loop from its test on; one unit of fuel for every jump back to the test. */
  function ExecLoop(src: Source, loop: Stmt, env: Env, fuel: nat): StmtResult
    requires loop.For?
    decreases fuel, 1, loop, 0
  {
    match Eval(src, loop.test, env, fuel)
    case Val(v, env1) =>
      if !v.Int? then Undefines
      else if v.i == 0 then Normal(env1, Nil)
      else (match ExecBlock(src, loop.body, env1, fuel)
            case Normal(env2, litter) =>
              Above(litter,
                    match ExecOption(src, loop.inc, env2, fuel)
                    case Normal(env3, more) =>
                      Above(more, if fuel == 0 then TimesOut else ExecLoop(src, loop, env3, fuel - 1))
                    case other => other)
            case other => other)
    case other => OfExpr(other)
  }
}
