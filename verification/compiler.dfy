/** What the assembler emits, as functions of the program. */
module Compiler {
  import opened Prelude
  import opened Int64
  import opened Opcodes
  import opened Machine
  import opened Source

  function CompileExpr(e: Expr): seq<Instr>
  {
    match e
    case Const(i) => [PushI(i)]
    case Var(s) => [LoadVar(s)]
    case Binary(op, ty, left, right) => CompileExpr(right) + CompileExpr(left) + [Arith(op, ty)]
    case Compare(c, ty, left, right) => CompileExpr(right) + CompileExpr(left) + [Cmp(ty), PushC(c)]
    case Negate(ty, arg) => CompileExpr(arg) + [Not(ty)]
    case Assign(s, value) => CompileExpr(value) + [Dup, StoreVar(s)]
    case PostStep(s, up) =>
      [LoadVar(s), Dup, PushI(1)] +
      (if up then [Arith(Add, Integer)] else [Swap, Arith(Sub, Integer)]) + [StoreVar(s)]
    case Call(f, args) => CompileArgs(args) + [CallStatic(f, Length(args))]
  }

  function CompileArgs(args: List<Expr>): seq<Instr>
  {
    match args
    case Nil => []
    case Cons(e, rest) => CompileExpr(e) + CompileArgs(rest)
  }

  function CompileEffect(eff: Effect): seq<Instr>
  {
    match eff
    case Set(s, value) => CompileExpr(value) + [StoreVar(s)]
    case Bump(s, up) => [IncVar(s, Amount(up))]
    case Invoke(f, args) => CompileArgs(args) + [CallStatic(f, Length(args)), Pop]
  }

  function CompileOption(eff: Option<Effect>): seq<Instr>
  {
    match eff
    case None => []
    case Some(e) => CompileEffect(e)
  }

  /** The comparisons that a test fuses with its branch. */
  predicate Fusible(c: Cond)
  {
    c == Eq || c == Lt || c == Le
  }

  function Opposite(c: Cond): Cond
    requires Fusible(c)
  {
    match c
    case Eq => Ne
    case Lt => Ge
    case Le => Gt
  }

  /** Falls through when the test is non-zero, jumps to the target when it is zero. */
  function CompileTest(e: Expr, target: nat): seq<Instr>
  {
    if e.Compare? && Fusible(e.cond) then
      CompileExpr(e.right) + CompileExpr(e.left) + [Cmp(e.ty), Branch(Opposite(e.cond), target)]
    else
      CompileExpr(e) + [PushI(0), Cmp(Integer), Branch(Eq, target)]
  }

  function TestSize(e: Expr): (n: nat)
    ensures forall t: nat :: |CompileTest(e, t)| == n
  {
    |CompileTest(e, 0)|
  }

  /** `base` is the address the block's first instruction will have. */
  function CompileBlock(b: Block, base: nat): seq<Instr>
    decreases b, 0
  {
    match b
    case Nil => []
    case Cons(s, rest) => var c := CompileStmt(s, base); c + CompileBlock(rest, base + |c|)
  }

  function CompileStmt(s: Stmt, base: nat): seq<Instr>
    decreases s, 0
  {
    match s
    case Do(eff) => CompileEffect(eff)
    case If(test, thn, els) =>
      var t := CompileBlock(thn, base + TestSize(test));
      var after := base + TestSize(test) + |t|;
      (match els
       case None => CompileTest(test, after) + t
       case Some(b) =>
         var f := CompileBlock(b, after + 1);
         CompileTest(test, after + 1) + t + [Jmp(after + 1 + |f|)] + f)
    case For(init, test, inc, body) =>
      var i := CompileOption(init);
      i + CompileLoop(test, inc, body, base + |i|)
    case Ret(None) => [PushI(0), Opcodes.Return]
    case Ret(Some(e)) => CompileExpr(e) + [Opcodes.Return]
    case Try(body, x, handler) =>
      var b := CompileBlock(body, base + 1);
      var catchPos := base + 1 + |b| + 2;
      var h := CompileBlock(handler, catchPos);
      [PushTry(x, catchPos)] + b + [PopTry, Jmp(catchPos + |h|)] + h
    case Raise(e) => CompileExpr(e) + [Throw]
  }

  /** The loop from its test on; `top` is the address of the test. */
  function CompileLoop(test: Expr, inc: Option<Effect>, body: Block, top: nat): seq<Instr>
    decreases body, 1
  {
    var b := CompileBlock(body, top + TestSize(test));
    var c := CompileOption(inc);
    CompileTest(test, top + TestSize(test) + |b| + |c| + 1) + b + c + [Jmp(top)]
  }

  function CompileBody(body: Block): seq<Instr>
  {
    CompileBlock(body, 0) + [PushI(0), Opcodes.Return]
  }

  function Compiled(src: Source): (p: Program)
    ensures |p| == |src|
    ensures forall k :: 0 <= k < |src| ==> p[k] == Func(src[k].sig, Indexed(CompileBody(src[k].body)))
  {
    seq(|src|, k requires 0 <= k < |src| => Func(src[k].sig, Indexed(CompileBody(src[k].body))))
  }
}
