/**
 Stack discipline of straight-line code: the operand height before every instruction, counted along
 the code, and the code the compiler emits obeying it.
 */
module WellFormedCode {
  import opened Prelude
  import opened Int64
  import opened Opcodes
  import opened Machine
  import opened Source
  import opened Compiler

  /** How many operands an instruction needs, and how it changes their number. */
  function Pops(i: Instr): nat
  {
    match i
    case StoreVar(_) => 1
    case Dup => 1
    case Swap => 2
    case Pop => 1
    case Arith(_, _) => 2
    case Not(_) => 1
    case Cmp(_) => 2
    case Return => 1
    case Throw => 1
    case CallStatic(_, n) => n
    case _ => 0
  }

  function Growth(i: Instr): int
  {
    match i
    case LoadVar(_) => 1
    case StoreVar(_) => -1
    case PushI(_) => 1
    case Dup => 1
    case Pop => -1
    case Arith(_, _) => -1
    case Cmp(_) => -2
    case PushC(_) => 1
    case Return => -1
    case Throw => -1
    case CallStatic(_, n) => 1 - n
    case _ => 0
  }

  /** The operand height before instruction i, relative to the height before instruction 0. */
  function Height(c: seq<Instr>, i: nat): int
    requires i <= |c|
  {
    if i == 0 then 0 else Height(c, i - 1) + Growth(c[i - 1])
  }

  /** The value stored at i was duplicated, or computed from a duplicate: it is not the result of PUSHI or LOAD_VAR. */
  predicate Fed(c: seq<Instr>, i: nat)
    requires i <= |c|
  {
    i >= 1 && (c[i - 1].Dup? ||
               (c[i - 1].Arith? && i >= 2 &&
                (c[i - 2].Swap? || (c[i - 2].PushI? && i >= 3 && c[i - 3].Dup?))))
  }

  /** One instruction of a fragment whose first address is `base`. */
  predicate Sound(c: seq<Instr>, base: nat, i: nat)
    requires i < |c|
  {
    && Height(c, i) >= Pops(c[i])
    && (c[i].IncVar? || Target(c[i]).Some? ==> Height(c, i) == 0)
    && (c[i].Return? || c[i].Throw? ==> Height(c, i) == 1)
    && (c[i].StoreVar? && Height(c, i) >= 2 ==> Fed(c, i))
    && (Target(c[i]).Some? ==>
          var t := Target(c[i]).value; base <= t <= base + |c| && Height(c, t - base) == 0)
  }

  /** A statement's code: it leaves the stack as it found it. */
  predicate Piece(c: seq<Instr>, base: nat)
  {
    Height(c, |c|) == 0 && forall i :: 0 <= i < |c| ==> Sound(c, base, i)
  }

  /** An expression's or an argument list's code: it leaves n operands. */
  predicate Pushes(c: seq<Instr>, n: nat)
  {
    Height(c, |c|) == n && forall i :: 0 <= i < |c| ==> PushSound(c, i)
  }

  predicate PushSound(c: seq<Instr>, i: nat)
    requires i < |c|
  {
    && Height(c, i) >= Pops(c[i])
    && !c[i].IncVar? && !c[i].Return? && !c[i].Throw? && Target(c[i]).None?
    && (c[i].StoreVar? ==> Fed(c, i))
  }

  /** A whole function's code. */
  predicate WellFormed(c: seq<Instr>)
  {
    && |c| > 0 && c[|c| - 1].Return?
    && forall i {:trigger Sound(c, 0, i)} ::
         0 <= i < |c| ==> Sound(c, 0, i) && (Target(c[i]).Some? ==> Target(c[i]).value < |c|)
  }

  // ----- putting fragments together -----

  lemma {:induction false} HeightPrefix(a: seq<Instr>, b: seq<Instr>, i: nat)
    requires i <= |a|
    ensures Height(a + b, i) == Height(a, i)
  {
    if i > 0 {
      HeightPrefix(a, b, i - 1);
    }
  }

  lemma {:induction false} HeightAfter(a: seq<Instr>, b: seq<Instr>, i: nat)
    requires i <= |b|
    ensures Height(a + b, |a| + i) == Height(a, |a|) + Height(b, i)
  {
    if i == 0 {
      HeightPrefix(a, b, |a|);
    } else {
      HeightAfter(a, b, i - 1);
    }
  }

  /** Heights inside a larger code. */
  lemma HeightWithin(pre: seq<Instr>, c: seq<Instr>, post: seq<Instr>, i: nat)
    requires i <= |c|
    ensures Height(pre + c + post, |pre| + i) == Height(pre, |pre|) + Height(c, i)
  {
    HeightPrefix(pre + c, post, |pre| + i);
    HeightAfter(pre, c, i);
  }

  lemma PushesWithin(pre: seq<Instr>, c: seq<Instr>, post: seq<Instr>, n: nat, base: nat)
    requires Pushes(c, n) && Height(pre, |pre|) >= 0
    ensures forall i :: |pre| <= i < |pre| + |c| ==> Sound(pre + c + post, base, i)
    ensures Height(pre + c + post, |pre| + |c|) == Height(pre, |pre|) + n
  {
    var w := pre + c + post;
    forall i | |pre| <= i < |pre| + |c| ensures Sound(w, base, i) {
      HeightWithin(pre, c, post, i - |pre|);
      assert PushSound(c, i - |pre|) && w[i] == c[i - |pre|];
    }
    HeightWithin(pre, c, post, |c|);
  }

  lemma PieceWithin(pre: seq<Instr>, c: seq<Instr>, post: seq<Instr>, base: nat)
    requires Piece(c, base + |pre|) && Height(pre, |pre|) == 0
    ensures forall i :: |pre| <= i < |pre| + |c| ==> Sound(pre + c + post, base, i)
    ensures Height(pre + c + post, |pre| + |c|) == 0
  {
    var w := pre + c + post;
    forall i | |pre| <= i < |pre| + |c| ensures Sound(w, base, i) {
      HeightWithin(pre, c, post, i - |pre|);
      assert Sound(c, base + |pre|, i - |pre|) && w[i] == c[i - |pre|];
      if Target(w[i]).Some? {
        HeightWithin(pre, c, post, Target(w[i]).value - base - |pre|);
      }
    }
    HeightWithin(pre, c, post, |c|);
  }

  lemma PushesThenPushes(a: seq<Instr>, b: seq<Instr>, m: nat, n: nat)
    requires Pushes(a, m) && Pushes(b, n)
    ensures Pushes(a + b, m + n)
  {
    HeightAfter(a, b, |b|);
    forall i | 0 <= i < |a + b| ensures PushSound(a + b, i) {
      if i < |a| {
        HeightPrefix(a, b, i);
        assert PushSound(a, i);
      } else {
        HeightAfter(a, b, i - |a|);
        assert PushSound(b, i - |a|);
      }
    }
  }

  /** Appending an instruction that finds its operands. */
  lemma PushesThen(a: seq<Instr>, m: nat, i: Instr, n: nat)
    requires Pushes(a, m) && Pops(i) <= m && m + Growth(i) == n
    requires !i.IncVar? && !i.Return? && !i.Throw? && Target(i).None?
    requires i.StoreVar? ==> Fed(a, |a|)
    ensures Pushes(a + [i], n)
  {
    var w := a + [i];
    HeightPrefix(a, [i], |a|);
    forall k | 0 <= k < |w| ensures PushSound(w, k) {
      if k < |a| {
        HeightPrefix(a, [i], k);
        assert PushSound(a, k);
      }
    }
  }

  // ----- the compiler's code -----

  lemma PushOne(i: Instr)
    requires i.PushI? || i.LoadVar?
    ensures Pushes([i], 1)
  {
  }

  lemma {:induction false} ExprPushes(e: Expr)
    ensures Pushes(CompileExpr(e), 1)
  {
    hide Height, Pushes;
    match e
    case Const(i) => PushOne(PushI(i));
    case Var(s) => PushOne(LoadVar(s));
    case Binary(op, ty, left, right) =>
      ExprPushes(right);
      ExprPushes(left);
      PushesThenPushes(CompileExpr(right), CompileExpr(left), 1, 1);
      PushesThen(CompileExpr(right) + CompileExpr(left), 2, Arith(op, ty), 1);
    case Compare(c, ty, left, right) =>
      var a := CompileExpr(right) + CompileExpr(left);
      ExprPushes(right);
      ExprPushes(left);
      PushesThenPushes(CompileExpr(right), CompileExpr(left), 1, 1);
      PushesThen(a, 2, Cmp(ty), 0);
      PushesThen(a + [Cmp(ty)], 0, PushC(c), 1);
      assert a + [Cmp(ty)] + [PushC(c)] == CompileExpr(e);
    case Negate(ty, arg) =>
      ExprPushes(arg);
      PushesThen(CompileExpr(arg), 1, Not(ty), 1);
    case Assign(s, value) =>
      ExprPushes(value);
      PushesThen(CompileExpr(value), 1, Dup, 2);
      PushesThen(CompileExpr(value) + [Dup], 2, StoreVar(s), 1);
      assert CompileExpr(value) + [Dup] + [StoreVar(s)] == CompileExpr(e);
    case PostStep(s, up) => PostStepPushes(s, up);
    case Call(f, args) =>
      ArgsPush(args);
      PushesThen(CompileArgs(args), Length(args), CallStatic(f, Length(args)), 1);
  }

  lemma PostStepPushes(s: nat, up: bool)
    ensures Pushes(CompileExpr(PostStep(s, up)), 1)
  {
    hide Height, Pushes;
    var a := [LoadVar(s), Dup, PushI(1)];
    PushOne(LoadVar(s));
    PushesThen([LoadVar(s)], 1, Dup, 2);
    PushesThen([LoadVar(s)] + [Dup], 2, PushI(1), 3);
    assert [LoadVar(s)] + [Dup] + [PushI(1)] == a;
    if up {
      PushesThen(a, 3, Arith(Add, Integer), 2);
      PushesThen(a + [Arith(Add, Integer)], 2, StoreVar(s), 1);
    } else {
      PushesThen(a, 3, Swap, 3);
      PushesThen(a + [Swap], 3, Arith(Sub, Integer), 2);
      PushesThen(a + [Swap] + [Arith(Sub, Integer)], 2, StoreVar(s), 1);
      assert a + [Swap] + [Arith(Sub, Integer)] == a + [Swap, Arith(Sub, Integer)];
    }
  }

  lemma {:induction false} ArgsPush(args: List<Expr>)
    ensures Pushes(CompileArgs(args), Length(args))
  {
    match args
    case Nil =>
    case Cons(e, rest) =>
      ExprPushes(e);
      ArgsPush(rest);
      PushesThenPushes(CompileExpr(e), CompileArgs(rest), 1, Length(rest));
  }

  /** Values, then one instruction that takes them all off the stack again. */
  lemma PushesThenTake(a: seq<Instr>, n: nat, i: Instr, base: nat)
    requires Pushes(a, n) && n + Growth(i) == 0 && Pops(i) <= n && Target(i).None? && !i.IncVar?
    requires (i.StoreVar? || i.Return? || i.Throw?) ==> n == 1
    ensures Piece(a + [i], base)
  {
    PushesWithin([], a, [i], n, base);
    assert [] + a + [i] == a + [i];
    HeightAfter(a, [i], 1);
    HeightPrefix(a, [i], |a|);
  }

  lemma EffectPiece(eff: Effect, base: nat)
    ensures Piece(CompileEffect(eff), base)
  {
    match eff
    case Set(s, value) =>
      ExprPushes(value);
      PushesThenTake(CompileExpr(value), 1, StoreVar(s), base);
    case Bump(_, _) =>
    case Invoke(f, args) =>
      var a := CompileArgs(args) + [CallStatic(f, Length(args))];
      ExprPushes(Call(f, args));
      PushesThenTake(a, 1, Opcodes.Pop, base);
      assert a + [Opcodes.Pop] == CompileEffect(eff);
  }

  lemma OptionPiece(eff: Option<Effect>, base: nat)
    ensures Piece(CompileOption(eff), base)
  {
    if eff.Some? {
      EffectPiece(eff.value, base);
    }
  }

  /** Part of a fragment's code, between two points at which the stack is level. */
  predicate Part(w: seq<Instr>, base: nat, lo: nat, hi: nat)
    requires lo <= hi <= |w|
  {
    Height(w, lo) == 0 && Height(w, hi) == 0 && forall i :: lo <= i < hi ==> Sound(w, base, i)
  }

  lemma Glue(w: seq<Instr>, base: nat, lo: nat, mid: nat, hi: nat)
    requires lo <= mid <= hi <= |w| && Part(w, base, lo, mid) && Part(w, base, mid, hi)
    ensures Part(w, base, lo, hi)
  {
  }

  lemma PieceIsPart(w: seq<Instr>, base: nat)
    ensures Piece(w, base) == Part(w, base, 0, |w|)
  {
  }

  lemma PartOf(pre: seq<Instr>, c: seq<Instr>, post: seq<Instr>, base: nat)
    requires Piece(c, base + |pre|) && Height(pre, |pre|) == 0
    ensures Part(pre + c + post, base, |pre|, |pre| + |c|) && Height(pre + c, |pre + c|) == 0
  {
    PieceWithin(pre, c, post, base);
    HeightWithin(pre, c, post, 0);
    HeightAfter(pre, c, |c|);
  }

  /** A jump, or a push or pop of a handler, between level points. */
  lemma LevelStep(w: seq<Instr>, base: nat, k: nat)
    requires k < |w| && Height(w, k) == 0 && (w[k].Jmp? || w[k].PushTry? || w[k].PopTry?)
    requires Target(w[k]).Some? ==>
      var t := Target(w[k]).value; base <= t <= base + |w| && Height(w, t - base) == 0
    ensures Part(w, base, k, k + 1)
  {
  }

  lemma HeightSnoc(a: seq<Instr>, i: Instr)
    ensures Height(a + [i], |a| + 1) == Height(a, |a|) + Growth(i)
  {
    HeightPrefix(a, [i], |a|);
  }

  /** Every test ends in a compare and a branch. */
  lemma TestShape(e: Expr, target: nat) returns (a: seq<Instr>, ty: Typing, c: Cond)
    ensures CompileTest(e, target) == a + [Cmp(ty), Branch(c, target)] && Pushes(a, 2)
  {
    hide Pushes;
    if e.Compare? && Fusible(e.cond) {
      ExprPushes(e.right);
      ExprPushes(e.left);
      PushesThenPushes(CompileExpr(e.right), CompileExpr(e.left), 1, 1);
      a, ty, c := CompileExpr(e.right) + CompileExpr(e.left), e.ty, Opposite(e.cond);
    } else {
      ExprPushes(e);
      PushesThen(CompileExpr(e), 1, PushI(0), 2);
      a, ty, c := CompileExpr(e) + [PushI(0)], Integer, Eq;
    }
  }

  lemma TestHeight(e: Expr, target: nat)
    ensures Height(CompileTest(e, target), TestSize(e)) == 0
  {
    var a, ty, c := TestShape(e, target);
    var tail := [Cmp(ty), Branch(c, target)];
    HeightAfter(a, tail, 2);
    assert Height(tail, 2) == Height(tail, 1) + 0 && Height(tail, 1) == -2;
  }

  lemma CompareAndBranch(w: seq<Instr>, base: nat, k: nat)
    requires k + 2 <= |w| && Height(w, k) == 2 && w[k].Cmp? && w[k + 1].Branch?
    requires base <= w[k + 1].target <= base + |w| && Height(w, w[k + 1].target - base) == 0
    ensures Sound(w, base, k) && Sound(w, base, k + 1) && Height(w, k + 2) == 0
  {
    assert Height(w, k + 1) == 0;
  }

  /** A test at the start of a code that its target lies in. */
  lemma TestPart(e: Expr, target: nat, w: seq<Instr>, base: nat)
    requires TestSize(e) <= |w| && w[..TestSize(e)] == CompileTest(e, target)
    requires base <= target <= base + |w| && Height(w, target - base) == 0
    ensures Part(w, base, 0, TestSize(e))
  {
    hide Height, Sound, Pushes, CompileTest;
    var a, ty, c := TestShape(e, target);
    var post := [Cmp(ty), Branch(c, target)] + w[TestSize(e)..];
    assert w == w[..TestSize(e)] + w[TestSize(e)..] == a + post;
    assert w == [] + a + post;
    HeightZero([]);
    HeightZero(w);
    PushesWithin([], a, post, 2, base);
    assert w[|a|] == post[0] && w[|a| + 1] == post[1];
    CompareAndBranch(w, base, |a|);
  }

  lemma PieceThenPiece(a: seq<Instr>, b: seq<Instr>, base: nat)
    requires Piece(a, base) && Piece(b, base + |a|)
    ensures Piece(a + b, base)
  {
    PieceWithin([], a, b, base);
    assert [] + a + b == a + b;
    PieceWithin(a, b, [], base);
    assert a + b + [] == a + b;
  }

  lemma {:induction false} BlockPiece(b: Block, base: nat)
    ensures Piece(CompileBlock(b, base), base)
    decreases b, 0
  {
    hide Piece, Height, CompileStmt;
    match b
    case Nil => EmptyPiece(base);
    case Cons(s, rest) =>
      var c := CompileStmt(s, base);
      StmtPiece(s, base);
      BlockPiece(rest, base + |c|);
      PieceThenPiece(c, CompileBlock(rest, base + |c|), base);
  }

  lemma EmptyPiece(base: nat)
    ensures Piece([], base)
  {
  }

  lemma {:induction false} StmtPiece(s: Stmt, base: nat)
    ensures Piece(CompileStmt(s, base), base)
    decreases s, 1
  {
    hide Piece, Height, Pushes, CompileBlock, CompileExpr, CompileLoop;
    match s
    case Do(eff) => EffectPiece(eff, base);
    case If(_, _, _) => IfPiece(s, base);
    case For(init, test, inc, body) =>
      var i := CompileOption(init);
      OptionPiece(init, base);
      BlockPiece(body, base + |i| + TestSize(test));
      LoopPiece(test, inc, body, base + |i|);
      PieceThenPiece(i, CompileLoop(test, inc, body, base + |i|), base);
    case Ret(None) => ZeroPiece(base);
    case Ret(Some(e)) =>
      ExprPushes(e);
      PushesThenTake(CompileExpr(e), 1, Opcodes.Return, base);
    case Try(_, _, _) => TryPiece(s, base);
    case Raise(e) =>
      ExprPushes(e);
      PushesThenTake(CompileExpr(e), 1, Throw, base);
  }

  lemma ZeroPiece(base: nat)
    ensures Piece([PushI(0), Opcodes.Return], base)
  {
    PushesThenTake([PushI(0)], 1, Opcodes.Return, base);
    assert [PushI(0)] + [Opcodes.Return] == [PushI(0), Opcodes.Return];
  }

  lemma {:induction false} IfPiece(s: Stmt, base: nat)
    requires s.If?
    ensures Piece(CompileStmt(s, base), base)
    decreases s, 0
  {
    hide Piece, Height, Sound, Part, CompileBlock, CompileTest;
    var size := TestSize(s.test);
    var t := CompileBlock(s.thn, base + size);
    var after := base + size + |t|;
    var target := if s.els.None? then after else after + 1;
    var T := CompileTest(s.test, target);
    var w := CompileStmt(s, base);
    BlockPiece(s.thn, base + size);
    TestHeight(s.test, target);
    PieceIsPart(w, base);
    if s.els.None? {
      PartOf(T, t, [], base);
      assert T + t + [] == w;
      PartEnds(w, base, size, size + |t|);
    } else {
      var f := CompileBlock(s.els.value, after + 1);
      var j := [Jmp(after + 1 + |f|)];
      BlockPiece(s.els.value, after + 1);
      PartOf(T, t, j + f, base);
      assert T + t + (j + f) == w;
      HeightSnoc(T + t, j[0]);
      PartOf(T + t + j, f, [], base);
      assert T + t + j + f + [] == w;
      PartEnds(w, base, size, size + |t|);
      PartEnds(w, base, size + |t| + 1, |w|);
      assert w[size + |t|] == j[0];
      LevelStep(w, base, size + |t|);
      Glue(w, base, size, size + |t|, size + |t| + 1);
      Glue(w, base, size, size + |t| + 1, |w|);
    }
    assert w[..size] == T;
    TestPart(s.test, target, w, base);
    Glue(w, base, 0, size, |w|);
  }

  lemma PartEnds(w: seq<Instr>, base: nat, lo: nat, hi: nat)
    requires lo <= hi <= |w| && Part(w, base, lo, hi)
    ensures Height(w, lo) == 0 && Height(w, hi) == 0
  {
  }

  lemma LoopPiece(test: Expr, inc: Option<Effect>, body: Block, top: nat)
    requires Piece(CompileBlock(body, top + TestSize(test)), top + TestSize(test))
    ensures Piece(CompileLoop(test, inc, body, top), top)
  {
    hide Piece, Height, Sound, Part, CompileBlock, CompileTest, CompileOption;
    var size := TestSize(test);
    var b := CompileBlock(body, top + size);
    var c := CompileOption(inc);
    var end := top + size + |b| + |c| + 1;
    var T := CompileTest(test, end);
    var j := [Jmp(top)];
    var w := CompileLoop(test, inc, body, top);
    PieceIsPart(w, top);
    TestHeight(test, end);
    PartOf(T, b, c + j, top);
    assert T + b + (c + j) == w;
    OptionPiece(inc, top + |T + b|);
    PartOf(T + b, c, j, top);
    HeightSnoc(T + b + c, j[0]);
    PartEnds(w, top, size + |b|, size + |b| + |c|);
    assert w[size + |b| + |c|] == j[0];
    HeightZero(w);
    LevelStep(w, top, size + |b| + |c|);
    assert w[..size] == T;
    TestPart(test, end, w, top);
    Glue(w, top, 0, size, size + |b|);
    Glue(w, top, 0, size + |b|, size + |b| + |c|);
    Glue(w, top, 0, size + |b| + |c|, |w|);
  }

  lemma HeightZero(w: seq<Instr>)
    ensures Height(w, 0) == 0
  {
  }

  lemma {:induction false} TryPiece(s: Stmt, base: nat)
    requires s.Try?
    ensures Piece(CompileStmt(s, base), base)
    decreases s, 0
  {
    hide Piece, Height, Sound, Part, CompileBlock;
    var b := CompileBlock(s.body, base + 1);
    var catchPos := base + 1 + |b| + 2;
    var h := CompileBlock(s.handler, catchPos);
    var push, exit := [PushTry(s.excepVar, catchPos)], [PopTry, Jmp(catchPos + |h|)];
    var w := CompileStmt(s, base);
    var k := 1 + |b|;
    BlockPiece(s.body, base + 1);
    BlockPiece(s.handler, catchPos);
    PieceIsPart(w, base);
    HeightZero([]);
    HeightSnoc([], push[0]);
    assert [] + [push[0]] == push;
    PartOf(push, b, exit + h, base);
    assert push + b + (exit + h) == w;
    HeightSnoc(push + b, PopTry);
    HeightSnoc(push + b + [PopTry], exit[1]);
    assert push + b + [PopTry] + [exit[1]] == push + b + exit;
    PartOf(push + b + exit, h, [], base);
    assert push + b + exit + h + [] == w;
    PartEnds(w, base, 1, k);
    PartEnds(w, base, k + 2, |w|);
    HeightZero(w);
    assert w[0] == push[0] && w[k] == PopTry && w[k + 1] == exit[1];
    LevelStep(w, base, 0);
    LevelStep(w, base, k);
    PartEnds(w, base, k, k + 1);
    LevelStep(w, base, k + 1);
    Glue(w, base, 0, 1, k);
    Glue(w, base, 0, k, k + 1);
    Glue(w, base, 0, k + 1, k + 2);
    Glue(w, base, 0, k + 2, |w|);
  }

  /** Every function the compiler emits is well-formed. */
  lemma CompiledWellFormed(body: Block)
    ensures WellFormed(CompileBody(body))
  {
    var b, tail := CompileBlock(body, 0), [PushI(0), Opcodes.Return];
    var w := b + tail;
    BlockPiece(body, 0);
    ZeroPiece(|b|);
    PieceThenPiece(b, tail, 0);
    forall i | 0 <= i < |w| && Target(w[i]).Some? ensures Target(w[i]).value < |w| {
      assert w[i] == b[i] && Sound(b, 0, i);
    }
  }
}
