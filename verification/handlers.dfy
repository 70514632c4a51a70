/** Exception handlers: the handler stack of a frame is the list of try blocks around its pc. */
module HandlerNesting {
  import opened Prelude
  import opened Int64
  import opened Opcodes
  import opened Machine
  import opened Source
  import opened Compiler
  import opened CompilerProof

  type Hs = seq<Handler>

  /** For every instruction of a block, the try blocks around it, outermost first; `hs` are those around the block. */
  function BlockTries(b: Block, base: nat, hs: Hs): seq<Hs>
    decreases b, 0
  {
    match b
    case Nil => []
    case Cons(s, rest) => StmtTries(s, base, hs) + BlockTries(rest, base + |CompileStmt(s, base)|, hs)
  }

  function StmtTries(s: Stmt, base: nat, hs: Hs): seq<Hs>
    decreases s, 0
  {
    match s
    case If(test, thn, els) =>
      var after := base + TestSize(test) + |CompileBlock(thn, base + TestSize(test))|;
      Flat(TestSize(test), hs) + BlockTries(thn, base + TestSize(test), hs) +
      (match els
       case None => []
       case Some(b) => [hs] + BlockTries(b, after + 1, hs))
    case For(init, test, inc, body) =>
      var top := base + |CompileOption(init)|;
      Flat(|CompileOption(init)|, hs) +
      (Flat(TestSize(test), hs) + BlockTries(body, top + TestSize(test), hs) + Flat(|CompileOption(inc)|, hs) + [hs])
    case Try(body, x, handler) =>
      var catchPos := base + 1 + |CompileBlock(body, base + 1)| + 2;
      var inner := hs + [Handler(x, catchPos)];
      [hs] + BlockTries(body, base + 1, inner) + [inner, hs] + BlockTries(handler, catchPos, hs)
    case _ => Flat(|CompileStmt(s, base)|, hs)
  }

  function Flat(n: nat, hs: Hs): (m: seq<Hs>)
    ensures |m| == n
  {
    seq(n, _ => hs)
  }

  /** The try blocks around address base + i, for i up to the end of the code. */
  function Around(m: seq<Hs>, hs: Hs, i: nat): Hs
    requires i <= |m|
  {
    if i < |m| then m[i] else hs
  }

  predicate Inside(m: seq<Hs>, base: nat, t: nat)
  {
    base <= t <= base + |m|
  }

  /** How an instruction and the try blocks around it fit together. */
  predicate Fits(c: seq<Instr>, m: seq<Hs>, base: nat, hs: Hs, i: nat)
    requires |m| == |c| && i < |c|
  {
    var here, next := m[i], Around(m, hs, i + 1);
    && hs <= here
    && (Target(c[i]).Some? ==> Inside(m, base, Target(c[i]).value) && Around(m, hs, Target(c[i]).value - base) == here)
    && (c[i].PushTry? ==> next == here + [Handler(c[i].v, c[i].target)])
    && (c[i].PopTry? ==> |here| > 0 && next == here[..|here| - 1])
    && (!c[i].PushTry? && !c[i].PopTry? && !c[i].Jmp? ==> next == here)
    && (|here| > |hs| ==>
          var h := here[|here| - 1];
          Inside(m, base, h.pc) && Around(m, hs, h.pc - base) == here[..|here| - 1])
  }

  predicate Nested(c: seq<Instr>, m: seq<Hs>, base: nat, hs: Hs)
  {
    |m| == |c| && (|m| > 0 ==> m[0] == hs) && forall i :: 0 <= i < |c| ==> Fits(c, m, base, hs, i)
  }

  // ----- emitted code fits -----

  /** No jumps and no handlers. */
  predicate Quiet(c: seq<Instr>)
  {
    forall i :: 0 <= i < |c| ==> Target(c[i]).None? && !c[i].PopTry?
  }

  lemma {:induction false} ExprQuiet(e: Expr)
    ensures Quiet(CompileExpr(e))
  {
    match e
    case Binary(_, _, left, right) =>
      ExprQuiet(left);
      ExprQuiet(right);
    case Compare(_, _, left, right) =>
      ExprQuiet(left);
      ExprQuiet(right);
    case Negate(_, arg) => ExprQuiet(arg);
    case Assign(_, value) => ExprQuiet(value);
    case Call(_, args) => ArgsQuiet(args);
    case Const(_) =>
    case Var(_) =>
    case PostStep(_, _) =>
  }

  lemma {:induction false} ArgsQuiet(args: List<Expr>)
    ensures Quiet(CompileArgs(args))
  {
    if args.Cons? {
      ExprQuiet(args.head);
      ArgsQuiet(args.tail);
    }
  }

  lemma EffectQuiet(eff: Effect)
    ensures Quiet(CompileEffect(eff))
  {
    match eff
    case Set(_, value) => ExprQuiet(value);
    case Bump(_, _) =>
    case Invoke(_, args) => ArgsQuiet(args);
  }

  lemma OptionQuiet(eff: Option<Effect>)
    ensures Quiet(CompileOption(eff))
  {
    if eff.Some? {
      EffectQuiet(eff.value);
    }
  }

  lemma TestQuiet(e: Expr, t: nat)
    ensures var c := CompileTest(e, t); |c| == TestSize(e) > 0 && Quiet(c[..|c| - 1]) && c[|c| - 1].Branch? && c[|c| - 1].target == t
  {
    if e.Compare? {
      ExprQuiet(e.left);
      ExprQuiet(e.right);
    }
    ExprQuiet(e);
    hide CompileExpr;
  }

  lemma {:induction false} QuietNested(c: seq<Instr>, base: nat, hs: Hs)
    requires Quiet(c)
    ensures Nested(c, Flat(|c|, hs), base, hs)
  {
  }

  /** Part of a larger code, in the middle of which the try blocks `inner` are open. */
  lemma NestedWithin(w: seq<Instr>, m: seq<Hs>, base: nat, hs: Hs, lo: nat, hi: nat, inner: Hs)
    requires lo <= hi <= |w| == |m| && hs <= inner
    requires Nested(w[lo..hi], m[lo..hi], base + lo, inner) && Around(m, hs, hi) == inner
    requires |inner| > |hs| ==>
      var h := inner[|inner| - 1]; Inside(m, base, h.pc) && Around(m, hs, h.pc - base) == inner[..|inner| - 1]
    ensures forall i :: lo <= i < hi ==> Fits(w, m, base, hs, i)
  {
    hide Fits, Around, Nested;
    forall i: nat | lo <= i < hi ensures Fits(w, m, base, hs, i) {
      NestedWithinAt(w, m, base, hs, lo, hi, inner, i);
    }
  }

  lemma NestedWithinAt(w: seq<Instr>, m: seq<Hs>, base: nat, hs: Hs, lo: nat, hi: nat, inner: Hs, i: nat)
    requires lo <= i < hi <= |w| == |m| && hs <= inner
    requires Nested(w[lo..hi], m[lo..hi], base + lo, inner) && Around(m, hs, hi) == inner
    requires |inner| > |hs| ==>
      var h := inner[|inner| - 1]; Inside(m, base, h.pc) && Around(m, hs, h.pc - base) == inner[..|inner| - 1]
    ensures Fits(w, m, base, hs, i)
  {
    hide Fits, Around, Nested;
    var c, n := w[lo..hi], m[lo..hi];
    AroundWithin(m, hs, lo, hi, inner);
    NestedAt(c, n, base + lo, inner, i - lo);
    FitsWithin(c, n, base + lo, inner, w, m, base, hs, i - lo);
  }

  lemma NestedAt(c: seq<Instr>, m: seq<Hs>, base: nat, hs: Hs, i: nat)
    requires Nested(c, m, base, hs) && i < |c|
    ensures |m| == |c| && Fits(c, m, base, hs, i)
  {
  }

  lemma AroundWithin(m: seq<Hs>, hs: Hs, lo: nat, hi: nat, inner: Hs)
    requires lo <= hi <= |m| && Around(m, hs, hi) == inner
    ensures forall k: nat :: k <= hi - lo ==> Around(m[lo..hi], inner, k) == Around(m, hs, lo + k)
  {
  }

  lemma FitsWithin(c: seq<Instr>, n: seq<Hs>, at: nat, inner: Hs, w: seq<Instr>, m: seq<Hs>, base: nat, hs: Hs, i: nat)
    requires |n| == |c| && |m| == |w| && base <= at && at - base + |c| <= |w| && i < |c| && hs <= inner
    requires Fits(c, n, at, inner, i) && c[i] == w[at - base + i] && n[i] == m[at - base + i]
    requires forall k: nat :: k <= |n| ==> Around(n, inner, k) == Around(m, hs, at - base + k)
    requires |inner| > |hs| ==>
      var h := inner[|inner| - 1]; Inside(m, base, h.pc) && Around(m, hs, h.pc - base) == inner[..|inner| - 1]
    ensures Fits(w, m, base, hs, at - base + i)
  {
    hide Around;
    if Target(c[i]).Some? {
      assert Around(n, inner, Target(c[i]).value - at) == n[i];
    }
    var here := n[i];
    if |here| > |inner| {
      var h := here[|here| - 1];
      assert Around(n, inner, h.pc - at) == here[..|here| - 1];
    } else {
      assert here == inner;
    }
  }

  lemma NestedAppend(a: seq<Instr>, ma: seq<Hs>, b: seq<Instr>, mb: seq<Hs>, base: nat, hs: Hs)
    requires Nested(a, ma, base, hs) && Nested(b, mb, base + |a|, hs)
    ensures Nested(a + b, ma + mb, base, hs)
  {
    var w, m := a + b, ma + mb;
    assert w[0..|a|] == a && m[0..|a|] == ma && w[|a|..|w|] == b && m[|a|..|w|] == mb;
    assert Around(m, hs, |a|) == hs;
    NestedWithin(w, m, base, hs, 0, |a|, hs);
    NestedWithin(w, m, base, hs, |a|, |w|, hs);
  }

  lemma {:induction false} BlockNested(b: Block, base: nat, hs: Hs)
    ensures Nested(CompileBlock(b, base), BlockTries(b, base, hs), base, hs)
    decreases b, 0
  {
    hide Nested, CompileStmt, StmtTries;
    match b
    case Nil => assert Nested([], [], base, hs) by { QuietNested([], base, hs); }
    case Cons(s, rest) =>
      var c := CompileStmt(s, base);
      StmtNested(s, base, hs);
      BlockNested(rest, base + |c|, hs);
      NestedAppend(c, StmtTries(s, base, hs), CompileBlock(rest, base + |c|), BlockTries(rest, base + |c|, hs), base, hs);
  }

  lemma {:induction false} StmtNested(s: Stmt, base: nat, hs: Hs)
    ensures Nested(CompileStmt(s, base), StmtTries(s, base, hs), base, hs)
    decreases s, 1
  {
    hide Nested, CompileBlock, CompileExpr, CompileLoop, BlockTries, Quiet, CompileEffect;
    match s
    case Do(eff) =>
      EffectQuiet(eff);
      QuietNested(CompileEffect(eff), base, hs);
    case If(_, _, _) => IfNested(s, base, hs);
    case For(_, _, _, _) => ForNested(s, base, hs);
    case Ret(None) => PlainNested([PushI(0)], Opcodes.Return, base, hs);
    case Ret(Some(e)) =>
      ExprQuiet(e);
      PlainNested(CompileExpr(e), Opcodes.Return, base, hs);
    case Try(_, _, _) => TryNested(s, base, hs);
    case Raise(e) =>
      ExprQuiet(e);
      PlainNested(CompileExpr(e), Throw, base, hs);
  }

  lemma PlainNested(c: seq<Instr>, i: Instr, base: nat, hs: Hs)
    requires (Quiet(c) || c == [PushI(0)]) && Target(i).None? && !i.PopTry?
    ensures Nested(c + [i], Flat(|c + [i]|, hs), base, hs)
    ensures c == [PushI(0)] ==> c + [i] == [PushI(0), i]
  {
    assert Quiet(c + [i]);
    QuietNested(c + [i], base, hs);
  }

  /** A test whose target is where the same try blocks are open. */
  lemma TestFits(e: Expr, t: nat, w: seq<Instr>, m: seq<Hs>, base: nat, hs: Hs, lo: nat)
    requires lo + TestSize(e) <= |w| == |m| && w[lo..lo + TestSize(e)] == CompileTest(e, t)
    requires m[lo..lo + TestSize(e)] == Flat(TestSize(e), hs) && Around(m, hs, lo + TestSize(e)) == hs
    requires Inside(m, base, t) && Around(m, hs, t - base) == hs
    ensures forall i :: lo <= i < lo + TestSize(e) ==> Fits(w, m, base, hs, i)
  {
    var n := TestSize(e);
    TestQuiet(e, t);
    var c := CompileTest(e, t);
    hide CompileTest;
    forall i | lo <= i < lo + n ensures Fits(w, m, base, hs, i) {
      assert w[i] == w[lo..lo + n][i - lo] == c[i - lo];
      assert m[i] == m[lo..lo + n][i - lo] == hs;
      if i < lo + n - 1 {
        assert w[i] == c[..n - 1][i - lo];
        assert m[i + 1] == m[lo..lo + n][i + 1 - lo] == hs;
      }
    }
  }

  lemma NestedEnds(c: seq<Instr>, m: seq<Hs>, base: nat, hs: Hs)
    requires Nested(c, m, base, hs)
    ensures |m| == |c| && Around(m, hs, 0) == hs && Around(m, hs, |m|) == hs
  {
  }

  lemma {:induction false} IfNested(s: Stmt, base: nat, hs: Hs)
    requires s.If?
    ensures Nested(CompileStmt(s, base), StmtTries(s, base, hs), base, hs)
    decreases s, 0
  {
    hide CompileBlock, BlockTries, CompileTest, Nested;
    var size := TestSize(s.test);
    var t, mt := CompileBlock(s.thn, base + size), BlockTries(s.thn, base + size, hs);
    var after := base + size + |t|;
    BlockNested(s.thn, base + size, hs);
    if s.els.Some? {
      var f, mf := CompileBlock(s.els.value, after + 1), BlockTries(s.els.value, after + 1, hs);
      BlockNested(s.els.value, after + 1, hs);
      NestedEnds(t, mt, base + size, hs);
      NestedEnds(f, mf, after + 1, hs);
      ElseNested(t, mt, f, mf, base + size, hs);
      TestThenNested(s.test, after + 1, t + [Jmp(after + 1 + |f|)] + f, mt + [hs] + mf, base, hs);
      assert CompileStmt(s, base) == CompileTest(s.test, after + 1) + (t + [Jmp(after + 1 + |f|)] + f);
      assert StmtTries(s, base, hs) == Flat(size, hs) + (mt + [hs] + mf);
    } else {
      NestedEnds(t, mt, base + size, hs);
      TestThenNested(s.test, after, t, mt, base, hs);
      assert StmtTries(s, base, hs) == Flat(size, hs) + mt;
    }
  }

  /** The then part, the jump and the else part. */
  lemma ElseNested(t: seq<Instr>, mt: seq<Hs>, f: seq<Instr>, mf: seq<Hs>, base: nat, hs: Hs)
    requires Nested(t, mt, base, hs) && Nested(f, mf, base + |t| + 1, hs)
    ensures Nested(t + [Jmp(base + |t| + 1 + |f|)] + f, mt + [hs] + mf, base, hs)
  {
    var k := |t|;
    var w, m := t + [Jmp(base + k + 1 + |f|)] + f, mt + [hs] + mf;
    hide Fits;
    assert w[0..k] == t && m[0..k] == mt && w[k + 1..|w|] == f && m[k + 1..|w|] == mf;
    assert Around(m, hs, k) == hs && Around(m, hs, |w|) == hs && m[0] == hs;
    NestedWithin(w, m, base, hs, 0, k, hs);
    NestedWithin(w, m, base, hs, k + 1, |w|, hs);
    JumpFits(w, m, base, hs, k);
  }

  lemma TestThenNested(e: Expr, target: nat, t: seq<Instr>, mt: seq<Hs>, base: nat, hs: Hs)
    requires Nested(t, mt, base + TestSize(e), hs)
    requires base + TestSize(e) <= target <= base + TestSize(e) + |t|
    requires Around(mt, hs, target - base - TestSize(e)) == hs
    ensures Nested(CompileTest(e, target) + t, Flat(TestSize(e), hs) + mt, base, hs)
  {
    hide Fits, CompileTest;
    var size := TestSize(e);
    var w, m := CompileTest(e, target) + t, Flat(size, hs) + mt;
    TestQuiet(e, target);
    assert w[0..size] == CompileTest(e, target) && m[0..size] == Flat(size, hs);
    assert w[size..|w|] == t && m[size..|w|] == mt;
    TestFits(e, target, w, m, base, hs, 0);
    NestedWithin(w, m, base, hs, size, |w|, hs);
  }

  lemma JumpFits(w: seq<Instr>, m: seq<Hs>, base: nat, hs: Hs, i: nat)
    requires i < |w| == |m| && w[i].Jmp? && m[i] == hs
    requires Inside(m, base, w[i].target) && Around(m, hs, w[i].target - base) == hs
    ensures Fits(w, m, base, hs, i)
  {
  }

  lemma {:induction false} ForNested(s: Stmt, base: nat, hs: Hs)
    requires s.For?
    ensures Nested(CompileStmt(s, base), StmtTries(s, base, hs), base, hs)
    decreases s, 0
  {
    hide CompileBlock, BlockTries, CompileTest, Nested, CompileOption;
    var i := CompileOption(s.init);
    var top := base + |i| + TestSize(s.test);
    var b, mb := CompileBlock(s.body, top), BlockTries(s.body, top, hs);
    var ml := Flat(TestSize(s.test), hs) + mb + Flat(|CompileOption(s.inc)|, hs) + [hs];
    OptionNested(s.init, base, hs);
    BlockNested(s.body, top, hs);
    LoopNested(s, base + |i|, hs, b, mb);
    NestedAppend(i, Flat(|i|, hs), CompileLoop(s.test, s.inc, s.body, base + |i|), ml, base, hs);
  }

  lemma LoopNested(s: Stmt, top: nat, hs: Hs, b: seq<Instr>, mb: seq<Hs>)
    requires s.For? && b == CompileBlock(s.body, top + TestSize(s.test)) && Nested(b, mb, top + TestSize(s.test), hs)
    ensures Nested(CompileLoop(s.test, s.inc, s.body, top),
                   Flat(TestSize(s.test), hs) + mb + Flat(|CompileOption(s.inc)|, hs) + [hs], top, hs)
  {
    hide CompileBlock, CompileTest, Fits, CompileOption;
    var size, c := TestSize(s.test), CompileOption(s.inc);
    var lo := size + |b|;
    var T := CompileTest(s.test, top + lo + |c| + 1);
    var w, m := T + b + c + [Jmp(top)], Flat(size, hs) + mb + Flat(|c|, hs) + [hs];
    TestQuiet(s.test, top + lo + |c| + 1);
    OptionNested(s.inc, top + lo, hs);
    assert w[0..size] == T && m[0..size] == Flat(size, hs);
    assert w[size..lo] == b && m[size..lo] == mb;
    assert w[lo..lo + |c|] == c && m[lo..lo + |c|] == Flat(|c|, hs);
    assert w[lo + |c|] == Jmp(top) && m[lo + |c|] == hs;
    assert Around(m, hs, size) == hs && Around(m, hs, lo) == hs && m[0] == hs;
    TestFits(s.test, top + lo + |c| + 1, w, m, top, hs, 0);
    NestedWithin(w, m, top, hs, size, lo, hs);
    NestedWithin(w, m, top, hs, lo, lo + |c|, hs);
    JumpFits(w, m, top, hs, lo + |c|);
  }

  lemma OptionNested(eff: Option<Effect>, base: nat, hs: Hs)
    ensures Nested(CompileOption(eff), Flat(|CompileOption(eff)|, hs), base, hs)
  {
    OptionQuiet(eff);
    QuietNested(CompileOption(eff), base, hs);
  }

  lemma {:induction false} TryNested(s: Stmt, base: nat, hs: Hs)
    requires s.Try?
    ensures Nested(CompileStmt(s, base), StmtTries(s, base, hs), base, hs)
    decreases s, 0
  {
    hide CompileBlock, BlockTries, Fits;
    var b := CompileBlock(s.body, base + 1);
    var catchPos := base + 1 + |b| + 2;
    var inner := hs + [Handler(s.excepVar, catchPos)];
    var mb := BlockTries(s.body, base + 1, inner);
    var h, mh := CompileBlock(s.handler, catchPos), BlockTries(s.handler, catchPos, hs);
    var w, m := CompileStmt(s, base), StmtTries(s, base, hs);
    var k := 1 + |b|;
    BlockNested(s.body, base + 1, inner);
    BlockNested(s.handler, catchPos, hs);
    assert w[1..k] == b && m[1..k] == mb && m[k] == inner && m[k + 1] == hs;
    assert w[k + 2..|w|] == h && m[k + 2..|w|] == mh;
    assert Around(m, hs, catchPos - base) == hs && Around(m, hs, 1) == inner;
    NestedWithin(w, m, base, hs, 1, k, inner);
    NestedWithin(w, m, base, hs, k + 2, |w|, hs);
    JumpFits(w, m, base, hs, k + 1);
    EndsFit(w, m, base, hs, Handler(s.excepVar, catchPos), k);
  }

  /** The instructions that open and close a try block. */
  lemma EndsFit(w: seq<Instr>, m: seq<Hs>, base: nat, hs: Hs, h: Handler, k: nat)
    requires 0 < k < |w| - 1 && |w| == |m| && w[0] == PushTry(h.excepVar, h.pc) && w[k] == PopTry
    requires m[0] == hs == m[k + 1] && m[1] == m[k] == hs + [h]
    requires Inside(m, base, h.pc) && Around(m, hs, h.pc - base) == hs
    ensures Fits(w, m, base, hs, 0) && Fits(w, m, base, hs, k)
  {
  }

  // ----- runs -----

  /** The try blocks around every instruction of a function; none around the return that ends it. */
  function BodyTries(body: Block): seq<Hs>
  {
    BlockTries(body, 0, []) + [[], []]
  }

  lemma BodyFits(body: Block, i: nat)
    requires i < |CompileBody(body)|
    ensures |BodyTries(body)| == |CompileBody(body)|
    ensures Fits(CompileBody(body), BodyTries(body), 0, [], i)
    ensures var c, here := CompileBody(body), BodyTries(body)[i];
      (Target(c[i]).Some? ==> Target(c[i]).value < |c|) && (here != [] ==> here[|here| - 1].pc < |c|) &&
      (i == |c| - 1 ==> c[i].Return?)
  {
    hide CompileBlock, BlockTries, Around;
    var b, m := CompileBlock(body, 0), BlockTries(body, 0, []);
    var c, all := CompileBody(body), BodyTries(body);
    BlockNested(body, 0, []);
    AroundBody(m);
    assert c[..|b|] == b && all[..|b|] == m;
    if i < |b| {
      assert Fits(b, m, 0, [], i);
      assert forall k: nat :: k <= |m| ==> Around(m, [], k) == Around(all, [], 0 + k);
      FitsWithin(b, m, 0, [], c, all, 0, [], i);
    } else {
      AroundTail(m, i);
    }
  }

  lemma AroundBody(m: seq<Hs>)
    ensures forall k: nat :: k <= |m| ==> Around(m, [], k) == Around(m + [[], []], [], k)
  {
  }

  lemma AroundTail(m: seq<Hs>, i: nat)
    requires |m| <= i < |m| + 2
    ensures (m + [[], []])[i] == [] && Around(m + [[], []], [], i + 1) == []
  {
  }

  lemma BodyStart(body: Block)
    ensures BodyTries(body)[0] == []
  {
    BlockNested(body, 0, []);
    hide CompileBlock, BlockTries, Fits;
  }

  /** A frame's handlers are the try blocks around its pc. */
  predicate FrameNested(src: Source, fr: Frame)
  {
    fr.f < |src| && fr.pc < |BodyTries(src[fr.f].body)| && fr.handlers == BodyTries(src[fr.f].body)[fr.pc]
  }

  predicate CallersNested(src: Source, cs: Frames)
  {
    match cs
    case Bottom => true
    case Caller(c, below) => FrameNested(src, c) && CallersNested(src, below)
  }

  predicate AllNested(src: Source, s: State)
  {
    s.Running? ==> FrameNested(src, s.frame) && CallersNested(src, s.callers)
  }

  /** The handlers are those around pc, although the frame itself may be on its way elsewhere. */
  lemma {:induction false} UnwindNested(src: Source, x: Value, fr: Frame, cs: Frames, st: Stack, pc: nat)
    requires FrameNested(src, fr.(pc := pc)) && CallersNested(src, cs)
    ensures AllNested(src, Unwind(x, fr, cs, st))
    decreases cs
  {
    hide BodyTries, CompileBody, Fits;
    if |fr.handlers| == 0 {
      match PopToMarker(st)
      case None =>
      case Some(rest) =>
        if cs.Caller? {
          UnwindNested(src, x, cs.frame, cs.below, rest, cs.frame.pc);
        }
    } else {
      InnermostCatch(src, fr.f, pc);
    }
  }

  /** Catching in the innermost try block leaves the others around. */
  lemma InnermostCatch(src: Source, f: nat, pc: nat)
    requires f < |src| && pc < |BodyTries(src[f].body)| && BodyTries(src[f].body)[pc] != []
    ensures var m := BodyTries(src[f].body);
      var here := m[pc];
      here[|here| - 1].pc < |m| && m[here[|here| - 1].pc] == here[..|here| - 1]
  {
    SameLength(src[f].body);
    BodyFits(src[f].body, pc);
    hide BodyTries, CompileBody;
  }

  lemma SameLength(body: Block)
    ensures |BodyTries(body)| == |CompileBody(body)| >= 2
  {
    BlockNested(body, 0, []);
    hide CompileBlock, BlockTries, Fits;
  }

  lemma StepNested(src: Source, s: State)
    requires AllNested(src, s)
    ensures AllNested(src, Step(Compiled(src), s))
  {
    hide BodyTries, CompileBody, Fits, Operate, Transfer;
    if s.Running? {
      var fr := s.frame;
      var c := CompileBody(src[fr.f].body);
      SameLength(src[fr.f].body);
      if Control(c[fr.pc]) {
        TransferNested(src, fr, s.callers, s.stack);
      } else {
        MovesOn(src, fr);
      }
    }
  }

  /** What an instruction does to the try blocks around the pc. */
  lemma MovesOn(src: Source, fr: Frame)
    requires FrameNested(src, fr)
    ensures |BodyTries(src[fr.f].body)| == |CompileBody(src[fr.f].body)|
    ensures var c, m := CompileBody(src[fr.f].body), BodyTries(src[fr.f].body);
      var i := c[fr.pc];
      (!i.Return? ==> fr.pc + 1 < |m|) &&
      (Target(i).Some? ==> Target(i).value < |m| && m[Target(i).value] == fr.handlers) &&
      (i.PushTry? ==> m[fr.pc + 1] == fr.handlers + [Handler(i.v, i.target)]) &&
      (i.PopTry? ==> |fr.handlers| > 0 && m[fr.pc + 1] == fr.handlers[..|fr.handlers| - 1]) &&
      (!i.Return? && !i.PushTry? && !i.PopTry? && !i.Jmp? ==> m[fr.pc + 1] == fr.handlers)
  {
    SameLength(src[fr.f].body);
    BodyFits(src[fr.f].body, fr.pc);
    hide BodyTries, CompileBody;
  }

  lemma TransferNested(src: Source, fr: Frame, cs: Frames, st: Stack)
    requires FrameNested(src, fr) && CallersNested(src, cs) && fr.pc < |CompileBody(src[fr.f].body)|
    requires Control(CompileBody(src[fr.f].body)[fr.pc])
    ensures AllNested(src, Transfer(Compiled(src), CompileBody(src[fr.f].body)[fr.pc], fr.pc + 1, fr, cs, st))
  {
    hide BodyTries, CompileBody, Unwind, PopArgs;
    MovesOn(src, fr);
    var i, go := CompileBody(src[fr.f].body)[fr.pc], fr.(pc := fr.pc + 1);
    match i
    case Throw =>
      if st.Push? && st.top.Operand? {
        UnwindNested(src, Exc(st.top.v), go, cs, st.below, fr.pc);
      }
    case CallStatic(f, _) =>
      if f < |src| {
        BodyStart(src[f].body);
        SameLength(src[f].body);
      }
    case Return =>
    case PushTry(_, _) =>
    case PopTry =>
    case Jmp(_) =>
    case Branch(_, _) =>
  }

  lemma {:induction false} RunNested(src: Source, s: State, n: nat)
    requires AllNested(src, s)
    ensures AllNested(src, StepN(Compiled(src), s, n))
    decreases n
  {
    hide Step, AllNested, Compiled;
    if n > 0 {
      StepNested(src, s);
      RunNested(src, Step(Compiled(src), s), n - 1);
    }
  }

  /** In every reachable state, every frame's handler stack is the list of try blocks around its pc. */
  lemma HandlersAreEnclosingTries(src: Source, f: nat, vs: List<Value>, st: Stack, n: nat)
    requires f < |src|
    ensures AllNested(src, StepN(Compiled(src), Enter(Compiled(src), f, vs, Bottom, st), n))
  {
    hide BodyTries, CompileBody, StepN;
    BodyStart(src[f].body);
    SameLength(src[f].body);
    RunNested(src, Enter(Compiled(src), f, vs, Bottom, st), n);
  }

  /** So a throw goes to the innermost enclosing catch, or leaves the frame if there is none. */
  lemma ThrowGoesToInnermostCatch(src: Source, fr: Frame, cs: Frames, x: Value, st: Stack)
    requires FrameNested(src, fr) && fr.pc < |CompileBody(src[fr.f].body)| && CompileBody(src[fr.f].body)[fr.pc].Throw?
    ensures var s := Step(Compiled(src), Running(fr, cs, Push(Operand(x), st)));
      var tries := BodyTries(src[fr.f].body)[fr.pc];
      if tries == [] then
        s == match PopToMarker(st)
             case None => Undefined
             case Some(rest) => UnwindCallers(Exc(x), cs, rest)
      else
        var h := tries[|tries| - 1];
        s == if h.excepVar < |fr.locals|
             then Running(fr.(pc := h.pc, locals := fr.locals[h.excepVar := Exc(x)], handlers := tries[..|tries| - 1]), cs, st)
             else Undefined
  {
    hide BodyTries, CompileBody;
  }
}
