/**
 From the tokens of an expression to its value: what the parsed text means, its compiled and assembled code
 returns.
 */
module Evaluation {
  import opened Prelude
  import opened Int64
  import opened Machine
  import opened Source
  import opened Simulation
  import opened Pipeline
  import O = Opcodes
  import P = Parsing
  import PP = ParserProof
  import PM = ParserMeaning
  import opened Programs

  /** The expression that the assembler is given for a tree; Dot, and other operands, are not of the fragment. */
  function Given(t: P.Tree, ty: O.Typing): Option<Expr>
  {
    match t
    case Leaf(Integer(i)) => Some(Const(i))
    case Leaf(Variable(v)) => Some(Var(v))
    case Leaf(Other(_)) => None
    case Node(op, l, r) =>
      match (Given(l, ty), Given(r, ty))
      case (Some(left), Some(right)) =>
        if op.Assign? then (if left.Var? then Some(Assign(left.slot, right)) else None)
        else if PM.Arithmetic(op).Some? then Some(Binary(PM.Arithmetic(op).value, ty, left, right))
        else if PM.Condition(op).Some? then Some(Compare(PM.Condition(op).value, ty, left, right))
        else None
      case _ => None
  }

  /** All variables of a tree are slots below n. */
  predicate Within(t: P.Tree, n: nat)
  {
    match t
    case Leaf(Variable(v)) => v < n
    case Leaf(_) => true
    case Node(_, l, r) => Within(l, n) && Within(r, n)
  }

  /** The locals are the variables that have values. */
  ghost predicate Models(locals: Env, env: PM.Env)
  {
    forall v: nat :: if v < |locals| && locals[v] != Unset then v in env && locals[v] == Int(env[v]) else v !in env
  }

  lemma ModelsSet(locals: Env, env: PM.Env, v: nat, x: int64)
    requires Models(locals, env) && v < |locals|
    ensures Models(locals[v := Int(x)], env[v := x])
  {
  }

  /** The meaning of a tree is what its expression evaluates to, and no meaning is undefined. */
  lemma {:induction false} MeaningEvaluates(src: Source, t: P.Tree, ty: O.Typing, locals: Env, env: PM.Env, fuel: nat)
    returns (after: Env)
    requires Given(t, ty).Some? && Within(t, |locals|) && Models(locals, env)
    ensures |after| == |locals|
    ensures var m, r := PM.Meaning(t, env), Eval(src, Given(t, ty).value, locals, fuel);
      if m.None? then r == Undef else r == Val(Int(m.value.0), after) && Models(after, m.value.1)
    decreases t
  {
    hide Models, Wrap, Compute, CompareFlags, Holds, PM.Arithmetic, PM.Condition;
    after := locals;
    match t
    case Leaf(x) => VariableEvaluates(src, x, ty, locals, env, fuel);
    case Node(op, l, r) =>
      var right := MeaningEvaluates(src, r, ty, locals, env, fuel);
      var y := PM.Meaning(r, env);
      if y.Some? {
        if op.Assign? {
          after := right[l.x.id := Int(y.value.0)];
          ModelsSet(right, y.value.1, l.x.id, y.value.0);
        } else {
          after := MeaningEvaluates(src, l, ty, right, y.value.1, fuel);
          OperatorsAgree(op);
        }
      }
  }

  lemma OperatorsAgree(op: P.Oper)
    ensures PM.Arithmetic(op).Some? ==> PM.Condition(op).None?
    ensures PM.Arithmetic(op).Some? || PM.Condition(op).Some? ==> !op.Assign? && !op.AddAssign? && !op.SubAssign?
  {
  }

  lemma VariableEvaluates(src: Source, x: P.Leaf, ty: O.Typing, locals: Env, env: PM.Env, fuel: nat)
    requires Given(P.Leaf(x), ty).Some? && Within(P.Leaf(x), |locals|) && Models(locals, env)
    ensures var m, r := PM.Meaning(P.Leaf(x), env), Eval(src, Given(P.Leaf(x), ty).value, locals, fuel);
      if m.None? then r == Undef else r == Val(Int(m.value.0), locals) && m.value.1 == env
  {
  }

  lemma UndefinedAnswer(src: Source, f: nat, e: Expr, vs: List<Value>, fuel: nat)
    requires f < |src| && Length(vs) <= src[f].sig.argc < src[f].sig.slots && src[f].body == Answer(e) && fuel > 0
    requires Eval(src, e, NewLocals(src[f].sig.slots, vs), fuel - 1) == Undef
    ensures CallFunction(src, f, vs, fuel).CallUndefined?
  {
    hide Eval, NewLocals;
    var locals := NewLocals(src[f].sig.slots, vs);
    assert Exec(src, Ret(Some(e)), locals, fuel - 1) == Undefines;
    assert ExecBlock(src, Answer(e), locals, fuel - 1) == Undefines;
  }

  lemma LocalsSize(slots: nat, vs: List<Value>)
    ensures |NewLocals(slots, vs)| == slots
  {
  }

  /** A function whose body returns the parsed text of an expression. */
  predicate Returns(src: Source, f: nat, ty: O.Typing, ts: seq<P.Token>, pos: nat)
  {
    f < |src| && P.Parse(ts, pos).Some? &&
    var t := P.Parse(ts, pos).value.0;
    Given(t, ty).Some? && Within(t, src[f].sig.slots) && src[f].body == Answer(Given(t, ty).value)
  }

  /**
   The parser, the compiler and the machine together: called with values for its variables, a function that returns
   an expression returns what the expression means, grouped as its operators and brackets say, and is undefined where
   it has no meaning; and so do its assembled words.
   */
  lemma TextAnswers(ts: seq<P.Token>, pos: nat, c: PP.Chain, src: Source, f: nat, ty: O.Typing, vs: List<Value>,
                    env: PM.Env, fuel: nat)
    requires PP.At(ts, pos, PP.Tokens(c)) && pos + |PP.Tokens(c)| < |ts| && PP.Stops(ts[pos + |PP.Tokens(c)|])
    requires Returns(src, f, ty, ts, pos) && Length(vs) <= src[f].sig.argc < src[f].sig.slots && fuel > 0
    requires Models(NewLocals(src[f].sig.slots, vs), env)
    ensures var m, r := PM.Meaning(PP.ChainTree(c), env), CallFunction(src, f, vs, fuel);
      if m.None? then r.CallUndefined? else r == Result(Int(m.value.0))
    ensures forall q, st | Built(src, q) && Callable(q, f, Length(vs)) && PM.Meaning(PP.ChainTree(c), env).Some? ::
      Ends(q, Enter(q, f, vs, Bottom, st), Returned(Int(PM.Meaning(PP.ChainTree(c), env).value.0), st))
  {
    hide PM.Meaning, P.Parse, P.Shunt, P.BuildTree, PP.ChainTree, PP.Simplified, Eval, NewLocals, Models, CallFunction, Built,
      Ends, Enter, Within, Given;
    var t := P.Parse(ts, pos).value.0;
    PP.ParsesExpression(ts, pos, c);
    PM.SimplifiedMeans(PP.ChainTree(c), env);
    var locals := NewLocals(src[f].sig.slots, vs);
    LocalsSize(src[f].sig.slots, vs);
    var after := MeaningEvaluates(src, t, ty, locals, env, fuel - 1);
    var m := PM.Meaning(t, env);
    if m.None? {
      UndefinedAnswer(src, f, Given(t, ty).value, vs, fuel);
    } else {
      Answered(src, f, Given(t, ty).value, vs, fuel, Int(m.value.0), after);
      forall q, st | Built(src, q) && Callable(q, f, Length(vs))
        ensures Ends(q, Enter(q, f, vs, Bottom, st), Returned(Int(m.value.0), st))
      {
        AssembledAnswers(src, q, f, vs, st, fuel);
      }
    }
  }
}
