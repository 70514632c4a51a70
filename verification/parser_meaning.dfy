/** Brackets, round trips and meaning: what the parsed tree says about the expression that was written. */
module ParserMeaning {
  import opened Prelude
  import opened Int64
  import opened Parsing
  import opened ParserProof
  import M = Machine
  import O = Opcodes

  // ----- a fully bracketed expression parses back to its tree -----

  function Printed(t: Tree): seq<Token>
  {
    match t
    case Leaf(x) => [Value(x)]
    case Node(op, l, r) => [LeftBracket] + Printed(l) + [Operator(op)] + Printed(r) + [RightBracket]
  }

  function AsOperand(t: Tree): ParserProof.Operand
  {
    match t
    case Leaf(x) => Atom(x)
    case Node(op, l, r) => Group(Chain(AsOperand(l), Cons(Link(op, AsOperand(r)), Nil)))
  }

  lemma {:induction false} PrintedTree(t: Tree)
    ensures OperandTokens(AsOperand(t)) == Printed(t) && OperandTree(AsOperand(t)) == t
  {
    match t
    case Leaf(_) =>
    case Node(op, l, r) =>
      PrintedTree(l);
      PrintedTree(r);
      assert RestTokens(Cons(Link(op, AsOperand(r)), Nil)) == [Operator(op)] + Printed(r);
      PairTree(op, AsOperand(l), AsOperand(r));
  }

  /** Two operands and one operator. */
  lemma PairTree(op: Oper, x: ParserProof.Operand, y: ParserProof.Operand)
    ensures ChainTree(Chain(x, Cons(Link(op, y), Nil))) == Node(op, OperandTree(x), OperandTree(y))
  {
    hide Merge, Collapse, ExtendAll, Extend;
    var l, r := OperandTree(x), OperandTree(y);
    OneMore([l], [], op, y, Nil);
    assert [l] + [r] == [l, r] == [] + [l, r] && [] + [op] == [op];
    NoMore(Partial([l, r], [op]));
    MergeLast([], l, r, [], op);
    assert [] + [Node(op, l, r)] == [Node(op, l, r)];
    CollapseOne(Node(op, l, r));
  }

  /** Printing any tree with all its brackets, and parsing it, gives the tree back, simplified. */
  lemma PrintRoundTrip(t: Tree)
    ensures Parse(Printed(t) + [Semicolon], 0) == match Simplified(t)
                                                  case None => None
                                                  case Some(s) => Some((s, |Printed(t)|))
  {
    hide Parse, Shunt, BuildTree, Printed, AsOperand, OperandTokens, OperandTree, Simplified;
    PrintedTree(t);
    var c := Chain(AsOperand(t), Nil);
    var ts := Printed(t) + [Semicolon];
    assert Tokens(c) == Printed(t);
    assert ts[0..|Printed(t)|] == Printed(t);
    LoneOperand(AsOperand(t));
    ParsesExpression(ts, 0, c);
  }

  lemma LoneOperand(x: ParserProof.Operand)
    ensures ChainTree(Chain(x, Nil)) == OperandTree(x)
  {
    NoMore(Partial([OperandTree(x)], []));
    CollapseOne(OperandTree(x));
  }

  /** Nothing to fold and nothing to rewrite. */
  predicate Simple(t: Tree)
  {
    match t
    case Leaf(_) => true
    case Node(op, l, r) => Simple(l) && Simple(r) && Simplify(op, l, r) == Some(t)
  }

  lemma {:induction false} SimpleStays(t: Tree)
    requires Simple(t)
    ensures Simplified(t) == Some(t)
  {
    if t.Node? {
      SimpleStays(t.left);
      SimpleStays(t.right);
    }
  }

  /** Parsing gives only simple trees. */
  lemma {:induction false} SimplifiedIsSimple(t: Tree)
    requires Simplified(t).Some?
    ensures Simple(Simplified(t).value)
  {
    match t
    case Leaf(_) =>
    case Node(op, l, r) =>
      SimplifiedIsSimple(l);
      SimplifiedIsSimple(r);
      SimplifySimple(op, Simplified(l).value, Simplified(r).value);
  }

  lemma SimplifySimple(op: Oper, l: Tree, r: Tree)
    requires Simple(l) && Simple(r) && Simplify(op, l, r).Some?
    ensures Simple(Simplify(op, l, r).value)
  {
  }

  /** A tree comes back from its print if and only if there is nothing in it to fold or to rewrite. */
  lemma PrintedIffSimple(t: Tree)
    ensures Simple(t) <==> Parse(Printed(t) + [Semicolon], 0) == Some((t, |Printed(t)|))
  {
    hide Parse, Printed;
    PrintRoundTrip(t);
    if Simple(t) {
      SimpleStays(t);
    } else if Simplified(t) == Some(t) {
      SimplifiedIsSimple(t);
    }
  }

  /** Printing what was parsed and parsing it again changes nothing any more. */
  lemma ParsedIsStable(ts: seq<Token>, pos: nat)
    requires Parse(ts, pos).Some?
    ensures var t := Parse(ts, pos).value.0;
      Simple(t) && Parse(Printed(t) + [Semicolon], 0) == Some((t, |Printed(t)|))
  {
    var t := Parse(ts, pos).value.0;
    BuiltIsSimple(Shunt(ts, pos, 0, [], []).value.0);
    PrintedIffSimple(t);
  }

  lemma {:induction false} BuiltIsSimple(queue: seq<Item>)
    requires BuildTree(queue).Some?
    ensures Simple(BuildTree(queue).value.0)
    decreases |queue|
  {
    var n := |queue| - 1;
    if queue[n].Apply? {
      var (r, q1) := BuildTree(queue[..n]).value;
      var (l, q2) := BuildTree(q1).value;
      BuiltIsSimple(queue[..n]);
      BuiltIsSimple(q1);
      SimplifySimple(queue[n].op, l, r);
    }
  }

  // ----- every bracketed group is a subtree -----

  predicate Subtree(s: Tree, t: Tree)
  {
    s == t || (t.Node? && (Subtree(s, t.left) || Subtree(s, t.right)))
  }

  predicate Contains(p: Partial, s: Tree)
  {
    exists t :: t in p.trees && Subtree(s, t)
  }

  lemma MergeContains(p: Partial, s: Tree)
    requires Matches(p) && p.ops != [] && Contains(p, s)
    ensures Contains(Merge(p), s)
  {
    var k := |p.ops|;
    var t :| t in p.trees && Subtree(s, t);
    var i :| 0 <= i < |p.trees| && p.trees[i] == t;
    var n := Node(p.ops[k - 1], p.trees[k - 1], p.trees[k]);
    assert Subtree(p.trees[k - 1], n) && Subtree(p.trees[k], n);
    if i < k - 1 {
      assert Merge(p).trees[i] == t;
    } else {
      assert Merge(p).trees[k - 1] == n && Subtree(s, n);
    }
  }

  lemma {:induction false} CollapseContains(p: Partial, s: Tree)
    requires Matches(p) && Contains(p, s)
    ensures Subtree(s, Collapse(p))
    decreases |p.ops|
  {
    if p.ops != [] {
      MergeContains(p, s);
      CollapseContains(Merge(p), s);
    }
  }

  lemma ExtendContains(p: Partial, op: Oper, t: Tree, s: Tree)
    requires Matches(p)
    ensures Contains(p, s) || Subtree(s, t) ==> Contains(Extend(p, op, t), s)
  {
    var m := if p.ops != [] && Rank(op) <= Rank(p.ops[|p.ops| - 1]) then Merge(p) else p;
    if Contains(p, s) {
      if m != p {
        MergeContains(p, s);
      }
      var u :| u in m.trees && Subtree(s, u);
      assert u in Extend(p, op, t).trees;
    } else if Subtree(s, t) {
      assert t in Extend(p, op, t).trees;
    }
  }

  predicate GroupInOperand(g: Chain, x: ParserProof.Operand)
  {
    x.Group? && (x.c == g || GroupIn(g, x.c))
  }

  /** g stands in brackets somewhere in c. */
  predicate GroupIn(g: Chain, c: Chain)
  {
    GroupInOperand(g, c.first) || GroupInRest(g, c.rest)
  }

  predicate GroupInRest(g: Chain, rest: List<Link>)
  {
    rest.Cons? && (GroupInOperand(g, rest.head.operand) || GroupInRest(g, rest.tail))
  }

  lemma {:induction false} OperandGroup(g: Chain, x: ParserProof.Operand)
    requires GroupInOperand(g, x)
    ensures Subtree(ChainTree(g), OperandTree(x))
    decreases x
  {
    if x.c != g {
      GroupIsSubtree(g, x.c);
    }
  }

  lemma {:induction false} RestGroup(g: Chain, p: Partial, rest: List<Link>)
    requires Matches(p) && (GroupInRest(g, rest) || Contains(p, ChainTree(g)))
    ensures Contains(ExtendAll(p, rest), ChainTree(g))
    decreases rest
  {
    match rest
    case Nil =>
    case Cons(Link(op, x), more) =>
      if GroupInOperand(g, x) {
        OperandGroup(g, x);
      }
      ExtendContains(p, op, OperandTree(x), ChainTree(g));
      RestGroup(g, Extend(p, op, OperandTree(x)), more);
  }

  /** Whatever the operators around it, a bracketed group is a subtree of its own. */
  lemma {:induction false} GroupIsSubtree(g: Chain, c: Chain)
    requires GroupIn(g, c)
    ensures Subtree(ChainTree(g), ChainTree(c))
    decreases c
  {
    var p := Partial([OperandTree(c.first)], []);
    if GroupInOperand(g, c.first) {
      OperandGroup(g, c.first);
      assert OperandTree(c.first) in p.trees;
    }
    RestGroup(g, p, c.rest);
    CollapseContains(ExtendAll(p, c.rest), ChainTree(g));
  }

  // ----- simplification keeps the meaning -----

  type Env = map<nat, int64>

  function Condition(op: Oper): Option<O.Cond>
  {
    match op
    case Equals => Some(O.Eq)
    case NotEqual => Some(O.Ne)
    case Less => Some(O.Lt)
    case LessEqual => Some(O.Le)
    case Greater => Some(O.Gt)
    case GreaterEqual => Some(O.Ge)
    case _ => None
  }

  function Arithmetic(op: Oper): Option<O.BinOp>
  {
    match op
    case Add => Some(O.Add)
    case Sub => Some(O.Sub)
    case Multiply => Some(O.Mul)
    case Divide => Some(O.Div)
    case And => Some(O.And)
    case _ => None
  }

  /** What an operator that only computes makes of two integers. */
  function Apply2(op: Oper, l: int64, r: int64): Option<int64>
  {
    if Arithmetic(op).Some? then M.Compute(Arithmetic(op).value, l, r)
    else if Condition(op).Some? then Some(if M.Holds(Condition(op).value, M.CompareFlags(l, r)) then 1 else 0)
    else None
  }

  /** The value of an expression and the variables after it; += reads its variable after the right side is done. */
  function Meaning(t: Tree, env: Env): Option<(int64, Env)>
  {
    match t
    case Leaf(Integer(i)) => Some((i, env))
    case Leaf(Variable(v)) => if v in env then Some((env[v], env)) else None
    case Leaf(Other(_)) => None
    case Node(op, l, r) =>
      match Meaning(r, env)
      case None => None
      case Some((y, env1)) =>
        if op == Assign || op == AddAssign || op == SubAssign then
          if l.Leaf? && l.x.Variable? then
            var v := l.x.id;
            if op == Assign then Some((y, env1[v := y]))
            else if v !in env1 then None
            else
              (match Apply2(if op == AddAssign then Add else Sub, env1[v], y)
               case None => None
               case Some(z) => Some((z, env1[v := z])))
          else None
        else
          match Meaning(l, env1)
          case None => None
          case Some((x, env2)) =>
            match Apply2(op, x, y)
            case None => None
            case Some(z) => Some((z, env2))
  }

  /** Folding and rewriting one operation. */
  lemma SimplifyMeans(op: Oper, l: Tree, r: Tree, env: Env)
    requires Simplify(op, l, r).Some?
    ensures Meaning(Simplify(op, l, r).value, env) == Meaning(Node(op, l, r), env)
  {
    if op == AddAssign || op == SubAssign {
      StepMeans(op, l, r, env);
    } else {
      hide Wrap;
    }
  }

  lemma StepMeans(op: Oper, l: Tree, r: Tree, env: Env)
    requires (op == AddAssign || op == SubAssign) && l.Leaf? && l.x.Variable?
    ensures Meaning(Node(Assign, l, Node(if op == AddAssign then Add else Sub, l, r)), env) == Meaning(Node(op, l, r), env)
  {
    hide Apply2;
    var plain := if op == AddAssign then Add else Sub;
    if Meaning(r, env).Some? {
      var (y, env1) := Meaning(r, env).value;
      assert Meaning(l, env1) == if l.x.id in env1 then Some((env1[l.x.id], env1)) else None;
    }
    assert Meaning(Node(Assign, l, Node(plain, l, r)), env).Some? <==> Meaning(Node(plain, l, r), env).Some?;
  }

  /** Operations on operands that mean the same mean the same. */
  lemma MeaningByParts(op: Oper, l: Tree, l2: Tree, r: Tree, r2: Tree, env: Env)
    requires forall e :: Meaning(l2, e) == Meaning(l, e)
    requires forall e :: Meaning(r2, e) == Meaning(r, e)
    requires l.Leaf? && l.x.Variable? ==> l2 == l
    requires l2.Leaf? && l2.x.Variable? ==> l2 == l
    ensures Meaning(Node(op, l2, r2), env) == Meaning(Node(op, l, r), env)
  {
    hide Apply2;
  }

  /** The simplified tree means what the tree means, for every value of the variables. */
  lemma {:induction false} SimplifiedMeans(t: Tree, env: Env)
    requires Simplified(t).Some?
    ensures Meaning(Simplified(t).value, env) == Meaning(t, env)
    decreases t
  {
    match t
    case Leaf(_) =>
    case Node(op, l, r) =>
      var l2, r2 := Simplified(l).value, Simplified(r).value;
      forall e: Env ensures Meaning(l2, e) == Meaning(l, e) {
        SimplifiedMeans(l, e);
      }
      forall e: Env ensures Meaning(r2, e) == Meaning(r, e) {
        SimplifiedMeans(r, e);
      }
      SimplifiedVariable(l);
      hide Meaning, Simplify;
      MeaningByParts(op, l, l2, r, r2, env);
      SimplifyMeans(op, l2, r2, env);
  }

  lemma SimplifiedVariable(t: Tree)
    requires Simplified(t).Some?
    ensures t.Leaf? ==> Simplified(t) == Some(t)
    ensures Simplified(t).value.Leaf? && Simplified(t).value.x.Variable? ==> t.Leaf?
  {
  }

  /** += and -= have a variable on their left, everywhere in the tree. */
  predicate TargetsOk(t: Tree)
  {
    match t
    case Leaf(_) => true
    case Node(op, l, r) =>
      TargetsOk(l) && TargetsOk(r) && (op == AddAssign || op == SubAssign ==> l.Leaf? && l.x.Variable?)
  }

  /** A bracketed expression is refused if and only if += or -= is applied to something else than a variable. */
  lemma {:induction false} SimplifiedIff(t: Tree)
    ensures Simplified(t).Some? <==> TargetsOk(t)
  {
    if t.Node? {
      SimplifiedIff(t.left);
      SimplifiedIff(t.right);
      if Simplified(t.left).Some? {
        SimplifiedVariable(t.left);
      }
    }
  }

  // ----- brackets that are never closed -----

  /** How many left brackets more than right ones stand between two positions. */
  function OpenedBetween(ts: seq<Token>, pos: nat, end: nat): int
    requires end <= |ts|
    decreases end - pos
  {
    if pos >= end then 0
    else OpenedBetween(ts, pos + 1, end) + if ts[pos].LeftBracket? then 1 else if ts[pos].RightBracket? then -1 else 0
  }

  function OpenIn(stack: seq<Pending>): nat
  {
    if stack == [] then 0 else OpenIn(stack[..|stack| - 1]) + if stack[|stack| - 1].Bracket? then 1 else 0
  }

  /** A bracket that was never closed, with nothing but operators behind it. */
  predicate Dangling(queue: seq<Item>)
  {
    exists k :: 0 <= k < |queue| && queue[k].Null? && forall j :: k < j < |queue| ==> !queue[j].Operand?
  }

  lemma {:induction false} DanglingFails(queue: seq<Item>)
    requires Dangling(queue)
    ensures BuildTree(queue) == None
    decreases |queue|
  {
    hide Simplify;
    var n := |queue| - 1;
    var k :| 0 <= k < |queue| && queue[k].Null? && forall j :: k < j < |queue| ==> !queue[j].Operand?;
    if k < n {
      assert queue[..n][k] == queue[k] && forall j :: k < j < n ==> queue[..n][j] == queue[j];
      DanglingFails(queue[..n]);
    }
  }

  lemma {:induction false} DrainDangles(queue: seq<Item>, stack: seq<Pending>)
    requires OpenIn(stack) > 0
    ensures Dangling(queue + Drain(stack))
    decreases |stack|
  {
    var rest, item := stack[..|stack| - 1], ItemOf(stack[|stack| - 1]);
    var all := queue + Drain(stack);
    DrainOperators(stack);
    assert all[|queue|] == item && forall j :: |queue| < j < |all| ==> all[j] == Drain(stack)[j - |queue|];
    if !item.Null? {
      assert queue + Drain(stack) == queue + [item] + Drain(rest);
      DrainDangles(queue + [item], rest);
    }
  }

  lemma {:induction false} DrainOperators(stack: seq<Pending>)
    ensures |Drain(stack)| == |stack| && forall j :: 0 <= j < |stack| ==> !Drain(stack)[j].Operand?
    decreases |stack|
  {
    if stack != [] {
      DrainOperators(stack[..|stack| - 1]);
    }
  }

  lemma {:induction false} PopOpened(queue: seq<Item>, stack: seq<Pending>)
    ensures match PopToBracket(queue, stack)
      case None => OpenIn(stack) == 0
      case Some((_, s)) => OpenIn(s) == OpenIn(stack) - 1
    decreases |stack|
  {
    if stack != [] && stack[|stack| - 1].Waiting? {
      PopOpened(queue + [Apply(stack[|stack| - 1].op)], stack[..|stack| - 1]);
    }
  }

  lemma OpenInPushed(stack: seq<Pending>, p: Pending)
    ensures OpenIn(stack + [p]) == OpenIn(stack) + if p.Bracket? then 1 else 0
  {
    assert (stack + [p])[..|stack|] == stack;
  }

  lemma {:induction false} ShuntBalanced(ts: seq<Token>, pos: nat, brackets: nat, queue: seq<Item>, stack: seq<Pending>)
    requires OpenIn(stack) == brackets && Shunt(ts, pos, brackets, queue, stack).Some?
    ensures var (q, end) := Shunt(ts, pos, brackets, queue, stack).value;
      pos <= end < |ts| && (BuildTree(q).Some? ==> brackets + OpenedBetween(ts, pos, end) == 0)
    decreases |ts| - pos
  {
    hide BuildTree, Drain, PopToBracket, OpenIn;
    var t := ts[pos];
    match t
    case LeftBracket =>
      OpenInPushed(stack, Bracket);
      ShuntBalanced(ts, pos + 1, brackets + 1, queue, stack + [Bracket]);
    case RightBracket =>
      if brackets > 0 {
        PopOpened(queue, stack);
        var (q, s) := PopToBracket(queue, stack).value;
        ShuntBalanced(ts, pos + 1, brackets - 1, q, s);
      }
    case Operator(op) =>
      OpenInPushed(stack, Waiting(op));
      if PopsFirst(stack, op) {
        var rest := stack[..|stack| - 1];
        assert stack == rest + [stack[|stack| - 1]];
        OpenInPushed(rest, stack[|stack| - 1]);
        OpenInPushed(rest, Waiting(op));
        ShuntBalanced(ts, pos + 1, brackets, queue + [Apply(stack[|stack| - 1].op)], rest + [Waiting(op)]);
      } else {
        ShuntBalanced(ts, pos + 1, brackets, queue, stack + [Waiting(op)]);
      }
    case Value(x) => ShuntBalanced(ts, pos + 1, brackets, queue + [Operand(x)], stack);
    case _ =>
      if brackets > 0 {
        DrainDangles(queue, stack);
        DanglingFails(queue + Drain(stack));
      }
  }

  /** Whatever the tokens are, what is parsed has as many right brackets as left ones. */
  lemma ParsedIsBalanced(ts: seq<Token>, pos: nat)
    requires Parse(ts, pos).Some?
    ensures pos <= Parse(ts, pos).value.1 < |ts| && OpenedBetween(ts, pos, Parse(ts, pos).value.1) == 0
  {
    ShuntBalanced(ts, pos, 0, [], []);
  }

  // ----- one operator -----

  function TwoTokens(x: Leaf, op: Oper, y: Leaf): seq<Token>
  {
    [Value(x), Operator(op), Value(y), Semicolon]
  }

  /**
   `x op y;` gives the sum or the product of two constants, an assignment of the sum or the difference for += and -=,
   and otherwise the operation itself, with its operands in their order.
   */
  lemma ParsesTwo(x: Leaf, op: Oper, y: Leaf)
    ensures var two, p := Node(op, Leaf(x), Leaf(y)), Parse(TwoTokens(x, op, y), 0);
      if op.Add? && x.Integer? && y.Integer? then
        p.Some? && p.value.1 == 3 && exists s: int64 :: p.value.0 == Leaf(Integer(s)) && (x.i as int + y.i as int - s) % SPAN == 0
      else if op.Multiply? && x.Integer? && y.Integer? then
        p.Some? && p.value.1 == 3 && exists s: int64 :: p.value.0 == Leaf(Integer(s)) && (x.i as int * y.i as int - s) % SPAN == 0
      else if op.AddAssign? || op.SubAssign? then
        p == if x.Variable?
             then Some((Node(Assign, Leaf(x), Node(if op.AddAssign? then Add else Sub, Leaf(x), Leaf(y))), 3)) else None
      else p == Some((two, 3))
  {
    hide Parse, Shunt, BuildTree, ChainTree;
    var c := Chain(Atom(x), Cons(Link(op, Atom(y)), Nil));
    PairTree(op, Atom(x), Atom(y));
    assert RestTokens(Nil) == [] && RestTokens(c.rest) == [Operator(op), Value(y)];
    assert Tokens(c) == [Value(x), Operator(op), Value(y)];
    assert TwoTokens(x, op, y)[0..3] == Tokens(c);
    ParsesExpression(TwoTokens(x, op, y), 0, c);
    assert Simplified(Leaf(x)) == Some(Leaf(x)) && Simplified(Leaf(y)) == Some(Leaf(y));
    if x.Integer? && y.Integer? {
      var l: int, r: int := x.i, y.i;
      WrapIff(l + r, Wrap(l + r));
      WrapIff(l * r, Wrap(l * r));
    }
    hide Wrap;
  }

  // ----- no claim to precedence -----

  /** a - b * c - d: only one operator leaves the stack when the second minus comes. */
  function ProductBetween(a: int64, b: int64, c: int64, d: int64): Chain
  {
    Chain(Atom(Integer(a)),
          Cons(Link(Sub, Atom(Integer(b))), Cons(Link(Multiply, Atom(Integer(c))), Cons(Link(Sub, Atom(Integer(d))), Nil))))
  }

  /** It is read as a - (b * c - d). */
  lemma SubtractsFromTheRight(a: int64, b: int64, c: int64, d: int64)
    ensures ChainTree(ProductBetween(a, b, c, d)) ==
      Node(Sub, Leaf(Integer(a)),
           Node(Sub, Node(Multiply, Leaf(Integer(b)), Leaf(Integer(c))), Leaf(Integer(d))))
  {
    hide ExtendAll, Extend, Collapse, Merge;
    var la, lb, lc, ld := Leaf(Integer(a)), Leaf(Integer(b)), Leaf(Integer(c)), Leaf(Integer(d));
    var bc := Node(Multiply, lb, lc);
    var rest := ProductBetween(a, b, c, d).rest;
    OneMore([la], [], Sub, Atom(Integer(b)), rest.tail);
    OneMore([la, lb], [Sub], Multiply, Atom(Integer(c)), rest.tail.tail);
    OneMore([la, lb, lc], [Sub, Multiply], Sub, Atom(Integer(d)), Nil);
    MergeLast([la], lb, lc, [Sub], Multiply);
    MergeLast([la], bc, ld, [Sub], Sub);
    MergeLast([], la, Node(Sub, bc, ld), [], Sub);
    assert [la] + [lb] == [la, lb] && [la, lb] + [lc] == [la, lb, lc] && [Sub] + [Multiply] == [Sub, Multiply];
    assert [la] + [lb, lc] == [la, lb, lc] && [la] + [bc] == [la, bc] && [la, bc] + [ld] == [la, bc, ld] == [la] + [bc, ld];
    assert [Sub] + [Sub] == [Sub, Sub] && [] + [Sub] == [Sub];
    assert [la] + [Node(Sub, bc, ld)] == [] + [la, Node(Sub, bc, ld)];
    assert [] + [Node(Sub, la, Node(Sub, bc, ld))] == [Node(Sub, la, Node(Sub, bc, ld))];
    CollapseOne(Node(Sub, la, Node(Sub, bc, ld)));
    NoMore(Partial([la, bc, ld], [Sub, Sub]));
    assert ExtendAll(Partial([la], []), rest) == Partial([la, bc, ld], [Sub, Sub]);
  }

  /** One link of a chain: its operator is pushed, after at most one other has been applied. */
  lemma OneMore(ts: seq<Tree>, ops: seq<Oper>, op: Oper, x: ParserProof.Operand, more: List<Link>)
    requires |ts| == |ops| + 1
    ensures var p := Partial(ts, ops);
      var m := if ops != [] && Rank(op) <= Rank(ops[|ops| - 1]) then Merge(p) else p;
      ExtendAll(p, Cons(Link(op, x), more)) == ExtendAll(Partial(m.trees + [OperandTree(x)], m.ops + [op]), more)
  {
    hide Merge;
  }

  lemma NoMore(p: Partial)
    requires Matches(p)
    ensures ExtendAll(p, Nil) == p
  {
  }

  lemma MergeLast(ts: seq<Tree>, l: Tree, r: Tree, ops: seq<Oper>, op: Oper)
    requires |ts| == |ops|
    ensures var p := Partial(ts + [l, r], ops + [op]);
      Merge(p) == Partial(ts + [Node(op, l, r)], ops) && Collapse(p) == Collapse(Merge(p))
  {
  }

  lemma CollapseOne(t: Tree)
    ensures Collapse(Partial([t], [])) == t
  {
  }

  /** So it has the value of (a - b * c) - d if and only if d and -d are equal in 64 bits. */
  lemma ProductBetweenFault(a: int64, b: int64, c: int64, d: int64, env: Env)
    ensures var t := ChainTree(ProductBetween(a, b, c, d));
      var wanted := Node(Sub, Node(Sub, Leaf(Integer(a)), Node(Multiply, Leaf(Integer(b)), Leaf(Integer(c)))), Leaf(Integer(d)));
      Meaning(t, env) == Meaning(wanted, env) <==> d == 0 || d == MIN
  {
    hide ChainTree, Meaning, Wrap;
    SubtractsFromTheRight(a, b, c, d);
    var bc := Wrap(b * c);
    var product := Node(Multiply, Leaf(Integer(b)), Leaf(Integer(c)));
    OfConstants(Multiply, Leaf(Integer(b)), Leaf(Integer(c)), b, c, env);
    OfConstants(Sub, product, Leaf(Integer(d)), bc, d, env);
    OfConstants(Sub, Leaf(Integer(a)), product, a, bc, env);
    OfConstants(Sub, Leaf(Integer(a)), Node(Sub, product, Leaf(Integer(d))), a, Wrap(bc - d), env);
    OfConstants(Sub, Node(Sub, Leaf(Integer(a)), product), Leaf(Integer(d)), Wrap(a - bc), d, env);
    WrapSides(a, bc, d);
  }

  /** An operation on operands with known values and no effects. */
  lemma OfConstants(op: Oper, l: Tree, r: Tree, x: int64, y: int64, env: Env)
    requires (op == Sub || op == Multiply)
    requires (l == Leaf(Integer(x)) || Meaning(l, env) == Some((x, env)))
    requires (r == Leaf(Integer(y)) || Meaning(r, env) == Some((y, env)))
    ensures Meaning(Node(op, l, r), env) == Some((if op == Sub then Wrap(x - y) else Wrap(x * y), env))
  {
    hide Wrap;
  }

  lemma WrapSides(a: int64, b: int64, d: int64)
    ensures Wrap(a - Wrap(b - d)) == Wrap(Wrap(a - b) - d) <==> d == 0 || d == MIN
  {
    WrapInside(a, b - d);
    WrapOutside(a - b, d);
    WrapEqual(a - b + d, a - b - d);
    DoubleIsMultiple(d);
    hide Wrap;
  }

  lemma DoubleIsMultiple(d: int64)
    ensures (2 * d) % SPAN == 0 <==> d == 0 || d == MIN
  {
  }

  /** Values wrap alike exactly when they differ by a multiple of the word size. */
  lemma WrapEqual(x: int, y: int)
    ensures Wrap(x) == Wrap(y) <==> (x - y) % SPAN == 0
  {
  }

  /** An inner wrap-around makes no difference. */
  lemma WrapInside(a: int, x: int)
    ensures Wrap(a - Wrap(x)) == Wrap(a - x)
  {
    WrapMultiple(x);
    WrapEqual(a - Wrap(x), a - x);
    hide Wrap;
  }

  lemma WrapOutside(x: int, d: int)
    ensures Wrap(Wrap(x) - d) == Wrap(x - d)
  {
    WrapMultiple(x);
    WrapEqual(Wrap(x) - d, x - d);
    hide Wrap;
  }

  lemma WrapMultiple(x: int)
    ensures (x - Wrap(x)) % SPAN == 0 && (Wrap(x) - x) % SPAN == 0
  {
  }
}
