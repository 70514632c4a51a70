/** What the expression parser keeps: the order of the tokens, and the grouping of brackets. */
module ParserProof {
  import opened Prelude
  import opened Int64
  import opened Parsing
  import M = Machine
  import O = Opcodes

  // ----- bracketed expressions over binary operators -----

  /** One or more operands with operators between them; an operand may be such an expression in brackets. */
  datatype Operand = Atom(x: Leaf) | Group(c: Chain)
  datatype Chain = Chain(first: Operand, rest: List<Link>)
  datatype Link = Link(op: Oper, operand: Operand)

  function OperandTokens(x: Operand): seq<Token>
  {
    match x
    case Atom(l) => [Value(l)]
    case Group(c) => [LeftBracket] + Tokens(c) + [RightBracket]
  }

  function Tokens(c: Chain): seq<Token>
  {
    OperandTokens(c.first) + RestTokens(c.rest)
  }

  function RestTokens(rest: List<Link>): seq<Token>
  {
    match rest
    case Nil => []
    case Cons(Link(op, x), more) => [Operator(op)] + OperandTokens(x) + RestTokens(more)
  }

  predicate IsBracket(t: Token)
  {
    t.LeftBracket? || t.RightBracket?
  }

  /** Tokens without the brackets. */
  function Unbracketed(ts: seq<Token>): seq<Token>
  {
    if ts == [] then []
    else if IsBracket(ts[0]) then Unbracketed(ts[1..])
    else [ts[0]] + Unbracketed(ts[1..])
  }

  /** The leaves and operators of a tree from left to right. */
  function Yield(t: Tree): seq<Token>
  {
    match t
    case Leaf(x) => [Value(x)]
    case Node(op, l, r) => Yield(l) + [Operator(op)] + Yield(r)
  }

  // ----- the tree that a chain becomes -----

  /** Operands read so far, and the operators between them that still wait on the stack. */
  datatype Partial = Partial(trees: seq<Tree>, ops: seq<Oper>)

  predicate Matches(p: Partial)
  {
    |p.trees| == |p.ops| + 1
  }

  /** Apply the last operator to the last two operands. */
  function Merge(p: Partial): (q: Partial)
    requires Matches(p) && p.ops != []
    ensures Matches(q) && |q.ops| == |p.ops| - 1
  {
    var k := |p.ops|;
    Partial(p.trees[..k - 1] + [Node(p.ops[k - 1], p.trees[k - 1], p.trees[k])], p.ops[..k - 1])
  }

  /** The next operator and operand: at most one waiting operator is applied first. */
  function Extend(p: Partial, op: Oper, t: Tree): (q: Partial)
    requires Matches(p)
    ensures Matches(q)
  {
    var m := if p.ops != [] && Rank(op) <= Rank(p.ops[|p.ops| - 1]) then Merge(p) else p;
    Partial(m.trees + [t], m.ops + [op])
  }

  function Collapse(p: Partial): Tree
    requires Matches(p)
    decreases |p.ops|
  {
    if p.ops == [] then p.trees[0] else Collapse(Merge(p))
  }

  function ExtendAll(p: Partial, rest: List<Link>): (q: Partial)
    requires Matches(p)
    ensures Matches(q)
    decreases rest
  {
    match rest
    case Nil => p
    case Cons(Link(op, x), more) => ExtendAll(Extend(p, op, OperandTree(x)), more)
  }

  function OperandTree(x: Operand): Tree
  {
    match x
    case Atom(l) => Leaf(l)
    case Group(c) => ChainTree(c)
  }

  function ChainTree(c: Chain): Tree
  {
    Collapse(ExtendAll(Partial([OperandTree(c.first)], []), c.rest))
  }

  // ----- the queue is the tree in reverse Polish order -----

  function Rpn(t: Tree): seq<Item>
  {
    match t
    case Leaf(x) => [Parsing.Operand(x)]
    case Node(op, l, r) => Rpn(l) + Rpn(r) + [Apply(op)]
  }

  function RpnAll(ts: seq<Tree>): seq<Item>
  {
    if ts == [] then [] else RpnAll(ts[..|ts| - 1]) + Rpn(ts[|ts| - 1])
  }

  function Stack(ops: seq<Oper>): (s: seq<Pending>)
    ensures |s| == |ops|
  {
    seq(|ops|, i requires 0 <= i < |ops| => Waiting(ops[i]))
  }

  lemma RpnAllSnoc(ts: seq<Tree>, t: Tree)
    ensures RpnAll(ts + [t]) == RpnAll(ts) + Rpn(t)
  {
    assert (ts + [t])[..|ts|] == ts;
  }

  lemma RpnAllOne(t: Tree)
    ensures RpnAll([t]) == Rpn(t)
  {
    RpnAllSnoc([], t);
    assert [] + [t] == [t] && RpnAll([]) + Rpn(t) == Rpn(t);
  }

  lemma MergeRpn(p: Partial)
    requires Matches(p) && p.ops != []
    ensures RpnAll(Merge(p).trees) == RpnAll(p.trees) + [Apply(p.ops[|p.ops| - 1])]
    ensures Stack(p.ops) == Stack(Merge(p).ops) + [Waiting(p.ops[|p.ops| - 1])]
  {
    var k := |p.ops|;
    var l, r := p.trees[k - 1], p.trees[k];
    var ts := p.trees[..k - 1];
    assert p.trees == ts + [l] + [r];
    RpnAllSnoc(ts + [l], r);
    RpnAllSnoc(ts, l);
    RpnAllSnoc(ts, Node(p.ops[k - 1], l, r));
  }

  /** Emptying the stack completes the tree. */
  lemma {:induction false} DrainCollapses(p: Partial)
    requires Matches(p)
    ensures RpnAll(p.trees) + Drain(Stack(p.ops)) == Rpn(Collapse(p))
    decreases |p.ops|
  {
    if p.ops == [] {
      assert p.trees == [] + [p.trees[0]];
      RpnAllSnoc([], p.trees[0]);
    } else {
      var s := Stack(p.ops);
      MergeRpn(p);
      DrainCollapses(Merge(p));
      assert s[..|s| - 1] == Stack(Merge(p).ops);
    }
  }

  /** And so does popping to the bracket. */
  lemma {:induction false} PopCollapses(p: Partial, queue: seq<Item>, stack: seq<Pending>)
    requires Matches(p)
    ensures PopToBracket(queue + RpnAll(p.trees), stack + [Bracket] + Stack(p.ops)) == Some((queue + Rpn(Collapse(p)), stack))
    decreases |p.ops|
  {
    var s := stack + [Bracket] + Stack(p.ops);
    if p.ops == [] {
      assert p.trees == [] + [p.trees[0]];
      RpnAllSnoc([], p.trees[0]);
      assert s[..|s| - 1] == stack;
      assert queue + RpnAll(p.trees) == queue + Rpn(Collapse(p));
    } else {
      MergeRpn(p);
      var q := Merge(p);
      assert s == stack + [Bracket] + Stack(q.ops) + [s[|s| - 1]];
      assert s[..|s| - 1] == stack + [Bracket] + Stack(q.ops);
      PopCollapses(q, queue, stack);
      assert queue + RpnAll(p.trees) + [Apply(p.ops[|p.ops| - 1])] == queue + RpnAll(q.trees);
    }
  }

  predicate At(ts: seq<Token>, pos: nat, part: seq<Token>)
  {
    pos + |part| <= |ts| && ts[pos..pos + |part|] == part
  }

  lemma AtParts(ts: seq<Token>, pos: nat, a: seq<Token>, b: seq<Token>)
    requires At(ts, pos, a + b)
    ensures At(ts, pos, a) && At(ts, pos + |a|, b)
  {
    var s := ts[pos..pos + |a + b|];
    assert s[..|a|] == a && s[|a|..] == b;
  }

  /** A stack whose top is not an operator. */
  predicate Closed(stack: seq<Pending>)
  {
    stack == [] || stack[|stack| - 1].Bracket?
  }

  lemma {:induction false} ShuntOperand(ts: seq<Token>, pos: nat, brackets: nat, queue: seq<Item>,
                                        stack: seq<Pending>, x: Operand)
    requires At(ts, pos, OperandTokens(x))
    ensures Shunt(ts, pos, brackets, queue, stack)
         == Shunt(ts, pos + |OperandTokens(x)|, brackets, queue + Rpn(OperandTree(x)), stack)
    decreases x
  {
    hide RpnAll, ExtendAll, Collapse, Tokens, Stack;
    match x
    case Atom(l) => assert ts[pos] == ts[pos..pos + 1][0] == Value(l);
    case Group(c) =>
      var n := |Tokens(c)|;
      AtParts(ts, pos, [LeftBracket], Tokens(c) + [RightBracket]);
      AtParts(ts, pos + 1, Tokens(c), [RightBracket]);
      assert OperandTokens(x) == [LeftBracket] + (Tokens(c) + [RightBracket]);
      assert ts[pos] == ts[pos..pos + 1][0] == LeftBracket;
      assert ts[pos + 1 + n] == ts[pos + 1 + n..pos + 1 + n + 1][0] == RightBracket;
      var p := ExtendAll(Partial([OperandTree(c.first)], []), c.rest);
      ShuntChain(ts, pos + 1, brackets + 1, queue, stack + [Bracket], c);
      PopCollapses(p, queue, stack);
  }

  lemma {:induction false} ShuntChain(ts: seq<Token>, pos: nat, brackets: nat, queue: seq<Item>, stack: seq<Pending>,
                                      c: Chain)
    requires At(ts, pos, Tokens(c)) && Closed(stack)
    ensures var p := ExtendAll(Partial([OperandTree(c.first)], []), c.rest);
      Shunt(ts, pos, brackets, queue, stack)
      == Shunt(ts, pos + |Tokens(c)|, brackets, queue + RpnAll(p.trees), stack + Stack(p.ops))
    decreases c
  {
    hide Shunt, Rpn, RpnAll, OperandTokens, OperandTree, RestTokens, Stack, At;
    var t := OperandTree(c.first);
    AtParts(ts, pos, OperandTokens(c.first), RestTokens(c.rest));
    ShuntOperand(ts, pos, brackets, queue, stack, c.first);
    RpnAllOne(t);
    assert stack + Stack([]) == stack;
    ShuntRest(ts, pos + |OperandTokens(c.first)|, brackets, queue, stack, Partial([t], []), c.rest);
  }

  lemma {:induction false} ShuntRest(ts: seq<Token>, pos: nat, brackets: nat, queue: seq<Item>, stack: seq<Pending>,
                                     p: Partial, rest: List<Link>)
    requires At(ts, pos, RestTokens(rest)) && Closed(stack) && Matches(p)
    ensures var q := ExtendAll(p, rest);
      Shunt(ts, pos, brackets, queue + RpnAll(p.trees), stack + Stack(p.ops))
      == Shunt(ts, pos + |RestTokens(rest)|, brackets, queue + RpnAll(q.trees), stack + Stack(q.ops))
    decreases rest
  {
    hide Shunt, RpnAll, Rpn, OperandTree, OperandTokens, Merge, Stack, Rank;
    match rest
    case Nil =>
    case Cons(Link(op, x), more) =>
      var size := |OperandTokens(x)|;
      assert RestTokens(rest) == [Operator(op)] + (OperandTokens(x) + RestTokens(more));
      AtParts(ts, pos, [Operator(op)], OperandTokens(x) + RestTokens(more));
      AtParts(ts, pos + 1, OperandTokens(x), RestTokens(more));
      assert ts[pos] == ts[pos..pos + 1][0] == Operator(op);
      var m := if p.ops != [] && Rank(op) <= Rank(p.ops[|p.ops| - 1]) then Merge(p) else p;
      ShuntOperator(ts, pos, brackets, queue, stack, p, op);
      var q, s := queue + RpnAll(m.trees), stack + Stack(m.ops + [op]);
      ShuntOperand(ts, pos + 1, brackets, q, s, x);
      var e := Extend(p, op, OperandTree(x));
      RpnAllSnoc(m.trees, OperandTree(x));
      assert q + Rpn(OperandTree(x)) == queue + RpnAll(e.trees);
      ShuntRest(ts, pos + 1 + size, brackets, queue, stack, e, more);
  }

  lemma ShuntOperator(ts: seq<Token>, pos: nat, brackets: nat, queue: seq<Item>, stack: seq<Pending>, p: Partial,
                      op: Oper)
    requires pos < |ts| && ts[pos] == Operator(op) && Closed(stack) && Matches(p)
    ensures var m := if p.ops != [] && Rank(op) <= Rank(p.ops[|p.ops| - 1]) then Merge(p) else p;
      Shunt(ts, pos, brackets, queue + RpnAll(p.trees), stack + Stack(p.ops))
      == Shunt(ts, pos + 1, brackets, queue + RpnAll(m.trees), stack + Stack(m.ops + [op]))
  {
    hide RpnAll;
    var s := stack + Stack(p.ops);
    if p.ops != [] && Rank(op) <= Rank(p.ops[|p.ops| - 1]) {
      MergeRpn(p);
      var m := Merge(p);
      hide Merge, Rank;
      assert s[..|s| - 1] == stack + Stack(m.ops);
      assert stack + Stack(m.ops) + [Waiting(op)] == stack + Stack(m.ops + [op]);
      assert queue + RpnAll(p.trees) + [Apply(p.ops[|p.ops| - 1])] == queue + RpnAll(m.trees);
    } else {
      hide Rank;
      assert s + [Waiting(op)] == stack + Stack(p.ops + [op]);
      assert p.ops == [] ==> s == stack;
    }
  }

  predicate Stops(t: Token)
  {
    t.Semicolon? || t.Comma? || t.End? || t.RightBracket?
  }

  /** The whole expression, up to a token that ends it: the queue is its tree. */
  lemma ShuntExpression(ts: seq<Token>, pos: nat, c: Chain)
    requires At(ts, pos, Tokens(c)) && pos + |Tokens(c)| < |ts| && Stops(ts[pos + |Tokens(c)|])
    ensures Shunt(ts, pos, 0, [], []) == Some((Rpn(ChainTree(c)), pos + |Tokens(c)|))
  {
    hide RpnAll, Rpn, ExtendAll, Collapse, OperandTree, OperandTokens, Tokens;
    ShuntChain(ts, pos, 0, [], [], c);
    var p := ExtendAll(Partial([OperandTree(c.first)], []), c.rest);
    DrainCollapses(p);
    assert [] + RpnAll(p.trees) == RpnAll(p.trees) && [] + Stack(p.ops) == Stack(p.ops);
  }

  // ----- building consumes the queue exactly -----

  /** The tree with constants folded and += and -= rewritten, from the leaves up. */
  function Simplified(t: Tree): Option<Tree>
  {
    match t
    case Leaf(_) => Some(t)
    case Node(op, l, r) =>
      match (Simplified(r), Simplified(l))
      case (Some(right), Some(left)) => Simplify(op, left, right)
      case _ => None
  }

  lemma {:induction false} BuildsTree(q: seq<Item>, t: Tree)
    ensures match Simplified(t)
      case None => BuildTree(q + Rpn(t)) == None
      case Some(s) => BuildTree(q + Rpn(t)) == Some((s, q))
    decreases t
  {
    match t
    case Leaf(x) => assert (q + [Parsing.Operand(x)])[..|q|] == q;
    case Node(op, l, r) =>
      hide BuildTree, Simplify;
      assert q + Rpn(t) == q + Rpn(l) + Rpn(r) + [Apply(op)];
      BuildApply(q + Rpn(l) + Rpn(r), op);
      BuildsTree(q + Rpn(l), r);
      BuildsTree(q, l);
  }

  lemma BuildApply(q: seq<Item>, op: Oper)
    ensures BuildTree(q + [Apply(op)]) ==
      match BuildTree(q)
      case None => None
      case Some((right, q1)) =>
        match BuildTree(q1)
        case None => None
        case Some((left, q2)) =>
          match Simplify(op, left, right)
          case None => None
          case Some(t) => Some((t, q2))
  {
    hide Simplify;
    assert (q + [Apply(op)])[..|q|] == q;
  }

  /** The parser turns a bracketed expression into its tree, simplified, and uses up its queue. */
  lemma ParsesExpression(ts: seq<Token>, pos: nat, c: Chain)
    requires At(ts, pos, Tokens(c)) && pos + |Tokens(c)| < |ts| && Stops(ts[pos + |Tokens(c)|])
    ensures Parse(ts, pos) == match Simplified(ChainTree(c))
                              case None => None
                              case Some(t) => Some((t, pos + |Tokens(c)|))
    ensures Simplified(ChainTree(c)).Some? ==>
      Shunt(ts, pos, 0, [], []).Some? && BuildTree(Shunt(ts, pos, 0, [], []).value.0).Some? &&
      BuildTree(Shunt(ts, pos, 0, [], []).value.0).value.1 == []
  {
    ShuntExpression(ts, pos, c);
    BuildsTree([], ChainTree(c));
    assert [] + Rpn(ChainTree(c)) == Rpn(ChainTree(c));
  }

  // ----- the yield -----

  function YieldAll(p: Partial): seq<Token>
    requires Matches(p)
    decreases |p.ops|
  {
    if p.ops == [] then Yield(p.trees[0])
    else
      var k := |p.ops|;
      YieldAll(Partial(p.trees[..k], p.ops[..k - 1])) + [Operator(p.ops[k - 1])] + Yield(p.trees[k])
  }

  lemma YieldSnoc(p: Partial, op: Oper, t: Tree)
    requires Matches(p)
    ensures YieldAll(Partial(p.trees + [t], p.ops + [op])) == YieldAll(p) + [Operator(op)] + Yield(t)
  {
    var q := Partial(p.trees + [t], p.ops + [op]);
    assert q.trees[..|q.ops|] == p.trees && q.ops[..|q.ops| - 1] == p.ops;
    hide Yield;
  }

  lemma YieldOne(t: Tree)
    ensures YieldAll(Partial([t], [])) == Yield(t)
  {
  }

  lemma MergeYield(p: Partial)
    requires Matches(p) && p.ops != []
    ensures YieldAll(Merge(p)) == YieldAll(p)
  {
    hide YieldAll, Yield, Merge;
    var k := |p.ops|;
    var l, r, op := p.trees[k - 1], p.trees[k], p.ops[k - 1];
    LastTwo(p.trees);
    if k == 1 {
      MergeTwo(op, l, r);
      MergeIs([], [], l, op, r);
      assert p.trees == [l, r] && p.ops == [op];
      assert [] + [l] + [r] == [l, r] && [] + [op] == [op] && [] + [Node(op, l, r)] == [Node(op, l, r)];
    } else {
      var trees, ops, before := p.trees[..k - 1], p.ops[..k - 2], p.ops[k - 2];
      LastTwo(p.ops);
      MergeMore(Partial(trees, ops), before, l, op, r);
      MergeIs(trees, ops + [before], l, op, r);
    }
  }

  lemma LastTwo<T>(s: seq<T>)
    requires |s| >= 2
    ensures s == s[..|s| - 2] + [s[|s| - 2]] + [s[|s| - 1]]
  {
  }

  lemma MergeIs(trees: seq<Tree>, ops: seq<Oper>, l: Tree, op: Oper, r: Tree)
    requires |trees| == |ops|
    ensures Merge(Partial(trees + [l] + [r], ops + [op])) == Partial(trees + [Node(op, l, r)], ops)
  {
  }

  lemma MergeTwo(op: Oper, l: Tree, r: Tree)
    ensures YieldAll(Partial([l, r], [op])) == YieldAll(Partial([Node(op, l, r)], []))
  {
    hide YieldAll, Yield;
    YieldOne(l);
    YieldOne(Node(op, l, r));
    YieldNode(op, l, r);
    assert [l] + [r] == [l, r] && [] + [op] == [op];
    YieldSnoc(Partial([l], []), op, r);
  }

  lemma MergeMore(p: Partial, before: Oper, l: Tree, op: Oper, r: Tree)
    requires Matches(p)
    ensures YieldAll(Partial(p.trees + [l] + [r], p.ops + [before] + [op]))
         == YieldAll(Partial(p.trees + [Node(op, l, r)], p.ops + [before]))
  {
    hide YieldAll, Yield;
    var q := Partial(p.trees + [l], p.ops + [before]);
    YieldSnoc(q, op, r);
    YieldSnoc(p, before, l);
    YieldSnoc(p, before, Node(op, l, r));
    YieldNode(op, l, r);
    var a := YieldAll(p) + [Operator(before)];
    assert a + Yield(l) + [Operator(op)] + Yield(r) == a + (Yield(l) + [Operator(op)] + Yield(r));
  }

  lemma YieldNode(op: Oper, l: Tree, r: Tree)
    ensures Yield(Node(op, l, r)) == Yield(l) + [Operator(op)] + Yield(r)
  {
  }

  lemma {:induction false} CollapseYield(p: Partial)
    requires Matches(p)
    ensures Yield(Collapse(p)) == YieldAll(p)
    decreases |p.ops|
  {
    if p.ops != [] {
      MergeYield(p);
      CollapseYield(Merge(p));
    }
  }

  lemma ExtendYield(p: Partial, op: Oper, t: Tree)
    requires Matches(p)
    ensures YieldAll(Extend(p, op, t)) == YieldAll(p) + [Operator(op)] + Yield(t)
  {
    var m := if p.ops != [] && Rank(op) <= Rank(p.ops[|p.ops| - 1]) then Merge(p) else p;
    if m != p {
      MergeYield(p);
    }
    YieldSnoc(m, op, t);
  }

  lemma {:induction false} UnbracketedAppend(a: seq<Token>, b: seq<Token>)
    ensures Unbracketed(a + b) == Unbracketed(a) + Unbracketed(b)
    decreases |a|
  {
    if a == [] {
      assert a + b == b;
    } else {
      assert (a + b)[1..] == a[1..] + b;
      UnbracketedAppend(a[1..], b);
    }
  }

  lemma {:induction false} OperandYield(x: Operand)
    ensures Yield(OperandTree(x)) == Unbracketed(OperandTokens(x))
    decreases x
  {
    if x.Group? {
      ChainYield(x.c);
      UnbracketedAppend([LeftBracket] + Tokens(x.c), [RightBracket]);
      UnbracketedAppend([LeftBracket], Tokens(x.c));
    }
  }

  lemma EmptyUnbracketed()
    ensures Unbracketed([]) == [] && forall op :: Unbracketed([Operator(op)]) == [Operator(op)]
  {
    forall op ensures Unbracketed([Operator(op)]) == [Operator(op)] {
      assert [Operator(op)][1..] == [];
    }
  }

  lemma {:induction false} RestYield(p: Partial, rest: List<Link>)
    requires Matches(p)
    ensures YieldAll(ExtendAll(p, rest)) == YieldAll(p) + Unbracketed(RestTokens(rest))
    decreases rest
  {
    hide YieldAll, Yield, Extend, OperandTree, OperandTokens, Unbracketed;
    EmptyUnbracketed();
    match rest
    case Nil =>
    case Cons(Link(op, x), more) =>
      var t := OperandTree(x);
      OperandYield(x);
      ExtendYield(p, op, t);
      RestYield(Extend(p, op, t), more);
      UnbracketedAppend([Operator(op)] + OperandTokens(x), RestTokens(more));
      UnbracketedAppend([Operator(op)], OperandTokens(x));
  }

  /** Read from left to right, the tree is the expression without its brackets. */
  lemma {:induction false} ChainYield(c: Chain)
    ensures Yield(ChainTree(c)) == Unbracketed(Tokens(c))
    decreases c
  {
    var p := Partial([OperandTree(c.first)], []);
    OperandYield(c.first);
    RestYield(p, c.rest);
    CollapseYield(ExtendAll(p, c.rest));
    UnbracketedAppend(OperandTokens(c.first), RestTokens(c.rest));
  }
}
