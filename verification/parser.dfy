/**
 The expression parser: a shunting-yard loop that turns tokens into a queue in reverse Polish order, and
 the building of a tree from the back of that queue, which folds constants and rewrites += and -=.
 */
module Parsing {
  import opened Prelude
  import opened Int64

  datatype Leaf = Integer(i: int64) | Variable(id: nat) | Other(id: nat)

  /** The binary operators; assignment has three tokens. */
  datatype Oper =
    | Assign | AddAssign | SubAssign | And | Equals | NotEqual | Less | LessEqual | Greater | GreaterEqual
    | Add | Sub | Multiply | Divide | Dot

  /** End is the token the caller wants to stop at; Bad is one that no expression value starts with. */
  datatype Token =
    | Value(x: Leaf) | Operator(op: Oper) | LeftBracket | RightBracket | Semicolon | Comma | End | Bad

  datatype Tree = Leaf(x: Leaf) | Node(op: Oper, left: Tree, right: Tree)

  /** The order of the operation types, in which the loop compares operators. */
  function Rank(op: Oper): nat
  {
    match op
    case Assign => 1
    case AddAssign => 1
    case SubAssign => 1
    case And => 2
    case Equals => 3
    case NotEqual => 4
    case Less => 5
    case LessEqual => 6
    case Greater => 7
    case GreaterEqual => 8
    case Add => 9
    case Sub => 10
    case Multiply => 11
    case Divide => 12
    case Dot => 16
  }

  /** An entry of the operator stack: NULL stands for a left bracket. */
  datatype Pending = Bracket | Waiting(op: Oper)

  /** An entry of the output queue; a bracket that was never closed ends up in it as NULL. */
  datatype Item = Operand(x: Leaf) | Apply(op: Oper) | Null

  // ----- the loop, as a function -----

  /** Move operators to the queue until the left bracket; none if there is no bracket. */
  function PopToBracket(queue: seq<Item>, stack: seq<Pending>): Option<(seq<Item>, seq<Pending>)>
    decreases |stack|
  {
    if stack == [] then None
    else
      var rest := stack[..|stack| - 1];
      match stack[|stack| - 1]
      case Bracket => Some((queue, rest))
      case Waiting(op) => PopToBracket(queue + [Apply(op)], rest)
  }

  function ItemOf(p: Pending): Item
  {
    match p
    case Bracket => Null
    case Waiting(op) => Apply(op)
  }

  /** What is left on the operator stack, the top first. */
  function Drain(stack: seq<Pending>): seq<Item>
  {
    if stack == [] then [] else [ItemOf(stack[|stack| - 1])] + Drain(stack[..|stack| - 1])
  }

  /** Does the operator on top of the stack go to the queue first? Only that one is looked at. */
  predicate PopsFirst(stack: seq<Pending>, op: Oper)
  {
    stack != [] && stack[|stack| - 1].Waiting? && Rank(op) <= Rank(stack[|stack| - 1].op)
  }

  /** The queue when the loop stops, and the position it stops at. */
  function Shunt(tokens: seq<Token>, pos: nat, brackets: nat, queue: seq<Item>, stack: seq<Pending>)
    : Option<(seq<Item>, nat)>
    decreases |tokens| - pos
  {
    if pos >= |tokens| then None
    else
      match tokens[pos]
      case LeftBracket => Shunt(tokens, pos + 1, brackets + 1, queue, stack + [Bracket])
      case RightBracket =>
        if brackets == 0 then Some((queue + Drain(stack), pos))
        else (match PopToBracket(queue, stack)
              case None => None
              case Some((q, s)) => Shunt(tokens, pos + 1, brackets - 1, q, s))
      case Operator(op) =>
        if PopsFirst(stack, op) then
          var top := stack[|stack| - 1].op;
          Shunt(tokens, pos + 1, brackets, queue + [Apply(top)], stack[..|stack| - 1] + [Waiting(op)])
        else Shunt(tokens, pos + 1, brackets, queue, stack + [Waiting(op)])
      case Value(x) => Shunt(tokens, pos + 1, brackets, queue + [Operand(x)], stack)
      case Bad => None
      case _ => Some((queue + Drain(stack), pos))
  }

  // ----- building the tree -----

  /** What becomes of an operation whose operands have been built; none for += or -= to anything but a variable. */
  function Simplify(op: Oper, left: Tree, right: Tree): Option<Tree>
  {
    if (op == Add || op == Multiply) && left.Leaf? && left.x.Integer? && right.Leaf? && right.x.Integer? then
      var l: int, r: int := left.x.i, right.x.i;
      Some(Leaf(Integer(if op == Add then Wrap(l + r) else Wrap(l * r))))
    else if op == AddAssign || op == SubAssign then
      if left.Leaf? && left.x.Variable?
      then Some(Node(Assign, left, Node(if op == AddAssign then Add else Sub, left, right)))
      else None
    else Some(Node(op, left, right))
  }

  /** The tree at the back of the queue, and the queue without it: the right operand is taken before the left one. */
  function BuildTree(queue: seq<Item>): (r: Option<(Tree, seq<Item>)>)
    ensures r.Some? ==> |r.value.1| < |queue|
    decreases |queue|
  {
    if queue == [] then None
    else
      var rest := queue[..|queue| - 1];
      match queue[|queue| - 1]
      case Null => None
      case Operand(x) => Some((Leaf(x), rest))
      case Apply(op) =>
        match BuildTree(rest)
        case None => None
        case Some((right, rest1)) =>
          match BuildTree(rest1)
          case None => None
          case Some((left, rest2)) =>
            match Simplify(op, left, right)
            case None => None
            case Some(t) => Some((t, rest2))
  }

  /** parseExpression: the tree and the position after the expression. Operands left in the queue are ignored. */
  function Parse(tokens: seq<Token>, pos: nat): Option<(Tree, nat)>
  {
    match Shunt(tokens, pos, 0, [], [])
    case None => None
    case Some((queue, end)) =>
      match BuildTree(queue)
      case None => None
      case Some((t, _)) => Some((t, end))
  }

  // ----- the methods -----

  method BuildTreeFrom(queue: seq<Item>) returns (expr: Option<Tree>, rest: seq<Item>)
    ensures match BuildTree(queue)
      case None => expr == None
      case Some((t, q)) => expr == Some(t) && rest == q
    decreases |queue|
  {
    rest := queue;
    if rest == [] {
      return None, rest;
    }
    var item := rest[|rest| - 1];
    rest := rest[..|rest| - 1];
    match item {
      case Null => expr := None;
      case Operand(x) => expr := Some(Leaf(x));
      case Apply(op) =>
        var right, left;
        right, rest := BuildTreeFrom(rest);
        if right.None? {
          return None, rest;
        }
        left, rest := BuildTreeFrom(rest);
        if left.None? {
          return None, rest;
        }
        expr := Simplify(op, left.value, right.value);
    }
  }

  method ParseExpression(tokens: seq<Token>, start: nat) returns (expr: Option<Tree>, pos: nat)
    ensures match Parse(tokens, start)
      case None => expr == None
      case Some((t, end)) => expr == Some(t) && pos == end
  {
    hide PopsFirst, PopToBracket, Drain, BuildTree;
    var outputQueue: seq<Item>, operatorStack: seq<Pending>, brackets: nat := [], [], 0;
    pos := start;
    var stopped := false;
    while !stopped
      invariant !stopped ==> Shunt(tokens, pos, brackets, outputQueue, operatorStack) == Shunt(tokens, start, 0, [], [])
      invariant stopped ==> Shunt(tokens, start, 0, [], []) == Some((outputQueue + Drain(operatorStack), pos))
      decreases |tokens| - pos, !stopped
    {
      if pos >= |tokens| {
        return None, pos;
      }
      match tokens[pos] {
        case LeftBracket =>
          brackets := brackets + 1;
          operatorStack := operatorStack + [Bracket];
          pos := pos + 1;
        case RightBracket =>
          if brackets == 0 {
            stopped := true;
          } else {
            brackets := brackets - 1;
            var found;
            found, outputQueue, operatorStack := CloseBracket(outputQueue, operatorStack);
            if !found {
              return None, pos;
            }
            pos := pos + 1;
          }
        case Operator(o1) =>
          outputQueue, operatorStack := PushOperator(outputQueue, operatorStack, o1);
          pos := pos + 1;
        case Value(x) =>
          outputQueue := outputQueue + [Operand(x)];
          pos := pos + 1;
        case Bad => return None, pos;
        case _ => stopped := true;
      }
    }
    outputQueue := DrainStack(outputQueue, operatorStack);
    var rest;
    expr, rest := BuildTreeFrom(outputQueue);
  }

  /** One operator more, after at most one of those on the stack has gone to the queue. */
  method PushOperator(queue: seq<Item>, stack: seq<Pending>, o1: Oper) returns (q: seq<Item>, s: seq<Pending>)
    ensures if PopsFirst(stack, o1) then q == queue + [Apply(stack[|stack| - 1].op)] && s == stack[..|stack| - 1] + [Waiting(o1)]
            else q == queue && s == stack + [Waiting(o1)]
  {
    q, s := queue, stack;
    if s != [] {
      var o2 := s[|s| - 1];
      if o2.Waiting? && Rank(o1) <= Rank(o2.op) {
        q := q + [Apply(o2.op)];
        s := s[..|s| - 1];
      }
    }
    s := s + [Waiting(o1)];
  }

  method DrainStack(queue: seq<Item>, stack: seq<Pending>) returns (q: seq<Item>)
    ensures q == queue + Drain(stack)
  {
    var s := stack;
    q := queue;
    while s != []
      invariant q + Drain(s) == queue + Drain(stack)
      decreases |s|
    {
      q := q + [ItemOf(s[|s| - 1])];
      s := s[..|s| - 1];
    }
    assert q + [] == q;
  }

  method CloseBracket(queue: seq<Item>, stack: seq<Pending>) returns (found: bool, q: seq<Item>, s: seq<Pending>)
    ensures match PopToBracket(queue, stack)
      case None => !found
      case Some((q1, s1)) => found && q == q1 && s == s1
  {
    q, s, found := queue, stack, false;
    while !found
      invariant if found then PopToBracket(queue, stack) == Some((q, s)) else PopToBracket(q, s) == PopToBracket(queue, stack)
      decreases !found, |s|
    {
      if s == [] {
        return;
      }
      var op := s[|s| - 1];
      s := s[..|s| - 1];
      if op.Bracket? {
        found := true;
      } else {
        q := q + [Apply(op.op)];
      }
    }
  }
}
