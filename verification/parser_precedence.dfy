/**
 Which trees the parser's loop builds. An operator may be meant to be applied before another one that comes
 later; the loop applies at most one before it pushes the next. It builds the tree that was meant exactly for
 the expressions in which that is the right number everywhere.
 */
module ParserPrecedence {
  import opened Prelude
  import opened Int64
  import opened Parsing
  import opened ParserProof

  /** Is a waiting operator to be applied before the next one is read? */
  type Order = (Oper, Oper) -> bool

  /** How many waiting operators an order applies before the next one: all from the top that come first. */
  function Due(first: Order, ops: seq<Oper>, op: Oper): (n: nat)
    ensures n <= |ops|
  {
    if ops != [] && first(ops[|ops| - 1], op) then 1 + Due(first, ops[..|ops| - 1], op) else 0
  }

  /** How many the loop applies. */
  function Popped(ops: seq<Oper>, op: Oper): (n: nat)
    ensures n <= |ops|
  {
    if ops != [] && Rank(op) <= Rank(ops[|ops| - 1]) then 1 else 0
  }

  function MergeMany(p: Partial, n: nat): (q: Partial)
    requires Matches(p) && n <= |p.ops|
    ensures Matches(q) && |q.ops| == |p.ops| - n
    decreases n
  {
    if n == 0 then p else MergeMany(Merge(p), n - 1)
  }

  function Pushed(p: Partial, op: Oper, t: Tree): (q: Partial)
    requires Matches(p)
    ensures Matches(q)
  {
    Partial(p.trees + [t], p.ops + [op])
  }

  // ----- the tree that an order means -----

  function MeantExtend(first: Order, p: Partial, op: Oper, t: Tree): (q: Partial)
    requires Matches(p)
    ensures Matches(q)
  {
    Pushed(MergeMany(p, Due(first, p.ops, op)), op, t)
  }

  function MeantAll(first: Order, p: Partial, rest: List<Link>): (q: Partial)
    requires Matches(p)
    ensures Matches(q)
    decreases rest
  {
    match rest
    case Nil => p
    case Cons(Link(op, x), more) => MeantAll(first, MeantExtend(first, p, op, MeantOperand(first, x)), more)
  }

  function MeantOperand(first: Order, x: Operand): Tree
  {
    match x
    case Atom(l) => Leaf(l)
    case Group(c) => MeantTree(first, c)
  }

  function MeantTree(first: Order, c: Chain): Tree
  {
    Collapse(MeantAll(first, Partial([MeantOperand(first, c.first)], []), c.rest))
  }

  // ----- the condition: operators alone decide it -----

  /** The operators waiting after one more. */
  function NextOps(ops: seq<Oper>, op: Oper): seq<Oper>
  {
    ops[..|ops| - Popped(ops, op)] + [op]
  }

  /** At every operator, here and in every group, the loop applies as many waiting ones as the order does. */
  predicate OperandFits(first: Order, x: Operand)
  {
    x.Group? ==> ChainFits(first, x.c)
  }

  predicate ChainFits(first: Order, c: Chain)
  {
    OperandFits(first, c.first) && RestFits(first, [], c.rest)
  }

  predicate RestFits(first: Order, ops: seq<Oper>, rest: List<Link>)
    decreases rest
  {
    match rest
    case Nil => true
    case Cons(Link(op, x), more) =>
      Popped(ops, op) == Due(first, ops, op) && OperandFits(first, x) && RestFits(first, NextOps(ops, op), more)
  }

  // ----- leaves, and the root between two gaps -----

  function Leaves(t: Tree): (n: nat)
    ensures n > 0
  {
    match t
    case Leaf(_) => 1
    case Node(_, l, r) => Leaves(l) + Leaves(r)
  }

  function LeavesAll(ts: seq<Tree>): nat
  {
    if ts == [] then 0 else Leaves(ts[0]) + LeavesAll(ts[1..])
  }

  /** Gap g lies before leaf g; an operator stands in every gap. The gap of the lowest operator above both gaps. */
  function Top(t: Tree, a: nat, b: nat): nat
    requires 0 < a < b < Leaves(t)
  {
    var n := Leaves(t.left);
    if b < n then Top(t.left, a, b)
    else if n < a then n + Top(t.right, a - n, b - n)
    else n
  }

  lemma {:induction false} LeavesAppend(a: seq<Tree>, b: seq<Tree>)
    ensures LeavesAll(a + b) == LeavesAll(a) + LeavesAll(b)
    decreases |a|
  {
    if a == [] {
      assert a + b == b;
    } else {
      assert (a + b)[1..] == a[1..] + b;
      LeavesAppend(a[1..], b);
    }
  }

  lemma LeavesOne(t: Tree)
    ensures LeavesAll([t]) == Leaves(t)
  {
    assert [t][1..] == [];
  }

  function Tail(p: Partial): (q: Partial)
    requires Matches(p) && p.ops != []
    ensures Matches(q) && |q.ops| == |p.ops| - 1
  {
    Partial(p.trees[1..], p.ops[1..])
  }

  /** What waits is nested to the right. */
  lemma {:induction false} CollapseLeft(p: Partial)
    requires Matches(p) && p.ops != []
    ensures Collapse(p) == Node(p.ops[0], p.trees[0], Collapse(Tail(p)))
    decreases |p.ops|
  {
    var m := Merge(p);
    if |p.ops| > 1 {
      CollapseLeft(m);
      assert Tail(m) == Merge(Tail(p)) && m.trees[0] == p.trees[0] && m.ops[0] == p.ops[0];
    } else {
      assert m == Partial([Node(p.ops[0], p.trees[0], p.trees[1])], []);
      assert Tail(p) == Partial([p.trees[1]], []);
    }
  }

  lemma {:induction false} CollapseLeaves(p: Partial)
    requires Matches(p)
    ensures Leaves(Collapse(p)) == LeavesAll(p.trees)
    decreases |p.ops|
  {
    if p.ops == [] {
      LeavesOne(p.trees[0]);
      assert p.trees == [p.trees[0]];
    } else {
      CollapseLeft(p);
      CollapseLeaves(Tail(p));
    }
  }

  lemma PushedTail(p: Partial, op: Oper, t: Tree)
    requires Matches(p) && p.ops != []
    ensures Tail(Pushed(p, op, t)) == Pushed(Tail(p), op, t)
  {
  }

  /** Whatever is read later, the root between two gaps that are there stays the same. */
  lemma {:induction false} TopStays(p: Partial, op: Oper, t: Tree, a: nat, b: nat)
    requires Matches(p) && 0 < a < b < LeavesAll(p.trees)
    ensures Leaves(Collapse(p)) == LeavesAll(p.trees)
    ensures Leaves(Collapse(Pushed(p, op, t))) == LeavesAll(p.trees) + Leaves(t)
    ensures Top(Collapse(Pushed(p, op, t)), a, b) == Top(Collapse(p), a, b)
    decreases |p.ops|
  {
    hide Collapse;
    var q := Pushed(p, op, t);
    CollapseLeaves(p);
    CollapseLeaves(q);
    LeavesAppend(p.trees, [t]);
    LeavesOne(t);
    CollapseLeft(q);
    if p.ops == [] {
      CollapseOfOne(p);
      CollapseOfOne(Tail(q));
    } else {
      PushedTail(p, op, t);
      CollapseLeft(p);
      var n := Leaves(p.trees[0]);
      if n < a {
        TopStays(Tail(p), op, t, a - n, b - n);
      }
    }
  }

  lemma CollapseOfOne(p: Partial)
    requires Matches(p) && p.ops == []
    ensures Collapse(p) == p.trees[0]
  {
  }

  /** A waiting operator is above everything to its right. */
  lemma {:induction false} TopOfWaiting(p: Partial, i: nat, b: nat)
    requires Matches(p) && i < |p.ops| && LeavesAll(p.trees[..i + 1]) < b < LeavesAll(p.trees)
    ensures Leaves(Collapse(p)) == LeavesAll(p.trees) && 0 < LeavesAll(p.trees[..i + 1])
    ensures Top(Collapse(p), LeavesAll(p.trees[..i + 1]), b) == LeavesAll(p.trees[..i + 1])
    decreases i
  {
    hide Collapse;
    CollapseLeaves(p);
    CollapseLeft(p);
    CollapseLeaves(Tail(p));
    var n := Leaves(p.trees[0]);
    assert p.trees[..i + 1] == [p.trees[0]] + Tail(p).trees[..i];
    LeavesAppend([p.trees[0]], Tail(p).trees[..i]);
    LeavesOne(p.trees[0]);
    if i > 0 {
      LeavesMonotone(Tail(p).trees, 0, i);
      TopOfWaiting(Tail(p), i - 1, b - n);
    }
  }

  lemma {:induction false} LeavesMonotone(ts: seq<Tree>, i: nat, j: nat)
    requires i <= j <= |ts|
    ensures LeavesAll(ts[..i]) + (j - i) <= LeavesAll(ts[..j])
    decreases j
  {
    if i < j {
      assert ts[..j] == ts[..j - 1] + [ts[j - 1]];
      LeavesAppend(ts[..j - 1], [ts[j - 1]]);
      LeavesOne(ts[j - 1]);
      LeavesMonotone(ts, i, j - 1);
    }
  }

  /** The last operator is above every gap inside its left operand. */
  lemma {:induction false} TopOfLast(p: Partial, op: Oper, t: Tree, a: nat)
    requires Matches(p) && LeavesAll(p.trees[..|p.ops|]) < a < LeavesAll(p.trees)
    ensures Leaves(Collapse(Pushed(p, op, t))) == LeavesAll(p.trees) + Leaves(t)
    ensures Top(Collapse(Pushed(p, op, t)), a, LeavesAll(p.trees)) == LeavesAll(p.trees)
    decreases |p.ops|
  {
    hide Collapse;
    var q := Pushed(p, op, t);
    CollapseLeaves(q);
    LeavesAppend(p.trees, [t]);
    LeavesOne(t);
    CollapseLeft(q);
    if p.ops == [] {
      CollapseOfOne(Tail(q));
      LeavesOne(p.trees[0]);
      assert p.trees == [p.trees[0]];
    } else {
      PushedTail(p, op, t);
      var n := Leaves(p.trees[0]);
      assert p.trees[..|p.ops|] == [p.trees[0]] + Tail(p).trees[..|p.ops| - 1];
      LeavesAppend([p.trees[0]], Tail(p).trees[..|p.ops| - 1]);
      LeavesOne(p.trees[0]);
      TopOfLast(Tail(p), op, t, a - n);
    }
  }

  // ----- merging -----

  lemma {:induction false} MergedParts(p: Partial, n: nat)
    requires Matches(p) && n <= |p.ops|
    ensures var q := MergeMany(p, n);
      q.ops == p.ops[..|p.ops| - n] && q.trees[..|q.ops|] == p.trees[..|q.ops|] &&
      LeavesAll(q.trees) == LeavesAll(p.trees) && Collapse(q) == Collapse(p)
    decreases n
  {
    hide Collapse;
    if n > 0 {
      MergedLeaves(p);
      MergedParts(Merge(p), n - 1);
      assert MergeMany(p, n).trees[..|p.ops| - n] == Merge(p).trees[..|p.ops| - 1][..|p.ops| - n];
    }
  }

  lemma MergedLeaves(p: Partial)
    requires Matches(p) && p.ops != []
    ensures LeavesAll(Merge(p).trees) == LeavesAll(p.trees) && Collapse(Merge(p)) == Collapse(p)
    ensures Merge(p).trees[..|p.ops| - 1] == p.trees[..|p.ops| - 1]
  {
    CollapseLeaves(p);
    CollapseLeaves(Merge(p));
  }

  /** The loop's step, and the order's, are merges and a push. */
  lemma ExtendMerges(p: Partial, op: Oper, t: Tree)
    requires Matches(p)
    ensures Extend(p, op, t) == Pushed(MergeMany(p, Popped(p.ops, op)), op, t)
  {
    assert p.ops != [] ==> MergeMany(p, 1) == MergeMany(Merge(p), 0) == Merge(p);
  }

  lemma PushedLeaves(p: Partial, op: Oper, t: Tree)
    requires Matches(p)
    ensures LeavesAll(Pushed(p, op, t).trees) == LeavesAll(p.trees) + Leaves(t)
  {
    LeavesAppend(p.trees, [t]);
    LeavesOne(t);
  }

  /** The rest of the loop leaves the root between two gaps as it is. */
  lemma {:induction false} TopStaysInLoop(p: Partial, rest: List<Link>, a: nat, b: nat)
    requires Matches(p) && 0 < a < b < LeavesAll(p.trees)
    ensures Leaves(Collapse(p)) == LeavesAll(p.trees) <= Leaves(Collapse(ExtendAll(p, rest)))
    ensures Top(Collapse(ExtendAll(p, rest)), a, b) == Top(Collapse(p), a, b)
    decreases rest
  {
    hide Collapse, Top, Extend, MergeMany;
    CollapseLeaves(p);
    match rest
    case Nil =>
    case Cons(Link(op, x), more) =>
      var t, m := OperandTree(x), MergeMany(p, Popped(p.ops, op));
      ExtendMerges(p, op, t);
      MergedParts(p, Popped(p.ops, op));
      PushedLeaves(m, op, t);
      TopStays(m, op, t, a, b);
      TopStaysInLoop(Extend(p, op, t), more, a, b);
  }

  lemma {:induction false} TopStaysAsMeant(first: Order, p: Partial, rest: List<Link>, a: nat, b: nat)
    requires Matches(p) && 0 < a < b < LeavesAll(p.trees)
    ensures Leaves(Collapse(p)) == LeavesAll(p.trees) <= Leaves(Collapse(MeantAll(first, p, rest)))
    ensures Top(Collapse(MeantAll(first, p, rest)), a, b) == Top(Collapse(p), a, b)
    decreases rest
  {
    hide Collapse, Top, MergeMany;
    CollapseLeaves(p);
    match rest
    case Nil =>
    case Cons(Link(op, x), more) =>
      var t, m := MeantOperand(first, x), MergeMany(p, Due(first, p.ops, op));
      MergedParts(p, Due(first, p.ops, op));
      PushedLeaves(m, op, t);
      TopStays(m, op, t, a, b);
      TopStaysAsMeant(first, MeantExtend(first, p, op, t), more, a, b);
  }

  // ----- the right number of operators gives the tree that was meant -----

  lemma {:induction false} FittingRest(first: Order, p: Partial, rest: List<Link>)
    requires Matches(p) && RestFits(first, p.ops, rest)
    ensures ExtendAll(p, rest) == MeantAll(first, p, rest)
    decreases rest
  {
    match rest
    case Nil =>
    case Cons(Link(op, x), more) =>
      FittingOperand(first, x);
      ExtendMerges(p, op, OperandTree(x));
      MergedParts(p, Popped(p.ops, op));
      FittingRest(first, Extend(p, op, OperandTree(x)), more);
  }

  lemma {:induction false} FittingOperand(first: Order, x: Operand)
    requires OperandFits(first, x)
    ensures OperandTree(x) == MeantOperand(first, x)
    decreases x
  {
    if x.Group? {
      FittingChain(first, x.c);
    }
  }

  lemma {:induction false} FittingChain(first: Order, c: Chain)
    requires ChainFits(first, c)
    ensures ChainTree(c) == MeantTree(first, c)
    decreases c
  {
    FittingOperand(first, c.first);
    FittingRest(first, Partial([OperandTree(c.first)], []), c.rest);
  }

  // ----- and any other number gives another tree -----

  /** The same operators over operands with as many leaves. */
  predicate Alike(p: Partial, q: Partial)
  {
    Matches(p) && p.ops == q.ops && |p.trees| == |q.trees| &&
    forall i :: 0 <= i < |p.trees| ==> Leaves(p.trees[i]) == Leaves(q.trees[i])
  }

  lemma {:induction false} AlikeLeaves(a: seq<Tree>, b: seq<Tree>)
    requires |a| == |b| && forall i :: 0 <= i < |a| ==> Leaves(a[i]) == Leaves(b[i])
    ensures LeavesAll(a) == LeavesAll(b)
    decreases |a|
  {
    if a != [] {
      AlikeLeaves(a[1..], b[1..]);
    }
  }

  lemma {:induction false} AlikeMerged(p: Partial, q: Partial, n: nat)
    requires Alike(p, q) && n <= |p.ops|
    ensures Alike(MergeMany(p, n), MergeMany(q, n))
    ensures p.trees != q.trees ==> MergeMany(p, n).trees != MergeMany(q, n).trees
    decreases n
  {
    if n > 0 {
      AlikeMergedOnce(p, q);
      AlikeMerged(Merge(p), Merge(q), n - 1);
    }
  }

  lemma AlikeMergedOnce(p: Partial, q: Partial)
    requires Alike(p, q) && p.ops != []
    ensures Alike(Merge(p), Merge(q)) && (p.trees != q.trees ==> Merge(p).trees != Merge(q).trees)
  {
    var k := |p.ops|;
    if p.trees != q.trees {
      var i :| 0 <= i <= k && p.trees[i] != q.trees[i];
      assert Merge(p).trees[if i < k then i else k - 1] != Merge(q).trees[if i < k then i else k - 1];
    }
  }

  /** Different operands make different trees. */
  lemma CollapseDiffers(p: Partial, q: Partial)
    requires Alike(p, q) && p.trees != q.trees
    ensures Collapse(p) != Collapse(q)
  {
    var n := |p.ops|;
    AlikeMerged(p, q, n);
    MergedParts(p, n);
    MergedParts(q, n);
    var a, b := MergeMany(p, n), MergeMany(q, n);
    assert a.trees == [a.trees[0]] && b.trees == [b.trees[0]];
  }

  lemma {:induction false} OperandLeaves(first: Order, x: Operand)
    ensures Leaves(OperandTree(x)) == Leaves(MeantOperand(first, x))
    decreases x
  {
    if x.Group? {
      OperandLeaves(first, x.c.first);
      var p, q := Partial([OperandTree(x.c.first)], []), Partial([MeantOperand(first, x.c.first)], []);
      LeavesOne(p.trees[0]);
      LeavesOne(q.trees[0]);
      RestLeaves(first, p, q, x.c.rest);
      CollapseLeaves(ExtendAll(p, x.c.rest));
      CollapseLeaves(MeantAll(first, q, x.c.rest));
    }
  }

  lemma {:induction false} RestLeaves(first: Order, p: Partial, q: Partial, rest: List<Link>)
    requires Matches(p) && Matches(q) && LeavesAll(p.trees) == LeavesAll(q.trees)
    ensures LeavesAll(ExtendAll(p, rest).trees) == LeavesAll(MeantAll(first, q, rest).trees)
    decreases rest
  {
    hide MergeMany, Extend;
    match rest
    case Nil =>
    case Cons(Link(op, x), more) =>
      var t, u := OperandTree(x), MeantOperand(first, x);
      OperandLeaves(first, x);
      ExtendMerges(p, op, t);
      MergedParts(p, Popped(p.ops, op));
      MergedParts(q, Due(first, q.ops, op));
      PushedLeaves(MergeMany(p, Popped(p.ops, op)), op, t);
      PushedLeaves(MergeMany(q, Due(first, q.ops, op)), op, u);
      RestLeaves(first, Extend(p, op, t), MeantExtend(first, q, op, u), more);
  }

  /** An operator that is left waiting is above the new one. */
  lemma FewerMerged(p: Partial, m: nat, op: Oper, t: Tree)
    requires Matches(p) && m < |p.ops|
    ensures var a, b := LeavesAll(p.trees[..|p.ops| - m]), LeavesAll(p.trees);
      var x := Pushed(MergeMany(p, m), op, t);
      0 < a < b < LeavesAll(x.trees) == Leaves(Collapse(x)) && Top(Collapse(x), a, b) == a
  {
    hide MergeMany, Collapse, Top;
    var k := |p.ops|;
    var pm := MergeMany(p, m);
    var x := Pushed(pm, op, t);
    MergedParts(p, m);
    PushedLeaves(pm, op, t);
    LeavesMonotone(p.trees, k - m, k + 1);
    assert p.trees[..k + 1] == p.trees;
    assert x.trees[..k - m] == pm.trees[..k - m] == p.trees[..k - m];
    CollapseLeaves(x);
    TopOfWaiting(x, k - m - 1, LeavesAll(p.trees));
  }

  /** One that was merged is below it. */
  lemma MoreMerged(q: Partial, m: nat, n: nat, op: Oper, u: Tree)
    requires Matches(q) && m < n <= |q.ops|
    ensures var a, b := LeavesAll(q.trees[..|q.ops| - m]), LeavesAll(q.trees);
      var y := Pushed(MergeMany(q, n), op, u);
      0 < a < b < LeavesAll(y.trees) == Leaves(Collapse(y)) && Top(Collapse(y), a, b) == b
  {
    hide MergeMany, Collapse, Top;
    var k := |q.ops|;
    var qn := MergeMany(q, n);
    MergedParts(q, n);
    PushedLeaves(qn, op, u);
    LeavesMonotone(q.trees, k - n, k - m);
    LeavesMonotone(q.trees, k - m, k + 1);
    assert q.trees[..k + 1] == q.trees;
    CollapseLeaves(Pushed(qn, op, u));
    TopOfLast(qn, op, u, LeavesAll(q.trees[..k - m]));
  }

  lemma NumberShows(p: Partial, q: Partial, m: nat, n: nat, op: Oper, t: Tree, u: Tree) returns (a: nat, b: nat)
    requires Alike(p, q) && m != n && m <= |p.ops| && n <= |p.ops|
    ensures var x, y := Pushed(MergeMany(p, m), op, t), Pushed(MergeMany(q, n), op, u);
      0 < a < b < LeavesAll(x.trees) == Leaves(Collapse(x)) && b < LeavesAll(y.trees) == Leaves(Collapse(y)) &&
      Top(Collapse(x), a, b) != Top(Collapse(y), a, b)
  {
    hide MergeMany, Collapse, Top, Pushed, LeavesAll, Leaves;
    var k := |p.ops| - if m < n then m else n;
    AlikeLeaves(p.trees, q.trees);
    AlikeLeaves(p.trees[..k], q.trees[..k]);
    a, b := LeavesAll(p.trees[..k]), LeavesAll(p.trees);
    if m < n {
      FewerMerged(p, m, op, t);
      MoreMerged(q, m, n, op, u);
    } else {
      FewerMerged(q, n, op, u);
      MoreMerged(p, n, m, op, t);
    }
  }

  lemma WrongNumber(first: Order, p: Partial, q: Partial, op: Oper, x: Operand, more: List<Link>)
    requires Alike(p, q) && Popped(p.ops, op) != Due(first, p.ops, op)
    ensures Collapse(ExtendAll(p, Cons(Link(op, x), more))) != Collapse(MeantAll(first, q, Cons(Link(op, x), more)))
  {
    hide Collapse, Top, MergeMany, Extend, Popped, Due, Pushed;
    var t, u := OperandTree(x), MeantOperand(first, x);
    ExtendMerges(p, op, t);
    var a, b := NumberShows(p, q, Popped(p.ops, op), Due(first, p.ops, op), op, t, u);
    TopStaysInLoop(Extend(p, op, t), more, a, b);
    TopStaysAsMeant(first, MeantExtend(first, q, op, u), more, a, b);
  }

  lemma {:induction false} RestDiffers(first: Order, p: Partial, q: Partial, rest: List<Link>)
    requires Alike(p, q) && (p.trees != q.trees || !RestFits(first, p.ops, rest))
    ensures Collapse(ExtendAll(p, rest)) != Collapse(MeantAll(first, q, rest))
    decreases rest
  {
    hide Collapse, MergeMany, Extend;
    match rest
    case Nil => CollapseDiffers(p, q);
    case Cons(Link(op, x), more) =>
      var n := Popped(p.ops, op);
      if n != Due(first, p.ops, op) {
        WrongNumber(first, p, q, op, x, more);
      } else {
        var t, u := OperandTree(x), MeantOperand(first, x);
        if !OperandFits(first, x) {
          OperandDiffers(first, x);
        }
        OperandLeaves(first, x);
        ExtendMerges(p, op, t);
        AlikeMerged(p, q, n);
        MergedParts(p, n);
        AlikePushed(MergeMany(p, n), MergeMany(q, n), op, t, u);
        RestDiffers(first, Extend(p, op, t), MeantExtend(first, q, op, u), more);
      }
  }

  lemma AlikePushed(p: Partial, q: Partial, op: Oper, t: Tree, u: Tree)
    requires Alike(p, q) && Leaves(t) == Leaves(u)
    ensures Alike(Pushed(p, op, t), Pushed(q, op, u))
    ensures p.trees != q.trees || t != u ==> Pushed(p, op, t).trees != Pushed(q, op, u).trees
  {
    var k := |p.trees|;
    assert Pushed(p, op, t).trees[..k] == p.trees && Pushed(q, op, u).trees[..k] == q.trees;
    assert Pushed(p, op, t).trees[k] == t && Pushed(q, op, u).trees[k] == u;
  }

  lemma {:induction false} OperandDiffers(first: Order, x: Operand)
    requires !OperandFits(first, x)
    ensures OperandTree(x) != MeantOperand(first, x)
    decreases x
  {
    ChainDiffers(first, x.c);
  }

  lemma {:induction false} ChainDiffers(first: Order, c: Chain)
    requires !ChainFits(first, c)
    ensures ChainTree(c) != MeantTree(first, c)
    decreases c
  {
    OperandLeaves(first, c.first);
    if !OperandFits(first, c.first) {
      OperandDiffers(first, c.first);
    }
    RestDiffers(first, Partial([OperandTree(c.first)], []), Partial([MeantOperand(first, c.first)], []), c.rest);
  }

  /**
   Whatever order of application is meant, the loop builds the tree that is meant if and only if at every operator,
   also inside brackets, the order applies exactly as many waiting operators as the loop does.
   */
  lemma PrecedenceIff(first: Order, c: Chain)
    ensures ChainTree(c) == MeantTree(first, c) <==> ChainFits(first, c)
  {
    if ChainFits(first, c) {
      FittingChain(first, c);
    } else {
      ChainDiffers(first, c);
    }
  }

  // ----- two orders -----

  /** The loop's own ranks, as a shunting yard applies them: all waiting operators of at least the new one's rank. */
  function ByRank(): Order
  {
    (top: Oper, op: Oper) => Rank(op) <= Rank(top)
  }

  /** The loop agrees with its own ranks where it leaves no operator behind that is due. */
  lemma RankDue(ops: seq<Oper>, op: Oper)
    ensures Popped(ops, op) == Due(ByRank(), ops, op) <==>
      !(|ops| >= 2 && Rank(op) <= Rank(ops[|ops| - 1]) && Rank(op) <= Rank(ops[|ops| - 2]))
  {
    hide Rank;
    if ops != [] {
      var rest := ops[..|ops| - 1];
      if rest != [] {
        assert rest[|rest| - 1] == ops[|ops| - 2];
      }
    }
  }

  /** The usual levels: * and / before + and -, these before comparisons, equality, && and assignment. */
  function Level(op: Oper): nat
  {
    match op
    case Dot => 7
    case Multiply => 6
    case Divide => 6
    case Add => 5
    case Sub => 5
    case Less => 4
    case LessEqual => 4
    case Greater => 4
    case GreaterEqual => 4
    case Equals => 3
    case NotEqual => 3
    case And => 2
    case _ => 1
  }

  /** Operators of one level are applied from the left, but assignments from the right. */
  function Usual(): Order
  {
    (top: Oper, op: Oper) => Level(op) < Level(top) || (Level(op) == Level(top) && Level(op) > 1)
  }

  function Three(a: Leaf, o1: Oper, b: Leaf, o2: Oper, c: Leaf): Chain
  {
    Chain(Atom(a), Cons(Link(o1, Atom(b)), Cons(Link(o2, Atom(c)), Nil)))
  }

  lemma ThreeFits(first: Order, a: Leaf, o1: Oper, b: Leaf, o2: Oper, c: Leaf)
    ensures ChainFits(first, Three(a, o1, b, o2, c)) <==> Popped([o1], o2) == Due(first, [o1], o2)
  {
    hide Popped, Due;
    var rest, last := Three(a, o1, b, o2, c).rest, Cons(Link(o2, Atom(c)), Nil);
    OneWaiting(first, o1);
    assert RestFits(first, [], rest) <==> RestFits(first, [o1], last);
    assert RestFits(first, [o1], last) <==> Popped([o1], o2) == Due(first, [o1], o2);
  }

  lemma OneWaiting(first: Order, op: Oper)
    ensures Popped([], op) == Due(first, [], op) == 0 && NextOps([], op) == [op]
  {
  }

  lemma DueOfOne(first: Order, top: Oper, op: Oper)
    ensures Due(first, [top], op) == if first(top, op) then 1 else 0
  {
    assert [top][..0] == [];
  }

  /** The pairs of operators that the loop takes from the other end than usual. */
  function UnusualPairs(): set<(Oper, Oper)>
  {
    {(Multiply, Divide), (Add, Sub), (Less, LessEqual), (Less, Greater), (Less, GreaterEqual), (LessEqual, Greater),
     (LessEqual, GreaterEqual), (Greater, GreaterEqual), (Equals, NotEqual), (Assign, Assign), (Assign, AddAssign),
     (Assign, SubAssign), (AddAssign, Assign), (AddAssign, AddAssign), (AddAssign, SubAssign), (SubAssign, Assign),
     (SubAssign, AddAssign), (SubAssign, SubAssign)}
  }

  lemma Unusual(o1: Oper, o2: Oper)
    ensures (o1, o2) in UnusualPairs() <==>
      || (o1.Multiply? && o2.Divide?) || (o1.Add? && o2.Sub?) || (o1.Equals? && o2.NotEqual?)
      || (o1.Less? && (o2.LessEqual? || o2.Greater? || o2.GreaterEqual?))
      || (o1.LessEqual? && (o2.Greater? || o2.GreaterEqual?)) || (o1.Greater? && o2.GreaterEqual?)
      || ((o1.Assign? || o1.AddAssign? || o1.SubAssign?) && (o2.Assign? || o2.AddAssign? || o2.SubAssign?))
  {
  }

  lemma RanksAndLevels(o1: Oper, o2: Oper)
    ensures (Rank(o2) <= Rank(o1) <==> Usual()(o1, o2)) <==> (o1, o2) !in UnusualPairs()
    ensures (o1, o2) in UnusualPairs() ==> Level(o1) == Level(o2)
  {
    hide UnusualPairs;
    Unusual(o1, o2);
  }

  /** Two operators, the first one applied first or last. */
  function Grouped(left: bool, a: Leaf, o1: Oper, b: Leaf, o2: Oper, c: Leaf): Tree
  {
    if left then Node(o2, Node(o1, Leaf(a), Leaf(b)), Leaf(c)) else Node(o1, Leaf(a), Node(o2, Leaf(b), Leaf(c)))
  }

  lemma MeantUnfolds(first: Order, a: Leaf, o1: Oper, b: Leaf, o2: Oper, c: Leaf)
    ensures MeantTree(first, Three(a, o1, b, o2, c))
         == Collapse(MeantExtend(first, MeantExtend(first, Partial([Leaf(a)], []), o1, Leaf(b)), o2, Leaf(c)))
  {
    hide MeantExtend, Collapse;
    var last := Cons(Link(o2, Atom(c)), Nil);
    var p, q := Partial([Leaf(a)], []), MeantExtend(first, Partial([Leaf(a)], []), o1, Leaf(b));
    var r := MeantExtend(first, q, o2, Leaf(c));
    assert forall l :: MeantOperand(first, Atom(l)) == Leaf(l);
    assert MeantAll(first, r, Nil) == r;
    assert MeantAll(first, q, last) == MeantAll(first, r, Nil);
    assert MeantAll(first, p, Cons(Link(o1, Atom(b)), last)) == MeantAll(first, q, last);
  }

  lemma MeantPushes(first: Order, a: Tree, o1: Oper, b: Tree, o2: Oper, c: Tree)
    ensures MeantExtend(first, Partial([a], []), o1, b) == Partial([a, b], [o1])
    ensures MeantExtend(first, Partial([a, b], [o1]), o2, c)
         == if first(o1, o2) then Partial([Node(o1, a, b), c], [o2]) else Partial([a, b, c], [o1, o2])
  {
    hide Due;
    OneWaiting(first, o1);
    DueOfOne(first, o1, o2);
    var p, q := Partial([a], []), Partial([a, b], [o1]);
    assert MergeMany(p, 0) == p && MergeMany(q, 0) == q;
    assert MergeMany(q, 1) == MergeMany(Merge(q), 0) == Merge(q) == Partial([Node(o1, a, b)], []);
  }

  lemma CollapseTwo(a: Tree, o: Oper, b: Tree)
    ensures Collapse(Partial([a, b], [o])) == Node(o, a, b)
  {
    var p := Partial([a, b], [o]);
    CollapseLeft(p);
    assert Tail(p) == Partial([b], []);
    CollapseOfOne(Tail(p));
  }

  lemma CollapseThree(a: Tree, o1: Oper, b: Tree, o2: Oper, c: Tree)
    ensures Collapse(Partial([a, b, c], [o1, o2])) == Node(o1, a, Node(o2, b, c))
  {
    var p := Partial([a, b, c], [o1, o2]);
    CollapseLeft(p);
    assert Tail(p) == Partial([b, c], [o2]);
    CollapseTwo(b, o2, c);
  }

  lemma MeantGroups(first: Order, a: Leaf, o1: Oper, b: Leaf, o2: Oper, c: Leaf)
    ensures MeantTree(first, Three(a, o1, b, o2, c)) == Grouped(first(o1, o2), a, o1, b, o2, c)
  {
    hide MeantExtend, Collapse, MeantTree;
    var la, lb, lc := Leaf(a), Leaf(b), Leaf(c);
    MeantUnfolds(first, a, o1, b, o2, c);
    MeantPushes(first, la, o1, lb, o2, lc);
    CollapseTwo(Node(o1, la, lb), o2, lc);
    CollapseThree(la, o1, lb, o2, lc);
  }

  lemma LoopGroups(a: Leaf, o1: Oper, b: Leaf, o2: Oper, c: Leaf)
    ensures ChainTree(Three(a, o1, b, o2, c)) == Grouped(Rank(o2) <= Rank(o1), a, o1, b, o2, c)
  {
    hide ChainTree, MeantTree, ChainFits, Due, Rank, Grouped, Popped;
    PrecedenceIff(ByRank(), Three(a, o1, b, o2, c));
    ThreeFits(ByRank(), a, o1, b, o2, c);
    RankDue([o1], o2);
    MeantGroups(ByRank(), a, o1, b, o2, c);
  }

  /**
   Of all expressions with two operators, those are read otherwise than the usual levels say that have one of the
   listed pairs, which are all of one level; in particular a higher level always comes first.
   */
  lemma TwoOperators(a: Leaf, o1: Oper, b: Leaf, o2: Oper, c: Leaf)
    ensures var e, left := Three(a, o1, b, o2, c), Level(o2) < Level(o1) || (Level(o2) == Level(o1) && Level(o1) > 1);
      MeantTree(Usual(), e) == Grouped(left, a, o1, b, o2, c) &&
      ChainTree(e) == Grouped(if (o1, o2) in UnusualPairs() then !left else left, a, o1, b, o2, c)
    ensures (o1, o2) in UnusualPairs() ==> Level(o1) == Level(o2)
  {
    MeantGroups(Usual(), a, o1, b, o2, c);
    LoopGroups(a, o1, b, o2, c);
    RanksAndLevels(o1, o2);
    hide Grouped, ChainTree, MeantTree, UnusualPairs, Rank, Level;
  }
}
