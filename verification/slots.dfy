/** Slots of local variables: numbering a tree of blocks, and looking a name up from a block outwards. */
module Slots {
  import opened Prelude

  type Names = seq<string>

  method FindName(names: Names, name: string) returns (i: nat)
    ensures i == IndexOf(names, name)
  {
    i := 0;
    while i < |names| && names[i] != name
      invariant i <= |names| && IndexOf(names, name) == i + IndexOf(names[i..], name)
    {
      i := i + 1;
    }
  }

  function Max(a: nat, b: nat): nat
  {
    if a < b then b else a
  }

  class CodeBlock {
    const vars: Names
    const childBlocks: seq<CodeBlock>
    /** This block and all the blocks inside it. */
    ghost const blocks: set<CodeBlock>
    var parent: CodeBlock?
    var startingVarId: nat
    var maxVarId: nat

    /** A block around blocks that have no parent yet. */
    constructor (vars: Names, childBlocks: seq<CodeBlock>)
      requires forall i :: 0 <= i < |childBlocks| ==> childBlocks[i].Tree() && childBlocks[i].Linked()
      requires forall i, j :: 0 <= i < j < |childBlocks| ==> childBlocks[i].blocks !! childBlocks[j].blocks
      modifies set b | b in childBlocks
      ensures Tree() && Linked() && this.vars == vars && this.childBlocks == childBlocks && parent == null
    {
      this.vars, this.childBlocks := vars, childBlocks;
      blocks := {this} + set i, b | 0 <= i < |childBlocks| && b in childBlocks[i].blocks :: b;
      parent, startingVarId, maxVarId := null, 0, 0;
      new;
      Adopt();
    }

    /** Tells the blocks inside this one that it is their parent. */
    method Adopt()
      requires Tree() && forall i :: 0 <= i < |childBlocks| ==> childBlocks[i].Tree() && childBlocks[i].Linked()
      modifies set b | b in childBlocks
      ensures Linked() && parent == old(parent)
    {
      hide Linked, Tree;
      TreeParts();
      for k := 0 to |childBlocks|
        invariant parent == old(parent)
        invariant forall i :: 0 <= i < k ==> childBlocks[i].parent == this
        invariant forall i :: 0 <= i < |childBlocks| ==> childBlocks[i].Linked()
      {
        assert forall i :: 0 <= i < |childBlocks| && i != k ==> childBlocks[k] !in childBlocks[i].blocks;
        label before:
        childBlocks[k].parent := this;
        childBlocks[k].StaysLinked@before();
      }
      LinkedByParts();
    }

    /** Inside a block nothing depends on the parent of the block itself. */
    twostate lemma StaysLinked()
      requires Tree() && old(Linked())
      requires forall b :: b in blocks && b != this ==> unchanged(b)
      ensures Linked()
    {
      TreeParts();
    }

    lemma LinkedByParts()
      requires Tree() && forall i :: 0 <= i < |childBlocks| ==> childBlocks[i].parent == this && childBlocks[i].Linked()
      ensures Linked()
    {
    }

    /** Blocks inside one another, and not inside two. */
    ghost predicate Tree()
      decreases blocks
    {
      && this in blocks
      && (forall i :: 0 <= i < |childBlocks| ==>
            childBlocks[i] in childBlocks[i].blocks && childBlocks[i].blocks < blocks &&
            this !in childBlocks[i].blocks && childBlocks[i].Tree())
      && (forall i, j :: 0 <= i < j < |childBlocks| ==> childBlocks[i].blocks !! childBlocks[j].blocks)
      && (forall b :: b in blocks ==> b == this || exists i :: 0 <= i < |childBlocks| && b in childBlocks[i].blocks)
    }

    /** Inner blocks know the block around them. */
    ghost predicate Linked()
      requires Tree()
      reads blocks
      decreases blocks
    {
      forall i :: 0 <= i < |childBlocks| ==> childBlocks[i].parent == this && childBlocks[i].Linked()
    }

    /** One more than the last slot used in this block or inside it. */
    ghost function Highest(id: nat, n: nat): nat
      requires Tree() && n <= |childBlocks|
      decreases blocks, n
    {
      if n == 0 then id + |vars|
      else
        var child := childBlocks[n - 1];
        Max(Highest(id, n - 1), child.Highest(id + |vars|, |child.childBlocks|))
    }

    /** The slots that setStartingVarId(id) gives out. */
    ghost predicate Assigned(id: nat)
      requires Tree()
      reads blocks
      decreases blocks
    {
      && startingVarId == id && maxVarId == Highest(id, |childBlocks|)
      && forall i :: 0 <= i < |childBlocks| ==> childBlocks[i].Assigned(id + |vars|)
    }

    lemma HighestSteps(id: nat)
      requires Tree()
      ensures (forall i :: 0 <= i < |childBlocks| ==> childBlocks[i].Tree()) && Highest(id, 0) == id + |vars|
      ensures forall i :: 0 <= i < |childBlocks| ==>
        var child := childBlocks[i];
        Highest(id, i + 1) == Max(Highest(id, i), child.Highest(id + |vars|, |child.childBlocks|))
    {
    }

    method SetStartingVarId(id: nat) returns (max: nat)
      requires Tree()
      modifies blocks`startingVarId, blocks`maxVarId
      ensures Assigned(id) && max == Highest(id, |childBlocks|)
      decreases blocks
    {
      hide Highest, Tree, Assigned;
      TreeParts();
      startingVarId := id;
      maxVarId := id + |vars|;
      HighestSteps(id);
      for i := 0 to |childBlocks|
        invariant startingVarId == id && maxVarId == Highest(id, i)
        invariant forall j :: 0 <= j < i ==> childBlocks[j].Assigned(id + |vars|)
      {
        var child := childBlocks[i];
        assert forall j :: 0 <= j < i ==> childBlocks[j].blocks !! child.blocks;
        var childIdMax := child.SetStartingVarId(id + |vars|);
        if childIdMax > maxVarId {
          maxVarId := childIdMax;
        }
      }
      max := maxVarId;
      AssignedByParts(id);
    }

    lemma AssignedByParts(id: nat)
      requires Tree() && startingVarId == id && maxVarId == Highest(id, |childBlocks|)
      requires forall i :: 0 <= i < |childBlocks| ==> childBlocks[i].Tree() && childBlocks[i].Assigned(id + |vars|)
      ensures Assigned(id)
    {
    }

    lemma AssignedParts(id: nat)
      requires Tree() && Assigned(id)
      ensures startingVarId == id && maxVarId == Highest(id, |childBlocks|)
      ensures forall i :: 0 <= i < |childBlocks| ==> childBlocks[i].Tree() && childBlocks[i].Assigned(id + |vars|)
    {
    }

    lemma TreeParts()
      requires Tree()
      ensures this in blocks
      ensures forall i :: 0 <= i < |childBlocks| ==>
        childBlocks[i] in childBlocks[i].blocks && childBlocks[i].blocks < blocks &&
        this !in childBlocks[i].blocks && childBlocks[i].Tree()
      ensures forall i, j :: 0 <= i < j < |childBlocks| ==> childBlocks[i].blocks !! childBlocks[j].blocks
    {
    }

    /** The slot of a name: a variable of this block, or of a block around it, or an argument of the function. */
    method GetVarId(name: string, args: Names, ghost chain: seq<CodeBlock>) returns (id: Option<nat>)
      requires Chain(chain) && chain[|chain| - 1] == this
      requires chain[0].Tree() && chain[0].Linked() && chain[0].parent == null
      ensures id == Lookup(chain, name, args)
      decreases |chain|
    {
      var i := FindName(vars, name);
      if i < |vars| {
        return Some(i + startingVarId);
      }
      ChainLinked(chain, |chain| - 1);
      if parent != null {
        ghost var outer := chain[..|chain| - 1];
        id := parent.GetVarId(name, args, outer);
      } else {
        var arg := FindName(args, name);
        id := if arg < |args| then Some(arg + 1) else None;
      }
    }
  }

  /** Blocks from a function's outermost one inwards. */
  predicate Chain(p: seq<CodeBlock>)
  {
    |p| > 0 && forall k :: 0 <= k < |p| - 1 ==> p[k + 1] in p[k].childBlocks
  }

  /** What a name means in the innermost block of a chain. */
  ghost function Lookup(p: seq<CodeBlock>, name: string, args: Names): Option<nat>
    requires |p| > 0
    reads set b | b in p
  {
    var b := p[|p| - 1];
    if IndexOf(b.vars, name) < |b.vars| then Some(IndexOf(b.vars, name) + b.startingVarId)
    else if |p| > 1 then Lookup(p[..|p| - 1], name, args)
    else if IndexOf(args, name) < |args| then Some(IndexOf(args, name) + 1)
    else None
  }

  /** The parents along a chain are the blocks before. */
  lemma {:induction false} ChainLinked(p: seq<CodeBlock>, k: nat)
    requires Chain(p) && p[0].Tree() && p[0].Linked() && k < |p|
    ensures p[k].Tree() && p[k].Linked() && p[k] in p[0].blocks
    ensures k > 0 ==> p[k].parent == p[k - 1]
  {
    if k > 0 {
      ChainLinked(p, k - 1);
      var i :| 0 <= i < |p[k - 1].childBlocks| && p[k - 1].childBlocks[i] == p[k];
      ChainInside(p, k);
    }
  }

  lemma {:induction false} ChainInside(p: seq<CodeBlock>, k: nat)
    requires Chain(p) && p[0].Tree() && k < |p|
    ensures p[k].Tree() && p[k] in p[k].blocks && p[k].blocks <= p[0].blocks
  {
    if k > 0 {
      ChainInside(p, k - 1);
      var i :| 0 <= i < |p[k - 1].childBlocks| && p[k - 1].childBlocks[i] == p[k];
    }
  }

  /** Every block on a chain has been given slots of its own, below the highest of the outermost block. */
  lemma {:induction false} ChainAssigned(p: seq<CodeBlock>, id: nat, k: nat)
    requires Chain(p) && p[0].Tree() && p[0].Assigned(id) && k < |p|
    ensures p[k].Tree() && p[k].Assigned(p[k].startingVarId)
    ensures id <= p[k].startingVarId && p[k].startingVarId + |p[k].vars| <= p[k].maxVarId <= p[0].maxVarId
    ensures k > 0 ==> p[k].startingVarId == p[k - 1].startingVarId + |p[k - 1].vars|
  {
    hide CodeBlock.Tree, CodeBlock.Highest, CodeBlock.Assigned;
    p[0].AssignedParts(id);
    if k == 0 {
      HighestAtLeast(p[0], id, |p[0].childBlocks|);
    } else {
      ChainAssigned(p, id, k - 1);
      var b := p[k - 1];
      var i :| 0 <= i < |b.childBlocks| && b.childBlocks[i] == p[k];
      b.AssignedParts(b.startingVarId);
      p[k].AssignedParts(b.startingVarId + |b.vars|);
      HighestAbove(b, b.startingVarId, |b.childBlocks|, i);
      HighestAtLeast(p[k], p[k].startingVarId, |p[k].childBlocks|);
    }
  }

  /** The highest slot is used: some chain of blocks ends with it. */
  lemma {:induction false} HighestUsed(b: CodeBlock, id: nat) returns (p: seq<CodeBlock>)
    requires b.Tree() && b.Assigned(id)
    ensures Chain(p) && p[0] == b
    ensures p[|p| - 1].startingVarId + |p[|p| - 1].vars| == b.maxVarId
    decreases b.blocks
  {
    hide CodeBlock.Tree, CodeBlock.Highest, CodeBlock.Assigned;
    b.AssignedParts(id);
    b.TreeParts();
    var i := HighestFrom(b, id, |b.childBlocks|);
    if i == |b.childBlocks| {
      p := [b];
    } else {
      var child := b.childBlocks[i];
      child.AssignedParts(id + |b.vars|);
      var q := HighestUsed(child, id + |b.vars|);
      p := [b] + q;
      assert forall k :: 0 < k < |p| ==> p[k] == q[k - 1];
    }
  }

  /** The child block that decides the maximum; none if the block's own variables do. */
  lemma {:induction false} HighestFrom(b: CodeBlock, id: nat, n: nat) returns (i: nat)
    requires b.Tree() && n <= |b.childBlocks|
    ensures i < n || i == |b.childBlocks|
    ensures i == |b.childBlocks| ==> b.Highest(id, n) == id + |b.vars|
    ensures i < n ==>
      b.childBlocks[i].Tree() &&
      b.Highest(id, n) == b.childBlocks[i].Highest(id + |b.vars|, |b.childBlocks[i].childBlocks|)
    decreases n
  {
    hide CodeBlock.Tree, CodeBlock.Highest;
    b.TreeParts();
    b.HighestSteps(id);
    i := |b.childBlocks|;
    if n > 0 {
      var child := b.childBlocks[n - 1];
      i := HighestFrom(b, id, n - 1);
      if b.Highest(id, n - 1) < child.Highest(id + |b.vars|, |child.childBlocks|) {
        i := n - 1;
      }
    }
  }

  lemma {:induction false} HighestAtLeast(b: CodeBlock, id: nat, n: nat)
    requires b.Tree() && n <= |b.childBlocks|
    ensures b.Highest(id, n) >= id + |b.vars|
  {
    hide CodeBlock.Tree, CodeBlock.Highest;
    b.HighestSteps(id);
    if n > 0 {
      HighestAtLeast(b, id, n - 1);
    }
  }

  lemma {:induction false} HighestAbove(b: CodeBlock, id: nat, n: nat, i: nat)
    requires b.Tree() && i < n <= |b.childBlocks|
    ensures b.childBlocks[i].Tree()
    ensures b.Highest(id, n) >= b.childBlocks[i].Highest(id + |b.vars|, |b.childBlocks[i].childBlocks|)
  {
    hide CodeBlock.Tree, CodeBlock.Highest;
    b.TreeParts();
    b.HighestSteps(id);
    if i < n - 1 {
      HighestAbove(b, id, n - 1, i);
    }
  }

  lemma {:induction false} ChainAscends(p: seq<CodeBlock>, id: nat, k: nat, l: nat)
    requires Chain(p) && p[0].Tree() && p[0].Assigned(id) && k < l < |p|
    ensures p[k].startingVarId + |p[k].vars| <= p[l].startingVarId
    decreases l
  {
    ChainAssigned(p, id, l);
    if k < l - 1 {
      ChainAscends(p, id, k, l - 1);
    }
  }

  /**
   On a chain of blocks no two variables share a slot, and none is the slot of `this` or of an argument, or lies
   outside the frame.
   */
  lemma SlotsApart(p: seq<CodeBlock>, argc: nat, k: nat, i: nat, l: nat, j: nat)
    requires Chain(p) && p[0].Tree() && p[0].Assigned(argc + 1)
    requires k < |p| && l < |p| && i < |p[k].vars| && j < |p[l].vars|
    ensures p[k].startingVarId + i == p[l].startingVarId + j <==> k == l && i == j
    ensures argc < p[k].startingVarId + i < p[0].maxVarId
  {
    ChainAssigned(p, argc + 1, k);
    if k < l {
      ChainAscends(p, argc + 1, k, l);
    } else if l < k {
      ChainAscends(p, argc + 1, l, k);
    }
  }

  /** A declared name has the slot of its innermost declaration. */
  lemma {:induction false} LookupInnermost(p: seq<CodeBlock>, name: string, args: Names, k: nat)
    requires Chain(p) && k < |p| && name in p[k].vars && forall l :: k < l < |p| ==> name !in p[l].vars
    ensures Lookup(p, name, args) == Some(IndexOf(p[k].vars, name) + p[k].startingVarId)
    decreases |p|
  {
    if k < |p| - 1 {
      var outer := p[..|p| - 1];
      assert forall l :: k < l < |outer| ==> name !in outer[l].vars;
      LookupInnermost(outer, name, args, k);
    }
  }

  lemma FirstPlace(names: Names, name: string)
    ensures IndexOf(names, name) < |names| <==> name in names
  {
    if name in names {
      var j :| 0 <= j < |names| && names[j] == name;
    }
  }

  /** A name that no block declares is the argument of that name: the first one is in slot 1. No other name is found. */
  lemma {:induction false} LookupArgument(p: seq<CodeBlock>, name: string, args: Names)
    requires Chain(p) && forall l :: 0 <= l < |p| ==> name !in p[l].vars
    ensures Lookup(p, name, args).Some? <==> name in args
    ensures forall i: nat :: i < |args| && args[i] == name && name !in args[..i] ==> Lookup(p, name, args) == Some(i + 1)
    decreases |p|
  {
    FirstPlace(p[|p| - 1].vars, name);
    if |p| > 1 {
      LookupArgument(p[..|p| - 1], name, args);
    } else {
      FirstPlace(args, name);
      forall i: nat | i < |args| && args[i] == name && name !in args[..i] ensures IndexOf(args, name) == i {
        assert forall j :: 0 <= j < i ==> args[..i][j] == args[j];
      }
    }
  }

  lemma {:induction false} LookupWhere(p: seq<CodeBlock>, name: string, args: Names) returns (k: int)
    requires Chain(p) && Lookup(p, name, args).Some?
    ensures -1 <= k < |p|
    ensures k >= 0 ==>
      IndexOf(p[k].vars, name) < |p[k].vars| && Lookup(p, name, args) == Some(IndexOf(p[k].vars, name) + p[k].startingVarId)
    ensures k == -1 ==> IndexOf(args, name) < |args| && Lookup(p, name, args) == Some(IndexOf(args, name) + 1)
    decreases |p|
  {
    var b := p[|p| - 1];
    if IndexOf(b.vars, name) < |b.vars| {
      k := |p| - 1;
    } else if |p| > 1 {
      k := LookupWhere(p[..|p| - 1], name, args);
    } else {
      k := -1;
    }
  }

  /** Two names that are visible in a block have different slots. */
  lemma LookupInjective(p: seq<CodeBlock>, x: string, y: string, args: Names)
    requires Chain(p) && p[0].Tree() && p[0].Assigned(|args| + 1)
    requires Lookup(p, x, args).Some? && Lookup(p, y, args).Some?
    ensures Lookup(p, x, args) == Lookup(p, y, args) <==> x == y
  {
    hide CodeBlock.Tree, CodeBlock.Assigned, CodeBlock.Highest, Lookup;
    var k := LookupWhere(p, x, args);
    var l := LookupWhere(p, y, args);
    if k >= 0 && l >= 0 {
      SlotsApart(p, |args|, k, IndexOf(p[k].vars, x), l, IndexOf(p[l].vars, y));
    } else if k >= 0 {
      SlotsApart(p, |args|, k, IndexOf(p[k].vars, x), k, IndexOf(p[k].vars, x));
    } else if l >= 0 {
      SlotsApart(p, |args|, l, IndexOf(p[l].vars, y), l, IndexOf(p[l].vars, y));
    }
  }
}
