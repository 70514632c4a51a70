/** Erasing instructions from a code and relocating the addresses of the rest. */
module Removal {
  import opened Prelude
  import opened Int64
  import opened Opcodes

  /** How many removed instructions stand below address t. */
  function Below(r: set<nat>, t: nat): (n: nat)
    ensures n <= t
  {
    if t == 0 then 0 else Below(r, t - 1) + (if t - 1 in r then 1 else 0)
  }

  function Shift(r: set<nat>, t: nat): nat
  {
    t - Below(r, t)
  }

  function Relocate(r: set<nat>, i: Instr): Instr
  {
    match Target(i)
    case None => i
    case Some(t) => Retarget(i, Shift(r, t))
  }

  function Survivors(c: seq<Instr>, r: set<nat>, n: nat): (s: seq<Instr>)
    requires n <= |c|
    ensures |s| == Shift(r, n)
  {
    if n == 0 then []
    else Survivors(c, r, n - 1) + (if n - 1 in r then [] else [Relocate(r, c[n - 1])])
  }

  /** The code without the instructions in r: every target t becomes t minus the removed addresses below it. */
  function Remove(c: seq<Instr>, r: set<nat>): (d: seq<Instr>)
    ensures |d| == Shift(r, |c|)
  {
    Survivors(c, r, |c|)
  }

  /** removeInstruction: erase one instruction and decrement every address beyond it. */
  function RemoveOne(c: seq<Instr>, pos: nat): (d: seq<Instr>)
    requires pos < |c|
    ensures |d| == |c| - 1
  {
    var rest := c[..pos] + c[pos + 1..];
    seq(|rest|, k requires 0 <= k < |rest| => Decrement(rest[k], pos))
  }

  function Decrement(i: Instr, pos: nat): Instr
  {
    match Target(i)
    case None => i
    case Some(t) => if t > pos then Retarget(i, t - 1) else i
  }

  lemma {:induction false} ShiftMonotone(r: set<nat>, a: nat, b: nat)
    requires a <= b
    ensures Shift(r, a) <= Shift(r, b)
    ensures a < b && a !in r ==> Shift(r, a) < Shift(r, b)
    decreases b
  {
    if a < b {
      ShiftMonotone(r, a, b - 1);
      if a < b - 1 {
        ShiftMonotone(r, a, b - 1);
      }
    }
  }

  /** A kept instruction stands at its shifted address, relocated. */
  lemma {:induction false} SurvivorAt(c: seq<Instr>, r: set<nat>, n: nat, i: nat)
    requires i < n <= |c| && i !in r
    ensures Shift(r, i) < |Survivors(c, r, n)| && Survivors(c, r, n)[Shift(r, i)] == Relocate(r, c[i])
  {
    if i < n - 1 {
      SurvivorAt(c, r, n - 1, i);
    }
  }

  /** Every instruction of the result is a kept one. */
  lemma {:induction false} SurvivorFrom(c: seq<Instr>, r: set<nat>, n: nat, k: nat) returns (i: nat)
    requires n <= |c| && k < Shift(r, n)
    ensures i < n && i !in r && Shift(r, i) == k
    decreases n
  {
    if n - 1 !in r && Shift(r, n - 1) == k {
      i := n - 1;
    } else {
      i := SurvivorFrom(c, r, n - 1, k);
    }
  }

  /** An address that names a removed instruction comes to name the next kept one. */
  lemma {:induction false} TargetOfRemoved(r: set<nat>, t: nat, next: nat)
    requires t <= next && forall a :: t <= a < next ==> a in r
    ensures Shift(r, t) == Shift(r, next)
    decreases next
  {
    if t < next {
      TargetOfRemoved(r, t, next - 1);
    }
  }

  lemma {:induction false} BelowInsert(r: set<nat>, a: nat, t: nat)
    requires a !in r
    ensures Below(r + {a}, t) == Below(r, t) + (if a < t then 1 else 0)
  {
    if t > 0 {
      BelowInsert(r, a, t - 1);
    }
  }

  lemma RelocateInsert(r: set<nat>, a: nat, i: Instr)
    requires a !in r
    ensures Decrement(Relocate(r, i), Shift(r, a)) == Relocate(r + {a}, i)
  {
    if Target(i).Some? {
      var t := Target(i).value;
      BelowInsert(r, a, t);
      if a < t {
        ShiftMonotone(r, a, t);
      } else {
        ShiftMonotone(r, t, a);
      }
    }
  }

  /** Removing one more instruction, at the address it has by now, removes it from the original code. */
  lemma RemoveNext(c: seq<Instr>, r: set<nat>, a: nat)
    requires a < |c| && a !in r
    ensures Shift(r, a) < |Remove(c, r)|
    ensures RemoveOne(Remove(c, r), Shift(r, a)) == Remove(c, r + {a})
  {
    SurvivorAt(c, r, |c|, a);
    var d, pos := Remove(c, r), Shift(r, a);
    var e, want := RemoveOne(d, pos), Remove(c, r + {a});
    BelowInsert(r, a, |c|);
    forall k: nat | k < |want| ensures e[k] == want[k] {
      var i := SurvivorFrom(c, r + {a}, |c|, k);
      BelowInsert(r, a, i);
      SurvivorAt(c, r + {a}, |c|, i);
      SurvivorAt(c, r, |c|, i);
      RelocateInsert(r, a, c[i]);
      if i < a {
        ShiftMonotone(r, i, a);
      } else {
        ShiftMonotone(r, a, i);
      }
    }
  }

  lemma RemoveNone(c: seq<Instr>)
    ensures Remove(c, {}) == c
  {
    BelowNone(|c|);
    forall k: nat | k < |c| ensures Remove(c, {})[k] == c[k] {
      BelowNone(k);
      SurvivorAt(c, {}, |c|, k);
      if Target(c[k]).Some? {
        BelowNone(Target(c[k]).value);
      }
    }
  }

  lemma {:induction false} BelowNone(t: nat)
    ensures Below({}, t) == 0
  {
    if t > 0 {
      BelowNone(t - 1);
    }
  }

  lemma {:induction false} BelowCounts(r: set<nat>, n: nat)
    requires forall a :: a in r ==> a < n
    ensures Below(r, n) == 0 ==> r == {}
    decreases n
  {
    if n > 0 && n - 1 !in r {
      BelowCounts(r, n - 1);
    }
  }
}
