/**
 One simulation theorem for every transformation of code: a certificate says where each instruction
 went, which instructions were merged, which slots are never read and which slots hold a constant.
 */
module Simulation {
  import opened Prelude
  import opened Int64
  import opened Opcodes
  import opened Machine

  /**
   `places[pc]` is the new address of instruction pc. `mid` are the instructions inside a merged group,
   where a run never stops to be compared. A `dead` slot is never read. A `known` slot holds its
   constant whenever it has been written.
   */
  datatype Cert = Cert(places: seq<nat>, mid: set<nat>, dead: set<nat>, known: map<nat, int64>)
  type Certs = seq<Cert>

  // ----- certificates -----

  /** The run can come here only from the instruction before, if that instruction pushes. */
  predicate CleanPc(c: seq<Instr>, pc: nat)
  {
    pc == 0 || pc > |c| || !(c[pc - 1].PushI? || c[pc - 1].LoadVar?)
  }

  predicate CleanTargets(c: seq<Instr>)
  {
    forall i :: 0 <= i < |c| && Target(c[i]).Some? ==> CleanPc(c, Target(c[i]).value)
  }

  /** Every write to a known slot stores its constant, or copies a slot known to hold the same one. */
  predicate KnownWrites(c: seq<Instr>, argc: nat, known: map<nat, int64>)
  {
    && (forall v :: v in known ==> v > argc)
    && (forall i {:trigger KnownWrite(c, known, i)} :: 0 <= i < |c| ==> KnownWrite(c, known, i))
  }

  predicate KnownWrite(c: seq<Instr>, known: map<nat, int64>, i: nat)
    requires i < |c|
  {
    match c[i]
    case StoreVar(v) =>
      v in known ==>
        i > 0 && (c[i - 1] == PushI(known[v]) ||
                  (c[i - 1].LoadVar? && c[i - 1].v in known && known[c[i - 1].v] == known[v]))
    case IncVar(v, _) => v !in known
    case PushTry(v, _) => v !in known
    case _ => true
  }

  predicate Placed(k: Cert, pc: nat)
  {
    pc < |k.places| && pc !in k.mid
  }

  /** The instruction with its code address replaced by the new one. */
  function Moved(k: Cert, i: Instr): Instr
  {
    match Target(i)
    case None => i
    case Some(t) => if t < |k.places| then Retarget(i, k.places[t]) else i
  }

  predicate Reads(i: Instr, slots: set<nat>)
  {
    (i.LoadVar? || i.IncVar?) && i.v in slots
  }

  /** j does at the new place what instruction pc did at the old one. */
  predicate Stands(c: seq<Instr>, k: Cert, pc: nat, j: Instr)
    requires pc < |c|
  {
    var i := c[pc];
    || (j == Moved(k, i) && !Reads(i, k.dead) && (Target(i).Some? ==> Placed(k, Target(i).value)))
    || (i.Arith? && j == Arith(i.op, Integer))
    || (i.Not? && j == Not(Integer))
    || (i.LoadVar? && pc > 0 && c[pc - 1] == i && j == Dup)
    || (i.LoadVar? && i.v in k.known && j == PushI(k.known[i.v]))
  }

  predicate Kept(c: seq<Instr>, d: Code, k: Cert, pc: nat)
    requires pc < |c| && |k.places| == |c| + 1
  {
    pc + 1 !in k.mid &&
    match Fetch(d, k.places[pc])
    case None => false
    case Some((j, next)) => next == k.places[pc + 1] && Stands(c, k, pc, j)
  }

  /** PUSHI; STORE_VAR to a dead slot, removed. */
  predicate Dropped(c: seq<Instr>, k: Cert, pc: nat)
    requires pc < |c| && |k.places| == |c| + 1
  {
    pc + 2 <= |c| && pc + 1 in k.mid && pc + 2 !in k.mid && k.places[pc + 2] == k.places[pc] &&
    c[pc].PushI? && c[pc + 1].StoreVar? && c[pc + 1].v in k.dead
  }

  /** PUSHI; PUSHI; arithmetic, replaced by one PUSHI. */
  predicate Folded(c: seq<Instr>, d: Code, k: Cert, pc: nat)
    requires pc < |c| && |k.places| == |c| + 1
  {
    pc + 3 <= |c| && pc + 1 in k.mid && pc + 2 in k.mid && pc + 3 !in k.mid &&
    c[pc].PushI? && c[pc + 1].PushI? && c[pc + 2].Arith? &&
    match Compute(c[pc + 2].op, c[pc + 1].i, c[pc].i)
    case None => false
    case Some(x) => Fetch(d, k.places[pc]) == Some((PushI(x), k.places[pc + 3]))
  }

  predicate Certifies(c: seq<Instr>, argc: nat, d: Code, k: Cert)
  {
    && |k.places| == |c| + 1 && k.places[0] == 0 && 0 !in k.mid
    && CleanTargets(c) && KnownWrites(c, argc, k.known)
    && forall pc {:trigger Kept(c, d, k, pc)} ::
         0 <= pc < |c| && pc !in k.mid ==> Kept(c, d, k, pc) || Dropped(c, k, pc) || Folded(c, d, k, pc)
  }

  /** q is p, transformed function by function. */
  predicate Transforms(p: Program, q: Program, ks: Certs)
  {
    |p| == |q| == |ks| &&
    forall f :: 0 <= f < |p| ==>
      p[f].code.Indexed? && p[f].sig == q[f].sig && Certifies(p[f].code.instrs, p[f].sig.argc, q[f].code, ks[f])
  }

  // ----- an invariant of the original run -----

  predicate KnownValues(known: map<nat, int64>, locals: seq<Value>)
  {
    forall v :: v in known && v < |locals| ==> locals[v] == Unset || locals[v] == Int(known[v])
  }

  predicate HandlerOk(c: seq<Instr>, known: map<nat, int64>, h: Handler)
  {
    h.excepVar !in known && CleanPc(c, h.pc)
  }

  /** What holds of a frame whatever its pc. */
  predicate BodyOk(p: Program, ks: Certs, fr: Frame)
  {
    fr.f < |p| == |ks| && p[fr.f].code.Indexed? &&
    KnownValues(ks[fr.f].known, fr.locals) &&
    forall h :: h in fr.handlers ==> HandlerOk(p[fr.f].code.instrs, ks[fr.f].known, h)
  }

  predicate CallersOk(p: Program, ks: Certs, cs: Frames)
  {
    match cs
    case Bottom => true
    case Caller(c, below) => BodyOk(p, ks, c) && CleanPc(p[c.f].code.instrs, c.pc) && CallersOk(p, ks, below)
  }

  /** After PUSHI or LOAD_VAR, its value is on top of the stack. */
  predicate TopOk(c: seq<Instr>, fr: Frame, st: Stack)
  {
    0 < fr.pc <= |c| ==>
      (c[fr.pc - 1].PushI? ==> st.Push? && st.top == Operand(Int(c[fr.pc - 1].i))) &&
      (c[fr.pc - 1].LoadVar? ==>
         st.Push? && c[fr.pc - 1].v < |fr.locals| && fr.locals[c[fr.pc - 1].v] != Unset &&
         st.top == Operand(fr.locals[c[fr.pc - 1].v]))
  }

  predicate Inv(p: Program, ks: Certs, s: State)
  {
    match s
    case Running(fr, cs, st) =>
      BodyOk(p, ks, fr) && TopOk(p[fr.f].code.instrs, fr, st) && CallersOk(p, ks, cs)
    case _ => true
  }

  lemma {:induction false} UnwindInv(p: Program, ks: Certs, x: Value, fr: Frame, cs: Frames, st: Stack)
    requires BodyOk(p, ks, fr) && CallersOk(p, ks, cs)
    ensures Inv(p, ks, Unwind(x, fr, cs, st))
    decreases cs
  {
    if |fr.handlers| == 0 {
      match PopToMarker(st)
      case None =>
      case Some(rest) =>
        match cs {
          case Bottom =>
          case Caller(c, below) => UnwindInv(p, ks, x, c, below, rest);
        }
    } else {
      assert fr.handlers[|fr.handlers| - 1] in fr.handlers;
    }
  }

  lemma OperateInv(p: Program, ks: Certs, fr: Frame, cs: Frames, st: Stack)
    requires Inv(p, ks, Running(fr, cs, st))
    requires fr.pc < |p[fr.f].code.instrs| && KnownWrite(p[fr.f].code.instrs, ks[fr.f].known, fr.pc)
    requires !Control(p[fr.f].code.instrs[fr.pc])
    ensures match Operate(p[fr.f].code.instrs[fr.pc], fr.locals, fr.flags, st)
      case None => true
      case Some(d) =>
        Inv(p, ks, Running(fr.(pc := fr.pc + 1, locals := d.locals, flags := d.flags), cs, d.stack))
  {
  }

  lemma ReturnInv(p: Program, ks: Certs, v: Value, cs: Frames, st: Stack)
    requires CallersOk(p, ks, cs)
    ensures Inv(p, ks, ReturnFrom(v, cs, st))
  {
  }

  lemma EnterInv(p: Program, q: Program, ks: Certs, f: nat, args: List<Value>, cs: Frames, st: Stack)
    requires Transforms(p, q, ks) && CallersOk(p, ks, cs) && Callable(p, f, Length(args))
    ensures Inv(p, ks, Enter(p, f, args, cs, st))
  {
    assert Certifies(p[f].code.instrs, p[f].sig.argc, q[f].code, ks[f]);
    assert forall v :: v in ks[f].known ==> v > p[f].sig.argc;
  }

  lemma TransferInv(p: Program, q: Program, ks: Certs, fr: Frame, cs: Frames, st: Stack)
    requires Transforms(p, q, ks) && Inv(p, ks, Running(fr, cs, st))
    requires fr.pc < |p[fr.f].code.instrs| && Control(p[fr.f].code.instrs[fr.pc])
    ensures Inv(p, ks, Transfer(p, p[fr.f].code.instrs[fr.pc], fr.pc + 1, fr, cs, st))
  {
    hide Unwind, ReturnFrom, PopArgs, Enter, Callable, PopToMarker, KnownValues, TopOk, CallersOk;
    var c, i := p[fr.f].code.instrs, p[fr.f].code.instrs[fr.pc];
    var go := fr.(pc := fr.pc + 1);
    assert Certifies(c, p[fr.f].sig.argc, q[fr.f].code, ks[fr.f]);
    assert KnownWrite(c, ks[fr.f].known, fr.pc);
    match i
    case Return =>
      if st.Push? && st.top.Operand? {
        ReturnInv(p, ks, st.top.v, cs, st.below);
      }
    case Throw =>
      if st.Push? && st.top.Operand? {
        UnwindInv(p, ks, Exc(st.top.v), go, cs, st.below);
      }
    case CallStatic(f, count) =>
      PopArgsLength(count, st, Nil);
      match PopArgs(count, st, Nil) {
        case None =>
        case Some((args, below)) =>
          if Callable(p, f, count) {
            EnterInv(p, q, ks, f, args, Caller(go, cs), below);
          }
      }
    case Jmp(_) => JumpInv(p, ks, fr, cs, st);
    case Branch(_, _) => JumpInv(p, ks, fr, cs, st);
    case PushTry(_, _) => JumpInv(p, ks, fr, cs, st);
    case PopTry => JumpInv(p, ks, fr, cs, st);
  }

  /** Control instructions that stay in the frame. */
  lemma JumpInv(p: Program, ks: Certs, fr: Frame, cs: Frames, st: Stack)
    requires Inv(p, ks, Running(fr, cs, st)) && fr.pc < |p[fr.f].code.instrs|
    requires CleanTargets(p[fr.f].code.instrs) && KnownWrite(p[fr.f].code.instrs, ks[fr.f].known, fr.pc)
    requires var i := p[fr.f].code.instrs[fr.pc]; i.Jmp? || i.Branch? || i.PushTry? || i.PopTry?
    ensures Inv(p, ks, Transfer(p, p[fr.f].code.instrs[fr.pc], fr.pc + 1, fr, cs, st))
  {
    hide KnownValues, TopOk, CallersOk;
    var c, i := p[fr.f].code.instrs, p[fr.f].code.instrs[fr.pc];
    var go := fr.(pc := fr.pc + 1);
    match i
    case Jmp(t) => CleanTop(c, fr.(pc := t), st);
    case Branch(_, t) =>
      CleanTop(c, fr.(pc := t), st);
      CleanTop(c, go, st);
    case PushTry(v, t) => CleanTop(c, go.(handlers := fr.handlers + [Handler(v, t)]), st);
    case PopTry =>
      if |fr.handlers| > 0 {
        CleanTop(c, go.(handlers := fr.handlers[..|fr.handlers| - 1]), st);
      }
  }

  lemma CleanTop(c: seq<Instr>, fr: Frame, st: Stack)
    requires CleanPc(c, fr.pc)
    ensures TopOk(c, fr, st)
  {
  }

  lemma {:induction false} PopArgsLength(n: nat, st: Stack, acc: List<Value>)
    ensures PopArgs(n, st, acc).Some? ==> Length(PopArgs(n, st, acc).value.0) == n + Length(acc)
    decreases n
  {
    if n > 0 && st.Push? && st.top.Operand? {
      PopArgsLength(n - 1, st.below, Cons(st.top.v, acc));
    }
  }

  lemma StepInv(p: Program, q: Program, ks: Certs, s: State)
    requires Transforms(p, q, ks) && Inv(p, ks, s)
    ensures Inv(p, ks, Step(p, s))
  {
    hide Transfer, Operate;
    match s
    case Running(fr, cs, st) =>
      if fr.pc < |p[fr.f].code.instrs| {
        assert KnownWrite(p[fr.f].code.instrs, ks[fr.f].known, fr.pc);
        if Control(p[fr.f].code.instrs[fr.pc]) {
          TransferInv(p, q, ks, fr, cs, st);
        } else {
          OperateInv(p, ks, fr, cs, st);
        }
      }
    case _ =>
  }

  // ----- the simulation relation -----

  predicate SameLocals(dead: set<nat>, a: seq<Value>, b: seq<Value>)
  {
    |a| == |b| && forall v: nat :: v < |a| && v !in dead ==> a[v] == b[v]
  }

  predicate SameHandler(k: Cert, a: Handler, b: Handler)
  {
    a.excepVar == b.excepVar && Placed(k, a.pc) && b.pc == k.places[a.pc]
  }

  predicate SameBody(ks: Certs, a: Frame, b: Frame)
  {
    a.f == b.f < |ks| && a.flags == b.flags && SameLocals(ks[a.f].dead, a.locals, b.locals) &&
    |a.handlers| == |b.handlers| &&
    forall k :: 0 <= k < |a.handlers| ==> SameHandler(ks[a.f], a.handlers[k], b.handlers[k])
  }

  predicate SameFrame(ks: Certs, a: Frame, b: Frame)
  {
    SameBody(ks, a, b) && Placed(ks[a.f], a.pc) && b.pc == ks[a.f].places[a.pc]
  }

  predicate SameCallers(ks: Certs, cs: Frames, ds: Frames)
  {
    match (cs, ds)
    case (Bottom, Bottom) => true
    case (Caller(a, below), Caller(b, beneath)) => SameFrame(ks, a, b) && SameCallers(ks, below, beneath)
    case _ => false
  }

  predicate Same(ks: Certs, s: State, t: State)
  {
    match s
    case Running(a, cs, st) => t.Running? && SameFrame(ks, a, t.frame) && SameCallers(ks, cs, t.callers) && t.stack == st
    case Undefined => true
    case _ => s == t
  }

  lemma {:induction false} SameDepth(ks: Certs, cs: Frames, ds: Frames)
    requires SameCallers(ks, cs, ds)
    ensures Depth(cs) == Depth(ds)
  {
    if cs.Caller? {
      SameDepth(ks, cs.below, ds.below);
    }
  }

  lemma {:induction false} UnwindSame(ks: Certs, x: Value, a: Frame, cs: Frames, b: Frame, ds: Frames, st: Stack)
    requires SameBody(ks, a, b) && SameCallers(ks, cs, ds)
    ensures Same(ks, Unwind(x, a, cs, st), Unwind(x, b, ds, st))
    decreases cs
  {
    if |a.handlers| == 0 {
      match PopToMarker(st)
      case None =>
      case Some(rest) =>
        if cs.Caller? {
          UnwindSame(ks, x, cs.frame, cs.below, ds.frame, ds.below, rest);
        }
    } else {
      var k := |a.handlers| - 1;
      assert SameHandler(ks[a.f], a.handlers[k], b.handlers[k]);
    }
  }

  /** An instruction that reads no dead slot does the same in both frames. */
  lemma OperateSame(k: Cert, i: Instr, a: seq<Value>, b: seq<Value>, fl: Flags, st: Stack)
    requires SameLocals(k.dead, a, b) && !Reads(i, k.dead)
    ensures match (Operate(i, a, fl, st), Operate(i, b, fl, st))
      case (Some(d), Some(e)) => SameLocals(k.dead, d.locals, e.locals) && d.flags == e.flags && d.stack == e.stack
      case (None, _) => true
      case _ => false
  {
  }

  /** The retyped, duplicated and constant forms of an instruction do what the original does. */
  lemma OperateStands(c: seq<Instr>, k: Cert, fr: Frame, st: Stack, j: Instr)
    requires fr.pc < |c| && Stands(c, k, fr.pc, j) && !Control(c[fr.pc])
    requires TopOk(c, fr, st) && KnownValues(k.known, fr.locals)
    ensures !Control(j)
    ensures var d := Operate(c[fr.pc], fr.locals, fr.flags, st);
      d.Some? ==> Operate(j, fr.locals, fr.flags, st) == d
    ensures !Reads(j, k.dead)
  {
  }

  // ----- the diagram -----

  lemma KeptData(p: Program, q: Program, ks: Certs, i: Instr, j: Instr, a: Frame, cs: Frames, b: Frame, ds: Frames,
                 st: Stack, next: nat)
    requires SameFrame(ks, a, b) && SameCallers(ks, cs, ds)
    requires Placed(ks[a.f], a.pc + 1) && next == ks[a.f].places[a.pc + 1]
    requires !Control(i) && !Control(j) && !Reads(j, ks[a.f].dead)
    requires Operate(i, a.locals, a.flags, st).Some? ==>
      Operate(j, a.locals, a.flags, st) == Operate(i, a.locals, a.flags, st)
    ensures Same(ks, Execute(p, i, a.pc + 1, a, cs, st), Execute(q, j, next, b, ds, st))
  {
    OperateSame(ks[a.f], j, a.locals, b.locals, a.flags, st);
    hide Operate, Transfer;
  }

  lemma CallSame(p: Program, q: Program, ks: Certs, f: nat, count: nat, a: Frame, cs: Frames, b: Frame, ds: Frames,
                 st: Stack)
    requires Transforms(p, q, ks) && SameFrame(ks, a, b) && SameCallers(ks, cs, ds)
    requires Callable(p, f, count)
    ensures match PopArgs(count, st, Nil)
      case None => true
      case Some((args, below)) => Same(ks, Enter(p, f, args, Caller(a, cs), below), Enter(q, f, args, Caller(b, ds), below))
  {
    assert p[f].sig == q[f].sig && Certifies(p[f].code.instrs, p[f].sig.argc, q[f].code, ks[f]);
    SameDepth(ks, cs, ds);
  }

  lemma MoveSame(ks: Certs, a: Frame, b: Frame, t: nat)
    requires SameBody(ks, a, b) && Placed(ks[a.f], t)
    ensures SameFrame(ks, a.(pc := t), b.(pc := ks[a.f].places[t]))
  {
  }

  lemma HandlersSame(ks: Certs, a: Frame, b: Frame, h: Handler, g: Handler)
    requires SameBody(ks, a, b)
    ensures SameHandler(ks[a.f], h, g) ==> SameBody(ks, a.(handlers := a.handlers + [h]), b.(handlers := b.handlers + [g]))
    ensures |a.handlers| > 0 ==>
      SameBody(ks, a.(handlers := a.handlers[..|a.handlers| - 1]), b.(handlers := b.handlers[..|b.handlers| - 1]))
  {
  }

  lemma ReturnSame(ks: Certs, v: Value, cs: Frames, ds: Frames, st: Stack)
    requires SameCallers(ks, cs, ds)
    ensures Same(ks, ReturnFrom(v, cs, st), ReturnFrom(v, ds, st))
  {
    SameDepth(ks, cs, ds);
  }

  lemma KeptControl(p: Program, q: Program, ks: Certs, i: Instr, a: Frame, cs: Frames, b: Frame, ds: Frames,
                    st: Stack, next: nat)
    requires Transforms(p, q, ks) && SameFrame(ks, a, b) && SameCallers(ks, cs, ds)
    requires Placed(ks[a.f], a.pc + 1) && next == ks[a.f].places[a.pc + 1]
    requires Control(i) && (Target(i).Some? ==> Placed(ks[a.f], Target(i).value))
    ensures Same(ks, Transfer(p, i, a.pc + 1, a, cs, st), Transfer(q, Moved(ks[a.f], i), next, b, ds, st))
  {
    hide Unwind, ReturnFrom, PopArgs, Enter, SameBody, SameCallers;
    SameBodyParts(ks, a, b);
    MoveSame(ks, a, b, a.pc + 1);
    var a1, b1 := a.(pc := a.pc + 1), b.(pc := next);
    match i
    case Return =>
      if st.Push? && st.top.Operand? {
        ReturnSame(ks, st.top.v, cs, ds, st.below);
      }
    case Throw =>
      if st.Push? && st.top.Operand? {
        UnwindSame(ks, Exc(st.top.v), a1, cs, b1, ds, st.below);
      }
    case CallStatic(f, count) =>
      if Callable(p, f, count) {
        assert p[f].sig == q[f].sig;
        CallSame(p, q, ks, f, count, a1, cs, b1, ds, st);
      }
    case PushTry(_, _) => JumpControl(p, q, ks, i, a, cs, b, ds, st, next);
    case PopTry => JumpControl(p, q, ks, i, a, cs, b, ds, st, next);
    case Jmp(_) => JumpControl(p, q, ks, i, a, cs, b, ds, st, next);
    case Branch(_, _) => JumpControl(p, q, ks, i, a, cs, b, ds, st, next);
  }

  /** Control instructions that stay in the frame. */
  lemma JumpControl(p: Program, q: Program, ks: Certs, i: Instr, a: Frame, cs: Frames, b: Frame, ds: Frames,
                    st: Stack, next: nat)
    requires SameFrame(ks, a, b) && SameCallers(ks, cs, ds)
    requires Placed(ks[a.f], a.pc + 1) && next == ks[a.f].places[a.pc + 1]
    requires i.Jmp? || i.Branch? || i.PushTry? || i.PopTry?
    requires Target(i).Some? ==> Placed(ks[a.f], Target(i).value)
    ensures Same(ks, Transfer(p, i, a.pc + 1, a, cs, st), Transfer(q, Moved(ks[a.f], i), next, b, ds, st))
  {
    hide SameBody, SameCallers;
    SameBodyParts(ks, a, b);
    MoveSame(ks, a, b, a.pc + 1);
    var a1, b1 := a.(pc := a.pc + 1), b.(pc := next);
    match i
    case PushTry(v, t) => HandlersSame(ks, a1, b1, Handler(v, t), Handler(v, ks[a.f].places[t]));
    case PopTry => HandlersSame(ks, a1, b1, Handler(0, 0), Handler(0, 0));
    case Jmp(t) => MoveSame(ks, a, b, t);
    case Branch(_, t) => MoveSame(ks, a, b, t);
  }

  lemma SameBodyParts(ks: Certs, a: Frame, b: Frame)
    requires SameBody(ks, a, b)
    ensures a.f == b.f < |ks| && a.flags == b.flags && |a.handlers| == |b.handlers|
  {
  }

  /** A kept instruction: one step on each side. */
  lemma KeptSame(p: Program, q: Program, ks: Certs, a: Frame, cs: Frames, b: Frame, ds: Frames, st: Stack)
    requires Transforms(p, q, ks) && Inv(p, ks, Running(a, cs, st))
    requires SameFrame(ks, a, b) && SameCallers(ks, cs, ds)
    requires a.pc < |p[a.f].code.instrs| && Kept(p[a.f].code.instrs, q[a.f].code, ks[a.f], a.pc)
    ensures Same(ks, Step(p, Running(a, cs, st)), Step(q, Running(b, ds, st)))
  {
    hide Operate, Transfer, Fetch, CallersOk, SameCallers, SameBody, Stands, TopOk, KnownValues, Moved;
    assert a.f == b.f < |ks| by { SameBodyParts(ks, a, b); }
    var c, k := p[a.f].code.instrs, ks[a.f];
    var (j, next) := Fetch(q[a.f].code, b.pc).value;
    assert Fetch(p[a.f].code, a.pc) == Some((c[a.pc], a.pc + 1)) by { IndexedFetch(c, a.pc); }
    if Control(c[a.pc]) {
      StandsControl(c, k, a.pc, j);
      KeptControl(p, q, ks, c[a.pc], a, cs, b, ds, st, next);
    } else {
      OperateStands(c, k, a, st, j);
      KeptData(p, q, ks, c[a.pc], j, a, cs, b, ds, st, next);
    }
  }

  lemma StandsControl(c: seq<Instr>, k: Cert, pc: nat, j: Instr)
    requires pc < |c| && Stands(c, k, pc, j) && Control(c[pc])
    ensures j == Moved(k, c[pc]) && Control(j)
    ensures Target(c[pc]).Some? ==> Placed(k, Target(c[pc]).value)
  {
  }

  lemma IndexedFetch(c: seq<Instr>, pc: nat)
    ensures Fetch(Indexed(c), pc) == if pc < |c| then Some((c[pc], pc + 1)) else None
  {
  }

  /** A step of PUSHI, wherever it is fetched from. */
  lemma PushStep(p: Program, fr: Frame, cs: Frames, st: Stack, x: int64, next: nat)
    requires fr.f < |p| && Fetch(p[fr.f].code, fr.pc) == Some((PushI(x), next))
    ensures Step(p, Running(fr, cs, st)) == Running(fr.(pc := next), cs, Push(Operand(Int(x)), st))
  {
    hide Transfer, Fetch;
  }

  lemma StepTwice(p: Program, s: State)
    ensures StepN(p, s, 2) == Step(p, Step(p, s))
    ensures StepN(p, s, 3) == Step(p, Step(p, Step(p, s)))
  {
    hide Step;
    assert StepN(p, s, 2) == StepN(p, Step(p, s), 1) == StepN(p, Step(p, Step(p, s)), 0);
    assert StepN(p, s, 3) == StepN(p, Step(p, s), 2) == StepN(p, Step(p, Step(p, s)), 1);
    assert StepN(p, Step(p, Step(p, s)), 1) == StepN(p, Step(p, Step(p, Step(p, s))), 0);
  }

  /** A removed store: two steps against none. */
  lemma DroppedSame(p: Program, q: Program, ks: Certs, a: Frame, cs: Frames, b: Frame, ds: Frames, st: Stack)
    requires Transforms(p, q, ks) && Inv(p, ks, Running(a, cs, st))
    requires SameFrame(ks, a, b) && SameCallers(ks, cs, ds)
    requires a.pc < |p[a.f].code.instrs| && Dropped(p[a.f].code.instrs, ks[a.f], a.pc)
    ensures var s2 := StepN(p, Running(a, cs, st), 2);
      Same(ks, s2, Running(b, ds, st)) &&
      (s2.Running? ==> s2.frame.f == a.f && s2.frame.pc == a.pc + 2)
  {
    hide CallersOk, SameCallers, Fetch, Step, StepN;
    var c := p[a.f].code.instrs;
    IndexedFetch(c, a.pc);
    IndexedFetch(c, a.pc + 1);
    PushStep(p, a, cs, st, c[a.pc].i, a.pc + 1);
    StoreStep(p, a.(pc := a.pc + 1), cs, st, c[a.pc + 1].v, Int(c[a.pc].i), a.pc + 2);
    StepTwice(p, Running(a, cs, st));
  }

  lemma StoreStep(p: Program, fr: Frame, cs: Frames, st: Stack, v: nat, x: Value, next: nat)
    requires fr.f < |p| && Fetch(p[fr.f].code, fr.pc) == Some((StoreVar(v), next))
    ensures Step(p, Running(fr, cs, Push(Operand(x), st))) ==
      if v < |fr.locals| then Running(fr.(pc := next, locals := fr.locals[v := x]), cs, st) else Undefined
  {
    hide Transfer, Fetch;
  }

  /** A folded operation: three steps against one. */
  lemma FoldedSame(p: Program, q: Program, ks: Certs, a: Frame, cs: Frames, b: Frame, ds: Frames, st: Stack)
    requires Transforms(p, q, ks) && Inv(p, ks, Running(a, cs, st))
    requires SameFrame(ks, a, b) && SameCallers(ks, cs, ds)
    requires a.pc < |p[a.f].code.instrs| && Folded(p[a.f].code.instrs, q[a.f].code, ks[a.f], a.pc)
    ensures Same(ks, StepN(p, Running(a, cs, st), 3), Step(q, Running(b, ds, st)))
  {
    hide CallersOk, SameCallers, Fetch, Compute, StepN, Step;
    var c := p[a.f].code.instrs;
    IndexedFetch(c, a.pc);
    IndexedFetch(c, a.pc + 1);
    IndexedFetch(c, a.pc + 2);
    var r, l := c[a.pc].i, c[a.pc + 1].i;
    var x := Compute(c[a.pc + 2].op, l, r).value;
    StepTwice(p, Running(a, cs, st));
    PushStep(p, a, cs, st, r, a.pc + 1);
    PushStep(p, a.(pc := a.pc + 1), cs, Push(Operand(Int(r)), st), l, a.pc + 2);
    ArithStep(p, a.(pc := a.pc + 2), cs, st, c[a.pc + 2], l, r, a.pc + 3);
    PushStep(q, b, ds, st, x, ks[a.f].places[a.pc + 3]);
    MoveSame(ks, a, b, a.pc + 3);
  }

  lemma ArithStep(p: Program, fr: Frame, cs: Frames, st: Stack, i: Instr, l: int64, r: int64, next: nat)
    requires fr.f < |p| && Fetch(p[fr.f].code, fr.pc) == Some((i, next)) && i.Arith? && Compute(i.op, l, r).Some?
    ensures Step(p, Running(fr, cs, Push(Operand(Int(l)), Push(Operand(Int(r)), st))))
         == Running(fr.(pc := next), cs, Push(Operand(Int(Compute(i.op, l, r).value)), st))
  {
    hide Transfer, Fetch, Compute;
  }

  // ----- behaviour -----

  /** The instructions left in the running frame's code. */
  function Left(p: Program, s: State): nat
  {
    match s
    case Running(fr, _, _) =>
      if fr.f < |p| && p[fr.f].code.Indexed? && fr.pc < |p[fr.f].code.instrs|
      then |p[fr.f].code.instrs| - fr.pc else 0
    case _ => 0
  }

  /** From related states, some steps of the original match at most one step of the other. */
  lemma Diagram(p: Program, q: Program, ks: Certs, s: State, t: State)
    returns (m: nat, n: nat)
    requires Transforms(p, q, ks) && Inv(p, ks, s) && Same(ks, s, t) && s.Running?
    ensures 0 < m && n <= 1 && Same(ks, StepN(p, s, m), StepN(q, t, n))
    ensures n == 0 && StepN(p, s, m).Running? ==> Left(p, StepN(p, s, m)) < Left(p, s)
  {
    hide CallersOk, SameCallers, Step, BodyOk, Folded, Dropped, Kept, SameBody, TopOk;
    var a, st := s.frame, s.stack;
    assert a.f < |p| && a.f == t.frame.f by { SameBodyParts(ks, a, t.frame); }
    var c := p[a.f].code.instrs;
    assert Certifies(c, p[a.f].sig.argc, q[a.f].code, ks[a.f]);
    if a.pc == |c| {
      m, n := 1, 0;
      RunOff(p, s);
    } else if Dropped(c, ks[a.f], a.pc) {
      m, n := 2, 0;
      DroppedSame(p, q, ks, a, s.callers, t.frame, t.callers, st);
      DroppedSize(c, ks[a.f], a.pc);
    } else if Folded(c, q[a.f].code, ks[a.f], a.pc) {
      m, n := 3, 1;
      FoldedSame(p, q, ks, a, s.callers, t.frame, t.callers, st);
    } else {
      m, n := 1, 1;
      KeptSame(p, q, ks, a, s.callers, t.frame, t.callers, st);
    }
    assert StepN(p, s, 1) == StepN(p, Step(p, s), 0);
    assert StepN(q, t, 1) == StepN(q, Step(q, t), 0);
  }

  lemma DroppedSize(c: seq<Instr>, k: Cert, pc: nat)
    requires pc < |c| && |k.places| == |c| + 1 && Dropped(c, k, pc)
    ensures pc + 2 <= |c|
  {
  }

  lemma RunOff(p: Program, s: State)
    requires s.Running? && s.frame.f < |p| && p[s.frame.f].code.Indexed? && s.frame.pc == |p[s.frame.f].code.instrs|
    ensures Step(p, s) == Undefined
  {
    hide Execute;
  }

  lemma {:induction false} InvN(p: Program, q: Program, ks: Certs, s: State, n: nat)
    requires Transforms(p, q, ks) && Inv(p, ks, s)
    ensures Inv(p, ks, StepN(p, s, n))
    decreases n
  {
    hide Step, Inv;
    if n > 0 {
      StepInv(p, q, ks, s);
      InvN(p, q, ks, Step(p, s), n - 1);
    }
  }

  /** Every end that the original reaches, the transformed program reaches. */
  lemma {:induction false} Forward(p: Program, q: Program, ks: Certs, s: State, t: State, n: nat, end: State)
    requires Transforms(p, q, ks) && Inv(p, ks, s) && Same(ks, s, t)
    requires StepN(p, s, n) == end && !end.Running? && !end.Undefined?
    ensures Ends(q, t, end)
    decreases n
  {
    hide Step, Inv, SameFrame, SameCallers, Transforms;
    if !s.Running? {
      HaltedStays(p, s, n);
      assert StepN(q, t, 0) == t;
    } else {
      var m, k := Diagram(p, q, ks, s, t);
      var s2, t2 := StepN(p, s, m), StepN(q, t, k);
      if n <= m {
        StepNAdd(p, s, n, m - n);
        HaltedStays(p, end, m - n);
        assert StepN(q, t, k) == end;
      } else {
        StepNAdd(p, s, m, n - m);
        InvN(p, q, ks, s, m);
        Forward(p, q, ks, s2, t2, n - m, end);
        EndsAfter(q, t, k, end);
      }
    }
  }

  /** Every end that the transformed program reaches is an end of the original, if that stays in the fragment. */
  lemma {:induction false} Backward(p: Program, q: Program, ks: Certs, s: State, t: State, n: nat, end: State)
    requires Transforms(p, q, ks) && Inv(p, ks, s) && Same(ks, s, t)
    requires StepN(q, t, n) == end && !end.Running?
    ensures Ends(p, s, end) || Ends(p, s, Undefined)
    decreases n, Left(p, s)
  {
    hide Step, Inv, SameFrame, SameCallers, Transforms;
    if !s.Running? {
      assert StepN(p, s, 0) == s;
      if !s.Undefined? {
        HaltedStays(q, t, n);
      }
    } else {
      var m, k := Diagram(p, q, ks, s, t);
      var s2, t2 := StepN(p, s, m), StepN(q, t, k);
      InvN(p, q, ks, s, m);
      assert t.Running?;
      assert StepN(q, t, 0) == t && n >= k;
      if s2.Running? {
        StepNAdd(q, t, k, n - k);
        Backward(p, q, ks, s2, t2, n - k, end);
        if Ends(p, s2, end) {
          EndsAfter(p, s, m, end);
        } else {
          EndsAfter(p, s, m, Undefined);
        }
      } else if !s2.Undefined? {
        StepNAdd(q, t, k, n - k);
        HaltedStays(q, t2, n - k);
      }
    }
  }

  /** p's runs of one call and q's end alike, as far as p's stay in the fragment. */
  ghost predicate Agree(p: Program, q: Program, f: nat, vs: List<Value>, st: Stack, end: State)
    requires f < |p| && f < |q|
  {
    var s, t := Enter(p, f, vs, Bottom, st), Enter(q, f, vs, Bottom, st);
    && (Ends(p, s, end) && !end.Undefined? ==> Ends(q, t, end))
    && (Ends(q, t, end) ==> Ends(p, s, end) || Ends(p, s, Undefined))
  }

  /**
   q is at least as good as p: every end of p that is inside the fragment is an end of q, and q
   ends in no other way unless p leaves the fragment.
   */
  ghost predicate Refines(p: Program, q: Program)
  {
    && |p| == |q|
    && (forall f :: 0 <= f < |p| ==> p[f].sig == q[f].sig)
    && (forall f: nat, vs: List<Value>, st: Stack, end: State | f < |p| && Callable(p, f, Length(vs)) ::
          Agree(p, q, f, vs, st, end))
  }

  /** A certified transformation changes no behaviour. */
  lemma TransformsRefines(p: Program, q: Program, ks: Certs)
    requires Transforms(p, q, ks)
    ensures Refines(p, q)
  {
    hide Enter, StepN, Inv, Same;
    forall f: nat, vs: List<Value>, st: Stack, end: State | f < |p| && Callable(p, f, Length(vs))
      ensures Agree(p, q, f, vs, st, end)
    {
      var s, t := Enter(p, f, vs, Bottom, st), Enter(q, f, vs, Bottom, st);
      EnterInv(p, q, ks, f, vs, Bottom, st);
      EnterSame(p, q, ks, f, vs, st);
      if Ends(p, s, end) && !end.Undefined? {
        var n: nat :| StepN(p, s, n) == end;
        Forward(p, q, ks, s, t, n, end);
      }
      if Ends(q, t, end) {
        var n: nat :| StepN(q, t, n) == end;
        Backward(p, q, ks, s, t, n, end);
      }
    }
  }

  lemma EnterSame(p: Program, q: Program, ks: Certs, f: nat, vs: List<Value>, st: Stack)
    requires Transforms(p, q, ks) && f < |p|
    ensures Same(ks, Enter(p, f, vs, Bottom, st), Enter(q, f, vs, Bottom, st))
  {
    assert Certifies(p[f].code.instrs, p[f].sig.argc, q[f].code, ks[f]);
  }

  lemma RefinesItself(p: Program)
    ensures Refines(p, p)
  {
    hide Ends, Enter;
  }

  lemma RefinesTransitive(p: Program, q: Program, r: Program)
    requires Refines(p, q) && Refines(q, r)
    ensures Refines(p, r)
  {
    hide Ends, Enter;
    forall f: nat, vs: List<Value>, st: Stack, end: State | f < |p| && Callable(p, f, Length(vs))
      ensures Agree(p, r, f, vs, st, end)
    {
      assert Callable(q, f, Length(vs));
      assert Agree(p, q, f, vs, st, end) && Agree(p, q, f, vs, st, Undefined) && Agree(q, r, f, vs, st, end);
    }
  }
}
