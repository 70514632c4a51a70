/** Frame discipline: in every reachable state each frame's operands lie above its own marker. */
module FrameDiscipline {
  import opened Prelude
  import opened Int64
  import opened Opcodes
  import opened Machine
  import opened Simulation
  import opened WellFormedCode
  import opened OptimiserTheorem

  /** The operands above the nearest marker, and the stack from that marker down. */
  function Operands(st: Stack): nat
  {
    match st
    case Push(Operand(_), below) => 1 + Operands(below)
    case _ => 0
  }

  function MarkerDown(st: Stack): Stack
  {
    match st
    case Push(Operand(_), below) => MarkerDown(below)
    case _ => st
  }

  /** A catch address is inside the code, at a point where no operands are expected. */
  predicate CatchOk(c: seq<Instr>, h: Handler)
  {
    h.pc < |c| && Height(c, h.pc) == 0
  }

  /** A frame inside its code, with at least `need` operands above its own marker. */
  predicate FrameOk(p: Program, fr: Frame, need: int, depth: nat, st: Stack)
  {
    && fr.f < |p| && p[fr.f].code.Indexed?
    && (forall h :: h in fr.handlers ==> CatchOk(p[fr.f].code.instrs, h))
    && need <= Operands(st)
    && MarkerDown(st).Push? && MarkerDown(st).top == Marker(depth)
  }

  predicate InCode(p: Program, fr: Frame)
  {
    fr.f < |p| && p[fr.f].code.Indexed? && fr.pc < |p[fr.f].code.instrs|
  }

  /** A caller waits for one more operand, its callee's result; `base` is what lay below the first frame. */
  predicate CallersShaped(p: Program, cs: Frames, st: Stack, base: Stack)
  {
    match cs
    case Bottom => st == base
    case Caller(c, below) =>
      InCode(p, c) && FrameOk(p, c, Height(p[c.f].code.instrs, c.pc) - 1, Depth(below), st) &&
      CallersShaped(p, below, MarkerDown(st).below, base)
  }

  /** Every frame has its marker, and above it the operands that its code expects. */
  predicate Shaped(p: Program, s: State, base: Stack)
  {
    match s
    case Running(fr, cs, st) =>
      InCode(p, fr) && FrameOk(p, fr, Height(p[fr.f].code.instrs, fr.pc), Depth(cs), st) &&
      CallersShaped(p, cs, MarkerDown(st).below, base)
    case Returned(_, st) => st == base
    case Uncaught(_, st) => st == base
    case _ => true
  }

  // ----- stacks -----

  lemma {:induction false} PopArgsOperands(n: nat, st: Stack, acc: List<Value>)
    ensures PopArgs(n, st, acc).Some? <==> n <= Operands(st)
    ensures PopArgs(n, st, acc).Some? ==>
      var rest := PopArgs(n, st, acc).value.1;
      Operands(rest) == Operands(st) - n && MarkerDown(rest) == MarkerDown(st)
    decreases n
  {
    if n > 0 && st.Push? && st.top.Operand? {
      PopArgsOperands(n - 1, st.below, Cons(st.top.v, acc));
    }
  }

  lemma {:induction false} PopToMarkerDown(st: Stack)
    requires MarkerDown(st).Push?
    ensures MarkerDown(st).top.Marker? && PopToMarker(st) == Some(MarkerDown(st).below)
  {
    if st.Push? && st.top.Operand? {
      PopToMarkerDown(st.below);
    }
  }

  // ----- every step keeps the shape -----

  /** An instruction that only moves data takes its operands from its own frame. */
  lemma OperateShape(i: Instr, locals: seq<Value>, fl: Flags, st: Stack)
    requires !Control(i) && Operands(st) >= Pops(i)
    ensures Operate(i, locals, fl, st).Some? ==>
      var d := Operate(i, locals, fl, st).value;
      Operands(d.stack) == Operands(st) + Growth(i) && MarkerDown(d.stack) == MarkerDown(st)
  {
  }

  lemma {:induction false} UnwindShaped(p: Program, x: Value, fr: Frame, cs: Frames, st: Stack, base: Stack)
    requires FrameOk(p, fr, 0, Depth(cs), st) && CallersShaped(p, cs, MarkerDown(st).below, base)
    ensures Shaped(p, Unwind(x, fr, cs, st), base)
    decreases cs
  {
    if |fr.handlers| == 0 {
      PopToMarkerDown(st);
      if cs.Caller? {
        hide Height;
        UnwindShaped(p, x, cs.frame, cs.below, MarkerDown(st).below, base);
      }
    } else {
      var h := fr.handlers[|fr.handlers| - 1];
      assert h in fr.handlers;
      hide Height;
    }
  }

  lemma FallsThrough(p: Program, f: nat, pc: nat)
    requires Assembled(p) && f < |p| && pc < |p[f].code.instrs|
    ensures var c := p[f].code.instrs;
      Sound(c, 0, pc) && Height(c, pc) >= Pops(c[pc]) &&
      (pc + 1 < |c| ==> Height(c, pc + 1) == Height(c, pc) + Growth(c[pc])) &&
      (pc + 1 == |c| ==> c[pc].Return?) &&
      (Target(c[pc]).Some? ==> Height(c, pc) == 0 && Target(c[pc]).value < |c| && Height(c, Target(c[pc]).value) == 0)
  {
    assert WellFormed(p[f].code.instrs);
    hide Assembled;
    SoundHere(p[f].code.instrs, pc);
  }

  lemma SoundHere(c: seq<Instr>, pc: nat)
    requires WellFormed(c) && pc < |c|
    ensures Sound(c, 0, pc) && Height(c, pc) >= Pops(c[pc])
    ensures pc + 1 < |c| ==> Height(c, pc + 1) == Height(c, pc) + Growth(c[pc])
    ensures pc + 1 == |c| ==> c[pc].Return?
    ensures Target(c[pc]).Some? ==> Height(c, pc) == 0 && Target(c[pc]).value < |c| && Height(c, Target(c[pc]).value) == 0
  {
    WellFormedAt(c, pc);
    hide WellFormed, Pops, Growth, Fed;
  }

  lemma WellFormedAt(c: seq<Instr>, pc: nat)
    requires WellFormed(c) && pc < |c|
    ensures Sound(c, 0, pc) && (Target(c[pc]).Some? ==> Target(c[pc]).value < |c|) && (pc + 1 == |c| ==> c[pc].Return?)
  {
    hide Sound;
  }

  lemma DataShaped(p: Program, fr: Frame, cs: Frames, st: Stack, base: Stack)
    requires Assembled(p) && Shaped(p, Running(fr, cs, st), base) && !Control(p[fr.f].code.instrs[fr.pc])
    ensures Shaped(p, Step(p, Running(fr, cs, st)), base)
  {
    hide Height, Sound, Pops, Growth, WellFormed, CallersShaped, Operate, Assembled, Transfer;
    assert fr.f < |p| && p[fr.f].code.Indexed?;
    var c := p[fr.f].code.instrs;
    FallsThrough(p, fr.f, fr.pc);
    OperateShape(c[fr.pc], fr.locals, fr.flags, st);
  }

  lemma ReturnShaped(p: Program, v: Value, cs: Frames, st: Stack, base: Stack)
    requires st.Push? && st.top == Marker(Depth(cs)) && CallersShaped(p, cs, st.below, base)
    ensures Shaped(p, Resume(v, cs, st.below), base)
  {
    hide Height;
  }

  lemma EnterShaped(p: Program, f: nat, args: List<Value>, cs: Frames, st: Stack, base: Stack)
    requires Assembled(p) && f < |p| && CallersShaped(p, cs, st, base)
    ensures Shaped(p, Enter(p, f, args, cs, st), base)
  {
    assert WellFormed(p[f].code.instrs);
    hide WellFormed, CallersShaped;
  }

  lemma MoveShaped(p: Program, fr: Frame, cs: Frames, st: Stack, base: Stack, to: Frame)
    requires InCode(p, fr) && FrameOk(p, fr, 0, Depth(cs), st) && CallersShaped(p, cs, MarkerDown(st).below, base)
    requires to.f == fr.f && InCode(p, to) && Height(p[to.f].code.instrs, to.pc) == 0
    requires forall h :: h in to.handlers ==> CatchOk(p[to.f].code.instrs, h)
    ensures Shaped(p, Running(to, cs, st), base)
  {
    hide Height, CallersShaped, CatchOk;
  }

  /** Jumps, branches and the handler instructions stand where no operands are expected. */
  lemma JumpShaped(p: Program, fr: Frame, cs: Frames, st: Stack, base: Stack)
    requires Assembled(p) && Shaped(p, Running(fr, cs, st), base)
    requires var i := p[fr.f].code.instrs[fr.pc]; i.Jmp? || i.Branch? || i.PushTry? || i.PopTry?
    ensures Shaped(p, Transfer(p, p[fr.f].code.instrs[fr.pc], fr.pc + 1, fr, cs, st), base)
  {
    hide Height, Sound, WellFormed, CallersShaped, Assembled;
    assert fr.f < |p| && p[fr.f].code.Indexed?;
    var c, i := p[fr.f].code.instrs, p[fr.f].code.instrs[fr.pc];
    FallsThrough(p, fr.f, fr.pc);
    var s := Transfer(p, i, fr.pc + 1, fr, cs, st);
    if s.Running? {
      assert i.PopTry? ==> Height(c, fr.pc + 1) == Height(c, fr.pc);
      if i.PopTry? {
        PopTryShaped(p, fr, cs, st, base);
      } else {
        MoveShaped(p, fr, cs, st, base, s.frame);
      }
    }
  }

  /** POPTRY keeps whatever operands there are. */
  lemma PopTryShaped(p: Program, fr: Frame, cs: Frames, st: Stack, base: Stack)
    requires Assembled(p) && Shaped(p, Running(fr, cs, st), base) && p[fr.f].code.instrs[fr.pc].PopTry?
    requires |fr.handlers| > 0
    ensures Shaped(p, Running(fr.(pc := fr.pc + 1, handlers := fr.handlers[..|fr.handlers| - 1]), cs, st), base)
  {
    hide Height, Sound, WellFormed, CallersShaped, Assembled;
    FallsThrough(p, fr.f, fr.pc);
  }

  lemma CallStaticShaped(p: Program, fr: Frame, cs: Frames, st: Stack, base: Stack)
    requires Assembled(p) && Shaped(p, Running(fr, cs, st), base) && p[fr.f].code.instrs[fr.pc].CallStatic?
    ensures Shaped(p, Transfer(p, p[fr.f].code.instrs[fr.pc], fr.pc + 1, fr, cs, st), base)
  {
    hide Height, Sound, WellFormed, PopArgs, Enter, CallersShaped, Assembled;
    var i, go := p[fr.f].code.instrs[fr.pc], fr.(pc := fr.pc + 1);
    FallsThrough(p, fr.f, fr.pc);
    PopArgsOperands(i.count, st, Nil);
    if Callable(p, i.f, i.count) {
      var (args, below) := PopArgs(i.count, st, Nil).value;
      CallerShaped(p, go, cs, below, base);
      EnterShaped(p, i.f, args, Caller(go, cs), below, base);
    }
  }

  lemma ControlShaped(p: Program, fr: Frame, cs: Frames, st: Stack, base: Stack)
    requires Assembled(p) && Shaped(p, Running(fr, cs, st), base) && Control(p[fr.f].code.instrs[fr.pc])
    ensures Shaped(p, Transfer(p, p[fr.f].code.instrs[fr.pc], fr.pc + 1, fr, cs, st), base)
  {
    hide Height, Sound, WellFormed, Unwind, CallersShaped, Assembled;
    assert fr.f < |p| && p[fr.f].code.Indexed?;
    var i := p[fr.f].code.instrs[fr.pc];
    if i.CallStatic? {
      CallStaticShaped(p, fr, cs, st, base);
    } else if i.Return? || i.Throw? {
      FallsThrough(p, fr.f, fr.pc);
      if i.Throw? {
        UnwindShaped(p, Exc(st.top.v), fr.(pc := fr.pc + 1), cs, st.below, base);
      } else if st.below.Push? && st.below.top == Marker(Depth(cs)) {
        assert MarkerDown(st) == MarkerDown(st.below) == st.below;
        ReturnShaped(p, st.top.v, cs, st.below, base);
      }
    } else {
      JumpShaped(p, fr, cs, st, base);
    }
  }

  lemma CallerShaped(p: Program, fr: Frame, cs: Frames, st: Stack, base: Stack)
    requires InCode(p, fr) && FrameOk(p, fr, Height(p[fr.f].code.instrs, fr.pc) - 1, Depth(cs), st)
    requires CallersShaped(p, cs, MarkerDown(st).below, base)
    ensures CallersShaped(p, Caller(fr, cs), st, base)
  {
    hide Height;
  }

  lemma StepShaped(p: Program, s: State, base: Stack)
    requires Assembled(p) && Shaped(p, s, base)
    ensures Shaped(p, Step(p, s), base)
  {
    hide Height, WellFormed, CallersShaped, Transfer, Assembled;
    if s.Running? {
      var i := p[s.frame.f].code.instrs[s.frame.pc];
      if Control(i) {
        ControlShaped(p, s.frame, s.callers, s.stack, base);
      } else {
        DataShaped(p, s.frame, s.callers, s.stack, base);
      }
    }
  }

  /** The shape holds throughout every run of well-formed code, however its calls nest and whatever it throws. */
  lemma {:induction false} RunShaped(p: Program, s: State, base: Stack, n: nat)
    requires Assembled(p) && Shaped(p, s, base)
    ensures Shaped(p, StepN(p, s, n), base)
    decreases n
  {
    hide Step, Shaped, Assembled;
    if n > 0 {
      StepShaped(p, s, base);
      RunShaped(p, Step(p, s), base, n - 1);
    }
  }

  /** A call from outside starts in shape, and leaves what lay below it untouched, however it ends. */
  lemma CallShaped(p: Program, f: nat, vs: List<Value>, st: Stack, n: nat)
    requires Assembled(p) && f < |p|
    ensures Shaped(p, StepN(p, Enter(p, f, vs, Bottom, st), n), st)
  {
    EnterShaped(p, f, vs, Bottom, st, st);
    hide Enter, Shaped, Assembled, StepN;
    RunShaped(p, Enter(p, f, vs, Bottom, st), st, n);
  }

  /** No instruction takes an operand from below its own frame's marker. */
  lemma NeverUnderflows(p: Program, s: State, base: Stack)
    requires Assembled(p) && Shaped(p, s, base) && s.Running?
    ensures Pops(p[s.frame.f].code.instrs[s.frame.pc]) <= Operands(s.stack)
  {
    FallsThrough(p, s.frame.f, s.frame.pc);
  }

  /** RETURN finds its own marker if and only if the result is its frame's only operand. */
  lemma ReturnFindsMarker(p: Program, s: State, base: Stack)
    requires Assembled(p) && Shaped(p, s, base) && s.Running? && p[s.frame.f].code.instrs[s.frame.pc].Return?
    ensures s.stack.Push? && s.stack.top.Operand?
    ensures Step(p, s) == if Operands(s.stack) == 1
      then Resume(s.stack.top.v, s.callers, MarkerDown(s.stack).below) else Failed
  {
    NeverUnderflows(p, s, base);
    hide Height, CallersShaped, Assembled;
    MarkerBelow(s.stack.below);
  }

  lemma MarkerBelow(st: Stack)
    ensures Operands(st) == 0 <==> MarkerDown(st) == st
  {
    if st.Push? && st.top.Operand? {
      MarkerSmaller(st);
    }
  }

  lemma {:induction false} MarkerSmaller(st: Stack)
    ensures Size(MarkerDown(st)) + Operands(st) == Size(st)
  {
    if st.Push? && st.top.Operand? {
      MarkerSmaller(st.below);
    }
  }

  function Size(st: Stack): nat
  {
    match st
    case Empty => 0
    case Push(_, below) => 1 + Size(below)
  }
}
