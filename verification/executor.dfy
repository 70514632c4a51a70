/**
 The executor: one activation of Run per frame, a shared context with the operand stack and the pending
 exception. It is proved against the machine, step for step.
 */
module Executing {
  import opened Prelude
  import opened Int64
  import opened Opcodes
  import opened Machine

  /**
   Run ends with success or failure, or uses up its limit of instructions, or leaves the fragment.
   */
  datatype Outcome = Finished(success: bool) | Stopped | Outside

  class Context {
    var stack: Stack
    var exception: bool
    var exceptionValue: Value

    constructor (st: Stack)
      ensures stack == st && !exception
    {
      stack, exception, exceptionValue := st, false, Unset;
    }

    method PushValue(v: Value)
      modifies this`stack
      ensures stack == Push(Operand(v), old(stack))
    {
      stack := Push(Operand(v), stack);
    }

    method PopValue() returns (v: Option<Value>)
      modifies this`stack
      ensures old(stack).Push? && old(stack).top.Operand? ==> v == Some(old(stack).top.v) && stack == old(stack).below
      ensures !(old(stack).Push? && old(stack).top.Operand?) ==> v == None
    {
      match stack {
        case Push(Operand(x), below) =>
          v := Some(x);
          stack := below;
        case _ => v := None;
      }
    }

    method PopInt() returns (i: Option<int64>)
      modifies this`stack
      ensures match old(stack)
        case Push(Operand(Int(k)), below) => i == Some(k) && stack == below
        case _ => i == None
    {
      var v := PopValue();
      i := if v.Some? && v.value.Int? then Some(v.value.i) else None;
    }

    method ThrowException(x: Value)
      modifies this`exception, this`exceptionValue
      ensures exception && exceptionValue == x
    {
      exception, exceptionValue := true, x;
    }
  }

  class Activation {
    const f: nat
    const code: seq<nat>
    const locals: array<Value>
    var pc: nat
    var flags: Flags
    var handlerStack: seq<Handler>
    var running: bool

    constructor (f: nat, code: seq<nat>, slots: nat)
      ensures this.f == f && this.code == code && fresh(locals)
      ensures locals[..] == NewLocals(slots, Nil) && pc == 0 && flags == Flags(false, false, false)
      ensures handlerStack == [] && running
    {
      this.f, this.code := f, code;
      locals := new Value[slots](_ => Unset);
      pc, flags, handlerStack, running := 0, Flags(false, false, false), [], true;
    }

    /** The machine's view of this frame. */
    ghost function View(): Machine.Frame
      reads this, locals
    {
      Machine.Frame(f, pc, locals[..], flags, handlerStack)
    }

    method FetchWord() returns (w: nat)
      requires pc < |code|
      modifies this`pc
      ensures w == code[old(pc)] && pc == old(pc) + 1
    {
      w := code[pc];
      pc := pc + 1;
    }

    /** The opcode and its arguments. */
    method FetchInstruction() returns (i: Option<Instr>)
      modifies this`pc
      ensures match Fetch(Words(code), old(pc))
        case None => i == None
        case Some((j, next)) => i == Some(j) && pc == next
    {
      hide ArgCount, FromWords;
      if pc >= |code| {
        return None;
      }
      ghost var start := pc;
      var opcode := FetchWord();
      if pc + ArgCount(opcode) > |code| {
        return None;
      }
      var args: seq<nat> := [];
      for k := 0 to ArgCount(opcode)
        invariant pc == start + 1 + k && args == code[start + 1..pc]
      {
        var w := FetchWord();
        args := args + [w];
      }
      i := FromWords(opcode, args);
    }
  }

  // ----- opcodes that move data -----

  /** What an opcode function left is what Operate says; it reports an operation outside the fragment. */
  ghost predicate Done(i: Instr, locals: seq<Value>, fl: Flags, st: Stack, ok: bool, locals2: seq<Value>, fl2: Flags,
                       st2: Stack)
  {
    match Operate(i, locals, fl, st)
    case None => !ok
    case Some(d) => ok && d == Data(locals2, fl2, st2)
  }

  method OpcodeLoadVar(v: nat, frame: Activation, context: Context) returns (ok: bool)
    modifies context`stack
    ensures Done(LoadVar(v), frame.locals[..], frame.flags, old(context.stack), ok,
                 frame.locals[..], frame.flags, context.stack)
  {
    ok := v < frame.locals.Length && frame.locals[v] != Unset;
    if ok {
      context.PushValue(frame.locals[v]);
    }
  }

  method OpcodeStoreVar(v: nat, frame: Activation, context: Context) returns (ok: bool)
    modifies context`stack, frame.locals
    ensures Done(StoreVar(v), old(frame.locals[..]), frame.flags, old(context.stack), ok,
                 frame.locals[..], frame.flags, context.stack)
  {
    var x := context.PopValue();
    ok := x.Some? && v < frame.locals.Length;
    if ok {
      frame.locals[v] := x.value;
    }
  }

  method OpcodeIncVar(v: nat, amount: int64, frame: Activation, context: Context) returns (ok: bool)
    modifies frame.locals
    ensures Done(IncVar(v, amount), old(frame.locals[..]), frame.flags, context.stack, ok,
                 frame.locals[..], frame.flags, context.stack)
  {
    ok := v < frame.locals.Length && frame.locals[v].Int?;
    if ok {
      frame.locals[v] := Int(Wrap(frame.locals[v].i + amount));
    }
  }

  method OpcodeDup(frame: Activation, context: Context) returns (ok: bool)
    modifies context`stack
    ensures Done(Dup, frame.locals[..], frame.flags, old(context.stack), ok, frame.locals[..], frame.flags, context.stack)
  {
    ok := context.stack.Push? && context.stack.top.Operand?;
    if ok {
      context.PushValue(context.stack.top.v);
    }
  }

  method OpcodeSwap(frame: Activation, context: Context) returns (ok: bool)
    modifies context`stack
    ensures Done(Swap, frame.locals[..], frame.flags, old(context.stack), ok, frame.locals[..], frame.flags, context.stack)
  {
    var v1 := context.PopValue();
    if v1.None? {
      return false;
    }
    var v2 := context.PopValue();
    ok := v2.Some?;
    if ok {
      context.PushValue(v1.value);
      context.PushValue(v2.value);
    }
  }

  /** Typed and untyped operators do the same to two integers. */
  method OpcodeArith(op: BinOp, ty: Typing, frame: Activation, context: Context) returns (ok: bool)
    modifies context`stack
    ensures Done(Arith(op, ty), frame.locals[..], frame.flags, old(context.stack), ok,
                 frame.locals[..], frame.flags, context.stack)
  {
    hide Wrap, Quotient;
    var v1 := context.PopInt();
    if v1.None? {
      return false;
    }
    var v2 := context.PopInt();
    if v2.None? {
      return false;
    }
    var l: int, r: int := v1.value, v2.value;
    match op {
      case Add => context.PushValue(Int(Wrap(l + r)));
      case Sub => context.PushValue(Int(Wrap(l - r)));
      case Mul => context.PushValue(Int(Wrap(l * r)));
      case Div =>
        if !CanDivide(l, r) {
          return false;
        }
        context.PushValue(Int(Wrap(Quotient(l, r))));
      case And => context.PushValue(Int(if l != 0 && r != 0 then 1 else 0));
    }
    ok := true;
  }

  method OpcodeNot(ty: Typing, frame: Activation, context: Context) returns (ok: bool)
    modifies context`stack
    ensures Done(Not(ty), frame.locals[..], frame.flags, old(context.stack), ok,
                 frame.locals[..], frame.flags, context.stack)
  {
    var v1 := context.PopInt();
    ok := v1.Some?;
    if ok {
      context.PushValue(Int(if v1.value == 0 then 1 else 0));
    }
  }

  method OpcodeCmp(ty: Typing, frame: Activation, context: Context) returns (ok: bool)
    modifies context`stack, frame`flags
    ensures Done(Cmp(ty), frame.locals[..], old(frame.flags), old(context.stack), ok,
                 frame.locals[..], frame.flags, context.stack)
  {
    hide Wrap;
    var left := context.PopInt();
    if left.None? {
      return false;
    }
    var right := context.PopInt();
    if right.None? {
      return false;
    }
    var l: int, r: int := left.value, right.value;
    var result := Wrap(r - l);
    var zero, sign := result == 0, result < 0;
    frame.flags := Flags(zero, sign, !zero || sign);
    ok := true;
  }

  method OpcodePushC(c: Cond, frame: Activation, context: Context)
    modifies context`stack
    ensures Done(PushC(c), frame.locals[..], frame.flags, old(context.stack), true,
                 frame.locals[..], frame.flags, context.stack)
  {
    var fl := frame.flags;
    var b;
    match c {
      case Eq => b := fl.zero;
      case Ne => b := !fl.zero;
      case Lt => b := fl.sign != fl.overflow;
      case Le => b := fl.zero || fl.sign != fl.overflow;
      case Gt => b := !fl.zero && fl.sign == fl.overflow;
      case Ge => b := fl.sign == fl.overflow;
    }
    context.PushValue(Int(if b then 1 else 0));
  }

  method OpcodePop(frame: Activation, context: Context) returns (ok: bool)
    modifies context`stack
    ensures Done(Pop, frame.locals[..], frame.flags, old(context.stack), ok, frame.locals[..], frame.flags, context.stack)
  {
    var v := context.PopValue();
    ok := v.Some?;
  }

  method ExecuteData(i: Instr, frame: Activation, context: Context) returns (ok: bool)
    requires !Control(i)
    modifies context`stack, frame`flags, frame.locals
    ensures Done(i, old(frame.locals[..]), old(frame.flags), old(context.stack), ok,
                 frame.locals[..], frame.flags, context.stack)
  {
    hide Done, Operate;
    match i {
      case LoadVar(v) => ok := OpcodeLoadVar(v, frame, context);
      case StoreVar(v) => ok := OpcodeStoreVar(v, frame, context);
      case IncVar(v, amount) => ok := OpcodeIncVar(v, amount, frame, context);
      case PushI(k) =>
        context.PushValue(Int(k));
        ok := true;
        PushDone(k, frame.locals[..], frame.flags, old(context.stack));
      case Dup => ok := OpcodeDup(frame, context);
      case Swap => ok := OpcodeSwap(frame, context);
      case Pop => ok := OpcodePop(frame, context);
      case Arith(op, ty) => ok := OpcodeArith(op, ty, frame, context);
      case Not(ty) => ok := OpcodeNot(ty, frame, context);
      case Cmp(ty) => ok := OpcodeCmp(ty, frame, context);
      case PushC(c) =>
        OpcodePushC(c, frame, context);
        ok := true;
    }
  }

  lemma PushDone(k: int64, locals: seq<Value>, fl: Flags, st: Stack)
    ensures Done(PushI(k), locals, fl, st, true, locals, fl, Push(Operand(Int(k)), st))
  {
  }

  // ----- branches -----

  method OpcodeBranch(c: Cond, dest: nat, frame: Activation)
    modifies frame`pc
    ensures frame.pc == if Jumps(c, frame.flags) then dest else old(frame.pc)
  {
    var fl := frame.flags;
    var taken;
    match c {
      case Eq => taken := fl.zero;
      case Ne => taken := !fl.zero;
      case Lt => taken := fl.sign != fl.overflow;
      case Le => taken := !fl.zero || fl.sign == fl.overflow;
      case Gt => taken := !fl.zero && fl.sign == fl.overflow;
      case Ge => taken := fl.sign == fl.overflow;
    }
    if taken {
      frame.pc := dest;
    }
  }

  // ----- frames -----

  /** handleException: enter the innermost handler, or pop through the frame marker and leave. */
  method HandleException(frame: Activation, context: Context) returns (ok: bool)
    requires context.exception
    modifies context, frame, frame.locals
    ensures context.exceptionValue == old(context.exceptionValue)
    ensures old(frame.handlerStack) == [] ==>
      match PopToMarker(old(context.stack))
      case None => !ok
      case Some(rest) => ok && !frame.running && context.exception && context.stack == rest
    ensures old(frame.handlerStack) != [] ==>
      var h := old(frame.handlerStack[|frame.handlerStack| - 1]);
      if h.excepVar < frame.locals.Length then
        ok && frame.running == old(frame.running) && !context.exception && context.stack == old(context.stack) &&
        frame.View() == old(frame.View()).(pc := h.pc,
          locals := old(frame.locals[..])[h.excepVar := context.exceptionValue],
          handlers := old(frame.handlerStack)[..|old(frame.handlerStack)| - 1])
      else !ok
  {
    if frame.handlerStack == [] {
      frame.running := false;
      var marker := false;
      while !marker
        invariant !frame.running && context.exception && context.exceptionValue == old(context.exceptionValue)
        invariant if marker then PopToMarker(old(context.stack)) == Some(context.stack)
                  else PopToMarker(old(context.stack)) == PopToMarker(context.stack)
        decreases !marker, context.stack
      {
        match context.stack {
          case Empty => return false;
          case Push(c, below) =>
            context.stack := below;
            marker := c.Marker?;
        }
      }
      ok := true;
    } else {
      var h := frame.handlerStack[|frame.handlerStack| - 1];
      frame.handlerStack := frame.handlerStack[..|frame.handlerStack| - 1];
      context.exception := false;
      frame.pc := h.pc;
      ok := h.excepVar < frame.locals.Length;
      if ok {
        frame.locals[h.excepVar] := context.exceptionValue;
      }
    }
  }

  /** opcodeReturn: put the result in the place of the frame's own marker; false if that is not the next value. */
  method OpcodeReturn(depth: nat, frame: Activation, context: Context) returns (ok: bool, success: bool)
    modifies context`stack, frame`running
    ensures match old(context.stack)
      case Push(Operand(v), Push(c, below)) =>
        ok && success == (c == Marker(depth)) &&
        (success ==> context.stack == Push(Operand(v), below) && !frame.running)
      case _ => !ok
  {
    ok, success := true, false;
    var result := context.PopValue();
    if result.None? {
      return false, false;
    }
    match context.stack {
      case Empty => return false, false;
      case Push(c, below) =>
        context.stack := below;
        if c != Marker(depth) {
          return;
        }
        context.PushValue(result.value);
        frame.running := false;
        success := true;
    }
  }

  /** Move the arguments from the stack into the frame's first locals, the last one first. */
  method PopArguments(argCount: nat, frame: Activation, context: Context) returns (ok: bool, ghost args: List<Value>)
    requires argCount < frame.locals.Length && forall k :: 0 <= k < frame.locals.Length ==> frame.locals[k] == Unset
    modifies context`stack, frame.locals
    ensures match PopArgs(argCount, old(context.stack), Nil)
      case None => !ok
      case Some((vs, below)) =>
        ok && args == vs && context.stack == below && frame.locals[..] == NewLocals(frame.locals.Length, vs)
    ensures forall vs, below :: old(context.stack) == PushAll(vs, below) && Length(vs) == argCount ==>
      && ok && args == vs && context.stack == below
      && (forall k: nat :: k < argCount ==> frame.locals[k + 1] == Nth(vs, k))
      && forall k :: 0 <= k < frame.locals.Length && !(1 <= k <= argCount) ==> frame.locals[k] == Unset
  {
    ghost var st := context.stack;
    PoppedWherePushed(argCount, st);
    args := Nil;
    for arg := 0 to argCount
      invariant PopArgs(argCount, st, Nil) == PopArgs(argCount - arg, context.stack, args)
      invariant Length(args) == arg
      invariant forall k: nat :: k < arg ==> frame.locals[argCount - arg + 1 + k] == Nth(args, k)
      invariant forall k :: 0 <= k < frame.locals.Length && !(argCount - arg < k <= argCount) ==> frame.locals[k] == Unset
    {
      ghost var before := context.stack;
      var v := context.PopValue();
      if v.None? {
        return false, args;
      }
      frame.locals[argCount - arg] := v.value;
      args := Cons(v.value, args);
      assert forall k: nat :: k < arg ==> Nth(args, k + 1) == Nth(args.tail, k);
    }
    ok := true;
    assert frame.locals[..] == NewLocals(frame.locals.Length, args);
  }

  lemma PoppedWherePushed(n: nat, st: Stack)
    ensures forall vs, below :: st == PushAll(vs, below) && Length(vs) == n ==> PopArgs(n, st, Nil) == Some((vs, below))
  {
    forall vs, below | st == PushAll(vs, below) && Length(vs) == n ensures PopArgs(n, st, Nil) == Some((vs, below)) {
      PopArgsPushAll(vs, 0, below, Nil);
      AppendNil(vs);
    }
  }

  lemma OperateMarker(i: Instr, locals: seq<Value>, fl: Flags, st: Stack)
    ensures match Operate(i, locals, fl, st)
      case None => true
      case Some(d) => PopToMarker(d.stack) == PopToMarker(st)
  {
  }

  lemma {:induction false} PopArgsMarker(n: nat, st: Stack, acc: List<Value>)
    ensures match PopArgs(n, st, acc)
      case None => true
      case Some((_, rest)) => PopToMarker(rest) == PopToMarker(st)
    decreases n
  {
    if n > 0 && st.Push? && st.top.Operand? {
      PopArgsMarker(n - 1, st.below, Cons(st.top.v, acc));
    }
  }

  /** Where a control instruction other than a call leaves the executor, in terms of the machine's state t. */
  ghost predicate ControlDone(t: State, fr: Machine.Frame, callers: Frames, before: Stack, ok: bool, success: bool,
                              running: bool, st: Stack, exc: bool, x: Value)
  {
    if !ok then t == Undefined
    else if !success then t == Failed && !running && !exc
    else if exc then running && t == Unwind(x, fr, callers, st) && PopToMarker(st) == PopToMarker(before)
    else if running then t == Running(fr, callers, st) && PopToMarker(st) == PopToMarker(before)
    else st.Push? && st.top.Operand? && t == Resume(st.top.v, callers, st.below) && PopToMarker(before) == Some(st.below)
  }

  method ExecuteControl(ghost p: Program, i: Instr, ghost pc: nat, frame: Activation, context: Context, depth: nat,
                        ghost callers: Frames)
    returns (ok: bool, success: bool)
    requires Control(i) && !i.CallStatic? && frame.running && !context.exception && depth == Depth(callers)
    modifies context, frame
    ensures ControlDone(Transfer(p, i, old(frame.pc), old(frame.View()).(pc := pc), callers, old(context.stack)),
                        frame.View(), callers, old(context.stack), ok, success,
                        frame.running, context.stack, context.exception, context.exceptionValue)
  {
    hide Unwind;
    ok, success := true, true;
    match i {
      case Jmp(t) => frame.pc := t;
      case Branch(c, t) => OpcodeBranch(c, t, frame);
      case Return =>
        ok, success := OpcodeReturn(depth, frame, context);
        if ok && !success {
          frame.running := false;
        } else if ok {
          assert PopToMarker(old(context.stack).below) == Some(context.stack.below);
        }
      case Throw =>
        var v := context.PopValue();
        ok := v.Some?;
        if ok {
          context.ThrowException(Exc(v.value));
        }
      case PushTry(v, t) => frame.handlerStack := frame.handlerStack + [Handler(v, t)];
      case PopTry =>
        ok := frame.handlerStack != [];
        if ok {
          frame.handlerStack := frame.handlerStack[..|frame.handlerStack| - 1];
        }
    }
  }

  // ----- the dispatch loop -----

  predicate AllWords(p: Program)
  {
    forall f :: 0 <= f < |p| ==> p[f].code.Words?
  }

  /** What the outcome of a run, n instructions after s0, says of the machine. */
  ghost predicate Explains(p: Program, s0: State, n: nat, callers: Frames, below: Stack, out: Outcome,
                           st: Stack, exc: bool, x: Value)
  {
    var t := StepN(p, s0, n);
    match out
    case Finished(false) => t == Failed && !exc
    case Finished(true) =>
      if exc then t == UnwindCallers(x, callers, below) && st == below
      else st.Push? && st.top.Operand? && st.below == below && t == Resume(st.top.v, callers, below)
    case Stopped => t.Running?
    case Outside => t == Undefined
  }

  lemma NextStep(p: Program, s0: State, n: nat)
    ensures StepN(p, s0, n + 1) == Step(p, StepN(p, s0, n))
  {
    StepNAdd(p, s0, n, 1);
    hide Step;
    assert StepN(p, StepN(p, s0, n), 1) == StepN(p, Step(p, StepN(p, s0, n)), 0);
  }

  /** Leaving the frame, or catching, is what Unwind does from where the exception was noticed. */
  lemma HandledByUnwind(x: Value, fr: Machine.Frame, callers: Frames, st: Stack)
    ensures fr.handlers == [] && PopToMarker(st).None? ==> Unwind(x, fr, callers, st) == Undefined
    ensures fr.handlers == [] && PopToMarker(st).Some? ==>
      Unwind(x, fr, callers, st) == UnwindCallers(x, callers, PopToMarker(st).value)
    ensures fr.handlers != [] ==>
      var h := fr.handlers[|fr.handlers| - 1];
      Unwind(x, fr, callers, st) ==
        (if h.excepVar < |fr.locals|
         then Running(fr.(pc := h.pc, locals := fr.locals[h.excepVar := x],
                          handlers := fr.handlers[..|fr.handlers| - 1]), callers, st)
         else Undefined)
  {
  }

  /** What holds of a frame between two instructions, or once it has been left. */
  ghost predicate Between(p: Program, s0: State, n: nat, fr: Machine.Frame, callers: Frames, below: Stack,
                          running: bool,
                          success: bool, st: Stack, exc: bool, x: Value)
  {
    if running then !exc && PopToMarker(st) == Some(below) && StepN(p, s0, n) == Running(fr, callers, st)
    else Explains(p, s0, n, callers, below, Finished(success), st, exc, x)
  }

  /** The end of one turn of the loop: an exception is handled, or leaves the frame. */
  method Settle(ghost p: Program, ghost s0: State, ghost n: nat, frame: Activation, context: Context,
                ghost callers: Frames,
                ghost below: Stack, ghost before: Stack, success: bool)
    returns (ok: bool, now: bool)
    requires ControlDone(StepN(p, s0, n), frame.View(), callers, before, true, success,
                         frame.running, context.stack, context.exception, context.exceptionValue)
    requires PopToMarker(before) == Some(below)
    modifies context, frame, frame.locals
    ensures !ok ==> StepN(p, s0, n) == Undefined
    ensures ok ==> Between(p, s0, n, frame.View(), callers, below, frame.running, now,
                           context.stack, context.exception, context.exceptionValue)
  {
    hide StepN, Unwind, PopToMarker;
    ok, now := true, success;
    if context.exception {
      HandledByUnwind(context.exceptionValue, frame.View(), callers, context.stack);
      ok := HandleException(frame, context);
      now := true;
    }
  }

  /** CALL_STATIC, from the frame's state after its arguments have been fetched. */
  method CallFrom(p: Program, g: nat, count: nat, frame: Activation, context: Context, depth: nat,
                  ghost callers: Frames,
                  ghost s0: State, ghost limit: nat, budget: nat, ghost pc: nat)
    returns (stop: Option<Outcome>, success: bool, left: nat)
    requires AllWords(p) && budget <= limit && frame.running && !context.exception && depth == Depth(callers)
    requires StepN(p, s0, limit - budget)
          == Transfer(p, CallStatic(g, count), frame.pc, frame.View().(pc := pc), callers, context.stack)
    modifies context, frame`running
    ensures left <= budget
    ensures stop == Some(Stopped) || stop == Some(Outside) || stop == None
    ensures stop == Some(Stopped) ==> left == 0 && StepN(p, s0, limit - left).Running?
    ensures stop == Some(Outside) ==> StepN(p, s0, limit - left) == Undefined
    ensures stop.None? ==>
      ControlDone(StepN(p, s0, limit - left), frame.View(), callers, old(context.stack), true, success,
                  frame.running, context.stack, context.exception, context.exceptionValue)
    decreases budget, 2
  {
    hide StepN, Unwind, PopArgs, Enter, PopToMarker;
    left, success := budget, true;
    if !Callable(p, g, count) {
      return Some(Outside), false, left;
    }
    PopArgsMarker(count, context.stack, Nil);
    PopArgsAll(count, context.stack, Nil);
    ghost var st, view := context.stack, frame.View();
    var out;
    out, left := Run(p, g, count, context, depth + 1, Caller(view, callers), budget);
    StepNAdd(p, s0, limit - budget, budget - left);
    assert limit - left == (limit - budget) + (budget - left);
    stop := if out.Finished? then None else Some(out);
    if out.Finished? {
      success := out.success;
      if !success {
        frame.running := false;
      }
      ReturnedMarker(context.stack);
      ResumeCaller(context.stack, context.exceptionValue, view, callers, context.stack);
    }
  }

  lemma PopArgsAll(n: nat, st: Stack, acc: List<Value>)
    ensures PopArgs(0, st, acc) == Some((acc, st))
  {
  }

  lemma ReturnedMarker(st: Stack)
    ensures st.Push? && st.top.Operand? ==> PopToMarker(st) == PopToMarker(st.below)
  {
  }

  /** A result or an exception comes back to the calling frame. */
  lemma ResumeCaller(st: Stack, x: Value, fr: Machine.Frame, callers: Frames, below: Stack)
    ensures st.Push? && st.top.Operand? ==> Resume(st.top.v, Caller(fr, callers), st.below) == Running(fr, callers, st)
    ensures UnwindCallers(x, Caller(fr, callers), below) == Unwind(x, fr, callers, below)
  {
  }

  /**
   Run a function whose arguments are on the stack. Whatever the outcome, the machine is in the corresponding
   state after as many steps as instructions were dispatched here and in the calls below.
   */
  method Run(p: Program, f: nat, argCount: nat, context: Context, depth: nat, ghost callers: Frames, limit: nat)
    returns (out: Outcome, left: nat)
    requires AllWords(p) && Callable(p, f, argCount) && !context.exception && depth == Depth(callers)
    modifies context
    ensures left <= limit && (out == Stopped ==> left == 0)
    ensures match PopArgs(argCount, old(context.stack), Nil)
      case None => out == Outside && left == limit
      case Some((vs, below)) =>
        Explains(p, Enter(p, f, vs, callers, below), limit - left, callers, below, out,
                 context.stack, context.exception, context.exceptionValue)
    decreases limit, 1
  {
    hide Step, StepN, PopArgs, Unwind, Transfer, Fetch;
    var frame := new Activation(f, p[f].code.words, p[f].sig.slots);
    var ok;
    ghost var args;
    ok, args := PopArguments(argCount, frame, context);
    left := limit;
    if !ok {
      return Outside, left;
    }
    ghost var below := context.stack;
    ghost var s0 := Enter(p, f, args, callers, below);
    context.stack := Push(Marker(depth), context.stack);
    var success := true;
    assert StepN(p, s0, 0) == s0 by { NoStep(p, s0); }
    while frame.running
      invariant left <= limit && frame.f == f && frame.code == p[f].code.words
      invariant Between(p, s0, limit - left, frame.View(), callers, below, frame.running, success,
                        context.stack, context.exception, context.exceptionValue)
      decreases left, frame.running
    {
      if left == 0 {
        return Stopped, left;
      }
      var stop;
      stop, success, left := RunInstruction(p, frame, context, depth, callers, s0, below, limit, left);
      if stop.Some? {
        return stop.value, left;
      }
    }
    out := Finished(success);
  }

  /** One turn of the loop. */
  method RunInstruction(p: Program, frame: Activation, context: Context, depth: nat, ghost callers: Frames,
                        ghost s0: State,
                        ghost below: Stack, ghost limit: nat, budget: nat)
    returns (stop: Option<Outcome>, success: bool, left: nat)
    requires AllWords(p) && frame.f < |p| && frame.code == p[frame.f].code.words && frame.running
    requires 0 < budget <= limit && depth == Depth(callers)
    requires Between(p, s0, limit - budget, frame.View(), callers, below, true, true,
                     context.stack, context.exception, context.exceptionValue)
    modifies context, frame, frame.locals
    ensures left < budget && (stop == Some(Stopped) ==> left == 0)
    ensures stop.Some? ==>
      Explains(p, s0, limit - left, callers, below, stop.value, context.stack, context.exception, context.exceptionValue)
    ensures stop.None? ==>
      Between(p, s0, limit - left, frame.View(), callers, below, frame.running, success,
              context.stack, context.exception, context.exceptionValue)
    decreases budget, 0
  {
    hide StepN, Unwind, PopToMarker, Transfer, Operate, Fetch, Step, ControlDone, Explains;
    left, success, stop := budget - 1, true, None;
    NextStep(p, s0, limit - budget);
    ghost var fr, st := frame.View(), context.stack;
    StepMeans(p, fr, callers, st);
    var i := frame.FetchInstruction();
    if i.None? {
      StoppedThere(p, s0, limit - left, callers, below, context);
      return Some(Outside), false, left;
    }
    var ok := true;
    if !Control(i.value) {
      ok := DataInstruction(p, i.value, fr.pc, frame, context, callers);
    } else if i.value.CallStatic? {
      stop, success, left := CallFrom(p, i.value.f, i.value.count, frame, context, depth, callers, s0, limit, left, fr.pc);
      if stop.Some? {
        StoppedThere(p, s0, limit - left, callers, below, context);
        return;
      }
    } else {
      ok, success := ExecuteControl(p, i.value, fr.pc, frame, context, depth, callers);
    }
    if ok {
      ok, success := Settle(p, s0, limit - left, frame, context, callers, below, st, success);
    } else {
      NotOk(StepN(p, s0, limit - left), frame.View(), callers, st, success, frame.running,
            context.stack, context.exception, context.exceptionValue);
    }
    if !ok {
      StoppedThere(p, s0, limit - left, callers, below, context);
      return Some(Outside), false, left;
    }
  }

  /** Outcomes that say nothing of the context. */
  lemma StoppedThere(p: Program, s0: State, n: nat, callers: Frames, below: Stack, context: Context)
    ensures StepN(p, s0, n) == Undefined ==>
      Explains(p, s0, n, callers, below, Outside, context.stack, context.exception, context.exceptionValue)
    ensures StepN(p, s0, n).Running? ==>
      Explains(p, s0, n, callers, below, Stopped, context.stack, context.exception, context.exceptionValue)
  {
  }

  lemma NotOk(t: State, fr: Machine.Frame, callers: Frames, before: Stack, success: bool, running: bool, st: Stack,
              exc: bool, x: Value)
    requires ControlDone(t, fr, callers, before, false, success, running, st, exc, x)
    ensures t == Undefined
  {
  }

  method DataInstruction(ghost p: Program, i: Instr, ghost pc: nat, frame: Activation, context: Context,
                         ghost callers: Frames)
    returns (ok: bool)
    requires !Control(i) && frame.running && !context.exception
    modifies context`stack, frame`flags, frame.locals
    ensures ControlDone(Execute(p, i, frame.pc, old(frame.View()).(pc := pc), callers, old(context.stack)),
                        frame.View(), callers, old(context.stack), ok, true,
                        frame.running, context.stack, context.exception, context.exceptionValue)
  {
    hide PopToMarker, Operate, Transfer;
    OperateMarker(i, frame.locals[..], frame.flags, context.stack);
    ok := ExecuteData(i, frame, context);
  }

  /** The machine's step, by the instruction that is fetched. */
  lemma StepMeans(p: Program, fr: Machine.Frame, callers: Frames, st: Stack)
    requires fr.f < |p|
    ensures match Fetch(p[fr.f].code, fr.pc)
      case None => Step(p, Running(fr, callers, st)) == Undefined
      case Some((i, next)) => Step(p, Running(fr, callers, st)) == Execute(p, i, next, fr, callers, st)
  {
    hide Transfer, Operate, Fetch;
  }

  lemma NoStep(p: Program, s: State)
    ensures StepN(p, s, 0) == s
  {
  }
}
