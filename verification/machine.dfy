/**
 The virtual machine as a state transformer. A state is the running frame, the frames that called
 it, and the operand stack all of them share, in which a frame marker separates each frame's operands.
 */
module Machine {
  import opened Prelude
  import opened Int64
  import opened Opcodes

  /** A caught exception is opaque to the fragment: it can be stored, passed, rethrown and returned. */
  datatype Value = Unset | Int(i: int64) | Exc(message: Value)

  datatype Cell = Operand(v: Value) | Marker(depth: nat)
  datatype Stack = Empty | Push(top: Cell, below: Stack)

  datatype Flags = Flags(zero: bool, sign: bool, overflow: bool)
  datatype Handler = Handler(excepVar: nat, pc: nat)
  datatype Frame = Frame(f: nat, pc: nat, locals: seq<Value>, flags: Flags, handlers: seq<Handler>)
  datatype Frames = Bottom | Caller(frame: Frame, below: Frames)

  /**
   Returned and Uncaught are the two ways a run ends with success, Failed is a run that returns false.
   Undefined is everything outside the fragment: an uninitialised read, an operation on an exception
   object, a division that traps, an underflowing stack, a slot or address out of range.
   */
  datatype State =
    | Running(frame: Frame, callers: Frames, stack: Stack)
    | Returned(result: Value, stack: Stack)
    | Uncaught(exception: Value, stack: Stack)
    | Failed
    | Undefined

  /** A function's declared arguments and the number of its local slots; slot 0 is `this`. */
  datatype Sig = Sig(argc: nat, slots: nat)

  /** Code is addressed by instruction before the layout pass and by word after it. */
  datatype Code = Indexed(instrs: seq<Instr>) | Words(words: seq<nat>)
  datatype Func = Func(sig: Sig, code: Code)
  type Program = seq<Func>

  // ----- values, flags and stacks -----

  function Compute(op: BinOp, l: int64, r: int64): Option<int64>
  {
    match op
    case Add => Some(Wrap(l + r))
    case Sub => Some(Wrap(l - r))
    case Mul => Some(Wrap(l * r))
    case Div => if CanDivide(l, r) then Some(Wrap(Quotient(l, r))) else None
    case And => Some(LogicalAnd(l, r))
  }

  /** What an operation must give: exact results modulo the span, a truncated quotient, 1 or 0 for a conjunction. */
  predicate IsResult(op: BinOp, l: int64, r: int64, x: int64)
  {
    match op
    case Add => (l + r - x) % SPAN == 0
    case Sub => (l - r - x) % SPAN == 0
    case Mul => (l * r - x) % SPAN == 0
    case Div => Truncates(l, r, x)
    case And => if l != 0 && r != 0 then x == 1 else x == 0
  }

  /** An operation gives this result, and none only where the hardware traps. */
  lemma ComputeIff(op: BinOp, l: int64, r: int64, x: int64)
    ensures Compute(op, l, r) == Some(x) <==> IsResult(op, l, r, x)
    ensures Compute(op, l, r) == None <==> op == Div && (r == 0 || (l == MIN && r == -1))
  {
    hide Quotient, Wrap, Truncates;
    match op
    case Add => WrapIff(l + r, x);
    case Sub => WrapIff(l - r, x);
    case Mul => WrapIff(l * r, x);
    case Div => QuotientFits(l, r, x);
    case And =>
  }

  lemma QuotientFits(l: int64, r: int64, x: int64)
    ensures CanDivide(l, r) ==> (Wrap(Quotient(l, r)) == x <==> Truncates(l, r, x))
    ensures !CanDivide(l, r) ==> !Truncates(l, r, x)
  {
    hide Quotient;
    if r != 0 {
      QuotientIff(l, r, x);
      QuotientIff(l, r, Quotient(l, r));
      QuotientRange(l, r, Quotient(l, r));
      hide Truncates;
    } else {
      NoQuotient(l, x);
    }
  }

  lemma NoQuotient(l: int64, x: int64)
    ensures !Truncates(l, 0, x)
  {
  }

  lemma NotZero(m: nat, n: nat)
    requires m * n > 0
    ensures n > 0
  {
  }

  lemma QuotientRange(l: int64, r: int64, q: int)
    requires Truncates(l, r, q)
    ensures q < MIN || q > MAX <==> l == MIN && r == -1
  {
    var m, n := Abs(q), Abs(r);
    Grows(2, n, m);
    NotZero(m + 1, n);
    if n == 1 {
      assert m * n == m && (m + 1) * n == m + 1;
    } else {
      assert 2 * m <= Abs(l);
    }
  }

  /** CMP_INTEGER: the flags of the wrapped difference right - left. */
  function CompareFlags(l: int64, r: int64): Flags
  {
    var d := Wrap(r - l);
    Flags(d == 0, d < 0, d != 0 || d < 0)
  }

  /** The condition that PUSHCx pushes. */
  predicate Holds(c: Cond, f: Flags)
  {
    match c
    case Eq => f.zero
    case Ne => !f.zero
    case Lt => f.sign != f.overflow
    case Le => f.zero || f.sign != f.overflow
    case Gt => !f.zero && f.sign == f.overflow
    case Ge => f.sign == f.overflow
  }

  /** The condition on which a branch jumps: BLE's differs from PUSHCLE's. */
  predicate Jumps(c: Cond, f: Flags)
  {
    if c == Le then !f.zero || f.sign == f.overflow else Holds(c, f)
  }

  function Truth(b: bool): Value
  {
    Int(if b then 1 else 0)
  }

  function Depth(fs: Frames): nat
  {
    match fs
    case Bottom => 0
    case Caller(_, below) => 1 + Depth(below)
  }

  /** Push values, the head of the list first. */
  function PushAll(vs: List<Value>, st: Stack): Stack
    decreases vs
  {
    match vs
    case Nil => st
    case Cons(v, rest) => PushAll(rest, Push(Operand(v), st))
  }

  /** Pop n operands; the last one popped comes first in the result, before acc. */
  function PopArgs(n: nat, st: Stack, acc: List<Value>): Option<(List<Value>, Stack)>
  {
    if n == 0 then Some((acc, st))
    else match st
      case Push(Operand(v), below) => PopArgs(n - 1, below, Cons(v, acc))
      case _ => None
  }

  /** Pop through the nearest frame marker. */
  function PopToMarker(st: Stack): Option<Stack>
  {
    match st
    case Empty => None
    case Push(Marker(_), below) => Some(below)
    case Push(_, below) => PopToMarker(below)
  }

  // ----- frames -----

  function NewLocals(slots: nat, args: List<Value>): seq<Value>
  {
    seq(slots, k => if 1 <= k <= Length(args) then Nth(args, k - 1) else Unset)
  }

  function NewFrame(p: Program, f: nat, args: List<Value>): Frame
    requires f < |p|
  {
    Frame(f, 0, NewLocals(p[f].sig.slots, args), Flags(false, false, false), [])
  }

  /** A call with more arguments than declared would overwrite other slots: outside the fragment. */
  predicate Callable(p: Program, f: nat, count: nat)
  {
    f < |p| && count <= p[f].sig.argc < p[f].sig.slots
  }

  /** Executor::run's state on entry. */
  function Enter(p: Program, f: nat, args: List<Value>, callers: Frames, st: Stack): State
    requires f < |p|
  {
    Running(NewFrame(p, f, args), callers, Push(Marker(Depth(callers)), st))
  }

  /** handleException in the running frame, and in each frame that the exception leaves it for. */
  function Unwind(x: Value, fr: Frame, callers: Frames, st: Stack): State
    decreases callers
  {
    if |fr.handlers| == 0 then
      match PopToMarker(st)
      case None => Undefined
      case Some(rest) => UnwindCallers(x, callers, rest)
    else
      var h := fr.handlers[|fr.handlers| - 1];
      if h.excepVar < |fr.locals| then
        Running(fr.(pc := h.pc, locals := fr.locals[h.excepVar := x],
                    handlers := fr.handlers[..|fr.handlers| - 1]), callers, st)
      else Undefined
  }

  function UnwindCallers(x: Value, callers: Frames, st: Stack): State
    decreases callers, 0
  {
    match callers
    case Bottom => Uncaught(x, st)
    case Caller(c, below) => Unwind(x, c, below, st)
  }

  /** The state in which a caller continues with a result. */
  function Resume(v: Value, callers: Frames, st: Stack): State
  {
    match callers
    case Bottom => Returned(v, st)
    case Caller(c, below) => Running(c, below, Push(Operand(v), st))
  }

  /** opcodeReturn: the cell under the result must be this frame's own marker. */
  function ReturnFrom(v: Value, callers: Frames, st: Stack): State
  {
    match st
    case Empty => Undefined
    case Push(c, below) => if c == Marker(Depth(callers)) then Resume(v, callers, below) else Failed
  }

  // ----- instructions -----

  /** What an instruction that only moves data leaves: the locals, the flags and the operands. */
  datatype Data = Data(locals: seq<Value>, flags: Flags, stack: Stack)

  /** The opcode functions that move data and fall through; None is outside the fragment. */
  function Operate(i: Instr, locals: seq<Value>, flags: Flags, st: Stack): Option<Data>
  {
    match i
    case LoadVar(v) =>
      if v < |locals| && locals[v] != Unset then Some(Data(locals, flags, Push(Operand(locals[v]), st))) else None
    case StoreVar(v) =>
      (match st
       case Push(Operand(x), below) => if v < |locals| then Some(Data(locals[v := x], flags, below)) else None
       case _ => None)
    case IncVar(v, amount) =>
      if v < |locals| && locals[v].Int?
      then Some(Data(locals[v := Int(Wrap(locals[v].i + amount))], flags, st)) else None
    case PushI(k) => Some(Data(locals, flags, Push(Operand(Int(k)), st)))
    case Dup =>
      (match st
       case Push(Operand(x), _) => Some(Data(locals, flags, Push(Operand(x), st)))
       case _ => None)
    case Swap =>
      (match st
       case Push(Operand(x), Push(Operand(y), below)) =>
         Some(Data(locals, flags, Push(Operand(y), Push(Operand(x), below))))
       case _ => None)
    case Pop =>
      (match st
       case Push(Operand(_), below) => Some(Data(locals, flags, below))
       case _ => None)
    case Arith(op, _) =>
      (match st
       case Push(Operand(Int(l)), Push(Operand(Int(r)), below)) =>
         (match Compute(op, l, r)
          case None => None
          case Some(x) => Some(Data(locals, flags, Push(Operand(Int(x)), below))))
       case _ => None)
    case Not(_) =>
      (match st
       case Push(Operand(Int(x)), below) => Some(Data(locals, flags, Push(Operand(Truth(x == 0)), below)))
       case _ => None)
    case Cmp(_) =>
      (match st
       case Push(Operand(Int(l)), Push(Operand(Int(r)), below)) => Some(Data(locals, CompareFlags(l, r), below))
       case _ => None)
    case PushC(c) => Some(Data(locals, flags, Push(Operand(Truth(Holds(c, flags))), st)))
    case _ => None
  }

  /** The instructions that decide where the run goes on. */
  predicate Control(i: Instr)
  {
    i.Jmp? || i.Branch? || i.Return? || i.Throw? || i.PushTry? || i.PopTry? || i.CallStatic?
  }

  /** One opcode function; `next` is the address of the following instruction. */
  function Execute(p: Program, i: Instr, next: nat, fr: Frame, callers: Frames, st: Stack): State
  {
    if Control(i) then Transfer(p, i, next, fr, callers, st)
    else
      match Operate(i, fr.locals, fr.flags, st)
      case None => Undefined
      case Some(d) => Running(fr.(pc := next, locals := d.locals, flags := d.flags), callers, d.stack)
  }

  function Transfer(p: Program, i: Instr, next: nat, fr: Frame, callers: Frames, st: Stack): State
    requires Control(i)
  {
    var go := fr.(pc := next);
    match i
    case Jmp(t) => Running(fr.(pc := t), callers, st)
    case Branch(c, t) => Running(if Jumps(c, fr.flags) then fr.(pc := t) else go, callers, st)
    case Return =>
      (match st
       case Push(Operand(x), below) => ReturnFrom(x, callers, below)
       case _ => Undefined)
    case Throw =>
      (match st
       case Push(Operand(x), below) => Unwind(Exc(x), go, callers, below)
       case _ => Undefined)
    case PushTry(v, t) => Running(go.(handlers := fr.handlers + [Handler(v, t)]), callers, st)
    case PopTry =>
      if |fr.handlers| > 0
      then Running(go.(handlers := fr.handlers[..|fr.handlers| - 1]), callers, st) else Undefined
    case CallStatic(f, count) =>
      if Callable(p, f, count) then
        match PopArgs(count, st, Nil)
        case None => Undefined
        case Some((args, below)) => Enter(p, f, args, Caller(go, callers), below)
      else Undefined
  }

  /** Frame::fetch of an opcode and its arguments: the instruction and the address after it. */
  function Fetch(c: Code, pc: nat): Option<(Instr, nat)>
  {
    match c
    case Indexed(code) => if pc < |code| then Some((code[pc], pc + 1)) else None
    case Words(ws) =>
      if pc < |ws| then
        var n := ArgCount(ws[pc]);
        if pc + 1 + n <= |ws| then
          match FromWords(ws[pc], ws[pc + 1..pc + 1 + n])
          case None => None
          case Some(i) => Some((i, pc + 1 + n))
        else None
      else None
  }

  /** One turn of Executor::run's dispatch loop, in whichever frame is running. */
  function Step(p: Program, s: State): State
  {
    match s
    case Running(fr, callers, st) =>
      if fr.f < |p| then
        match Fetch(p[fr.f].code, fr.pc)
        case None => Undefined
        case Some((i, next)) => Execute(p, i, next, fr, callers, st)
      else Undefined
    case _ => s
  }

  function StepN(p: Program, s: State, n: nat): State
    decreases n
  {
    if n == 0 then s else StepN(p, Step(p, s), n - 1)
  }

  /** The run that starts in s ends in r. */
  ghost predicate Ends(p: Program, s: State, r: State)
  {
    !r.Running? && exists n: nat :: StepN(p, s, n) == r
  }

  // ----- facts about runs -----

  lemma {:induction false} StepNAdd(p: Program, s: State, m: nat, n: nat)
    ensures StepN(p, s, m + n) == StepN(p, StepN(p, s, m), n)
    decreases m
  {
    if m > 0 {
      StepNAdd(p, Step(p, s), m - 1, n);
    }
  }

  lemma {:induction false} HaltedStays(p: Program, s: State, n: nat)
    requires !s.Running?
    ensures StepN(p, s, n) == s
  {
    if n > 0 {
      HaltedStays(p, s, n - 1);
    }
  }

  /** A run ends in at most one way. */
  lemma EndsUnique(p: Program, s: State, r1: State, r2: State)
    requires Ends(p, s, r1) && Ends(p, s, r2)
    ensures r1 == r2
  {
    var m: nat :| StepN(p, s, m) == r1;
    var n: nat :| StepN(p, s, n) == r2;
    StepNAdd(p, s, m, n);
    StepNAdd(p, s, n, m);
    HaltedStays(p, r1, n);
    HaltedStays(p, r2, m);
    assert m + n == n + m;
  }

  /** Stepping first does not change how a run ends. */
  lemma EndsAfter(p: Program, s: State, n: nat, r: State)
    requires Ends(p, StepN(p, s, n), r)
    ensures Ends(p, s, r)
  {
    var m: nat :| StepN(p, StepN(p, s, n), m) == r;
    StepNAdd(p, s, n, m);
    assert StepN(p, s, n + m) == r;
  }

  lemma {:induction false} PopToMarkerPushAll(vs: List<Value>, st: Stack)
    ensures PopToMarker(PushAll(vs, st)) == PopToMarker(st)
    decreases vs
  {
    match vs
    case Nil =>
    case Cons(v, rest) => PopToMarkerPushAll(rest, Push(Operand(v), st));
  }

  lemma {:induction false} PushAllAppend(xs: List<Value>, ys: List<Value>, st: Stack)
    ensures PushAll(Append(xs, ys), st) == PushAll(ys, PushAll(xs, st))
    decreases xs
  {
    match xs
    case Nil =>
    case Cons(x, rest) => PushAllAppend(rest, ys, Push(Operand(x), st));
  }

  /** A call takes back exactly the arguments that were pushed for it, in order. */
  lemma {:induction false} PopArgsPushAll(vs: List<Value>, k: nat, st: Stack, acc: List<Value>)
    ensures PopArgs(Length(vs) + k, PushAll(vs, st), acc) == PopArgs(k, st, Append(vs, acc))
    decreases vs
  {
    match vs
    case Nil =>
    case Cons(v, rest) => PopArgsPushAll(rest, k + 1, Push(Operand(v), st), acc);
  }

  // ----- comparisons -----

  predicate Mathematically(c: Cond, l: int, r: int)
  {
    match c
    case Eq => l == r
    case Ne => l != r
    case Lt => l < r
    case Le => l <= r
    case Gt => l > r
    case Ge => l >= r
  }

  /** The flag encoding decides the order correctly if and only if the difference fits in 64 bits. */
  lemma ComparesCorrectly(l: int64, r: int64)
    ensures (forall c :: Holds(c, CompareFlags(l, r)) == Mathematically(c, l, r)) <==> MIN <= r - l <= MAX
  {
    assert Holds(Lt, CompareFlags(l, r)) == (Wrap(r - l) > 0);
    if !(MIN <= r - l <= MAX) {
      assert Holds(Lt, CompareFlags(l, r)) != Mathematically(Lt, l, r);
    }
  }

  /** BLE jumps after every comparison, so it means `<=` exactly when `<=` holds. */
  lemma BranchLeAlwaysJumps(l: int64, r: int64)
    ensures Jumps(Le, CompareFlags(l, r))
    ensures Jumps(Le, CompareFlags(l, r)) == Holds(Le, CompareFlags(l, r)) <==> Wrap(r - l) >= 0
  {
  }
}
