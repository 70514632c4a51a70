/** The integer fragment of the instruction set, and its encoding as code words. */
module Opcodes {
  import opened Prelude
  import opened Int64

  datatype BinOp = Add | Sub | Mul | Div | And
  datatype Cond = Eq | Ne | Lt | Le | Gt | Ge

  /** The type digit of an arithmetic opcode: any operands, or integers. */
  datatype Typing = Untyped | Integer

  datatype Instr =
    | LoadVar(v: nat)
    | StoreVar(v: nat)
    | IncVar(v: nat, amount: int64)
    | PushI(i: int64)
    | Dup
    | Swap
    | Pop
    | Arith(op: BinOp, ty: Typing)
    | Not(ty: Typing)
    | Cmp(ty: Typing)
    | PushC(cond: Cond)
    | Jmp(target: nat)
    | Branch(cond: Cond, target: nat)
    | Return
    | Throw
    | PushTry(v: nat, target: nat)
    | PopTry
    | CallStatic(f: nat, count: nat)

  /** The instruction's code address, if it carries one. */
  function Target(i: Instr): Option<nat>
  {
    match i
    case Jmp(t) => Some(t)
    case Branch(_, t) => Some(t)
    case PushTry(_, t) => Some(t)
    case _ => None
  }

  /** The same instruction with another code address. */
  function Retarget(i: Instr, t: nat): Instr
  {
    match i
    case Jmp(_) => Jmp(t)
    case Branch(c, _) => Branch(c, t)
    case PushTry(v, _) => PushTry(v, t)
    case _ => i
  }

  function OpIndex(op: BinOp): nat
  {
    match op
    case Add => 0
    case Sub => 1
    case Mul => 2
    case Div => 3
    case And => 4
  }

  function CondIndex(c: Cond): nat
  {
    match c
    case Eq => 0
    case Ne => 1
    case Lt => 2
    case Le => 3
    case Gt => 4
    case Ge => 5
  }

  function TypeDigit(ty: Typing): nat
  {
    if ty == Integer then 1 else 0
  }

  /** The opcode numbers of opcodes.h. */
  function OpNumber(i: Instr): nat
  {
    match i
    case LoadVar(_) => 0x101
    case StoreVar(_) => 0x102
    case IncVar(_, _) => 0x10b
    case PushI(_) => 0x310
    case Dup => 0x304
    case Swap => 0x306
    case Pop => 0x305
    case Arith(op, ty) => 0x200 + OpIndex(op) + 0x10 * TypeDigit(ty)
    case Not(ty) => 0x205 + 0x10 * TypeDigit(ty)
    case Cmp(ty) => 0x600 + TypeDigit(ty)
    case PushC(c) => 0x410 + CondIndex(c)
    case Jmp(_) => 0x700
    case Branch(c, _) => 0x701 + CondIndex(c)
    case Return => 0x507
    case Throw => 0x800
    case PushTry(_, _) => 0x801
    case PopTry => 0x802
    case CallStatic(_, _) => 0x501
  }

  /** The type digit `(op & 0xf0) >> 4` that the optimiser reads. */
  function Digit(i: Instr): nat
  {
    (OpNumber(i) / 0x10) % 0x10
  }

  /** The group bits `op & 0xf00`. */
  function Group(i: Instr): nat
  {
    (OpNumber(i) / 0x100) % 0x10
  }

  /** The argument words that follow the opcode word. */
  function Args(i: Instr): seq<nat>
  {
    match i
    case LoadVar(v) => [v]
    case StoreVar(v) => [v]
    case IncVar(v, amount) => [v, ToWord(amount)]
    case PushI(k) => [ToWord(k)]
    case Jmp(t) => [t]
    case Branch(_, t) => [t]
    case PushTry(v, t) => [v, t]
    case CallStatic(f, n) => [f, n]
    case _ => []
  }

  /** opcodes.cpp's table: how many arguments an opcode takes. */
  function ArgCount(op: nat): nat
  {
    if op in {0x101, 0x102, 0x310} || 0x700 <= op <= 0x706 then 1
    else if op in {0x10b, 0x501, 0x801} then 2
    else 0
  }

  /** opcodes.cpp's table: which argument is a code address. */
  function AddressArg(op: nat): Option<nat>
  {
    if 0x700 <= op <= 0x706 then Some(0)
    else if op == 0x801 then Some(1)
    else None
  }

  function OpFromIndex(k: nat): BinOp
    requires k < 5
  {
    if k == 0 then Add else if k == 1 then Sub else if k == 2 then Mul else if k == 3 then Div else And
  }

  function CondFromIndex(k: nat): Cond
    requires k < 6
  {
    if k == 0 then Eq else if k == 1 then Ne else if k == 2 then Lt
    else if k == 3 then Le else if k == 4 then Gt else Ge
  }

  /** What the opcode function reads back from an opcode word and its arguments. */
  function FromWords(op: nat, args: seq<nat>): Option<Instr>
    requires |args| == ArgCount(op)
  {
    if op == 0x101 then Some(LoadVar(args[0]))
    else if op == 0x102 then Some(StoreVar(args[0]))
    else if op == 0x10b then Some(IncVar(args[0], FromWord(args[1])))
    else if op == 0x310 then Some(PushI(FromWord(args[0])))
    else if op == 0x304 then Some(Dup)
    else if op == 0x305 then Some(Pop)
    else if op == 0x306 then Some(Swap)
    else if 0x200 <= op <= 0x204 then Some(Arith(OpFromIndex(op - 0x200), Untyped))
    else if 0x210 <= op <= 0x214 then Some(Arith(OpFromIndex(op - 0x210), Integer))
    else if op == 0x205 then Some(Not(Untyped))
    else if op == 0x215 then Some(Not(Integer))
    else if op == 0x600 then Some(Cmp(Untyped))
    else if op == 0x601 then Some(Cmp(Integer))
    else if 0x410 <= op <= 0x415 then Some(PushC(CondFromIndex(op - 0x410)))
    else if op == 0x700 then Some(Jmp(args[0]))
    else if 0x701 <= op <= 0x706 then Some(Branch(CondFromIndex(op - 0x701), args[0]))
    else if op == 0x507 then Some(Return)
    else if op == 0x800 then Some(Throw)
    else if op == 0x801 then Some(PushTry(args[0], args[1]))
    else if op == 0x802 then Some(PopTry)
    else if op == 0x501 then Some(CallStatic(args[0], args[1]))
    else None
  }

  /** The words of one instruction. */
  function Encode(i: Instr): seq<nat>
  {
    [OpNumber(i)] + Args(i)
  }

  /** The table fits the instructions, and every instruction is read back from its own words. */
  lemma EncodeRoundTrip(i: Instr)
    ensures |Args(i)| == ArgCount(OpNumber(i))
    ensures FromWords(OpNumber(i), Args(i)) == Some(i)
    ensures AddressArg(OpNumber(i)).Some? <==> Target(i).Some?
    ensures Target(i).Some? ==>
      AddressArg(OpNumber(i)).value < |Args(i)| &&
      Args(i)[AddressArg(OpNumber(i)).value] == Target(i).value
  {
  }

  /** Rewriting the address argument in the words is the same as retargeting the instruction. */
  lemma RetargetWords(i: Instr, t: nat)
    requires Target(i).Some?
    ensures OpNumber(Retarget(i, t)) == OpNumber(i)
    ensures AddressArg(OpNumber(i)).value < |Args(i)|
    ensures Args(Retarget(i, t)) == Args(i)[AddressArg(OpNumber(i)).value := t]
  {
  }
}
