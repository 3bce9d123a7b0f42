/**
 The instruction set of the virtual machine: revisions, decoding of one opcode byte,
 and the table of fixed instruction costs.
 */
module Opcodes {
  import opened Words

  // Protocol revisions are ordered; a feature is on from some revision onwards.
  type Revision = r: nat | r <= 7
  const FRONTIER: Revision := 0
  const HOMESTEAD: Revision := 1
  const TANGERINE_WHISTLE: Revision := 2
  const SPURIOUS_DRAGON: Revision := 3
  const BYZANTIUM: Revision := 4
  const AION: Revision := 5
  const CONSTANTINOPLE: Revision := 6
  const AION_V1: Revision := 7

  /** What code is compiled for: the revision, and whether messages may change state. */
  datatype Mode = Mode(rev: Revision, staticCall: bool)

  const STOP: Byte := 0x00
  const JUMP: Byte := 0x56
  const JUMPI: Byte := 0x57
  const JUMPDEST: Byte := 0x5b
  const RETURNDATACOPY: Byte := 0x3e
  const SSTORE: Byte := 0x55
  const PUSH1: Byte := 0x60
  const PUSH32: Byte := 0x7f
  const LOG0: Byte := 0xa0
  const LOG4: Byte := 0xa4
  const CREATE: Byte := 0xf0
  const CALL: Byte := 0xf1
  const CALLCODE: Byte := 0xf2
  const RETURN: Byte := 0xf3
  const DELEGATECALL: Byte := 0xf4
  const STATICCALL: Byte := 0xfa
  const REVERT: Byte := 0xfd
  const SELFDESTRUCT: Byte := 0xff

  datatype AluOp =
    | Add | Mul | Sub | Div | SDiv | Mod | SMod | AddMod | MulMod | Exp | SignExtend
    | Lt | Gt | Slt | Sgt | Eq | IsZero | And | Or | Xor | Not | ByteOf

  /** What a message says about itself. */
  datatype Field = Address | Caller | CallValue

  /** Instructions; `Host` stands for every opcode that calls into the client. */
  datatype Op =
    | Stop
    | Alu(alu: AluOp)
    | Pop
    | Push(bytes: nat)
    | Dup(index: nat)
    | Swap(index: nat)
    | MLoad | MStore | MStore8 | MSize
    | Jump | JumpI | JumpDest | Pc | Gas
    | CallDataLoad | CallDataSize | CallDataCopy
    | CodeSize | CodeCopy
    | MessageField(field: Field)
    | Return | Revert
    | Host
    | Invalid

  function DecodeArith(b: Byte): Op {
    if b == 0x01 then Alu(Add)
    else if b == 0x02 then Alu(Mul)
    else if b == 0x03 then Alu(Sub)
    else if b == 0x04 then Alu(Div)
    else if b == 0x05 then Alu(SDiv)
    else if b == 0x06 then Alu(Mod)
    else if b == 0x07 then Alu(SMod)
    else if b == 0x08 then Alu(AddMod)
    else if b == 0x09 then Alu(MulMod)
    else if b == 0x0a then Alu(Exp)
    else if b == 0x0b then Alu(SignExtend)
    else if b == 0x10 then Alu(Lt)
    else if b == 0x11 then Alu(Gt)
    else if b == 0x12 then Alu(Slt)
    else if b == 0x13 then Alu(Sgt)
    else if b == 0x14 then Alu(Eq)
    else if b == 0x15 then Alu(IsZero)
    else if b == 0x16 then Alu(And)
    else if b == 0x17 then Alu(Or)
    else if b == 0x18 then Alu(Xor)
    else if b == 0x19 then Alu(Not)
    else if b == 0x1a then Alu(ByteOf)
    else Invalid
  }

  function DecodeFlow(b: Byte): Op {
    if b == 0x50 then Pop
    else if b == 0x51 then MLoad
    else if b == 0x52 then MStore
    else if b == 0x53 then MStore8
    else if b == 0x54 || b == SSTORE then Host
    else if b == JUMP then Jump
    else if b == JUMPI then JumpI
    else if b == 0x58 then Pc
    else if b == 0x59 then MSize
    else if b == 0x5a then Gas
    else if b == JUMPDEST then JumpDest
    else Invalid
  }

  function DecodeEnvironment(rev: Revision, b: Byte): Op {
    if b == 0x30 then MessageField(Address)
    else if b == 0x33 then MessageField(Caller)
    else if b == 0x34 then MessageField(CallValue)
    else if b == 0x35 then CallDataLoad
    else if b == 0x36 then CallDataSize
    else if b == 0x37 then CallDataCopy
    else if b == 0x38 then CodeSize
    else if b == 0x39 then CodeCopy
    else if b <= 0x3c then Host
    else if b <= 0x3e && rev >= BYZANTIUM then Host
    else Invalid
  }

  function DecodeSystem(rev: Revision, b: Byte): Op {
    if b == RETURN then Return
    else if b == REVERT then (if rev >= BYZANTIUM then Revert else Invalid)
    else if b == DELEGATECALL then (if rev >= HOMESTEAD then Host else Invalid)
    else if b == STATICCALL then (if rev >= BYZANTIUM then Host else Invalid)
    else if b == CREATE || b == CALL || b == CALLCODE || b == SELFDESTRUCT then Host
    else Invalid
  }

  /** The opcodes that static code may not use. */
  predicate ChangesState(b: Byte) {
    b == SSTORE || LOG0 <= b <= LOG4 || b == CREATE || b == SELFDESTRUCT
  }

  /** The opcodes that have the client execute a message. */
  predicate SendsMessage(b: Byte) {
    b == CREATE || b == CALL || b == CALLCODE || b == DELEGATECALL || b == STATICCALL
  }

  function Decode(mode: Mode, b: Byte): Op {
    if mode.staticCall && ChangesState(b) then Invalid else DecodeIn(mode.rev, b)
  }

  /** Decoding where state may be changed. */
  function DecodeIn(rev: Revision, b: Byte): Op {
    if b == STOP then Stop
    else if b < 0x20 then DecodeArith(b)
    else if b == 0x20 then Host
    else if 0x30 <= b < 0x40 then DecodeEnvironment(rev, b)
    else if 0x40 <= b <= 0x45 then Host
    else if 0x50 <= b < 0x60 then DecodeFlow(b)
    else if PUSH1 <= b <= PUSH32 then Push(b - PUSH1 + 1)
    else if 0x80 <= b < 0x90 then Dup(b - 0x80)
    else if 0x90 <= b < 0xa0 then Swap(b - 0x90 + 1)
    else if LOG0 <= b <= LOG4 then Host
    else if 0xb0 <= b < 0xc0 then (if rev >= AION_V1 then Dup(b - 0xb0 + 16) else Invalid)
    else if 0xc0 <= b < 0xd0 then (if rev >= AION_V1 then Swap(b - 0xc0 + 17) else Invalid)
    else if 0xf0 <= b then DecodeSystem(rev, b)
    else Invalid
  }

  /** Instructions after which control simply moves to the next instruction. */
  predicate IsStraight(op: Op) {
    !(op.Stop? || op.Jump? || op.JumpI? || op.Return? || op.Revert? || op.Host? || op.Invalid?)
  }

  function AluCost(rev: Revision, alu: AluOp): (c: nat)
    ensures c >= 1
  {
    if rev >= AION then 1
    else match alu
      case Mul | Div | SDiv | Mod | SMod | SignExtend => 5
      case AddMod | MulMod => 8
      case Exp => 10
      case _ => 3
  }

  /** Fixed cost of an instruction; costs that depend on operands come on top. */
  function StepCost(rev: Revision, op: Op): (c: nat)
    ensures IsStraight(op) || op.Jump? || op.JumpI? ==> c >= 1
  {
    match op
    case Stop | Return | Revert | Host | Invalid => 0
    case JumpDest => 1
    case Alu(alu) => AluCost(rev, alu)
    case MessageField(_) | CallDataSize | CodeSize | Pop | Pc | MSize | Gas => if rev >= AION then 1 else 2
    case Jump => if rev >= AION then 1 else 8
    case JumpI => if rev >= AION then 1 else 10
    case _ => if rev >= AION then 1 else 3
  }
}
