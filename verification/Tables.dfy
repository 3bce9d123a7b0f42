/**
 The tables of the compiler and of the assembler, byte by byte: numbers of instructions,
 since when they exist, what they cost, what they call the client for, and what they do to
 the stack.
 */
module Tables {
  import opened Words
  import O = Opcodes
  import E = Evm
  import I = Items
  import Calls
  import M = MessageRuns

  // ----- numbers -----

  function AluNumber(alu: O.AluOp): Byte {
    match alu
    case Add => 0x01 case Mul => 0x02 case Sub => 0x03 case Div => 0x04 case SDiv => 0x05
    case Mod => 0x06 case SMod => 0x07 case AddMod => 0x08 case MulMod => 0x09
    case Exp => 0x0a case SignExtend => 0x0b
    case Lt => 0x10 case Gt => 0x11 case Slt => 0x12 case Sgt => 0x13 case Eq => 0x14 case IsZero => 0x15
    case And => 0x16 case Or => 0x17 case Xor => 0x18 case Not => 0x19 case ByteOf => 0x1a
  }

  /** The byte of an instruction; the client's, and those that push, copy or swap too much, have none here. */
  function Number(op: O.Op): Option<Byte> {
    match op
    case Stop => Some(0x00)
    case Alu(alu) => Some(AluNumber(alu))
    case MessageField(Address) => Some(0x30)
    case MessageField(Caller) => Some(0x33)
    case MessageField(CallValue) => Some(0x34)
    case CallDataLoad => Some(0x35)
    case CallDataSize => Some(0x36)
    case CallDataCopy => Some(0x37)
    case CodeSize => Some(0x38)
    case CodeCopy => Some(0x39)
    case Pop => Some(0x50)
    case MLoad => Some(0x51)
    case MStore => Some(0x52)
    case MStore8 => Some(0x53)
    case Jump => Some(0x56)
    case JumpI => Some(0x57)
    case Pc => Some(0x58)
    case MSize => Some(0x59)
    case Gas => Some(0x5a)
    case JumpDest => Some(0x5b)
    case Push(n) => if 1 <= n <= 32 then Some(0x5f + n) else None
    case Dup(i) => if i < 16 then Some(0x80 + i) else if i < 32 then Some(0xb0 + (i - 16)) else None
    case Swap(i) => if 1 <= i <= 16 then Some(0x8f + i) else if 17 <= i <= 32 then Some(0xc0 + (i - 17)) else None
    case Return => Some(0xf3)
    case Revert => Some(0xfd)
    case Host | Invalid => None
  }

  /** The first revision that has an instruction. */
  function Since(b: Byte): O.Revision {
    if b == 0xf4 then O.HOMESTEAD
    else if b == 0x3d || b == 0x3e || b == 0xfa || b == 0xfd then O.BYZANTIUM
    else if 0xb0 <= b <= 0xcf then O.AION_V1
    else O.FRONTIER
  }

  /** An instruction of the machine itself is decoded from its own byte, and from no other. */
  lemma DecodeExact(mode: O.Mode, b: Byte, op: O.Op)
    requires !op.Host? && !op.Invalid?
    ensures O.Decode(mode, b) == op <==> Number(op) == Some(b) && mode.rev >= Since(b)
  {
    if 0 < b < 0x20 {
      ArithmeticNumbers(b);
    } else if 0x20 <= b < 0x60 {
      MiddleNumbers(mode, b, op);
    }
  }

  lemma MiddleNumbers(mode: O.Mode, b: Byte, op: O.Op)
    requires 0x20 <= b < 0x60 && !op.Host? && !op.Invalid?
    ensures O.Decode(mode, b) == op <==> Number(op) == Some(b) && mode.rev >= Since(b)
  {
  }

  lemma ArithmeticNumbers(b: Byte)
    requires 0 < b < 0x20
    ensures forall alu :: O.DecodeArith(b) == O.Alu(alu) <==> AluNumber(alu) == b
    ensures O.DecodeArith(b).Alu? || O.DecodeArith(b).Invalid?
  {
  }

  // ----- what the client is called for -----

  datatype Callback =
    | Sha3 | TxContext | ReturnSize | ReturnCopy | BlockHash | Balance | ExtCodeSize | ExtCodeCopy
    | SLoad | SStore | Log | Create | Call | SelfDestruct

  /** What an instruction calls the client for, and how many words it takes from and puts on the stack. */
  datatype Case = Case(callback: Callback, pops: nat, pushes: nat)

  /** Words of an address, a hash or a topic. */
  const WIDE := 2

  function CaseOf(b: Byte): Option<Case> {
    if b == 0x20 then Some(Case(Sha3, 1 + 1, WIDE))
    else if b == 0x31 then Some(Case(Balance, WIDE, 1))
    else if b == 0x32 || b == 0x41 then Some(Case(TxContext, 0, WIDE))
    else if b == 0x3a || 0x42 <= b <= 0x45 then Some(Case(TxContext, 0, 1))
    else if b == 0x3b then Some(Case(ExtCodeSize, WIDE, 1))
    else if b == 0x3c then Some(Case(ExtCodeCopy, WIDE + 3, 0))
    else if b == 0x3d then Some(Case(ReturnSize, 0, 1))
    else if b == 0x3e then Some(Case(ReturnCopy, 3, 0))
    else if b == 0x40 then Some(Case(BlockHash, 1, WIDE))
    else if b == 0x54 then Some(Case(SLoad, 1, 1))
    else if b == 0x55 then Some(Case(SStore, 2, 0))
    else if 0xa0 <= b <= 0xa4 then Some(Case(Log, 2 + (b - 0xa0) * WIDE, 0))
    else if b == 0xf0 then Some(Case(Create, 3, WIDE))
    else if b == 0xf1 || b == 0xf2 then Some(Case(Call, 1 + WIDE + 1 + 4, 1))
    else if b == 0xf4 || b == 0xfa then Some(Case(Call, 1 + WIDE + 4, 1))
    else if b == 0xff then Some(Case(SelfDestruct, WIDE, 0))
    else None
  }

  predicate Alters(c: Callback) {
    c.SStore? || c.Log? || c.Create? || c.SelfDestruct?
  }

  predicate Sends(c: Callback) {
    c.Create? || c.Call?
  }

  /** Memory is written; a message's output is written there too. */
  predicate Copies(c: Callback) {
    c.ReturnCopy? || c.ExtCodeCopy? || c.Call?
  }

  /**
   Whether the client is called for an instruction, in every mode; and the instructions that
   change state or send messages are those that call the client for it.
   */
  lemma ClientExact(mode: O.Mode, b: Byte)
    ensures O.Decode(mode, b).Host? <==>
            CaseOf(b).Some? && mode.rev >= Since(b) && !(mode.staticCall && Alters(CaseOf(b).value.callback))
    ensures O.ChangesState(b) <==> CaseOf(b).Some? && Alters(CaseOf(b).value.callback)
    ensures O.SendsMessage(b) <==> CaseOf(b).Some? && Sends(CaseOf(b).value.callback)
  {
  }

  // ----- the assembler's table -----

  /** The assembler knows what the machine can execute in its last revision, CREATE2 and INVALID. */
  lemma KnownExact(b: Byte)
    ensures I.IsKnown(b) <==> !O.DecodeIn(O.AION_V1, b).Invalid? || b == 0xfb || b == 0xfe
  {
    if 0 < b < 0x20 {
      ArithmeticNumbers(b);
    }
  }

  /** The assembler's table says of every instruction what the compiled instruction does to the stack. */
  lemma StackExact(mode: O.Mode, b: Byte)
    requires !O.Decode(mode, b).Invalid?
    ensures
      var op := O.Decode(mode, b);
      && I.InfoOf(b).additional == (if op.Push? then op.bytes else 0)
      && I.InfoOf(b).args == (if op.Host? then CaseOf(b).value.pops else E.Pops(op))
      && I.InfoOf(b).ret == (if op.Host? then CaseOf(b).value.pushes else E.Pushes(op))
  {
    if 0 < b < 0x20 {
      ArithmeticNumbers(b);
      ArithmeticStack(b);
    } else if 0x20 <= b < 0x60 {
      MiddleStack(mode, b);
    }
  }

  lemma MiddleStack(mode: O.Mode, b: Byte)
    requires 0x20 <= b < 0x60 && !O.Decode(mode, b).Invalid?
    ensures
      var op := O.Decode(mode, b);
      && I.InfoOf(b).additional == 0
      && I.InfoOf(b).args == (if op.Host? then CaseOf(b).value.pops else E.Pops(op))
      && I.InfoOf(b).ret == (if op.Host? then CaseOf(b).value.pushes else E.Pushes(op))
  {
  }

  lemma ArithmeticStack(b: Byte)
    requires 0 < b < 0x20 && O.DecodeArith(b).Alu?
    ensures I.InfoOf(b) == I.Pure(E.AluArity(O.DecodeArith(b).alu), 1)
  {
  }

  /** Memory is used, or control is transferred or received. */
  predicate Touches(op: O.Op) {
    || op.MLoad? || op.MStore? || op.MStore8? || op.CallDataCopy? || op.CodeCopy?
    || op.Stop? || op.Return? || op.Revert? || op.Jump? || op.JumpI? || op.JumpDest?
  }

  /**
   An instruction is marked as having side effects if and only if it uses memory or control, or
   has the client change state, execute a message or write memory.
   */
  lemma SideEffectsExact(mode: O.Mode, b: Byte)
    requires !O.Decode(mode, b).Invalid?
    ensures
      var op := O.Decode(mode, b);
      I.InfoOf(b).sideEffects <==>
      if op.Host? then
        var c := CaseOf(b).value.callback;
        Alters(c) || Sends(c) || Copies(c)
      else Touches(op)
  {
    if 0 < b < 0x20 {
      ArithmeticNumbers(b);
      ArithmeticStack(b);
    }
  }

  /** What changes state or sends a message is marked, in whichever mode it could run. */
  lemma ActingMarked(b: Byte)
    requires O.ChangesState(b) || O.SendsMessage(b)
    ensures I.InfoOf(b).sideEffects
  {
    ClientExact(O.Mode(O.AION_V1, false), b);
    SideEffectsExact(O.Mode(O.AION_V1, false), b);
  }

  // ----- costs -----

  /** Costs of instructions by byte, before the revisions with costs of their own. */
  function ClassicCost(b: Byte): nat {
    if b == 0x00 || b == 0xf3 || b == 0xfd then 0
    else if b == 0x5b then 1
    else if b == 0x30 || b == 0x33 || b == 0x34 || b == 0x36 || b == 0x38 || b == 0x50 || 0x58 <= b <= 0x5a then 2
    else if b == 0x02 || 0x04 <= b <= 0x07 || b == 0x0b then 5
    else if b == 0x08 || b == 0x09 || b == 0x56 then 8
    else if b == 0x0a || b == 0x57 then 10
    else 3
  }

  /** From AION on everything that is not free costs one. */
  function FixedCost(rev: O.Revision, b: Byte): nat {
    if rev >= O.AION && ClassicCost(b) > 0 then 1 else ClassicCost(b)
  }

  /** Costs of the instructions that send messages, by byte. */
  function MessageCost(rev: O.Revision, b: Byte): nat
    requires O.SendsMessage(b)
  {
    if b == 0xf0 then (if rev < O.AION then 32000 else 200000)
    else if rev < O.TANGERINE_WHISTLE then 40
    else if rev < O.AION then 700
    else 1000
  }

  /** A message is charged what its instruction costs, with nothing to transfer, create or buy memory for. */
  lemma MessageCostExact(rev: O.Revision, kind: Calls.Kind, isStatic: bool)
    ensures MessageCost(rev, M.OpcodeOf(kind))
            == if kind.Create? then Calls.CreateCost(rev) else Calls.CallCosts(rev, kind, isStatic, 0, 0, true)
  {
  }

  /** Each instruction of the machine itself costs what its byte does. */
  lemma CostExact(mode: O.Mode, b: Byte)
    requires !O.Decode(mode, b).Host? && !O.Decode(mode, b).Invalid?
    ensures O.StepCost(mode.rev, O.Decode(mode, b)) == FixedCost(mode.rev, b)
  {
    if 0 < b < 0x20 {
      ArithmeticNumbers(b);
    }
  }
}
