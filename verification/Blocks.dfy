/**
 Basic blocks: compilation of the instructions of one block, and how a compiled block
 runs from the state it is entered with.
 */
module Blocks {
  import opened Words
  import O = Opcodes
  import opened Evm
  import opened Ir
  import opened Builder
  import opened Templates
  import opened Positions
  import L = LocalStacks

  /** How a block ends. */
  datatype Term =
    | FallThrough
    | Br(dest: Val)
    | CondBr(cond: Val, dest: Val)
    | ExitStop
    | ExitReturn(off: Val, len: Val)
    | ExitRevert(off: Val, len: Val)
    | ExitAbort

  /**
   `first` is the position of the block's first instruction; min, max and diff are what
   the stack check at its start is given.
   */
  datatype Block = Block(first: nat, min: int, max: int, diff: int, code: seq<Instr>, term: Term)

  // ----- compilation -----

  /** Operand of a push within a block; beyond the block's end it reads as zero. */
  function PushOperand(code: seq<Byte>, pc: nat, end: nat, op: O.Op): nat
    requires end <= |code|
  {
    if op.Push? then PushData(code[..end], pc, op.bytes) else 0
  }

  /** Steps taken before the control transfer of a terminating instruction. */
  function TermMicros(op: O.Op): seq<Micro> {
    match op
    case Jump => [Pop]
    case JumpI => [Pop, Pop, Do(Bin(Ne, Reg(1), Imm(0)))]
    case Return | Revert => [Pop, Pop, Do(MemRequire(Reg(0), Reg(1)))]
    case _ => []
  }

  function TempAt(temps: seq<Val>, k: nat): Val {
    if k < |temps| then temps[k] else Imm(0)
  }

  function TermOf(op: O.Op, temps: seq<Val>): Term {
    match op
    case Jump => Br(TempAt(temps, 0))
    case JumpI => CondBr(TempAt(temps, 2), TempAt(temps, 0))
    case Return => ExitReturn(TempAt(temps, 0), TempAt(temps, 1))
    case Revert => ExitRevert(TempAt(temps, 0), TempAt(temps, 1))
    case Stop => ExitStop
    case _ => ExitAbort
  }

  /** Compiles the instructions from pc up to the end of the block. */
  function CompileFrom(mode: O.Mode, code: seq<Byte>, pc: nat, end: nat, bs: BState): (BState, Term)
    requires end <= |code|
    decreases end - pc
  {
    if pc >= end then (bs, FallThrough)
    else
      var op := O.Decode(mode, code[pc]);
      var counted := Site(Count(bs, O.StepCost(mode.rev, op)), []);
      if O.IsStraight(op) then
        var s := CompileMicros(Template(mode.rev, |code|, pc, op, PushOperand(code, pc, end, op)), counted);
        CompileFrom(mode, code, Next(code, pc), end, s.bs)
      else
        var s := CompileMicros(TermMicros(op), counted);
        (s.bs, TermOf(op, s.temps))
  }

  /** Commits the last cost block, fills in the stack check and appends the write-back. */
  function Finish(first: nat, bs: BState, term: Term): Block
    requires L.Valid(bs.ls, bs.regs)
  {
    var code := CodeOf(Commit(bs));
    Block(first, bs.ls.reach.min, bs.ls.reach.max, bs.ls.Size(), code + L.FinalStores(bs.ls, bs.ls.Size()), term)
  }

  // ----- execution -----

  datatype BlockResult =
    | Aborts
    | Crashes
    | Falls(e: Entry)
    | Jumps(dest: nat, e: Entry)
    | Stops(e: Entry)
    | Returns(e: Entry, output: seq<Byte>)
    | Reverts(e: Entry, output: seq<Byte>)

  /** Bytes handed to the caller; None if they are not within memory. */
  function ReturnData(memory: seq<Byte>, off: nat, len: nat): Option<seq<Byte>> {
    var n := len % TWO_64;
    if n == 0 then Some([])
    else if off + n <= |memory| then Some(memory[off..off + n])
    else None
  }

  function Leave(term: Term, env: seq<nat>, e: Entry): BlockResult {
    match term
    case FallThrough => Falls(e)
    case Br(dest) => Jumps(Eval(dest, env), e)
    case CondBr(cond, dest) => if Eval(cond, env) != 0 then Jumps(Eval(dest, env), e) else Falls(e)
    case ExitStop => Stops(e)
    case ExitReturn(off, len) =>
      var o := ReturnData(e.memory, Eval(off, env), Eval(len, env));
      if o.Some? then Returns(e, o.value) else Crashes
    case ExitRevert(off, len) =>
      var o := ReturnData(e.memory, Eval(off, env), Eval(len, env));
      if o.Some? then Reverts(e, o.value) else Crashes
    case ExitAbort => Aborts
  }

  /** The stack check, the code, and the control transfer. */
  function RunBlock(msg: Msg, b: Block, e: Entry): BlockResult {
    if e.size + b.min < 0 || e.size + b.max > STACK_LIMIT then Aborts
    else match Exec(msg, e.size, b.code, Rt([], e.gas, e.slots, e.memory))
      case Abort => Aborts
      case Wild => Crashes
      case Ok(rt) =>
        if e.size + b.diff < 0 then Crashes
        else Leave(b.term, rt.env, Entry(rt.slots, e.size + b.diff, rt.gas, rt.memory))
  }
}
