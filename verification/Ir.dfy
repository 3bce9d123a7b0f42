/**
 The code the compiler generates for one basic block, and the machine that runs it.
 Values are in single-assignment form: the n-th value-producing instruction of a block
 defines register n. `Wild` marks undefined behaviour: an access outside the stack or
 memory buffers, or an arithmetic operation used outside its domain.
 */
module Ir {
  import opened Words
  import opened Opcodes
  import opened Evm
  import opened MemoryUnit
  import Arith128

  datatype Val = Imm(n: nat) | Reg(i: nat)

  datatype BinOp =
    // 128-bit
    | Add | Sub | Mul | UDiv | URem | SDiv | SRem | ExpCall | Ctlz
    | And | Or | Xor | Shl | LShr
    | Eq | Ne | ULt | UGt | ULe | SLt | SGt
    | ByteExtract
    // 256-bit, sums and products flagged as non-wrapping; the shift is by the width of a word
    | Add256 | Mul256 | URem256 | LShrWord
    // 64-bit, additions and products flagged as non-wrapping
    | Add64 | Sub64 | Mul64 | UDiv64
    // width changes
    | Trunc128 | Trunc64 | Trunc4 | Trunc1

  datatype Source = CallData | Code

  datatype Instr =
    | Load(slot: int)
    | Store(slot: int, v: Val)
    | Bin(op: BinOp, x: Val, y: Val)
    | Select(c: Val, x: Val, y: Val)
    | GasCheck(cost: nat)
    | Charge(v: Val)
    | ReadGas
    | MemRequire(off: Val, len: Val)
    | MemLoad(addr: Val)
    | MemStore(addr: Val, v: Val)
    | MemStore8(addr: Val, v: Val)
    | MemSize
    | DataSize
    | ReadField(field: Field)
    | DataLoad(idx: Val)
    | Copy(source: Source, src: Val, dest: Val, len: Val)

  /** State while a block runs; `slots` is the buffer behind the global stack. */
  datatype Rt = Rt(env: seq<nat>, gas: nat, slots: seq<nat>, memory: seq<Byte>)

  datatype Result = Ok(rt: Rt) | Abort | Wild

  predicate ProducesValue(i: Instr) {
    i.Load? || i.Bin? || i.Select? || i.ReadGas? || i.MemLoad? || i.MemSize? || i.DataSize? || i.DataLoad?
    || i.ReadField?
  }

  function Eval(v: Val, env: seq<nat>): nat {
    match v
    case Imm(n) => n
    case Reg(i) => if i < |env| then env[i] else 0
  }

  predicate ValidVal(v: Val, regs: nat) {
    v.Reg? ==> v.i < regs
  }

  function Flag(b: bool): nat {
    if b then 1 else 0
  }

  function AsWord(n: nat): Word {
    n % TWO_128
  }

  /** Where an operation is defined. */
  predicate Defined(op: BinOp, x: nat, y: nat) {
    match op
    case UDiv | URem | SDiv | SRem | UDiv64 => y != 0
    case Shl | LShr => y < 128
    case ByteExtract => y < 16
    case Add256 => x + y < TWO_256
    case Mul256 => x * y < TWO_256
    case Add64 => x + y < TWO_64
    case Mul64 => x * y < TWO_64
    case _ => true
  }

  // Division by zero has no meaning; zero stands in for it.
  function Quotient(x: nat, y: nat): nat {
    if y == 0 then 0 else x / y
  }

  function Remainder(x: nat, y: nat): nat {
    if y == 0 then 0 else x % y
  }

  function Product(x: nat, y: nat): nat {
    x * y
  }

  function SignedDivide(x: nat, y: nat): (Word, Word) {
    if x < TWO_128 && 0 < y < TWO_128 then Arith128.SDivRem(x, y) else (0, 0)
  }

  function EvalCompare(op: BinOp, x: nat, y: nat): bool {
    match op
    case Eq => x == y
    case Ne => x != y
    case ULt => x < y
    case UGt => x > y
    case ULe => x <= y
    case SLt => Signed(AsWord(x)) < Signed(AsWord(y))
    case SGt => Signed(AsWord(x)) > Signed(AsWord(y))
    case _ => false
  }

  function EvalBin(op: BinOp, x: nat, y: nat): nat {
    match op
    case Add => AsWord(x + y)
    case Sub => Wrap(x - y)
    case Mul => AsWord(Product(x, y))
    case UDiv | UDiv64 => Quotient(x, y)
    case URem | URem256 => Remainder(x, y)
    case SDiv => SignedDivide(x, y).0
    case SRem => SignedDivide(x, y).1
    case ExpCall => AsWord(Power(x, y))
    case Ctlz => Arith128.LeadingZeros(128, x)
    case And => BitAnd(x, y)
    case Or => BitOr(x, y)
    case Xor => BitXor(x, y)
    case Shl => AsWord(Product(x, Pow2(y)))
    case LShr => Quotient(x, Pow2(y))
    case LShrWord => x / TWO_128
    case Eq | Ne | ULt | UGt | ULe | SLt | SGt => Flag(EvalCompare(op, x, y))
    case ByteExtract => if y < 16 then BigEndian(16, x)[y] else 0
    case Add256 | Add64 => x + y
    case Mul256 | Mul64 => Product(x, y)
    case Sub64 => (x - y) % TWO_64
    case Trunc128 => AsWord(x)
    case Trunc64 => x % TWO_64
    case Trunc4 => x % 16
    case Trunc1 => x % 2
  }

  function Define(rt: Rt, n: nat): Rt {
    rt.(env := rt.env + [n])
  }

  /** The generated gas check: the cost is paid in full or the run is aborted. */
  function Pay(rt: Rt, cost: nat): Result {
    if cost <= rt.gas then Ok(rt.(gas := rt.gas - cost)) else Abort
  }

  /** A cost wider than the gas type saturates. */
  function Saturate(cost: nat): nat {
    if cost > GAS_MAX then GAS_MAX else cost
  }

  function Grow(memory: seq<Byte>, size: nat): (m: seq<Byte>)
    ensures |m| >= |memory| && m[..|memory|] == memory
    ensures |m| == if size > |memory| then size else |memory|
  {
    if size > |memory| then memory + Zeros(size - |memory|) else memory
  }

  function ExecRequire(msg: Msg, rt: Rt, off: nat, len: nat): Result {
    match Require(msg.mode.rev, |rt.memory|, off, len)
    case Poison => Wild
    case Growth(cost, size) =>
      if cost <= rt.gas then Ok(rt.(gas := rt.gas - cost, memory := Grow(rt.memory, size))) else Abort
  }

  function SourceData(msg: Msg, source: Source): seq<Byte> {
    if source.CallData? then msg.callData else msg.code
  }

  /** Number of bytes a copy takes from its source; the rest of the target is cleared. */
  function BytesToCopy(data: seq<Byte>, src: nat, n: nat): (k: nat)
    ensures k <= n
    ensures k > 0 ==> src + k <= |data|
  {
    if src >= |data| then 0
    else if n > |data| - src then |data| - src
    else n
  }

  function ExecCopy(rt: Rt, data: seq<Byte>, src: nat, dest: nat, len: nat): Result {
    var n := len % TWO_64;
    var d := dest % TWO_64;
    if n == 0 then Ok(rt)
    else if d + n > |rt.memory| then Wild
    else
      var k := BytesToCopy(data, src, n);
      var copied := if k == 0 then [] else data[src..src + k];
      Ok(rt.(memory := Overwrite(rt.memory, d, copied + Zeros(n - k))))
  }

  /** CALLDATALOAD fills a 16-byte buffer by copying and padding. */
  function LoadData(data: seq<Byte>, idx: nat): Word {
    var i := if idx < |data| then idx else |data|;
    var end := if i + 16 <= |data| then i + 16 else |data|;
    ReadWord(data[i..end] + Zeros(16 - (end - i)), 0)
  }

  /** A field of the message, as it is stored. */
  function FieldOf(msg: Msg, field: Field): Wide {
    match field
    case Address => msg.address
    case Caller => msg.caller
    case CallValue => msg.value
  }

  /** One instruction; sp is the number of items on the global stack when the block starts. */
  function ExecInstr(msg: Msg, sp: nat, i: Instr, rt: Rt): Result {
    match i
    case Load(slot) =>
      if 0 <= sp + slot < |rt.slots| then Ok(Define(rt, rt.slots[sp + slot])) else Wild
    case Store(slot, v) =>
      if 0 <= sp + slot < |rt.slots| then Ok(rt.(slots := rt.slots[sp + slot := Eval(v, rt.env)])) else Wild
    case Bin(op, x, y) =>
      if Defined(op, Eval(x, rt.env), Eval(y, rt.env))
      then Ok(Define(rt, EvalBin(op, Eval(x, rt.env), Eval(y, rt.env)))) else Wild
    case Select(c, x, y) => Ok(Define(rt, if Eval(c, rt.env) != 0 then Eval(x, rt.env) else Eval(y, rt.env)))
    case GasCheck(cost) => Pay(rt, cost)
    case Charge(v) => Pay(rt, Saturate(Eval(v, rt.env)))
    case ReadGas => Ok(Define(rt, rt.gas))
    case MemRequire(off, len) => ExecRequire(msg, rt, Eval(off, rt.env), Eval(len, rt.env))
    case MemLoad(addr) =>
      var a := Eval(addr, rt.env) % TWO_64;
      if a + 16 <= |rt.memory| then Ok(Define(rt, ReadWord(rt.memory, a))) else Wild
    case MemStore(addr, v) =>
      var a := Eval(addr, rt.env) % TWO_64;
      if a + 16 <= |rt.memory|
      then Ok(rt.(memory := Overwrite(rt.memory, a, BigEndian(16, Eval(v, rt.env))))) else Wild
    case MemStore8(addr, v) =>
      var a := Eval(addr, rt.env) % TWO_64;
      if a + 1 <= |rt.memory|
      then Ok(rt.(memory := Overwrite(rt.memory, a, [Eval(v, rt.env) % 256]))) else Wild
    case MemSize => Ok(Define(rt, AsWord(|rt.memory|)))
    case DataSize => Ok(Define(rt, AsWord(|msg.callData|)))
    case ReadField(field) => Ok(Define(rt, FieldOf(msg, field)))
    case DataLoad(idx) => Ok(Define(rt, LoadData(msg.callData, Eval(idx, rt.env))))
    case Copy(source, src, dest, len) =>
      ExecCopy(rt, SourceData(msg, source), Eval(src, rt.env), Eval(dest, rt.env), Eval(len, rt.env))
  }

  function Exec(msg: Msg, sp: nat, code: seq<Instr>, rt: Rt): Result {
    if code == [] then Ok(rt)
    else
      match Exec(msg, sp, code[..|code| - 1], rt)
      case Ok(rt') => ExecInstr(msg, sp, code[|code| - 1], rt')
      case Abort => Abort
      case Wild => Wild
  }

  lemma ExecSnoc(msg: Msg, sp: nat, code: seq<Instr>, i: Instr, rt: Rt)
    ensures Exec(msg, sp, code + [i], rt) ==
            match Exec(msg, sp, code, rt) {
              case Ok(rt') => ExecInstr(msg, sp, i, rt')
              case Abort => Abort
              case Wild => Wild
            }
  {
    assert (code + [i])[..|code + [i]| - 1] == code;
  }

  lemma {:induction false} ExecConcat(msg: Msg, sp: nat, a: seq<Instr>, b: seq<Instr>, rt: Rt)
    ensures Exec(msg, sp, a + b, rt) ==
            match Exec(msg, sp, a, rt) {
              case Ok(rt') => Exec(msg, sp, b, rt')
              case Abort => Abort
              case Wild => Wild
            }
  {
    if b == [] {
      assert a + b == a;
    } else {
      var b' := b[..|b| - 1];
      ExecConcat(msg, sp, a, b', rt);
      assert (a + b)[..|a + b| - 1] == a + b';
    }
  }
}
