/**
 The reference machine: one instruction at a time, as sections 9.4.2 and 9.4.3 and
 Appendix H of the Ethereum Yellow Paper define it, with 128-bit words and this
 system's own instruction set and costs. All exceptional halts are one outcome.
 */
module Evm {
  import opened Words
  import opened Opcodes

  const STACK_LIMIT := 1024

  /** What stays fixed while one message is executed. */
  datatype Msg = Msg(
    mode: Mode, code: seq<Byte>, callData: seq<Byte>, address: Wide, caller: Wide, value: Word)

  /** Machine state; the top of the stack is the last element. */
  datatype Vm = Vm(stack: seq<Word>, gas: nat, memory: seq<Byte>)

  datatype Outcome =
    | Stopped(vm: Vm)
    | Returned(vm: Vm, output: seq<Byte>)
    | Reverted(vm: Vm, output: seq<Byte>)
    | Exceptional

  // ----- instruction positions and jump destinations -----

  function PushBytes(b: Byte): (n: nat)
    ensures n <= 32
  {
    if PUSH1 <= b <= PUSH32 then b - PUSH1 + 1 else 0
  }

  /** Position of the next instruction (N in section 9.4.3 of the Yellow Paper). */
  function NextPos(code: seq<Byte>, pc: nat): (n: nat)
    requires pc < |code|
    ensures n > pc
  {
    pc + 1 + PushBytes(code[pc])
  }

  /** The valid jump destinations at or after pc (D_J in section 9.4.3). */
  function JumpDests(code: seq<Byte>, pc: nat): set<nat>
    decreases |code| - pc
  {
    if pc >= |code| then {}
    else if code[pc] == JUMPDEST then {pc} + JumpDests(code, NextPos(code, pc))
    else JumpDests(code, NextPos(code, pc))
  }

  /** Immediate operand of a push; bytes past the end of the code read as zero. */
  function PushData(code: seq<Byte>, pc: nat, n: nat): (v: nat)
  {
    if n == 0 then 0
    else 256 * PushData(code, pc, n - 1) + (if pc + n < |code| then code[pc + n] else 0)
  }

  // ----- memory -----

  /** Cost of having w active 32-byte words (C_mem). */
  function MemoryFee(rev: Revision, w: nat): nat {
    (if rev >= AION then 1 else 3) * w + (w * w) / 512
  }

  /** Active words after touching a range (M in Appendix H). */
  function ActiveWords(w: nat, off: nat, len: nat): (r: nat)
    ensures r >= w
    ensures len > 0 ==> off + len <= 32 * r
  {
    if len == 0 then w
    else
      var need := (off + len + 31) / 32;
      if need > w then need else w
  }

  function Words32(memory: seq<Byte>): nat {
    |memory| / 32
  }

  function Expand(memory: seq<Byte>, off: nat, len: nat): (m: seq<Byte>)
    ensures |m| >= |memory| && m[..|memory|] == memory
    ensures len > 0 ==> off + len <= |m|
  {
    var n := 32 * ActiveWords(Words32(memory), off, len);
    if n > |memory| then memory + Zeros(n - |memory|) else memory
  }

  function ExpandCost(rev: Revision, memory: seq<Byte>, off: nat, len: nat): nat
  {
    var w := Words32(memory);
    var w' := ActiveWords(w, off, len);
    FeeMonotone(rev, w, w');
    MemoryFee(rev, w') - MemoryFee(rev, w)
  }

  lemma FeeMonotone(rev: Revision, w: nat, w': nat)
    requires w <= w'
    ensures MemoryFee(rev, w) <= MemoryFee(rev, w')
  {
    MulMonotone(w, w', w);
    MulMonotone(w, w', w');
    assert w * w' == w' * w;
    assert w * w <= w' * w';
    assert (w * w) / 512 <= (w' * w') / 512;
  }

  function Overwrite(memory: seq<Byte>, off: nat, bs: seq<Byte>): (m: seq<Byte>)
    requires bs != [] ==> off + |bs| <= |memory|
    ensures |m| == |memory|
  {
    if bs == [] then memory else memory[..off] + bs + memory[off + |bs|..]
  }

  /** The bytes src, src+1, ... of some data, zero beyond its end. */
  function PaddedSlice(data: seq<Byte>, src: nat, len: nat): (s: seq<Byte>)
    ensures |s| == len
  {
    seq(len, k requires 0 <= k < len => if src + k < |data| then data[src + k] else 0)
  }

  function ReadWord(memory: seq<Byte>, off: nat): (w: Word)
    requires off + 16 <= |memory|
  {
    var bs := memory[off..off + 16];
    FromBigEndianBound(bs);
    Pow256IsPow2(16);
    Pow2At128();
    FromBigEndian(bs)
  }

  function CallDataWord(data: seq<Byte>, idx: nat): Word {
    ReadWord(PaddedSlice(data, idx, 16), 0)
  }

  // ----- arithmetic (Appendix H) -----

  function Power(b: nat, e: nat): nat {
    if e == 0 then 1 else b * Power(b, e - 1)
  }

  /** Integer division rounding toward zero. */
  function TruncDiv(a: int, b: int): int
    requires b != 0
  {
    var q := Abs(a) / Abs(b);
    if (a < 0) != (b < 0) then -q else q
  }

  /** Remainder taking the sign of the dividend. */
  function TruncRem(a: int, b: int): int
    requires b != 0
  {
    var r := Abs(a) % Abs(b);
    if a < 0 then -r else r
  }

  function Abs(a: int): nat {
    if a < 0 then -a else a
  }

  function SignExtendSpec(k: Word, x: Word): Word {
    if k > 14 then x
    else
      var p := Pow2(8 * k + 8);
      Pow2At128();
      Pow2Monotone(8 * k + 8, 128);
      var low := x % p;
      if low >= p / 2 then TWO_128 - p + low else low
  }

  function ByteSpec(i: Word, x: Word): Word {
    if i >= 16 then 0 else (x / Pow256(15 - i)) % 256
  }

  function Bool(b: bool): Word {
    if b then 1 else 0
  }

  function AluArity(alu: AluOp): nat {
    match alu
    case AddMod | MulMod => 3
    case IsZero | Not => 1
    case _ => 2
  }

  /** The result of an operator on its operands, topmost operand first. */
  function AluResult(alu: AluOp, a: Word, b: Word, c: Word): Word {
    match alu
    case Add => (a + b) % TWO_128
    case Mul => (a * b) % TWO_128
    case Sub => Wrap(a - b)
    case Div => if b == 0 then 0 else WordDiv(a, b)
    case SDiv => if b == 0 then 0 else Wrap(TruncDiv(Signed(a), SignedNonZero(b)))
    case Mod => if b == 0 then 0 else WordMod(a, b)
    case SMod => if b == 0 then 0 else Wrap(TruncRem(Signed(a), SignedNonZero(b)))
    case AddMod => if c == 0 then 0 else WordMod(a + b, c)
    case MulMod => if c == 0 then 0 else WordMod(a * b, c)
    case Exp => Power(a, b) % TWO_128
    case SignExtend => SignExtendSpec(a, b)
    case Lt => Bool(a < b)
    case Gt => Bool(a > b)
    case Slt => Bool(Signed(a) < Signed(b))
    case Sgt => Bool(Signed(a) > Signed(b))
    case Eq => Bool(a == b)
    case IsZero => Bool(a == 0)
    case And => BitAnd(a, b) % TWO_128
    case Or => BitOr(a, b) % TWO_128
    case Xor => BitXor(a, b) % TWO_128
    case Not => TWO_128 - 1 - a
    case ByteOf => ByteSpec(a, b)
  }

  function WordDiv(a: Word, b: Word): Word
    requires b != 0
  {
    assert a / b <= a;
    a / b
  }

  function WordMod(a: nat, b: Word): Word
    requires b != 0
  {
    a % b
  }

  function SignedNonZero(b: Word): (s: int)
    requires b != 0
    ensures s == Signed(b) && s != 0
  {
    Signed(b)
  }

  // ----- one instruction -----

  function Pops(op: Op): nat {
    match op
    case Alu(alu) => AluArity(alu)
    case Pop | MLoad | CallDataLoad | Jump => 1
    case MStore | MStore8 | JumpI | Return | Revert => 2
    case CallDataCopy | CodeCopy => 3
    case Dup(i) => i + 1
    case Swap(i) => i + 1
    case _ => 0
  }

  function Pushes(op: Op): nat {
    match op
    case Alu(_) | MLoad | MSize | Pc | Gas | CallDataLoad | CallDataSize | CodeSize => 1
    case MessageField(field) => if field.CallValue? then 1 else 2
    case Push(n) => if n > 16 then 2 else 1
    case Dup(i) => i + 2
    case Swap(i) => i + 1
    case _ => 0
  }

  /** The i-th stack item counted from the top; zero stands in for a missing one. */
  function Top(s: seq<Word>, i: nat): Word {
    if i < |s| then s[|s| - 1 - i] else 0
  }

  /** The range of memory an instruction touches: offset and length. */
  function MemoryRange(op: Op, s: seq<Word>): (Word, Word) {
    match op
    case MLoad | MStore => (Top(s, 0), 16)
    case MStore8 => (Top(s, 0), 1)
    case CallDataCopy | CodeCopy => (Top(s, 0), Top(s, 2))
    case Return | Revert => (Top(s, 0), Top(s, 1))
    case _ => (0, 0)
  }

  function SignificantBytes(e: nat): nat {
    if e == 0 then 0 else 1 + SignificantBytes(e / 256)
  }

  function ExpByteCost(rev: Revision): nat {
    if rev >= AION then 1 else if rev >= SPURIOUS_DRAGON then 50 else 10
  }

  /** Operand-dependent cost that is not memory growth. */
  function OperandCost(rev: Revision, op: Op, s: seq<Word>): nat {
    if op == Alu(Exp) then SignificantBytes(Top(s, 1)) * ExpByteCost(rev)
    else if op.CallDataCopy? || op.CodeCopy? then 3 * ((Top(s, 2) + 31) / 32)
    else 0
  }

  function TotalCost(msg: Msg, op: Op, vm: Vm): nat {
    var (off, len) := MemoryRange(op, vm.stack);
    StepCost(msg.mode.rev, op) + OperandCost(msg.mode.rev, op, vm.stack)
    + ExpandCost(msg.mode.rev, vm.memory, off, len)
  }

  /** An instruction halts exceptionally when its stack demand or its cost cannot be met. */
  predicate Admissible(msg: Msg, op: Op, vm: Vm) {
    && Pops(op) <= |vm.stack|
    && |vm.stack| - Pops(op) + Pushes(op) <= STACK_LIMIT
    && TotalCost(msg, op, vm) <= vm.gas
  }

  /** The two words of a 256-bit value, the upper half on top. */
  function Halves(v: nat): seq<Word> {
    [v % TWO_128, (v / TWO_128) % TWO_128]
  }

  function SwapWithTop(s: seq<Word>, i: nat): (r: seq<Word>)
    requires i < |s|
  {
    var n := |s| - 1;
    s[n := s[n - i]][n - i := s[n]]
  }

  /** Stack and memory contents after a straight-line instruction; g is the gas left. */
  function Effect(msg: Msg, pc: nat, op: Op, vm: Vm, g: nat): (r: (seq<Word>, seq<Byte>))
    requires Pops(op) <= |vm.stack|
  {
    var s := vm.stack;
    var rest := s[..|s| - (if op.Dup? || op.Swap? then 0 else Pops(op))];
    var (off, len) := MemoryRange(op, s);
    var m := Expand(vm.memory, off, len);
    match op
    case Alu(alu) => (rest + [AluResult(alu, Top(s, 0), Top(s, 1), Top(s, 2))], m)
    case Push(n) =>
      var v := PushData(msg.code, pc, n);
      (if n > 16 then rest + Halves(v) else rest + [v % TWO_128], m)
    case Dup(i) => (s + [Top(s, i)], m)
    case Swap(i) => (SwapWithTop(s, i), m)
    case MLoad => (rest + [ReadWord(m, off)], m)
    case MStore => (rest, Overwrite(m, off, BigEndian(16, Top(s, 1))))
    case MStore8 => (rest, Overwrite(m, off, [Top(s, 1) % 256]))
    case MSize => (rest + [|m| % TWO_128], m)
    case Pc => (rest + [pc % TWO_128], m)
    case Gas => (rest + [g % TWO_128], m)
    case CallDataLoad => (rest + [CallDataWord(msg.callData, Top(s, 0))], m)
    case CallDataSize => (rest + [|msg.callData| % TWO_128], m)
    case CodeSize => (rest + [|msg.code| % TWO_128], m)
    case MessageField(Address) => (rest + Halves(msg.address), m)
    case MessageField(Caller) => (rest + Halves(msg.caller), m)
    case MessageField(CallValue) => (rest + [msg.value], m)
    case CallDataCopy => (rest, Overwrite(m, off, PaddedSlice(msg.callData, Top(s, 1), len)))
    case CodeCopy => (rest, Overwrite(m, off, PaddedSlice(msg.code, Top(s, 1), len)))
    case _ => (rest, m)
  }

  /** One straight-line instruction; None is an exceptional halt. */
  function Step(msg: Msg, pc: nat, op: Op, vm: Vm): (r: Option<Vm>)
    requires IsStraight(op)
    ensures r.Some? ==> r.value.gas < vm.gas
  {
    if !Admissible(msg, op, vm) then None
    else
      var g := vm.gas - TotalCost(msg, op, vm);
      var (s, m) := Effect(msg, pc, op, vm, g);
      Some(Vm(s, g, m))
  }

  datatype Transition = Halts(outcome: Outcome) | Continues(pc: nat, vm: Vm)

  /** One instruction, whatever it is. */
  function Transit(msg: Msg, pc: nat, vm: Vm): (t: Transition)
    ensures t.Continues? ==> t.vm.gas < vm.gas
  {
    if pc >= |msg.code| then Halts(Stopped(vm))
    else
      var op := Decode(msg.mode, msg.code[pc]);
      if op.Stop? then Halts(Stopped(vm))
      else if op.Host? || op.Invalid? || !Admissible(msg, op, vm) then Halts(Exceptional)
      else if IsStraight(op) then Continues(NextPos(msg.code, pc), Step(msg, pc, op, vm).value)
      else Transfer(msg, pc, op, vm)
  }

  /** An instruction that transfers control or ends the run. */
  function Transfer(msg: Msg, pc: nat, op: Op, vm: Vm): (t: Transition)
    requires pc < |msg.code| && Admissible(msg, op, vm)
    requires op.Jump? || op.JumpI? || op.Return? || op.Revert?
    ensures t.Continues? ==> t.vm.gas < vm.gas
  {
    var s := vm.stack;
    var (off, len) := MemoryRange(op, s);
    var m := Expand(vm.memory, off, len);
    var vm' := Vm(s[..|s| - Pops(op)], vm.gas - TotalCost(msg, op, vm), m);
    if op.Return? then Halts(Returned(vm', OutputOf(m, off, len)))
    else if op.Revert? then Halts(Reverted(vm', OutputOf(m, off, len)))
    else if op.JumpI? && Top(s, 1) == 0 then Continues(NextPos(msg.code, pc), vm')
    else if Top(s, 0) in JumpDests(msg.code, 0) then Continues(Top(s, 0), vm')
    else Halts(Exceptional)
  }

  /** Runs a message from an instruction position to its end. */
  function Run(msg: Msg, pc: nat, vm: Vm): Outcome
    decreases vm.gas
  {
    match Transit(msg, pc, vm)
    case Halts(outcome) => outcome
    case Continues(pc', vm') => Run(msg, pc', vm')
  }

  function OutputOf(memory: seq<Byte>, off: nat, len: nat): (o: seq<Byte>)
    requires len > 0 ==> off + len <= |memory|
    ensures |o| == len
  {
    if len == 0 then [] else memory[off..off + len]
  }

  /** Execution of a message from the start, with an empty stack and memory. */
  function Execute(msg: Msg, gas: nat): Outcome {
    Run(msg, 0, Vm([], gas, []))
  }
}
