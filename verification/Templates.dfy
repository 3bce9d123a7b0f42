/**
 What the compiler emits for each instruction, as a sequence of steps. Within a template
 register k denotes the k-th value the template has popped or computed.
 */
module Templates {
  import opened Words
  import O = Opcodes
  import opened Evm
  import opened Ir
  import opened Builder

  const MINUS_ONE := TWO_128 - 1

  function ExpBytePrice(rev: O.Revision): nat {
    if rev >= O.AION then 1 else if rev >= O.SPURIOUS_DRAGON then 50 else 10
  }

  /** Computation of an operator's result, the last value, from its popped operands. */
  function AluBody(alu: O.AluOp): seq<Instr> {
    match alu
    case Add => [Bin(Add, Reg(0), Reg(1))]
    case Mul => [Bin(Mul, Reg(0), Reg(1))]
    case Sub => [Bin(Sub, Reg(0), Reg(1))]
    case Div => [
      Bin(Eq, Reg(1), Imm(0)),               // 2: division by zero?
      Select(Reg(2), Imm(1), Reg(1)),        // 3: protected divisor
      Bin(UDiv, Reg(0), Reg(3)),
      Select(Reg(2), Imm(0), Reg(4))]
    case SDiv => [
      Bin(Eq, Reg(1), Imm(0)),               // 2
      Bin(Eq, Reg(1), Imm(MINUS_ONE)),       // 3
      Select(Reg(2), Imm(1), Reg(1)),        // 4
      Bin(SDiv, Reg(0), Reg(4)),             // 5
      Select(Reg(2), Imm(0), Reg(5)),        // 6
      Bin(Sub, Imm(0), Reg(0)),              // 7
      Select(Reg(3), Reg(7), Reg(6))]
    case Mod => [
      Bin(Eq, Reg(1), Imm(0)),
      Select(Reg(2), Imm(1), Reg(1)),
      Bin(URem, Reg(0), Reg(3)),
      Select(Reg(2), Imm(0), Reg(4))]
    case SMod => [
      Bin(Eq, Reg(1), Imm(0)),               // 2
      Bin(Eq, Reg(1), Imm(MINUS_ONE)),       // 3
      Select(Reg(2), Imm(1), Reg(1)),        // 4
      Bin(SRem, Reg(0), Reg(4)),             // 5
      Select(Reg(2), Imm(0), Reg(5)),        // 6
      Select(Reg(3), Imm(0), Reg(6))]
    case AddMod => [
      Bin(Eq, Reg(2), Imm(0)),               // 3
      Bin(Add256, Reg(0), Reg(1)),           // 4
      Bin(URem256, Reg(4), Reg(2)),          // 5
      Bin(Trunc128, Reg(5), Imm(0)),         // 6
      Select(Reg(3), Imm(0), Reg(6))]
    case MulMod => [
      Bin(Eq, Reg(2), Imm(0)),
      Bin(Mul256, Reg(0), Reg(1)),
      Bin(URem256, Reg(4), Reg(2)),
      Bin(Trunc128, Reg(5), Imm(0)),
      Select(Reg(3), Imm(0), Reg(6))]
    case Exp => [Bin(ExpCall, Reg(0), Reg(1))]
    case SignExtend => [
      Bin(Trunc4, Reg(0), Imm(0)),           // 2: k
      Bin(Mul64, Reg(2), Imm(8)),            // 3
      Bin(Add64, Reg(3), Imm(7)),            // 4: position of the sign bit
      Bin(LShr, Reg(1), Reg(4)),             // 5
      Bin(Trunc1, Reg(5), Imm(0)),           // 6: sign bit
      Bin(Shl, Imm(1), Reg(4)),              // 7
      Bin(Sub, Reg(7), Imm(1)),              // 8: mask of the bits below
      Bin(Xor, Reg(8), Imm(MINUS_ONE)),      // 9
      Bin(Or, Reg(1), Reg(9)),               // 10
      Bin(And, Reg(1), Reg(8)),              // 11
      Bin(ULe, Reg(0), Imm(14)),             // 12
      Select(Reg(6), Reg(10), Reg(11)),      // 13
      Select(Reg(12), Reg(13), Reg(1))]
    case Lt => [Bin(ULt, Reg(0), Reg(1))]
    case Gt => [Bin(UGt, Reg(0), Reg(1))]
    case Slt => [Bin(SLt, Reg(0), Reg(1))]
    case Sgt => [Bin(SGt, Reg(0), Reg(1))]
    case Eq => [Bin(Eq, Reg(0), Reg(1))]
    case IsZero => [Bin(Eq, Reg(0), Imm(0))]
    case And => [Bin(And, Reg(0), Reg(1))]
    case Or => [Bin(Or, Reg(0), Reg(1))]
    case Xor => [Bin(Xor, Reg(0), Reg(1))]
    case Not => [Bin(Xor, Reg(0), Imm(MINUS_ONE))]
    case ByteOf => [
      Bin(ULt, Reg(0), Imm(16)),             // 2
      Bin(Trunc4, Reg(0), Imm(0)),           // 3
      Bin(ByteExtract, Reg(1), Reg(3)),      // 4
      Select(Reg(2), Reg(4), Imm(0))]
  }

  /** Price of an exponentiation: the number of significant bytes of the exponent, priced. */
  function ExpPrice(rev: O.Revision): seq<Instr> {
    [ Bin(Ctlz, Reg(1), Imm(0)),             // 2
      Bin(Trunc64, Reg(2), Imm(0)),          // 3
      Bin(Sub64, Imm(128), Reg(3)),          // 4: significant bits
      Bin(Add64, Reg(4), Imm(7)),            // 5
      Bin(UDiv64, Reg(5), Imm(8)),           // 6: significant bytes
      Bin(Mul64, Reg(6), Imm(ExpBytePrice(rev)))]
  }

  function Dos(body: seq<Instr>): (ms: seq<Micro>)
    ensures |ms| == |body|
    ensures forall k :: 0 <= k < |ms| ==> ms[k] == Do(body[k])
  {
    seq(|body|, k requires 0 <= k < |body| => Do(body[k]))
  }

  function PopMicros(n: nat): (ms: seq<Micro>)
    ensures |ms| == n && forall k :: 0 <= k < n ==> ms[k] == Pop
  {
    seq(n, _ => Pop)
  }

  function AluTemplate(rev: O.Revision, alu: O.AluOp): seq<Micro> {
    PopMicros(AluArity(alu)) + AluTail(rev, alu)
  }

  /** What follows the popping of an operator's operands. */
  function AluTail(rev: O.Revision, alu: O.AluOp): seq<Micro> {
    if alu.Exp? then
      Dos(ExpPrice(rev)) + [Do(Charge(Reg(7))), Do(Bin(ExpCall, Reg(0), Reg(1))), Push(Reg(8))]
    else
      Dos(AluBody(alu)) + [Push(Reg(AluArity(alu) + |AluBody(alu)| - 1))]
  }

  /** Price of a copy: three per word of the length. */
  function CopyPrice(): seq<Instr> {
    [ Bin(Trunc64, Reg(2), Imm(0)),          // 3
      Bin(Add64, Reg(3), Imm(31)),           // 4
      Bin(UDiv64, Reg(4), Imm(32)),          // 5: words
      Bin(Mul64, Reg(5), Imm(3))]
  }

  function CopyTemplate(source: Source): seq<Micro> {
    (PopMicros(3) + [Do(MemRequire(Reg(0), Reg(2)))]) + CopyTailMicros(source)
  }

  /** What follows once the target range is available. */
  function CopyTailMicros(source: Source): seq<Micro> {
    Dos(CopyPrice()) + [Do(Charge(Reg(6))), Do(Copy(source, Reg(1), Reg(0), Reg(2)))]
  }

  /** A field of the message; one wider than a word is pushed in two halves. */
  function FieldTemplate(field: O.Field): seq<Micro> {
    if field.CallValue? then [Do(ReadField(field)), Push(Reg(0))]
    else [
      Do(ReadField(field)),
      Do(Bin(Trunc128, Reg(0), Imm(0))),     // 1: lower half
      Push(Reg(1)),
      Do(Bin(LShrWord, Reg(0), Imm(0))),     // 2
      Do(Bin(Trunc128, Reg(2), Imm(0))),     // 3: upper half
      Push(Reg(3))]
  }

  /** Steps of a straight-line instruction at position pc; `value` is a push's operand. */
  function Template(rev: O.Revision, codeSize: nat, pc: nat, op: O.Op, value: nat): seq<Micro> {
    match op
    case Alu(alu) => AluTemplate(rev, alu)
    case Pop => [Pop]
    case Push(n) =>
      if n > 16 then [Push(Imm(value % TWO_128)), Push(Imm((value / TWO_128) % TWO_128))]
      else [Push(Imm(value % TWO_128))]
    case Dup(i) => [Get(i), Push(Reg(0))]
    case Swap(i) => [Get(i), Get(0), Set(i, Reg(1)), Set(0, Reg(0))]
    case MLoad => [Pop, Do(MemRequire(Reg(0), Imm(16))), Do(MemLoad(Reg(0))), Push(Reg(1))]
    case MStore => [Pop, Pop, Do(MemRequire(Reg(0), Imm(16))), Do(MemStore(Reg(0), Reg(1)))]
    case MStore8 => [Pop, Pop, Do(MemRequire(Reg(0), Imm(1))), Do(MemStore8(Reg(0), Reg(1)))]
    case MSize => [Do(MemSize), Push(Reg(0))]
    case Pc => [Push(Imm(pc % TWO_128))]
    case Gas => [Observe, Push(Reg(0))]
    case CallDataLoad => [Pop, Do(DataLoad(Reg(0))), Push(Reg(1))]
    case CallDataSize => [Do(DataSize), Push(Reg(0))]
    case CodeSize => [Push(Imm(codeSize % TWO_128))]
    case MessageField(field) => FieldTemplate(field)
    case CallDataCopy => CopyTemplate(CallData)
    case CodeCopy => CopyTemplate(Code)
    case _ => []
  }

  lemma TemplatePlain(rev: O.Revision, codeSize: nat, pc: nat, op: O.Op, value: nat)
    ensures
      var ms := Template(rev, codeSize, pc, op, value);
      forall k :: 0 <= k < |ms| ==> ms[k].Do? ==> IsPlain(ms[k].i)
  {
    if op.Alu? {
      BodyPure(op.alu);
    }
  }

  predicate IsPure(i: Instr) {
    i.Bin? || i.Select?
  }

  lemma BodyPure(alu: O.AluOp)
    ensures forall k :: 0 <= k < |AluBody(alu)| ==> IsPure(AluBody(alu)[k])
  {
  }

  // ----- running pure code on the temporaries alone -----

  function EvalPure(i: Instr, temps: seq<nat>): Option<nat> {
    match i
    case Bin(op, x, y) =>
      if Defined(op, Eval(x, temps), Eval(y, temps)) then Some(EvalBin(op, Eval(x, temps), Eval(y, temps))) else None
    case Select(c, x, y) => Some(if Eval(c, temps) != 0 then Eval(x, temps) else Eval(y, temps))
    case _ => None
  }

  /** All values after running a body; None where it is not defined. */
  function EvalBody(body: seq<Instr>, temps: seq<nat>): Option<seq<nat>>
    decreases body
  {
    if body == [] then Some(temps)
    else match EvalPure(body[0], temps)
      case None => None
      case Some(v) => EvalBody(body[1..], temps + [v])
  }

  // A body can be evaluated line by line against the list of all its values.

  predicate InScope(v: Val, n: nat) {
    v.Reg? ==> v.i < n
  }

  predicate Scoped(i: Instr, n: nat) {
    match i
    case Bin(_, x, y) => InScope(x, n) && InScope(y, n)
    case Select(c, x, y) => InScope(c, n) && InScope(x, n) && InScope(y, n)
    case _ => false
  }

  /** Line k uses only earlier values and computes the value listed for it. */
  predicate Line(body: seq<Instr>, n: nat, values: seq<nat>, k: nat)
    requires k < |body| && |values| == n + |body|
  {
    Scoped(body[k], n + k) && EvalPure(body[k], values) == Some(values[n + k])
  }

  lemma {:induction false} LinesEvaluate(body: seq<Instr>, temps: seq<nat>, values: seq<nat>)
    requires |values| == |temps| + |body| && values[..|temps|] == temps
    requires forall k :: 0 <= k < |body| ==> Line(body, |temps|, values, k)
    ensures EvalBody(body, temps) == Some(values)
    decreases |body|
  {
    if body == [] {
      assert values == temps;
    } else {
      var n := |temps|;
      assert Line(body, n, values, 0);
      forall i | 0 <= i < n ensures values[i] == temps[i] {
        assert values[..n][i] == temps[i];
      }
      var temps' := temps + [values[n]];
      assert values[..n + 1] == temps';
      forall k | 0 <= k < |body[1..]| ensures Line(body[1..], |temps'|, values, k) {
        assert Line(body, n, values, k + 1);
      }
      LinesEvaluate(body[1..], temps', values);
    }
  }
}
