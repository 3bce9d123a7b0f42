/**
 The template of every straight-line instruction, run on the plain machine, does exactly
 one step of the reference machine: same stack, gas and memory, and it halts exactly when
 the reference machine halts exceptionally.
 */
module Instructions {
  import opened Words
  import O = Opcodes
  import opened Evm
  import opened MemoryUnit
  import opened Ir
  import opened Builder
  import opened Templates
  import opened Operators
  import Arith128
  import L = LocalStacks

  // ----- running sequences of steps -----

  lemma {:induction false} HaltedStays(msg: Msg, ms: seq<Micro>)
    ensures PlainMicros(msg, ms, Halted) == Halted
    decreases |ms|
  {
    if ms != [] {
      HaltedStays(msg, ms[1..]);
    }
  }

  lemma {:induction false} MicrosConcat(msg: Msg, a: seq<Micro>, b: seq<Micro>, p: Plain)
    ensures PlainMicros(msg, a + b, p) == PlainMicros(msg, b, PlainMicros(msg, a, p))
    decreases |a|
  {
    if a == [] {
      assert a + b == b;
    } else {
      assert (a + b)[1..] == a[1..] + b;
      MicrosConcat(msg, a[1..], b, PlainMicro(msg, a[0], p));
    }
  }

  /** The n topmost items, topmost first. */
  function Tops(s: seq<nat>, n: nat): (r: seq<nat>)
    requires n <= |s|
    ensures |r| == n
  {
    seq(n, i requires 0 <= i < n => s[|s| - 1 - i])
  }

  lemma {:induction false} TopsOneMore(temps: seq<nat>, s: seq<nat>, n: nat)
    requires 0 < n <= |s|
    ensures
      var rest := s[..|s| - 1];
      && (temps + [s[|s| - 1]]) + Tops(rest, n - 1) == temps + Tops(s, n)
      && rest[..|rest| - (n - 1)] == s[..|s| - n]
  {
  }

  lemma {:induction false} PopsRun(msg: Msg, n: nat, p: Plain)
    requires p.Running?
    ensures
      var q := PlainMicros(msg, PopMicros(n), p);
      if n <= |p.stack| then
        q.Running? && q == p.(stack := p.stack[..|p.stack| - n], temps := p.temps + Tops(p.stack, n), low := q.low)
      else q == Halted
  {
    if n == 0 {
      assert p.temps + Tops(p.stack, 0) == p.temps && p.stack[..|p.stack|] == p.stack;
    } else {
      assert PopMicros(n)[1..] == PopMicros(n - 1);
      if p.stack == [] {
        HaltedStays(msg, PopMicros(n - 1));
      } else {
        var p1 := PlainMicro(msg, Pop, p);
        PopsRun(msg, n - 1, p1);
        if n <= |p.stack| {
          TopsOneMore(p.temps, p.stack, n);
        }
      }
    }
  }

  lemma {:induction false} BodyRuns(msg: Msg, body: seq<Instr>, p: Plain)
    requires p.Running? && EvalBody(body, p.temps).Some?
    ensures PlainMicros(msg, Dos(body), p) == p.(temps := EvalBody(body, p.temps).value)
    decreases |body|
  {
    if body != [] {
      assert Dos(body)[1..] == Dos(body[1..]);
      BodyRuns(msg, body[1..], PlainMicro(msg, Do(body[0]), p));
    }
  }

  // ----- what it means for a template to be right -----

  /** The plain machine has done what one step of the reference machine does. */
  predicate Matches(p: Plain, r: Option<Vm>) {
    match r
    case None => p.Halted?
    case Some(vm) => p.Running? && p.stack == vm.stack && p.gas == vm.gas && p.memory == vm.memory
  }

  function PlainOf(vm: Vm, low: int): Plain {
    Running(vm.stack, vm.gas, vm.memory, [], low)
  }

  function TemplateAt(msg: Msg, pc: nat, op: O.Op): seq<Micro> {
    Template(msg.mode.rev, |msg.code|, pc, op, if op.Push? then PushData(msg.code, pc, op.bytes) else 0)
  }

  predicate TemplateCorrect(msg: Msg, pc: nat, op: O.Op, vm: Vm, low: int)
    requires O.IsStraight(op)
  {
    Matches(PlainMicros(msg, TemplateAt(msg, pc, op), Charged(PlainOf(vm, low), O.StepCost(msg.mode.rev, op))),
            Step(msg, pc, op, vm))
  }

  lemma NoMemoryTouched(rev: O.Revision, memory: seq<Byte>)
    ensures ExpandCost(rev, memory, 0, 0) == 0 && Expand(memory, 0, 0) == memory
  {
  }

  // ----- operators -----

  lemma AluFinish(msg: Msg, alu: O.AluOp, p: Plain, s: seq<Word>)
    requires !alu.Exp? && p.Running? && |s| >= AluArity(alu)
    requires p.temps == Operands(alu, Top(s, 0), Top(s, 1), Top(s, 2))
    requires p.stack == s[..|s| - AluArity(alu)]
    ensures
      var n := AluArity(alu);
      var q := PlainMicros(msg, AluTail(msg.mode.rev, alu), p);
      if |s| - n + 1 <= STACK_LIMIT then
        q.Running? && q.gas == p.gas && q.memory == p.memory
        && q.stack == s[..|s| - n] + [AluResult(alu, Top(s, 0), Top(s, 1), Top(s, 2))]
      else q == Halted
  {
    var n := AluArity(alu);
    var body := AluBody(alu);
    OperatorCorrect(alu, Top(s, 0), Top(s, 1), Top(s, 2));
    BodyRuns(msg, body, p);
    var push := [Push(Reg(n + |body| - 1))];
    MicrosConcat(msg, Dos(body), push, p);
    assert push[1..] == [];
  }

  lemma TopsAreOperands(alu: O.AluOp, s: seq<Word>)
    requires |s| >= AluArity(alu)
    ensures Tops(s, AluArity(alu)) == Operands(alu, Top(s, 0), Top(s, 1), Top(s, 2))
  {
  }

  /** An operator applied to the topmost items; None if there are too few of them. */
  function Applied(alu: O.AluOp, s: seq<Word>): Option<seq<Word>> {
    var n := AluArity(alu);
    if |s| < n || |s| - n + 1 > STACK_LIMIT then None
    else Some(s[..|s| - n] + [AluResult(alu, Top(s, 0), Top(s, 1), Top(s, 2))])
  }

  /** Result of a step that replaces the stack at a given cost and leaves memory alone. */
  function Replaced(vm: Vm, s: Option<seq<Word>>, cost: nat): Option<Vm> {
    if s.None? || vm.gas < cost then None else Some(Vm(s.value, vm.gas - cost, vm.memory))
  }

  lemma AluStep(msg: Msg, pc: nat, alu: O.AluOp, vm: Vm)
    ensures Step(msg, pc, O.Alu(alu), vm)
            == Replaced(vm, Applied(alu, vm.stack),
                        O.StepCost(msg.mode.rev, O.Alu(alu)) + OperandCost(msg.mode.rev, O.Alu(alu), vm.stack))
  {
    NoMemoryTouched(msg.mode.rev, vm.memory);
  }

  lemma AluRuns(msg: Msg, alu: O.AluOp, p: Plain, s: seq<Word>)
    requires !alu.Exp? && p.Running? && p.temps == [] && p.stack == s
    ensures
      var q := PlainMicros(msg, AluTemplate(msg.mode.rev, alu), p);
      match Applied(alu, s) {
        case None => q == Halted
        case Some(s') => q.Running? && q.stack == s' && q.gas == p.gas && q.memory == p.memory
      }
  {
    var n := AluArity(alu);
    PopsThen(msg, n, AluTail(msg.mode.rev, alu), p);
    if n <= |s| {
      TopsAreOperands(alu, s);
      AluFinish(msg, alu, PlainMicros(msg, PopMicros(n), p), s);
    }
  }

  /** Popping operands, then going on; with too few items it halts. */
  lemma PopsThen(msg: Msg, n: nat, rest: seq<Micro>, p: Plain)
    requires p.Running? && p.temps == []
    ensures
      var q := PlainMicros(msg, PopMicros(n), p);
      if n <= |p.stack| then
        && PlainMicros(msg, PopMicros(n) + rest, p) == PlainMicros(msg, rest, q)
        && q.Running? && q.stack == p.stack[..|p.stack| - n] && q.temps == Tops(p.stack, n)
        && q.gas == p.gas && q.memory == p.memory
      else PlainMicros(msg, PopMicros(n) + rest, p) == Halted
  {
    MicrosConcat(msg, PopMicros(n), rest, p);
    PopsRun(msg, n, p);
    if n <= |p.stack| {
      assert [] + Tops(p.stack, n) == Tops(p.stack, n);
    } else {
      HaltedStays(msg, rest);
    }
  }

  lemma AluCorrect(msg: Msg, pc: nat, alu: O.AluOp, vm: Vm, low: int)
    requires !alu.Exp?
    ensures TemplateCorrect(msg, pc, O.Alu(alu), vm, low)
  {
    AluStep(msg, pc, alu, vm);
    var p := Charged(PlainOf(vm, low), O.StepCost(msg.mode.rev, O.Alu(alu)));
    if p.Halted? {
      HaltedStays(msg, AluTemplate(msg.mode.rev, alu));
    } else {
      AluRuns(msg, alu, p, vm.stack);
    }
  }

  // ----- exponentiation -----

  lemma SmallModulo(x: nat, m: nat)
    requires x < m
    ensures x % m == x
  {
    DivModUnique(x, 0, m, x);
  }

  lemma ExpPriceZeros(rev: O.Revision, b: Word, bits: nat, values: seq<nat>)
    requires bits == Arith128.BitLength(b) && bits <= 128 && |values| == 8
    requires values[1] == b && values[2] == 128 - bits
    ensures Line(ExpPrice(rev), 2, values, 0)
  {
  }

  lemma ExpPriceNarrow(rev: O.Revision, bits: nat, values: seq<nat>)
    requires bits <= 128 && |values| == 8 && values[2] == values[3] == 128 - bits
    ensures Line(ExpPrice(rev), 2, values, 1)
  {
    SmallModulo(128 - bits, TWO_64);
  }

  lemma ExpPriceBits(rev: O.Revision, bits: nat, values: seq<nat>)
    requires bits <= 128 && |values| == 8 && values[3] == 128 - bits && values[4] == bits
    ensures Line(ExpPrice(rev), 2, values, 2)
  {
    SmallModulo(bits, TWO_64);
  }

  lemma ExpPriceBytes(rev: O.Revision, bits: nat, values: seq<nat>, k: nat)
    requires bits <= 128 && |values| == 8
    requires values[4] == bits && values[5] == bits + 7 && values[6] == (bits + 7) / 8
    requires values[7] == Product(values[6], ExpBytePrice(rev)) && values[7] < TWO_64
    requires 3 <= k < 6
    ensures Line(ExpPrice(rev), 2, values, k)
  {
    if k == 3 {
    } else if k == 4 {
    } else {
    }
  }

  lemma ExpPriceLines(rev: O.Revision, a: Word, b: Word, bits: nat, n: nat, x: nat)
    requires bits == Arith128.BitLength(b) && bits <= 128 && n == (bits + 7) / 8
    requires x == Product(n, ExpBytePrice(rev)) && x < TWO_64
    ensures EvalBody(ExpPrice(rev), [a, b]) == Some([a, b, 128 - bits, 128 - bits, bits, bits + 7, n, x])
  {
    var values := [a, b, 128 - bits, 128 - bits, bits, bits + 7, n, x];
    var body := ExpPrice(rev);
    forall k | 0 <= k < |body| ensures Line(body, 2, values, k) {
      if k == 0 {
        ExpPriceZeros(rev, b, bits, values);
      } else if k == 1 {
        ExpPriceNarrow(rev, bits, values);
      } else if k == 2 {
        ExpPriceBits(rev, bits, values);
      } else {
        ExpPriceBytes(rev, bits, values, k);
      }
    }
    LinesEvaluate(body, [a, b], values);
  }

  lemma PriceBound(rev: O.Revision, n: nat)
    requires n <= 16
    ensures Product(n, ExpBytePrice(rev)) <= 800
  {
    MulMonotone(n, 16, ExpBytePrice(rev));
  }

  /** The emitted price is the price per significant byte of the exponent. */
  lemma ExpPriceCorrect(rev: O.Revision, a: Word, b: Word)
    ensures
      var r := EvalBody(ExpPrice(rev), [a, b]);
      && r.Some? && |r.value| == 8 && r.value[0] == a && r.value[1] == b
      && r.value[7] == SignificantBytes(b) * ExpByteCost(rev) <= GAS_MAX
  {
    Pow2At128();
    Arith128.BitLengthAtMost(b, 128);
    var bits := Arith128.BitLength(b);
    var n := (bits + 7) / 8;
    PriceBound(rev, n);
    ExpPriceLines(rev, a, b, bits, n, Product(n, ExpBytePrice(rev)));
    Arith128.SignificantBytesFromBits(b);
  }

  /** Last steps of an exponentiation; x is the price computed before. */
  lemma ExpFinish(msg: Msg, p: Plain, a: Word, b: Word, x: nat)
    requires p.Running? && |p.temps| == 8 && p.temps[0] == a && p.temps[1] == b && p.temps[7] == x <= GAS_MAX
    requires |p.stack| < STACK_LIMIT
    ensures
      var q := PlainMicros(msg, [Do(Charge(Reg(7))), Do(Bin(ExpCall, Reg(0), Reg(1))), Push(Reg(8))], p);
      if x <= p.gas then
        q.Running? && q.stack == p.stack + [AluResult(O.Exp, a, b, 0)] && q.gas == p.gas - x && q.memory == p.memory
      else q == Halted
  {
    var ms := [Do(Charge(Reg(7))), Do(Bin(ExpCall, Reg(0), Reg(1))), Push(Reg(8))];
    if x > p.gas {
      HaltedStays(msg, ms[1..]);
    }
  }

  lemma ExpPriced(msg: Msg, p: Plain, a: Word, b: Word)
    requires p.Running? && p.temps == [a, b] && |p.stack| < STACK_LIMIT
    ensures
      var q := PlainMicros(msg, AluTail(msg.mode.rev, O.Exp), p);
      var x := SignificantBytes(b) * ExpByteCost(msg.mode.rev);
      if x <= p.gas then
        q.Running? && q.stack == p.stack + [AluResult(O.Exp, a, b, 0)] && q.gas == p.gas - x && q.memory == p.memory
      else q == Halted
  {
    var price := Dos(ExpPrice(msg.mode.rev));
    var last := [Do(Charge(Reg(7))), Do(Bin(ExpCall, Reg(0), Reg(1))), Push(Reg(8))];
    ExpPriceCorrect(msg.mode.rev, a, b);
    MicrosConcat(msg, price, last, p);
    BodyRuns(msg, ExpPrice(msg.mode.rev), p);
    ExpFinish(msg, PlainMicros(msg, price, p), a, b, SignificantBytes(b) * ExpByteCost(msg.mode.rev));
  }

  lemma ExpRuns(msg: Msg, p: Plain, s: seq<Word>)
    requires p.Running? && p.temps == [] && p.stack == s && |s| <= STACK_LIMIT
    ensures
      var q := PlainMicros(msg, AluTemplate(msg.mode.rev, O.Exp), p);
      var x := OperandCost(msg.mode.rev, O.Alu(O.Exp), s);
      if Applied(O.Exp, s).None? || p.gas < x then q == Halted
      else q.Running? && q.stack == Applied(O.Exp, s).value && q.gas == p.gas - x && q.memory == p.memory
  {
    PopsThen(msg, 2, AluTail(msg.mode.rev, O.Exp), p);
    if |s| >= 2 {
      ExpEnd(msg, PlainMicros(msg, PopMicros(2), p), s);
    }
  }

  lemma ExpEnd(msg: Msg, p: Plain, s: seq<Word>)
    requires p.Running? && 2 <= |s| <= STACK_LIMIT && p.temps == Tops(s, 2) && p.stack == s[..|s| - 2]
    ensures
      var q := PlainMicros(msg, AluTail(msg.mode.rev, O.Exp), p);
      var x := OperandCost(msg.mode.rev, O.Alu(O.Exp), s);
      if p.gas < x then q == Halted
      else q.Running? && q.stack == Applied(O.Exp, s).value && q.gas == p.gas - x && q.memory == p.memory
  {
    assert Tops(s, 2) == [Top(s, 0), Top(s, 1)];
    ExpPriced(msg, p, Top(s, 0), Top(s, 1));
  }

  lemma ExpCorrect(msg: Msg, pc: nat, vm: Vm, low: int)
    requires |vm.stack| <= STACK_LIMIT
    ensures TemplateCorrect(msg, pc, O.Alu(O.Exp), vm, low)
  {
    AluStep(msg, pc, O.Exp, vm);
    var p := Charged(PlainOf(vm, low), O.StepCost(msg.mode.rev, O.Alu(O.Exp)));
    if p.Halted? {
      HaltedStays(msg, AluTemplate(msg.mode.rev, O.Exp));
    } else {
      ExpRuns(msg, p, vm.stack);
    }
  }

  // ----- stack, position and size instructions -----

  lemma Micros1(msg: Msg, a: Micro, p: Plain)
    ensures PlainMicros(msg, [a], p) == PlainMicro(msg, a, p)
  {
    assert [a][1..] == [];
  }

  lemma Micros2(msg: Msg, a: Micro, b: Micro, p: Plain)
    ensures PlainMicros(msg, [a, b], p) == PlainMicro(msg, b, PlainMicro(msg, a, p))
  {
    assert [a, b][1..] == [b];
    Micros1(msg, b, PlainMicro(msg, a, p));
  }

  lemma Micros3(msg: Msg, a: Micro, b: Micro, c: Micro, p: Plain)
    ensures PlainMicros(msg, [a, b, c], p) == PlainMicro(msg, c, PlainMicro(msg, b, PlainMicro(msg, a, p)))
  {
    assert [a, b, c][1..] == [b, c];
    Micros2(msg, b, c, PlainMicro(msg, a, p));
  }

  lemma Micros4(msg: Msg, a: Micro, b: Micro, c: Micro, d: Micro, p: Plain)
    ensures PlainMicros(msg, [a, b, c, d], p)
            == PlainMicro(msg, d, PlainMicro(msg, c, PlainMicro(msg, b, PlainMicro(msg, a, p))))
  {
    assert [a, b, c, d][1..] == [b, c, d];
    Micros3(msg, b, c, d, PlainMicro(msg, a, p));
  }

  predicate StackOnly(op: O.Op) {
    op.Pop? || op.Push? || op.Dup? || op.Swap? || op.MSize? || op.Pc? || op.Gas? || op.JumpDest?
    || op.CallDataLoad? || op.CallDataSize? || op.CodeSize? || op.MessageField?
  }

  predicate StackDemandMet(op: O.Op, s: seq<Word>) {
    Pops(op) <= |s| && |s| - Pops(op) + Pushes(op) <= STACK_LIMIT
  }

  /** A step of an instruction that neither touches memory nor has a variable cost. */
  lemma StackStep(msg: Msg, pc: nat, op: O.Op, vm: Vm)
    requires StackOnly(op)
    ensures
      var cost := O.StepCost(msg.mode.rev, op);
      Step(msg, pc, op, vm)
      == if StackDemandMet(op, vm.stack) && cost <= vm.gas
         then Some(Vm(Effect(msg, pc, op, vm, vm.gas - cost).0, vm.gas - cost, vm.memory))
         else None
  {
    NoMemoryTouched(msg.mode.rev, vm.memory);
  }

  lemma PushImmediate(msg: Msg, op: O.Op, pc: nat, vm: Vm, low: int, v: Word)
    requires StackOnly(op) && TemplateAt(msg, pc, op) == [Push(Imm(v))]
    requires Pops(op) == 0 && Pushes(op) == 1
    requires forall g: nat :: Effect(msg, pc, op, vm, g).0 == vm.stack + [v]
    ensures TemplateCorrect(msg, pc, op, vm, low)
  {
    StackStep(msg, pc, op, vm);
    Micros1(msg, Push(Imm(v)), Charged(PlainOf(vm, low), O.StepCost(msg.mode.rev, op)));
  }

  lemma PushCorrect(msg: Msg, pc: nat, n: nat, vm: Vm, low: int)
    ensures TemplateCorrect(msg, pc, O.Push(n), vm, low)
  {
    var op := O.Push(n);
    var v := PushData(msg.code, pc, n);
    if n <= 16 {
      PushImmediate(msg, op, pc, vm, low, v % TWO_128);
    } else {
      StackStep(msg, pc, op, vm);
      var lo, hi := v % TWO_128, (v / TWO_128) % TWO_128;
      Micros2(msg, Push(Imm(lo)), Push(Imm(hi)), Charged(PlainOf(vm, low), O.StepCost(msg.mode.rev, op)));
      assert vm.stack + [lo] + [hi] == vm.stack + [lo, hi];
    }
  }

  lemma ImmediateCorrect(msg: Msg, pc: nat, op: O.Op, vm: Vm, low: int)
    requires op.Pc? || op.CodeSize?
    ensures TemplateCorrect(msg, pc, op, vm, low)
  {
    PushImmediate(msg, op, pc, vm, low, if op.Pc? then pc % TWO_128 else |msg.code| % TWO_128);
  }

  lemma SizeCorrect(msg: Msg, pc: nat, op: O.Op, vm: Vm, low: int)
    requires op.MSize? || op.CallDataSize?
    ensures TemplateCorrect(msg, pc, op, vm, low)
  {
    StackStep(msg, pc, op, vm);
    NoMemoryTouched(msg.mode.rev, vm.memory);
    var read := if op.MSize? then MemSize else DataSize;
    Micros2(msg, Do(read), Push(Reg(0)), Charged(PlainOf(vm, low), O.StepCost(msg.mode.rev, op)));
  }

  lemma FieldCorrect(msg: Msg, pc: nat, field: O.Field, vm: Vm, low: int)
    ensures TemplateCorrect(msg, pc, O.MessageField(field), vm, low)
  {
    var op := O.MessageField(field);
    var p := Charged(PlainOf(vm, low), O.StepCost(msg.mode.rev, op));
    StackStep(msg, pc, op, vm);
    if field.CallValue? {
      Micros2(msg, Do(ReadField(field)), Push(Reg(0)), p);
    } else if p.Running? {
      HalvesRun(msg, field, p);
    } else {
      HaltedStays(msg, FieldTemplate(field));
    }
  }

  /** The halves of a field are pushed one after the other. */
  lemma HalvesRun(msg: Msg, field: O.Field, p: Plain)
    requires !field.CallValue? && p.Running? && p.temps == []
    ensures
      var q := PlainMicros(msg, FieldTemplate(field), p);
      if |p.stack| + 2 <= STACK_LIMIT
      then q.Running? && q.stack == p.stack + Halves(FieldOf(msg, field)) && q.gas == p.gas && q.memory == p.memory
      else q == Halted
  {
    var v := FieldOf(msg, field);
    var lower := [Do(ReadField(field)), Do(Bin(Trunc128, Reg(0), Imm(0))), Push(Reg(1))];
    var upper := [Do(Bin(LShrWord, Reg(0), Imm(0))), Do(Bin(Trunc128, Reg(2), Imm(0))), Push(Reg(3))];
    assert FieldTemplate(field) == lower + upper;
    MicrosConcat(msg, lower, upper, p);
    LowerRuns(msg, field, v, p);
    if |p.stack| + 1 <= STACK_LIMIT {
      var half := p.(stack := p.stack + [v % TWO_128], temps := [v, v % TWO_128]);
      UpperRuns(msg, v, half);
      assert p.stack + [v % TWO_128] + [(v / TWO_128) % TWO_128] == p.stack + Halves(v);
    } else {
      HaltedStays(msg, upper);
    }
  }

  lemma LowerRuns(msg: Msg, field: O.Field, v: nat, p: Plain)
    requires p.Running? && p.temps == [] && v == FieldOf(msg, field)
    ensures PlainMicros(msg, [Do(ReadField(field)), Do(Bin(Trunc128, Reg(0), Imm(0))), Push(Reg(1))], p)
            == if |p.stack| + 1 <= STACK_LIMIT
               then p.(stack := p.stack + [v % TWO_128], temps := [v, v % TWO_128]) else Halted
  {
    var read, cut := Do(ReadField(field)), Do(Bin(Trunc128, Reg(0), Imm(0)));
    Micros3(msg, read, cut, Push(Reg(1)), p);
    assert PlainMicro(msg, read, p) == p.(temps := [v]);
    assert PlainMicro(msg, cut, p.(temps := [v])) == p.(temps := [v, v % TWO_128]);
  }

  lemma UpperRuns(msg: Msg, v: nat, p: Plain)
    requires p.Running? && p.temps == [v, v % TWO_128]
    ensures
      var upper := [Do(Bin(LShrWord, Reg(0), Imm(0))), Do(Bin(Trunc128, Reg(2), Imm(0))), Push(Reg(3))];
      var q := PlainMicros(msg, upper, p);
      if |p.stack| + 1 <= STACK_LIMIT
      then q.Running? && q.stack == p.stack + [(v / TWO_128) % TWO_128] && q.gas == p.gas && q.memory == p.memory
      else q == Halted
  {
    var shift, cut := Do(Bin(LShrWord, Reg(0), Imm(0))), Do(Bin(Trunc128, Reg(2), Imm(0)));
    Micros3(msg, shift, cut, Push(Reg(3)), p);
    var p1 := p.(temps := [v, v % TWO_128, v / TWO_128]);
    var p2 := p.(temps := [v, v % TWO_128, v / TWO_128, (v / TWO_128) % TWO_128]);
    assert PlainMicro(msg, shift, p) == p1;
    assert PlainMicro(msg, cut, p1) == p2;
  }

  lemma PopCorrect(msg: Msg, pc: nat, vm: Vm, low: int)
    requires |vm.stack| <= STACK_LIMIT
    ensures TemplateCorrect(msg, pc, O.Pop, vm, low)
  {
    StackStep(msg, pc, O.Pop, vm);
    Micros1(msg, Pop, Charged(PlainOf(vm, low), O.StepCost(msg.mode.rev, O.Pop)));
  }

  lemma DupCorrect(msg: Msg, pc: nat, i: nat, vm: Vm, low: int)
    ensures TemplateCorrect(msg, pc, O.Dup(i), vm, low)
  {
    StackStep(msg, pc, O.Dup(i), vm);
    Micros2(msg, Get(i), Push(Reg(0)), Charged(PlainOf(vm, low), O.StepCost(msg.mode.rev, O.Dup(i))));
  }

  lemma SwapCorrect(msg: Msg, pc: nat, i: nat, vm: Vm, low: int)
    requires i > 0 && |vm.stack| <= STACK_LIMIT
    ensures TemplateCorrect(msg, pc, O.Swap(i), vm, low)
  {
    StackStep(msg, pc, O.Swap(i), vm);
    Micros4(msg, Get(i), Get(0), Set(i, Reg(1)), Set(0, Reg(0)),
            Charged(PlainOf(vm, low), O.StepCost(msg.mode.rev, O.Swap(i))));
  }

  lemma GasCorrect(msg: Msg, pc: nat, vm: Vm, low: int)
    requires vm.gas < TWO_128
    ensures TemplateCorrect(msg, pc, O.Gas, vm, low)
  {
    StackStep(msg, pc, O.Gas, vm);
    Micros2(msg, Observe, Push(Reg(0)), Charged(PlainOf(vm, low), O.StepCost(msg.mode.rev, O.Gas)));
    if O.StepCost(msg.mode.rev, O.Gas) <= vm.gas {
      SmallModulo(vm.gas - O.StepCost(msg.mode.rev, O.Gas), TWO_128);
    }
  }

  lemma JumpDestCorrect(msg: Msg, pc: nat, vm: Vm, low: int)
    requires |vm.stack| <= STACK_LIMIT
    ensures TemplateCorrect(msg, pc, O.JumpDest, vm, low)
  {
    StackStep(msg, pc, O.JumpDest, vm);
  }

  // ----- call data -----

  /** Copying and padding into a buffer is reading a zero-padded slice. */
  lemma LoadDataCorrect(data: seq<Byte>, idx: nat)
    ensures LoadData(data, idx) == CallDataWord(data, idx)
  {
    var i := if idx < |data| then idx else |data|;
    var end := if i + 16 <= |data| then i + 16 else |data|;
    var buffer := data[i..end] + Zeros(16 - (end - i));
    var slice := PaddedSlice(data, idx, 16);
    assert buffer == slice;
  }

  lemma CallDataLoadCorrect(msg: Msg, pc: nat, vm: Vm, low: int)
    requires |vm.stack| <= STACK_LIMIT
    ensures TemplateCorrect(msg, pc, O.CallDataLoad, vm, low)
  {
    StackStep(msg, pc, O.CallDataLoad, vm);
    LoadDataCorrect(msg.callData, Top(vm.stack, 0));
    Micros3(msg, Pop, Do(DataLoad(Reg(0))), Push(Reg(1)),
            Charged(PlainOf(vm, low), O.StepCost(msg.mode.rev, O.CallDataLoad)));
  }

  // ----- memory -----

  /** Asking for memory is growing it by the rule, or halting when that cannot be paid. */
  lemma RequireRuns(msg: Msg, off: Val, len: Val, p: Plain, o: Word, n: Word)
    requires p.Running? && Eval(off, p.temps) == o && Eval(len, p.temps) == n
    requires p.gas <= GAS_MAX && Tame(msg.mode.rev, p.gas, p.memory, o, n)
    ensures
      var q := PlainMicro(msg, Do(MemRequire(off, len)), p);
      var cost := ExpandCost(msg.mode.rev, p.memory, o, n);
      if cost <= p.gas
      then q == p.(gas := p.gas - cost, memory := Expand(p.memory, o, n))
           && (n > 0 ==> o <= REACH && n <= REACH)
      else q == Halted
  {
    TameRequest(msg.mode.rev, p.gas, p.memory, o, n);
  }

  /** A step that touches memory; `cost` is the cost that is not memory growth. */
  lemma MemoryStep(msg: Msg, pc: nat, op: O.Op, vm: Vm)
    requires O.IsStraight(op)
    ensures
      var (off, len) := MemoryRange(op, vm.stack);
      var cost := O.StepCost(msg.mode.rev, op) + OperandCost(msg.mode.rev, op, vm.stack);
      var grow := ExpandCost(msg.mode.rev, vm.memory, off, len);
      Step(msg, pc, op, vm)
      == if StackDemandMet(op, vm.stack) && cost + grow <= vm.gas
         then var g := vm.gas - cost - grow;
              Some(Vm(Effect(msg, pc, op, vm, g).0, g, Effect(msg, pc, op, vm, g).1))
         else None
  {
  }

  /** Popping n operands and then asking for memory. */
  lemma PopsRequire(msg: Msg, n: nat, off: Val, len: Val, p: Plain, s: seq<Word>, o: Word, l: Word)
    requires p.Running? && p.temps == [] && p.stack == s && p.gas <= GAS_MAX
    requires n <= |s| ==>
      Eval(off, Tops(s, n)) == o && Eval(len, Tops(s, n)) == l && Tame(msg.mode.rev, p.gas, p.memory, o, l)
    ensures
      var q := PlainMicros(msg, PopMicros(n) + [Do(MemRequire(off, len))], p);
      var cost := ExpandCost(msg.mode.rev, p.memory, o, l);
      if n <= |s| && cost <= p.gas
      then q.Running? && q == Running(s[..|s| - n], p.gas - cost, Expand(p.memory, o, l), Tops(s, n), q.low)
           && (l > 0 ==> o <= REACH && l <= REACH)
      else q == Halted
  {
    var req := Do(MemRequire(off, len));
    MicrosConcat(msg, PopMicros(n), [req], p);
    PopsRun(msg, n, p);
    var p1 := PlainMicros(msg, PopMicros(n), p);
    Micros1(msg, req, p1);
    if n <= |s| {
      assert p1.temps == Tops(s, n);
      RequireRuns(msg, off, len, p1, o, l);
    }
  }

  /** Popping operands, asking for memory, then going on. */
  lemma PopsRequireThen(
      msg: Msg, n: nat, off: Val, len: Val, rest: seq<Micro>, p: Plain, s: seq<Word>, o: Word, l: Word)
    requires p.Running? && p.temps == [] && p.stack == s && p.gas <= GAS_MAX
    requires n <= |s| ==>
      Eval(off, Tops(s, n)) == o && Eval(len, Tops(s, n)) == l && Tame(msg.mode.rev, p.gas, p.memory, o, l)
    ensures
      var head := PopMicros(n) + [Do(MemRequire(off, len))];
      var q := PlainMicros(msg, head, p);
      var cost := ExpandCost(msg.mode.rev, p.memory, o, l);
      if n <= |s| && cost <= p.gas then
        && PlainMicros(msg, head + rest, p) == PlainMicros(msg, rest, q)
        && q.Running? && q == Running(s[..|s| - n], p.gas - cost, Expand(p.memory, o, l), Tops(s, n), q.low)
        && (l > 0 ==> o <= REACH && l <= REACH)
      else PlainMicros(msg, head + rest, p) == Halted
  {
    var head := PopMicros(n) + [Do(MemRequire(off, len))];
    PopsRequire(msg, n, off, len, p, s, o, l);
    MicrosConcat(msg, head, rest, p);
    if PlainMicros(msg, head, p) == Halted {
      HaltedStays(msg, rest);
    }
  }

  lemma LoadTail(msg: Msg, p: Plain, addr: Word)
    requires p.Running? && p.temps == [addr] && addr <= REACH && addr + 16 <= |p.memory| && |p.stack| < STACK_LIMIT
    ensures PlainMicros(msg, [Do(MemLoad(Reg(0))), Push(Reg(1))], p)
            == p.(stack := p.stack + [ReadWord(p.memory, addr)], temps := [addr, ReadWord(p.memory, addr)])
  {
    Micros2(msg, Do(MemLoad(Reg(0))), Push(Reg(1)), p);
    SmallModulo(addr, TWO_64);
  }

  lemma StoreTail(msg: Msg, p: Plain, addr: Word, w: Word)
    requires p.Running? && p.temps == [addr, w] && addr <= REACH && addr + 16 <= |p.memory|
    ensures PlainMicros(msg, [Do(MemStore(Reg(0), Reg(1)))], p)
            == p.(memory := Overwrite(p.memory, addr, BigEndian(16, w)))
  {
    Micros1(msg, Do(MemStore(Reg(0), Reg(1))), p);
    SmallModulo(addr, TWO_64);
  }

  lemma Store8Tail(msg: Msg, p: Plain, addr: Word, w: Word)
    requires p.Running? && p.temps == [addr, w] && addr <= REACH && addr + 1 <= |p.memory|
    ensures PlainMicros(msg, [Do(MemStore8(Reg(0), Reg(1)))], p)
            == p.(memory := Overwrite(p.memory, addr, [w % 256]))
  {
    Micros1(msg, Do(MemStore8(Reg(0), Reg(1))), p);
    SmallModulo(addr, TWO_64);
  }

  lemma MLoadStep(msg: Msg, pc: nat, vm: Vm)
    requires |vm.stack| <= STACK_LIMIT
    ensures
      var s := vm.stack;
      var cost := O.StepCost(msg.mode.rev, O.MLoad) + ExpandCost(msg.mode.rev, vm.memory, Top(s, 0), 16);
      var m := Expand(vm.memory, Top(s, 0), 16);
      Step(msg, pc, O.MLoad, vm)
      == if 1 <= |s| && cost <= vm.gas
         then Some(Vm(s[..|s| - 1] + [ReadWord(m, Top(s, 0))], vm.gas - cost, m)) else None
  {
    MemoryStep(msg, pc, O.MLoad, vm);
  }

  lemma MLoadRuns(msg: Msg, pc: nat, p: Plain, s: seq<Word>)
    requires p.Running? && p.temps == [] && p.stack == s && |s| <= STACK_LIMIT && p.gas <= GAS_MAX
    requires 1 <= |s| ==> Tame(msg.mode.rev, p.gas, p.memory, Top(s, 0), 16)
    ensures
      var q := PlainMicros(msg, TemplateAt(msg, pc, O.MLoad), p);
      var cost := ExpandCost(msg.mode.rev, p.memory, Top(s, 0), 16);
      var m := Expand(p.memory, Top(s, 0), 16);
      if 1 <= |s| && cost <= p.gas
      then q.Running? && q.stack == s[..|s| - 1] + [ReadWord(m, Top(s, 0))] && q.gas == p.gas - cost && q.memory == m
      else q == Halted
  {
    var rest := [Do(MemLoad(Reg(0))), Push(Reg(1))];
    PopsRequireThen(msg, 1, Reg(0), Imm(16), rest, p, s, Top(s, 0), 16);
    MLoadTemplate(msg, pc);
    var q := PlainMicros(msg, PopMicros(1) + [Do(MemRequire(Reg(0), Imm(16)))], p);
    if 1 <= |s| && ExpandCost(msg.mode.rev, p.memory, Top(s, 0), 16) <= p.gas {
      assert Tops(s, 1) == [Top(s, 0)];
      LoadTail(msg, q, Top(s, 0));
    }
  }

  lemma MStoreTemplate(msg: Msg, pc: nat)
    ensures TemplateAt(msg, pc, O.MStore)
            == PopMicros(2) + [Do(MemRequire(Reg(0), Imm(16)))] + [Do(MemStore(Reg(0), Reg(1)))]
  {
  }

  lemma MStore8Template(msg: Msg, pc: nat)
    ensures TemplateAt(msg, pc, O.MStore8)
            == PopMicros(2) + [Do(MemRequire(Reg(0), Imm(1)))] + [Do(MemStore8(Reg(0), Reg(1)))]
  {
  }

  lemma MLoadTemplate(msg: Msg, pc: nat)
    ensures TemplateAt(msg, pc, O.MLoad)
            == PopMicros(1) + [Do(MemRequire(Reg(0), Imm(16)))] + [Do(MemLoad(Reg(0))), Push(Reg(1))]
  {
  }

  lemma MLoadCorrect(msg: Msg, pc: nat, vm: Vm, low: int)
    requires |vm.stack| <= STACK_LIMIT && vm.gas <= GAS_MAX && Affordable(msg, O.MLoad, vm)
    ensures TemplateCorrect(msg, pc, O.MLoad, vm, low)
  {
    MLoadStep(msg, pc, vm);
    var p := Charged(PlainOf(vm, low), O.StepCost(msg.mode.rev, O.MLoad));
    if p.Halted? {
      HaltedStays(msg, TemplateAt(msg, pc, O.MLoad));
    } else {
      MLoadRuns(msg, pc, p, vm.stack);
    }
  }

  lemma MStoreStep(msg: Msg, pc: nat, vm: Vm)
    requires |vm.stack| <= STACK_LIMIT
    ensures
      var s := vm.stack;
      var cost := O.StepCost(msg.mode.rev, O.MStore) + ExpandCost(msg.mode.rev, vm.memory, Top(s, 0), 16);
      var m := Expand(vm.memory, Top(s, 0), 16);
      Step(msg, pc, O.MStore, vm)
      == if 2 <= |s| && cost <= vm.gas
         then Some(Vm(s[..|s| - 2], vm.gas - cost, Overwrite(m, Top(s, 0), BigEndian(16, Top(s, 1))))) else None
  {
    MemoryStep(msg, pc, O.MStore, vm);
  }

  lemma MStoreRuns(msg: Msg, pc: nat, p: Plain, s: seq<Word>)
    requires p.Running? && p.temps == [] && p.stack == s && |s| <= STACK_LIMIT && p.gas <= GAS_MAX
    requires 2 <= |s| ==> Tame(msg.mode.rev, p.gas, p.memory, Top(s, 0), 16)
    ensures
      var q := PlainMicros(msg, TemplateAt(msg, pc, O.MStore), p);
      var cost := ExpandCost(msg.mode.rev, p.memory, Top(s, 0), 16);
      var m := Expand(p.memory, Top(s, 0), 16);
      if 2 <= |s| && cost <= p.gas
      then q.Running? && q.stack == s[..|s| - 2] && q.gas == p.gas - cost
           && q.memory == Overwrite(m, Top(s, 0), BigEndian(16, Top(s, 1)))
      else q == Halted
  {
    var rest := [Do(MemStore(Reg(0), Reg(1)))];
    PopsRequireThen(msg, 2, Reg(0), Imm(16), rest, p, s, Top(s, 0), 16);
    MStoreTemplate(msg, pc);
    var q := PlainMicros(msg, PopMicros(2) + [Do(MemRequire(Reg(0), Imm(16)))], p);
    if 2 <= |s| && ExpandCost(msg.mode.rev, p.memory, Top(s, 0), 16) <= p.gas {
      assert Tops(s, 2) == [Top(s, 0), Top(s, 1)];
      StoreTail(msg, q, Top(s, 0), Top(s, 1));
    }
  }

  lemma MStoreCorrect(msg: Msg, pc: nat, vm: Vm, low: int)
    requires |vm.stack| <= STACK_LIMIT && vm.gas <= GAS_MAX && Affordable(msg, O.MStore, vm)
    ensures TemplateCorrect(msg, pc, O.MStore, vm, low)
  {
    MStoreStep(msg, pc, vm);
    var p := Charged(PlainOf(vm, low), O.StepCost(msg.mode.rev, O.MStore));
    if p.Halted? {
      HaltedStays(msg, TemplateAt(msg, pc, O.MStore));
    } else {
      MStoreRuns(msg, pc, p, vm.stack);
    }
  }

  lemma MStore8Step(msg: Msg, pc: nat, vm: Vm)
    requires |vm.stack| <= STACK_LIMIT
    ensures
      var s := vm.stack;
      var cost := O.StepCost(msg.mode.rev, O.MStore8) + ExpandCost(msg.mode.rev, vm.memory, Top(s, 0), 1);
      var m := Expand(vm.memory, Top(s, 0), 1);
      Step(msg, pc, O.MStore8, vm)
      == if 2 <= |s| && cost <= vm.gas
         then Some(Vm(s[..|s| - 2], vm.gas - cost, Overwrite(m, Top(s, 0), [Top(s, 1) % 256]))) else None
  {
    MemoryStep(msg, pc, O.MStore8, vm);
  }

  lemma MStore8Runs(msg: Msg, pc: nat, p: Plain, s: seq<Word>)
    requires p.Running? && p.temps == [] && p.stack == s && |s| <= STACK_LIMIT && p.gas <= GAS_MAX
    requires 2 <= |s| ==> Tame(msg.mode.rev, p.gas, p.memory, Top(s, 0), 1)
    ensures
      var q := PlainMicros(msg, TemplateAt(msg, pc, O.MStore8), p);
      var cost := ExpandCost(msg.mode.rev, p.memory, Top(s, 0), 1);
      var m := Expand(p.memory, Top(s, 0), 1);
      if 2 <= |s| && cost <= p.gas
      then q.Running? && q.stack == s[..|s| - 2] && q.gas == p.gas - cost
           && q.memory == Overwrite(m, Top(s, 0), [Top(s, 1) % 256])
      else q == Halted
  {
    var rest := [Do(MemStore8(Reg(0), Reg(1)))];
    PopsRequireThen(msg, 2, Reg(0), Imm(1), rest, p, s, Top(s, 0), 1);
    MStore8Template(msg, pc);
    var q := PlainMicros(msg, PopMicros(2) + [Do(MemRequire(Reg(0), Imm(1)))], p);
    if 2 <= |s| && ExpandCost(msg.mode.rev, p.memory, Top(s, 0), 1) <= p.gas {
      assert Tops(s, 2) == [Top(s, 0), Top(s, 1)];
      Store8Tail(msg, q, Top(s, 0), Top(s, 1));
    }
  }

  lemma MStore8Correct(msg: Msg, pc: nat, vm: Vm, low: int)
    requires |vm.stack| <= STACK_LIMIT && vm.gas <= GAS_MAX && Affordable(msg, O.MStore8, vm)
    ensures TemplateCorrect(msg, pc, O.MStore8, vm, low)
  {
    MStore8Step(msg, pc, vm);
    var p := Charged(PlainOf(vm, low), O.StepCost(msg.mode.rev, O.MStore8));
    if p.Halted? {
      HaltedStays(msg, TemplateAt(msg, pc, O.MStore8));
    } else {
      MStore8Runs(msg, pc, p, vm.stack);
    }
  }

  // ----- copies -----

  /** Copying what there is and clearing the rest is writing a zero-padded slice. */
  lemma CopyIsPaddedSlice(data: seq<Byte>, src: nat, n: nat)
    requires n > 0
    ensures
      var k := BytesToCopy(data, src, n);
      (if k == 0 then [] else data[src..src + k]) + Zeros(n - k) == PaddedSlice(data, src, n)
  {
    var k := BytesToCopy(data, src, n);
    var bytes := (if k == 0 then [] else data[src..src + k]) + Zeros(n - k);
    var slice := PaddedSlice(data, src, n);
    forall i | 0 <= i < n ensures bytes[i] == slice[i] {
    }
  }

  lemma CopyRuns(rt: Rt, data: seq<Byte>, src: nat, dest: nat, len: nat)
    requires len > 0 ==> dest <= REACH && len <= REACH && dest + len <= |rt.memory|
    ensures len < TWO_64 ==>
      ExecCopy(rt, data, src, dest, len) == Ok(rt.(memory := Overwrite(rt.memory, dest, PaddedSlice(data, src, len))))
  {
    if len > 0 {
      SmallModulo(dest, TWO_64);
      SmallModulo(len, TWO_64);
      CopyIsPaddedSlice(data, src, len);
    }
  }

  lemma CopyPriceLines(d: Word, src: Word, n: Word)
    requires n <= REACH
    ensures EvalBody(CopyPrice(), [d, src, n])
            == Some([d, src, n, n, n + 31, (n + 31) / 32, 3 * ((n + 31) / 32)])
  {
    var values := [d, src, n, n, n + 31, (n + 31) / 32, 3 * ((n + 31) / 32)];
    var body := CopyPrice();
    forall k | 0 <= k < |body| ensures Line(body, 3, values, k) {
      if k == 0 {
        SmallModulo(n, TWO_64);
      } else if k == 1 {
      } else if k == 2 {
      } else {
      }
    }
    LinesEvaluate(body, [d, src, n], values);
  }

  lemma CopyFinish(msg: Msg, source: Source, p: Plain, d: Word, src: Word, n: Word, x: nat)
    requires p.Running? && |p.temps| == 7 && p.temps[0] == d && p.temps[1] == src && p.temps[2] == n && p.temps[6] == x
    requires x <= GAS_MAX && n < TWO_64
    requires n > 0 ==> d <= REACH && n <= REACH && d + n <= |p.memory|
    ensures
      var q := PlainMicros(msg, [Do(Charge(Reg(6))), Do(Copy(source, Reg(1), Reg(0), Reg(2)))], p);
      if x <= p.gas
      then q == p.(gas := p.gas - x,
                   memory := Overwrite(p.memory, d, PaddedSlice(SourceData(msg, source), src, n)))
      else q == Halted
  {
    var a, b := Do(Charge(Reg(6))), Do(Copy(source, Reg(1), Reg(0), Reg(2)));
    Micros2(msg, a, b, p);
    if x <= p.gas {
      CopyRuns(Registers(PlainMicro(msg, a, p)), SourceData(msg, source), src, d, n);
    }
  }

  lemma CopyTail(msg: Msg, source: Source, p: Plain, d: Word, src: Word, n: Word)
    requires p.Running? && p.temps == [d, src, n]
    requires n <= REACH && (n > 0 ==> d <= REACH && d + n <= |p.memory|)
    ensures
      var q := PlainMicros(msg, CopyTailMicros(source), p);
      var x := 3 * ((n + 31) / 32);
      if x <= p.gas
      then q.Running? && q.stack == p.stack && q.gas == p.gas - x
           && q.memory == Overwrite(p.memory, d, PaddedSlice(SourceData(msg, source), src, n))
      else q == Halted
  {
    var last := [Do(Charge(Reg(6))), Do(Copy(source, Reg(1), Reg(0), Reg(2)))];
    CopyPriced(msg, p, d, src, n);
    MicrosConcat(msg, Dos(CopyPrice()), last, p);
    CopyFinish(msg, source, PlainMicros(msg, Dos(CopyPrice()), p), d, src, n, 3 * ((n + 31) / 32));
  }

  lemma CopyPriced(msg: Msg, p: Plain, d: Word, src: Word, n: Word)
    requires p.Running? && p.temps == [d, src, n] && n <= REACH
    ensures PlainMicros(msg, Dos(CopyPrice()), p)
            == p.(temps := [d, src, n, n, n + 31, (n + 31) / 32, 3 * ((n + 31) / 32)])
  {
    CopyPriceLines(d, src, n);
    BodyRuns(msg, CopyPrice(), p);
  }

  /** Memory after a copy. */
  function Copied(msg: Msg, source: Source, s: seq<Word>, memory: seq<Byte>): seq<Byte> {
    Overwrite(Expand(memory, Top(s, 0), Top(s, 2)), Top(s, 0),
              PaddedSlice(SourceData(msg, source), Top(s, 1), Top(s, 2)))
  }

  predicate CopiesFrom(op: O.Op, source: Source) {
    if op.CodeCopy? then source.Code? else op.CallDataCopy? && source.CallData?
  }

  lemma CopyStep(msg: Msg, pc: nat, op: O.Op, source: Source, vm: Vm)
    requires CopiesFrom(op, source) && |vm.stack| <= STACK_LIMIT
    ensures
      var s := vm.stack;
      var cost := O.StepCost(msg.mode.rev, op) + 3 * ((Top(s, 2) + 31) / 32)
                  + ExpandCost(msg.mode.rev, vm.memory, Top(s, 0), Top(s, 2));
      Step(msg, pc, op, vm)
      == if 3 <= |s| && cost <= vm.gas then Some(Vm(s[..|s| - 3], vm.gas - cost, Copied(msg, source, s, vm.memory)))
         else None
  {
    MemoryStep(msg, pc, op, vm);
  }

  lemma CopyTemplateRuns(msg: Msg, source: Source, p: Plain, s: seq<Word>)
    requires p.Running? && p.temps == [] && p.stack == s && p.gas <= GAS_MAX
    requires 3 <= |s| ==> Tame(msg.mode.rev, p.gas, p.memory, Top(s, 0), Top(s, 2))
    ensures
      var q := PlainMicros(msg, CopyTemplate(source), p);
      var cost := 3 * ((Top(s, 2) + 31) / 32) + ExpandCost(msg.mode.rev, p.memory, Top(s, 0), Top(s, 2));
      if 3 <= |s| && cost <= p.gas
      then q.Running? && q.stack == s[..|s| - 3] && q.gas == p.gas - cost
           && q.memory == Copied(msg, source, s, p.memory)
      else q == Halted
  {
    var d, src, n := Top(s, 0), Top(s, 1), Top(s, 2);
    PopsRequireThen(msg, 3, Reg(0), Reg(2), CopyTailMicros(source), p, s, d, n);
    var q := PlainMicros(msg, PopMicros(3) + [Do(MemRequire(Reg(0), Reg(2)))], p);
    if 3 <= |s| && ExpandCost(msg.mode.rev, p.memory, d, n) <= p.gas {
      CopyEnd(msg, source, p, q, s);
    }
  }

  /** Once the target range is available, the rest of the copy. */
  lemma CopyEnd(msg: Msg, source: Source, p: Plain, q: Plain, s: seq<Word>)
    requires p.Running? && q.Running? && |s| >= 3 && q.temps == Tops(s, 3)
    requires q.memory == Expand(p.memory, Top(s, 0), Top(s, 2))
    requires Top(s, 2) > 0 ==> Top(s, 0) <= REACH && Top(s, 2) <= REACH
    ensures
      var r := PlainMicros(msg, CopyTailMicros(source), q);
      var cost := 3 * ((Top(s, 2) + 31) / 32);
      if cost <= q.gas
      then r.Running? && r.stack == q.stack && r.gas == q.gas - cost && r.memory == Copied(msg, source, s, p.memory)
      else r == Halted
  {
    assert Tops(s, 3) == [Top(s, 0), Top(s, 1), Top(s, 2)];
    CopyTail(msg, source, q, Top(s, 0), Top(s, 1), Top(s, 2));
  }

  lemma CopyCorrect(msg: Msg, pc: nat, op: O.Op, source: Source, vm: Vm, low: int)
    requires CopiesFrom(op, source)
    requires |vm.stack| <= STACK_LIMIT && vm.gas <= GAS_MAX && Affordable(msg, op, vm)
    ensures TemplateCorrect(msg, pc, op, vm, low)
  {
    CopyStep(msg, pc, op, source, vm);
    var p := Charged(PlainOf(vm, low), O.StepCost(msg.mode.rev, op));
    if p.Halted? {
      HaltedStays(msg, CopyTemplate(source));
    } else {
      CopyTemplateRuns(msg, source, p, vm.stack);
    }
  }

  // ----- all instructions -----

  predicate TouchesMemory(op: O.Op) {
    op.MLoad? || op.MStore? || op.MStore8? || op.CallDataCopy? || op.CodeCopy? || op.Return? || op.Revert?
  }

  /** Whatever memory an instruction asks for is asked for tamely. */
  predicate Affordable(msg: Msg, op: O.Op, vm: Vm) {
    var (off, len) := MemoryRange(op, vm.stack);
    var cost := O.StepCost(msg.mode.rev, op);
    TouchesMemory(op) && cost <= vm.gas && Pops(op) <= |vm.stack| ==>
      Tame(msg.mode.rev, vm.gas - cost, vm.memory, off, len)
  }

  /** Every straight-line instruction's template does one step of the reference machine. */
  lemma InstructionCorrect(msg: Msg, pc: nat, op: O.Op, vm: Vm, low: int)
    requires O.IsStraight(op) && (op.Swap? ==> op.index > 0)
    requires |vm.stack| <= STACK_LIMIT && vm.gas <= GAS_MAX && Affordable(msg, op, vm)
    ensures TemplateCorrect(msg, pc, op, vm, low)
  {
    match op
    case Alu(alu) =>
      if alu.Exp? {
        ExpCorrect(msg, pc, vm, low);
      } else {
        AluCorrect(msg, pc, alu, vm, low);
      }
    case Pop => PopCorrect(msg, pc, vm, low);
    case Push(n) => PushCorrect(msg, pc, n, vm, low);
    case Dup(i) => DupCorrect(msg, pc, i, vm, low);
    case Swap(i) => SwapCorrect(msg, pc, i, vm, low);
    case MLoad => MLoadCorrect(msg, pc, vm, low);
    case MStore => MStoreCorrect(msg, pc, vm, low);
    case MStore8 => MStore8Correct(msg, pc, vm, low);
    case MSize => SizeCorrect(msg, pc, op, vm, low);
    case Pc => ImmediateCorrect(msg, pc, op, vm, low);
    case Gas => GasCorrect(msg, pc, vm, low);
    case JumpDest => JumpDestCorrect(msg, pc, vm, low);
    case CallDataLoad => CallDataLoadCorrect(msg, pc, vm, low);
    case CallDataSize => SizeCorrect(msg, pc, op, vm, low);
    case CodeSize => ImmediateCorrect(msg, pc, op, vm, low);
    case MessageField(field) => FieldCorrect(msg, pc, field, vm, low);
    case CallDataCopy => CopyCorrect(msg, pc, op, CallData, vm, low);
    case CodeCopy => CopyCorrect(msg, pc, op, Code, vm, low);
  }

  /** Steps keep the stack within its limit and the memory within the gas bound. */
  lemma StepKeepsBounds(msg: Msg, pc: nat, op: O.Op, vm: Vm)
    requires O.IsStraight(op) && Step(msg, pc, op, vm).Some?
    ensures
      var vm' := Step(msg, pc, op, vm).value;
      |vm'.stack| <= STACK_LIMIT && (Safe(msg.mode.rev, vm.gas, vm.memory) ==> Safe(msg.mode.rev, vm'.gas, vm'.memory))
  {
    var (off, len) := MemoryRange(op, vm.stack);
    var grow := ExpandCost(msg.mode.rev, vm.memory, off, len);
    var cost := O.StepCost(msg.mode.rev, op) + OperandCost(msg.mode.rev, op, vm.stack);
    MemoryStep(msg, pc, op, vm);
    EffectSizes(msg, pc, op, vm, vm.gas - cost - grow);
    if Safe(msg.mode.rev, vm.gas, vm.memory) {
      SafeAfterGrowth(msg.mode.rev, vm.gas - cost, vm.memory, off, len);
    }
  }

  lemma EffectSizes(msg: Msg, pc: nat, op: O.Op, vm: Vm, g: nat)
    requires Pops(op) <= |vm.stack|
    ensures
      var (off, len) := MemoryRange(op, vm.stack);
      O.IsStraight(op) ==>
        |Effect(msg, pc, op, vm, g).0| == |vm.stack| - Pops(op) + Pushes(op)
        && |Effect(msg, pc, op, vm, g).1| == |Expand(vm.memory, off, len)|
  {
  }
}
