/**
 The compiler itself: objects that are updated while code is emitted, and the passes that
 drive them. Every method is specified by the transformation it performs on the builder
 state, and compilation as a whole by the program it produces.
 */
module Compiler {
  import opened Words
  import O = Opcodes
  import opened Evm
  import opened MemoryUnit
  import opened Ir
  import opened Builder
  import opened Templates
  import opened Blocks
  import opened Positions
  import opened Scanner
  import opened BlockProofs
  import opened Simulation
  import opened Programs
  import L = LocalStacks

  /** Code emitted so far for the current block. */
  class CodeBuffer {
    var code: seq<Instr>
    var regs: nat

    constructor ()
      ensures code == [] && regs == 0
    {
      code, regs := [], 0;
    }

    /** Appends an instruction; the result names the value it defines, if any. */
    method Append(i: Instr) returns (v: Val)
      modifies this
      ensures code == old(code) + [i]
      ensures v == Reg(old(regs))
      ensures regs == if ProducesValue(i) then old(regs) + 1 else old(regs)
    {
      v := Reg(regs);
      code := code + [i];
      if ProducesValue(i) {
        regs := regs + 1;
      }
    }
  }

  /** Cost accounting: fixed costs are summed and checked once, where the sum was started. */
  class GasMeter {
    const buffer: CodeBuffer
    var checkCall: Option<nat>  // position of the open gas check
    var blockCost: nat

    constructor (buffer: CodeBuffer)
      ensures this.buffer == buffer && checkCall == None && blockCost == 0
    {
      this.buffer := buffer;
      checkCall, blockCost := None, 0;
    }

    ghost predicate Valid()
      reads this, buffer
    {
      match checkCall
      case None => blockCost == 0
      case Some(pos) => pos < |buffer.code|
    }

    /** The builder state the buffer stands for, over a local stack. */
    ghost function State(ls: L.LStack): BState
      reads this, buffer
      requires Valid()
    {
      match checkCall
      case None => BState(buffer.code, [], false, 0, buffer.regs, ls)
      case Some(pos) => BState(buffer.code[..pos], buffer.code[pos + 1..], true, blockCost, buffer.regs, ls)
    }

    method Count(cost: nat, ghost ls: L.LStack)
      requires Valid()
      modifies this, buffer
      ensures Valid() && State(ls) == Builder.Count(old(State(ls)), cost)
    {
      if checkCall == None {
        // the amount is filled in when the cost block is committed
        checkCall := Some(|buffer.code|);
        var _ := buffer.Append(GasCheck(0));
      }
      blockCost := blockCost + cost;
    }

    method CommitCostBlock(ghost ls: L.LStack)
      requires Valid()
      modifies this, buffer
      ensures Valid() && checkCall == None && State(ls) == Builder.Commit(old(State(ls)))
    {
      if checkCall.Some? {
        var pos := checkCall.value;
        if blockCost == 0 {
          buffer.code := buffer.code[..pos] + buffer.code[pos + 1..];
        } else {
          buffer.code := buffer.code[pos := GasCheck(blockCost)];
        }
        checkCall, blockCost := None, 0;
      }
    }
  }

  /** The local stack of the block being compiled. */
  class LocalStack {
    const buffer: CodeBuffer
    var input: map<nat, Val>
    var depth: nat
    var local: seq<Val>
    var globalPops: nat
    var minSize: int
    var maxSize: int

    constructor (buffer: CodeBuffer)
      ensures this.buffer == buffer && Model() == L.EMPTY
    {
      this.buffer := buffer;
      input, depth, local, globalPops, minSize, maxSize := map[], 0, [], 0, 0, 0;
    }

    ghost function Model(): L.LStack
      reads this
    {
      L.LStack(input, depth, local, globalPops, L.Reach(minSize, maxSize))
    }

    function Size(): int
      reads this
    {
      |local| - globalPops
    }

    /** Entries lie within the vector, and consumed items have entries. */
    ghost predicate Valid()
      reads this
    {
      globalPops <= depth && forall k :: k in input ==> k < depth
    }

    /** The item at a depth is local or has a place in the vector. */
    ghost predicate Known(index: nat)
      reads this
    {
      index >= |local| ==> index - |local| + globalPops < depth
    }

    method Push(v: Val)
      requires Valid()
      modifies this
      ensures Valid()
      ensures Model() == L.Push(old(Model()), v)
    {
      local := local + [v];
      maxSize := L.Max(maxSize, Size());
    }

    /** Looks an item up; `fetched` is the code emitted for it. */
    method Get(index: nat) returns (v: Val, ghost fetched: seq<Instr>)
      requires Valid()
      modifies this, buffer
      ensures Valid() && Known(index) && (forall k :: old(Known(k)) ==> Known(k))
      ensures (Model(), v, fetched) == L.Get(old(Model()), index, old(buffer.regs))
      ensures buffer.code == old(buffer.code) + fetched && buffer.regs == old(buffer.regs) + |fetched|
    {
      fetched := [];
      if index < |local| {
        v := local[|local| - 1 - index];
        return;
      }
      var idx := index - |local| + globalPops;
      if idx in input {
        v := input[idx];
        return;
      }
      var slot: int := -1 - idx;
      v := buffer.Append(Load(slot));
      fetched := [Load(slot)];
      input := input[idx := v];
      depth := L.Max(depth, idx + 1);
      minSize := L.Min(minSize, slot);
    }

    method Set(index: nat, v: Val)
      requires Valid() && Known(index)
      modifies this
      ensures Valid() && (forall k :: old(Known(k)) ==> Known(k))
      ensures Model() == L.Set(old(Model()), index, v)
    {
      if index < |local| {
        local := local[|local| - 1 - index := v];
      } else {
        var idx := index - |local| + globalPops;
        assert idx < depth;
        input := input[idx := v];
      }
    }

    method Pop() returns (v: Val, ghost fetched: seq<Instr>)
      requires Valid()
      modifies this, buffer
      ensures Valid()
      ensures (Model(), v, fetched) == L.Pop(old(Model()), old(buffer.regs))
      ensures buffer.code == old(buffer.code) + fetched && buffer.regs == old(buffer.regs) + |fetched|
    {
      v, fetched := Get(0);
      if |local| > 0 {
        local := local[..|local| - 1];
      } else {
        globalPops := globalPops + 1;
      }
      minSize := L.Min(minSize, Size());
    }

    method Dup(index: nat) returns (ghost fetched: seq<Instr>)
      requires Valid()
      modifies this, buffer
      ensures Valid()
      ensures (Model(), fetched) == L.Dup(old(Model()), index, old(buffer.regs))
      ensures buffer.code == old(buffer.code) + fetched && buffer.regs == old(buffer.regs) + |fetched|
    {
      var val;
      val, fetched := Get(index);
      Push(val);
    }

    method Swap(index: nat) returns (ghost fetched: seq<Instr>)
      requires Valid() && index > 0
      modifies this, buffer
      ensures Valid()
      ensures (Model(), fetched) == L.Swap(old(Model()), index, old(buffer.regs))
      ensures buffer.code == old(buffer.code) + fetched && buffer.regs == old(buffer.regs) + |fetched|
    {
      ghost var more;
      var val, tos;
      val, fetched := Get(index);
      tos, more := Get(0);
      fetched := fetched + more;
      Set(index, tos);
      Set(0, val);
    }

    /** Appends the stores that bring the global stack up to date. */
    method Finalize()
      requires Valid()
      modifies buffer
      ensures buffer.code == old(buffer.code) + L.FinalStores(Model(), Model().Size())
    {
      var globalIdx: int := 0 - depth;
      while globalIdx < Size()
        invariant 0 - depth <= globalIdx <= Size()
        invariant buffer.code == old(buffer.code) + L.FinalStores(Model(), globalIdx)
      {
        if globalIdx < 0 - globalPops {
          if -globalIdx - 1 in input {
            var _ := buffer.Append(Store(globalIdx, input[-globalIdx - 1]));
          }
        } else {
          var _ := buffer.Append(Store(globalIdx, local[globalIdx + globalPops]));
        }
        globalIdx := globalIdx + 1;
      }
    }
  }

  // ----- push data -----

  /** Number of data bytes of a push. */
  function DataBytes(b: Byte): nat
    requires O.PUSH1 <= b <= O.PUSH32
  {
    b - O.PUSH1 + 1
  }

  /** Position of the last byte that belongs to the push at curr. */
  function LastByte(code: seq<Byte>, curr: nat, end: nat): nat
    requires curr < end <= |code| && O.PUSH1 <= code[curr] <= O.PUSH32
  {
    if curr + DataBytes(code[curr]) < end then curr + DataBytes(code[curr]) else end - 1
  }

  lemma {:induction false} PushDataBound(code: seq<Byte>, pc: nat, n: nat)
    ensures PushData(code, pc, n) < Pow256(n)
  {
    if n > 0 {
      PushDataBound(code, pc, n - 1);
    }
  }

  /** Width of the constant a push builds. */
  function PushWidth(n: nat): nat {
    if n > 16 then TWO_256 else TWO_128
  }

  lemma PushFits(code: seq<Byte>, pc: nat, k: nat, n: nat)
    requires k <= n <= 32
    ensures PushData(code, pc, k) < PushWidth(n)
  {
    PushDataBound(code, pc, k);
    var w := if n > 16 then 32 else 16;
    Pow256Monotone(k, w);
    Pow256IsPow2(w);
    Pow2At128();
    Pow2At256();
  }

  /** Reads the operand of a push; bytes past the end read as zero. */
  method ReadPushData(code: seq<Byte>, curr: nat, end: nat) returns (value: nat, last: nat)
    requires curr < end <= |code| && O.PUSH1 <= code[curr] <= O.PUSH32
    ensures value == PushData(code[..end], curr, DataBytes(code[curr])) < PushWidth(DataBytes(code[curr]))
    ensures last == LastByte(code, curr, end)
  {
    var numBytes := DataBytes(code[curr]);
    ghost var bytes := code[..end];
    value := 0;
    var pos := curr + 1;
    var i := 0;
    while i < numBytes
      invariant 0 <= i <= numBytes
      invariant pos == if curr + 1 + i < end then curr + 1 + i else end
      invariant value == PushData(bytes, curr, i)
    {
      var b := 0;
      if pos != end {
        b := code[pos];
        pos := pos + 1;
      }
      PushFits(bytes, curr, i + 1, numBytes);
      value := (value * 256 + b) % PushWidth(numBytes);
      i := i + 1;
    }
    PushFits(bytes, curr, numBytes, numBytes);
    last := pos - 1;
  }

  /** Skips the operand of a push. */
  method SkipPushData(code: seq<Byte>, curr: nat, end: nat) returns (last: nat)
    requires curr < end <= |code| && O.PUSH1 <= code[curr] <= O.PUSH32
    ensures last == LastByte(code, curr, end)
  {
    var numBytes := DataBytes(code[curr]);
    last := curr;
    var i := 0;
    while i < numBytes && last < end - 1
      invariant 0 <= i <= numBytes && last == curr + i < end
    {
      i, last := i + 1, last + 1;
    }
  }

  /** Scanner, reader and skipper agree on where every push ends, truncated ones included. */
  lemma PushEndsAgree(code: seq<Byte>, curr: nat)
    requires curr < |code| && O.PUSH1 <= code[curr] <= O.PUSH32
    ensures Next(code, curr) == LastByte(code, curr, |code|) + 1
  {
  }

  // ----- values of two words -----

  /** What two popped items stand for; the first popped is the upper half. */
  function PoppedWord(first: Word, second: Word): nat {
    BitOr((first * TWO_128) % TWO_256, second)
  }

  /** A 256-bit value pushed as two words is popped again. */
  lemma {:induction false} PushedWordPopped(v: nat)
    requires v < TWO_256
    ensures PoppedWord(Halves(v)[1], Halves(v)[0]) == v
  {
    var hi, lo := v / TWO_128, v % TWO_128;
    DivModUnique(hi * TWO_128, 0, TWO_256, hi * TWO_128);
    Pow2At128();
    OrShifted(lo, hi, 128);
  }

  // ----- instructions -----

  /** The builder state once items have been loaded from the global stack. */
  function Loaded(bs: BState, ls: L.LStack, loads: seq<Instr>): BState {
    var more := bs.(regs := bs.regs + |loads|, ls := ls);
    if bs.checking then more.(open := bs.open + loads) else more.(done := bs.done + loads)
  }

  lemma {:induction false} LoadedTwice(bs: BState, ls: L.LStack, a: seq<Instr>, ls': L.LStack, b: seq<Instr>)
    ensures Loaded(Loaded(bs, ls, a), ls', b) == Loaded(bs, ls', a + b)
  {
    assert (bs.open + a) + b == bs.open + (a + b) && (bs.done + a) + b == bs.done + (a + b);
  }

  lemma {:induction false} GetStep(i: nat, s: Site, s': Site)
    requires s' == CompileMicro(Get(i), s)
    ensures
      var (ls, v, loads) := L.Get(s.bs.ls, i, s.bs.regs);
      s' == Site(Loaded(s.bs, ls, loads), s.temps + [v])
  {
    var (ls, v, loads) := L.Get(s.bs.ls, i, s.bs.regs);
    if loads == [] {
      assert s.bs.open + loads == s.bs.open && s.bs.done + loads == s.bs.done;
    } else {
      assert loads == [loads[0]] && ProducesValue(loads[0]);
    }
  }

  /** The steps for DUP are the local stack's own operation: same code, registers and stack. */
  lemma {:induction false} DupSteps(bs: BState, i: nat)
    ensures
      var (ls, loads) := L.Dup(bs.ls, i, bs.regs);
      CompileMicros([Get(i), Push(Reg(0))], Site(bs, [])).bs == Loaded(bs, ls, loads)
  {
    var s := CompileMicro(Get(i), Site(bs, []));
    GetStep(i, Site(bs, []), s);
    assert [Get(i), Push(Reg(0))][1..] == [Push(Reg(0))] && [Push(Reg(0))][1..] == [];
    assert CompileMicros([Push(Reg(0))], s) == CompileMicro(Push(Reg(0)), s);
  }

  /** Likewise for SWAP. */
  lemma {:induction false} SwapSteps(bs: BState, i: nat)
    ensures
      var (ls, loads) := L.Swap(bs.ls, i, bs.regs);
      CompileMicros([Get(i), Get(0), Set(i, Reg(1)), Set(0, Reg(0))], Site(bs, [])).bs == Loaded(bs, ls, loads)
  {
    var s0 := Site(bs, []);
    var s1 := CompileMicro(Get(i), s0);
    var s2 := CompileMicro(Get(0), s1);
    var (ls1, v, loads1) := L.Get(bs.ls, i, bs.regs);
    var (ls2, w, loads2) := L.Get(ls1, 0, bs.regs + |loads1|);
    GetStep(i, s0, s1);
    GetStep(0, s1, s2);
    LoadedTwice(bs, ls1, loads1, ls2, loads2);
    SwapFinishes(i, s0, s1, s2, v, w);
    SwapIs(bs.ls, i, bs.regs, ls1, v, loads1, ls2, w, loads2);
  }

  lemma {:induction false} SwapIs(
      ls: L.LStack, i: nat, regs: nat, ls1: L.LStack, v: Val, loads1: seq<Instr>, ls2: L.LStack, w: Val,
      loads2: seq<Instr>)
    requires (ls1, v, loads1) == L.Get(ls, i, regs) && (ls2, w, loads2) == L.Get(ls1, 0, regs + |loads1|)
    ensures L.Swap(ls, i, regs) == (L.Set(L.Set(ls2, i, w), 0, v), loads1 + loads2)
  {
  }

  lemma {:induction false} SwapFinishes(i: nat, s0: Site, s1: Site, s2: Site, v: Val, w: Val)
    requires s1 == CompileMicro(Get(i), s0) && s2 == CompileMicro(Get(0), s1) && s2.temps == [v, w]
    ensures CompileMicros([Get(i), Get(0), Set(i, Reg(1)), Set(0, Reg(0))], s0).bs
            == s2.bs.(ls := L.Set(L.Set(s2.bs.ls, i, w), 0, v))
  {
    SetSteps(i, s2, v, w);
    Compile4(Get(i), Get(0), Set(i, Reg(1)), Set(0, Reg(0)), s0);
  }

  lemma {:induction false} SetSteps(i: nat, s: Site, v: Val, w: Val)
    requires s.temps == [v, w]
    ensures CompileMicro(Set(0, Reg(0)), CompileMicro(Set(i, Reg(1)), s)).bs
            == s.bs.(ls := L.Set(L.Set(s.bs.ls, i, w), 0, v))
  {
  }

  lemma {:induction false} Compile4(a: Micro, b: Micro, c: Micro, d: Micro, s: Site)
    ensures CompileMicros([a, b, c, d], s) == CompileMicro(d, CompileMicro(c, CompileMicro(b, CompileMicro(a, s))))
  {
    assert [a, b, c, d][1..] == [b, c, d];
    Compile3(b, c, d, CompileMicro(a, s));
  }

  lemma {:induction false} Compile3(a: Micro, b: Micro, c: Micro, s: Site)
    ensures CompileMicros([a, b, c], s) == CompileMicro(c, CompileMicro(b, CompileMicro(a, s)))
  {
    assert [a, b, c][1..] == [b, c] && [b, c][1..] == [c] && [c][1..] == [];
    assert CompileMicros([b, c], CompileMicro(a, s)) == CompileMicros([c], CompileMicro(b, CompileMicro(a, s)));
  }

  /** Emits one step that is not a look-up. */
  method EmitMicro(m: Micro, temps: seq<Val>, meter: GasMeter, stack: LocalStack) returns (temps': seq<Val>)
    requires meter.buffer == stack.buffer && meter.Valid() && stack.Valid() && !m.Get? && !m.Set?
    modifies meter, stack, meter.buffer
    ensures meter.Valid() && stack.Valid()
    ensures Site(meter.State(stack.Model()), temps')
            == CompileMicro(m, Site(old(meter.State(stack.Model())), temps))
  {
    match m
    case Pop =>
      var v, code := stack.Pop();
      temps' := temps + [v];
    case Push(v) =>
      stack.Push(SubstVal(v, temps));
      temps' := temps;
    case Do(_) => temps' := EmitCode(m, temps, meter, stack);
    case Observe => temps' := EmitCode(m, temps, meter, stack);
  }

  /** Emits a step that is an instruction of its own. */
  method EmitCode(m: Micro, temps: seq<Val>, meter: GasMeter, stack: LocalStack) returns (temps': seq<Val>)
    requires meter.buffer == stack.buffer && meter.Valid() && stack.Valid() && (m.Do? || m.Observe?)
    modifies meter, meter.buffer
    ensures meter.Valid()
    ensures Site(meter.State(stack.Model()), temps')
            == CompileMicro(m, Site(old(meter.State(stack.Model())), temps))
  {
    if m.Do? {
      var v := meter.buffer.Append(Subst(m.i, temps));
      temps' := if ProducesValue(m.i) then temps + [v] else temps;
    } else {
      meter.CommitCostBlock(stack.Model());
      var v := meter.buffer.Append(ReadGas);
      temps' := temps + [v];
    }
  }

  /** Only DUP and SWAP look items up without removing them. */
  predicate NoLookups(ms: seq<Micro>) {
    forall k :: 0 <= k < |ms| ==> !ms[k].Get? && !ms[k].Set?
  }

  lemma TemplateLookups(rev: O.Revision, codeSize: nat, pc: nat, op: O.Op, value: nat)
    requires !op.Dup? && !op.Swap?
    ensures NoLookups(Template(rev, codeSize, pc, op, value))
  {
    if op.Alu? {
      OperatorLookups(rev, op.alu);
    } else if op.CallDataCopy? {
      CopyLookups(CallData);
    } else if op.CodeCopy? {
      CopyLookups(Code);
    }
  }

  lemma OperatorLookups(rev: O.Revision, alu: O.AluOp)
    ensures NoLookups(AluTemplate(rev, alu))
  {
  }

  lemma CopyLookups(source: Source)
    ensures NoLookups(CopyTemplate(source))
  {
  }

  /** Emits the steps of one instruction. */
  method EmitMicros(ms: seq<Micro>, meter: GasMeter, stack: LocalStack) returns (temps: seq<Val>)
    requires meter.buffer == stack.buffer && meter.Valid() && stack.Valid() && NoLookups(ms)
    modifies meter, stack, meter.buffer
    ensures meter.Valid() && stack.Valid()
    ensures Site(meter.State(stack.Model()), temps)
            == CompileMicros(ms, Site(old(meter.State(stack.Model())), []))
  {
    temps := [];
    var k := 0;
    while k < |ms|
      invariant 0 <= k <= |ms| && meter.Valid() && stack.Valid()
      invariant CompileMicros(ms[k..], Site(meter.State(stack.Model()), temps))
                == CompileMicros(ms, Site(old(meter.State(stack.Model())), []))
    {
      assert ms[k..][0] == ms[k] && ms[k..][1..] == ms[k + 1..];
      temps := EmitMicro(ms[k], temps, meter, stack);
      k := k + 1;
    }
  }

  /** Emits the steps of a straight-line instruction. */
  method EmitTemplate(rev: O.Revision, codeSize: nat, pc: nat, op: O.Op, value: nat, meter: GasMeter, stack: LocalStack)
    requires meter.buffer == stack.buffer && meter.Valid() && stack.Valid() && (op.Swap? ==> op.index > 0)
    modifies meter, stack, meter.buffer
    ensures meter.Valid() && stack.Valid()
    ensures meter.State(stack.Model())
            == CompileMicros(Template(rev, codeSize, pc, op, value), Site(old(meter.State(stack.Model())), [])).bs
  {
    ghost var bs := meter.State(stack.Model());
    if op.Dup? {
      var fetched := stack.Dup(op.index);
      DupSteps(bs, op.index);
    } else if op.Swap? {
      var fetched := stack.Swap(op.index);
      SwapSteps(bs, op.index);
    } else {
      TemplateLookups(rev, codeSize, pc, op, value);
      var temps := EmitMicros(Template(rev, codeSize, pc, op, value), meter, stack);
    }
  }

  lemma StraightFrom(mode: O.Mode, code: seq<Byte>, pc: nat, end: nat, next: nat, bs: BState, bs': BState)
    requires pc < end <= |code| && O.IsStraight(O.Decode(mode, code[pc]))
    requires next == Next(code, pc) || (next == end && Next(code, pc) >= end)
    requires
      var op := O.Decode(mode, code[pc]);
      bs' == CompileMicros(Template(mode.rev, |code|, pc, op, PushOperand(code, pc, end, op)),
                           Site(Count(bs, O.StepCost(mode.rev, op)), [])).bs
    ensures CompileFrom(mode, code, pc, end, bs) == CompileFrom(mode, code, next, end, bs')
  {
  }

  /** Compiles one straight-line instruction; `next` is where the following one starts. */
  method CompileInstruction(mode: O.Mode, code: seq<Byte>, it: nat, end: nat, meter: GasMeter, stack: LocalStack)
      returns (next: nat)
    requires it < end <= |code| && O.IsStraight(O.Decode(mode, code[it]))
    requires meter.buffer == stack.buffer && meter.Valid() && stack.Valid()
    modifies meter, stack, meter.buffer
    ensures meter.Valid() && stack.Valid() && it < next <= end
    ensures CompileFrom(mode, code, next, end, meter.State(stack.Model()))
            == CompileFrom(mode, code, it, end, old(meter.State(stack.Model())))
  {
    ghost var bs := meter.State(stack.Model());
    var op := O.Decode(mode, code[it]);
    meter.Count(O.StepCost(mode.rev, op), stack.Model());
    var value := 0;
    var last := it;
    if op.Push? {
      value, last := ReadPushData(code, it, end);
    }
    EmitTemplate(mode.rev, |code|, it, op, value, meter, stack);
    next := last + 1;
    StraightFrom(mode, code, it, end, next, bs, meter.State(stack.Model()));
  }

  /** Compiles an instruction that ends a block, up to the control transfer itself. */
  method CompileTransfer(mode: O.Mode, code: seq<Byte>, it: nat, end: nat, meter: GasMeter, stack: LocalStack)
      returns (term: Term)
    requires it < end <= |code| && !O.IsStraight(O.Decode(mode, code[it]))
    requires meter.buffer == stack.buffer && meter.Valid() && stack.Valid()
    modifies meter, stack, meter.buffer
    ensures meter.Valid() && stack.Valid()
    ensures (meter.State(stack.Model()), term) == CompileFrom(mode, code, it, end, old(meter.State(stack.Model())))
  {
    var op := O.Decode(mode, code[it]);
    meter.Count(O.StepCost(mode.rev, op), stack.Model());
    var temps := EmitMicros(TermMicros(op), meter, stack);
    term := TermOf(op, temps);
  }

  method CompileInstructions(mode: O.Mode, code: seq<Byte>, s: Span, meter: GasMeter, stack: LocalStack)
      returns (term: Term)
    requires s.begin <= s.end <= |code|
    requires meter.buffer == stack.buffer && meter.Valid() && stack.Valid()
    modifies meter, stack, meter.buffer
    ensures meter.Valid() && stack.Valid()
    ensures (meter.State(stack.Model()), term)
            == CompileFrom(mode, code, s.begin, s.end, old(meter.State(stack.Model())))
  {
    var it := s.begin;
    while it != s.end
      invariant s.begin <= it <= s.end && meter.Valid() && stack.Valid()
      invariant CompileFrom(mode, code, it, s.end, meter.State(stack.Model()))
                == CompileFrom(mode, code, s.begin, s.end, old(meter.State(stack.Model())))
      decreases s.end - it
    {
      if O.IsStraight(O.Decode(mode, code[it])) {
        it := CompileInstruction(mode, code, it, s.end, meter, stack);
      } else {
        term := CompileTransfer(mode, code, it, s.end, meter, stack);
        return;
      }
    }
    term := FallThrough;
  }

  lemma CompiledFrom(mode: O.Mode, code: seq<Byte>, s: Span, start: BState, bs: BState, term: Term)
    requires s.end <= |code| && ValidSite(Site(start, []))
    requires (bs, term) == CompileFrom(mode, code, s.begin, s.end, start)
    ensures L.Valid(bs.ls, bs.regs) && CompileBlockFrom(mode, code, s, start) == Finish(s.begin, bs, term)
  {
    CompileFromValid(mode, code, s.begin, s.end, start);
  }

  /** Commits the last cost block, fills in the stack check and appends the write-back. */
  method FinishBlock(first: nat, term: Term, meter: GasMeter, stack: LocalStack) returns (block: Block)
    requires meter.buffer == stack.buffer && meter.Valid() && stack.Valid()
    requires L.Valid(stack.Model(), meter.buffer.regs)
    modifies meter, stack, meter.buffer
    ensures block == Finish(first, old(meter.State(stack.Model())), term)
  {
    meter.CommitCostBlock(stack.Model());
    stack.Finalize();
    block := Block(first, stack.minSize, stack.maxSize, stack.Size(), meter.buffer.code, term);
  }

  /** Compiles one block: stack check, instructions, cost block, write-back, control transfer. */
  method CompileBasicBlock(mode: O.Mode, code: seq<Byte>, s: Span) returns (block: Block)
    requires s.begin <= s.end <= |code|
    ensures block == CompileBlock(mode, code, s)
  {
    var buffer := new CodeBuffer();
    var meter := new GasMeter(buffer);
    var stack := new LocalStack(buffer);
    FreshSite();
    var term := CompileInstructions(mode, code, s, meter, stack);
    CompiledFrom(mode, code, s, START, meter.State(stack.Model()), term);
    block := FinishBlock(s.begin, term, meter, stack);
  }

  // ----- the whole program -----

  /** Fills in the jumps whose target is known, and the fall-through links. */
  method ResolveJumps(blocks: seq<Block>, table: map<nat, nat>) returns (links: seq<Link>)
    ensures |links| == |blocks|
    ensures forall i :: 0 <= i < |blocks| ==> links[i] == LinkOf(blocks, table, i)
  {
    links := [];
    var i := 0;
    while i < |blocks|
      invariant 0 <= i <= |blocks| && |links| == i
      invariant forall j :: 0 <= j < i ==> links[j] == LinkOf(blocks, table, j)
    {
      var next := if i + 1 < |blocks| then ToBlock(i + 1) else ToStop;
      var direct := None;
      match blocks[i].term {
        case Br(Imm(d)) => direct := Some(if d in table then ToBlock(table[d]) else ToAbort);
        case CondBr(_, Imm(d)) => direct := Some(if d in table then ToBlock(table[d]) else ToAbort);
        case _ =>
      }
      links := links + [Link(next, direct)];
      i := i + 1;
    }
  }

  predicate Spanned(code: seq<Byte>, spans: seq<Span>) {
    forall i :: 0 <= i < |spans| ==> spans[i].begin < spans[i].end <= |code|
  }

  lemma MoreTable(code: seq<Byte>, spans: seq<Span>, i: nat, table: map<nat, nat>)
    requires Spanned(code, spans) && i < |spans| && TableUpTo(code, spans, i, table)
    ensures TableUpTo(code, spans, i + 1,
                       if code[spans[i].begin] == O.JUMPDEST then table[spans[i].begin := i] else table)
  {
  }

  predicate BlocksOf(mode: O.Mode, code: seq<Byte>, spans: seq<Span>, blocks: seq<Block>) {
    && Spanned(code, spans) && |blocks| <= |spans|
    && forall j :: 0 <= j < |blocks| ==> blocks[j] == CompileBlock(mode, code, spans[j])
  }

  lemma {:induction false} MoreBlocks(mode: O.Mode, code: seq<Byte>, spans: seq<Span>, blocks: seq<Block>, b: Block)
    requires BlocksOf(mode, code, spans, blocks) && |blocks| < |spans|
    requires b == CompileBlock(mode, code, spans[|blocks|])
    ensures BlocksOf(mode, code, spans, blocks + [b])
  {
    var more := blocks + [b];
    forall j | 0 <= j < |more|
      ensures more[j] == CompileBlock(mode, code, spans[j])
    {
      if j < |blocks| {
        assert more[j] == blocks[j];
      }
    }
  }

  method CompileBlocks(mode: O.Mode, code: seq<Byte>, spans: seq<Span>)
      returns (blocks: seq<Block>, table: map<nat, nat>)
    requires Spanned(code, spans)
    ensures |blocks| == |spans| && BlocksOf(mode, code, spans, blocks) && IsJumpTable(code, spans, table)
  {
    blocks, table := [], map[];
    var i := 0;
    while i < |spans|
      invariant 0 <= i <= |spans| && |blocks| == i && TableUpTo(code, spans, i, table)
      invariant BlocksOf(mode, code, spans, blocks)
    {
      var block := CompileBasicBlock(mode, code, spans[i]);
      MoreBlocks(mode, code, spans, blocks, block);
      blocks := blocks + [block];
      MoreTable(code, spans, i, table);
      if code[spans[i].begin] == O.JUMPDEST {
        table := table[spans[i].begin := i];
      }
      i := i + 1;
    }
  }

  lemma PartitionSpanned(code: seq<Byte>, spans: seq<Span>)
    requires Partition(code, spans)
    ensures Spanned(code, spans)
  {
  }

  /**
   Compiles a piece of bytecode. For every message that carries it, and every amount of gas
   with which the reference machine stays calm, the program runs to exactly its outcome.
   It stays calm whenever the code makes no client calls, as long as it does not touch
   memory or gas is below the bound.
   */
  method Compile(mode: O.Mode, code: seq<Byte>) returns (prog: Program)
    ensures exists spans :: IsCompiled(mode, code, spans, prog)
    ensures forall msg: Msg, gas: nat, slots: seq<nat> ::
      msg.mode == mode && msg.code == code && gas <= GAS_MAX && |slots| == STACK_LIMIT
      && (Calm(msg, 0, Vm([], gas, [])) || (Supported(msg) && (MemoryFree(msg) || gas < GAS_BOUND)))
      ==> RunProgram(msg, prog, gas, slots) == FinalOf(Execute(msg, gas))
  {
    var spans := CreateBasicBlocks(code);
    PartitionSpanned(code, spans);
    var blocks, table := CompileBlocks(mode, code, spans);
    var links := ResolveJumps(blocks, table);
    prog := Program(blocks, links, table);
    assert IsCompiled(mode, code, spans, prog);
    forall msg: Msg, gas: nat, slots: seq<nat> |
      msg.mode == mode && msg.code == code && gas <= GAS_MAX && |slots| == STACK_LIMIT
      && (Calm(msg, 0, Vm([], gas, [])) || (Supported(msg) && (MemoryFree(msg) || gas < GAS_BOUND)))
      ensures RunProgram(msg, prog, gas, slots) == FinalOf(Execute(msg, gas))
    {
      if !Calm(msg, 0, Vm([], gas, [])) {
        BoundedIsCalm(msg, gas);
      }
      CompilerCorrect(msg, spans, prog, gas, slots);
    }
  }
}
