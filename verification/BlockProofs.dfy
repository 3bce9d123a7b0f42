/**
 A compiled block, run from any state, does what the reference machine does on its
 instructions one by one.
 */
module BlockProofs {
  import opened Words
  import O = Opcodes
  import opened Evm
  import opened MemoryUnit
  import opened Ir
  import opened Builder
  import opened Simulation
  import opened Templates
  import opened Instructions
  import opened Blocks
  import opened Positions
  import L = LocalStacks

  // ----- finishing a block -----

  /** The finished block runs as the code so far, then writes the local stack back. */
  lemma FinishRuns(msg: Msg, first: nat, s: Site, term: Term, e: Entry, p: Plain)
      returns (env: seq<nat>, e': Entry)
    requires ValidSite(s) && ValidEntry(e) && p.Running? && Related(msg, s, e, p)
    ensures RunBlock(msg, Finish(first, s.bs, term), e) == Leave(term, env, e')
    ensures ValidEntry(e') && StackOf(e') == p.stack && e'.gas == p.gas && e'.memory == p.memory
    ensures p.temps == L.Values(s.temps, env)
  {
    var bs := s.bs;
    var rt := RunSoFar(msg, bs, e).rt;
    env := rt.env;
    CommitRun(msg, bs, e.size, Start(e));
    var stores := L.FinalStores(bs.ls, bs.ls.Size());
    ExecConcat(msg, e.size, CodeOf(Commit(bs)), stores, Start(e));
    L.WriteBackCorrect(msg, bs.ls, rt, StackOf(e));
    var rt' := Exec(msg, e.size, stores, rt).rt;
    e' := Entry(rt'.slots, e.size + bs.ls.Size(), rt.gas, rt.memory);
  }

  /** If the plain machine has halted, the finished block aborts. */
  lemma FinishAborts(msg: Msg, first: nat, s: Site, term: Term, e: Entry)
    requires ValidSite(s) && ValidEntry(e) && Related(msg, s, e, Halted)
    ensures RunBlock(msg, Finish(first, s.bs, term), e) == Aborts
  {
    var bs := s.bs;
    if L.Fits(bs.ls, e.size) {
      CommitRun(msg, bs, e.size, Start(e));
      ExecConcat(msg, e.size, CodeOf(Commit(bs)), L.FinalStores(bs.ls, bs.ls.Size()), Start(e));
    }
  }

  // ----- positions -----

  /**
   The instructions from pc on end exactly at `end`, and a conditional jump can only be
   the last of them.
   */
  predicate Spans(code: seq<Byte>, pc: nat, end: nat)
    decreases |code| - pc
  {
    end <= |code| &&
    (pc == end ||
     (pc < end && (code[pc] == O.JUMPI ==> Next(code, pc) == end) && Spans(code, Next(code, pc), end)))
  }

  /** No instruction of the code calls into the client. */
  predicate Supported(msg: Msg) {
    forall pc :: pc in Starts(msg.code, 0) && pc < |msg.code| ==> !O.Decode(msg.mode, msg.code[pc]).Host?
  }

  predicate SupportedAt(msg: Msg, pc: nat) {
    pc < |msg.code| ==> pc in Starts(msg.code, 0)
  }

  /** Running on past the end of the code is running on at its end. */
  lemma RunAtNext(msg: Msg, pc: nat, vm: Vm)
    requires pc < |msg.code|
    ensures Run(msg, NextPos(msg.code, pc), vm) == Run(msg, Next(msg.code, pc), vm)
  {
  }

  lemma {:induction false} PushDataWithin(code: seq<Byte>, pc: nat, end: nat, n: nat)
    requires end <= |code| && (pc + n < end || end == |code|)
    ensures PushData(code[..end], pc, n) == PushData(code, pc, n)
  {
    if n > 0 {
      PushDataWithin(code, pc, end, n - 1);
    }
  }

  /** A block never cuts a push operand short, except at the end of the code. */
  lemma OperandWithin(msg: Msg, pc: nat, end: nat, op: O.Op)
    requires Spans(msg.code, pc, end) && pc < end && op == O.Decode(msg.mode, msg.code[pc])
    ensures Template(msg.mode.rev, |msg.code|, pc, op, PushOperand(msg.code, pc, end, op)) == TemplateAt(msg, pc, op)
  {
    if op.Push? {
      assert op.bytes == PushBytes(msg.code[pc]);
      SpansForward(msg.code, Next(msg.code, pc), end);
      PushDataWithin(msg.code, pc, end, op.bytes);
    }
  }

  lemma SpansForward(code: seq<Byte>, pc: nat, end: nat)
    requires Spans(code, pc, end)
    ensures pc <= end <= |code|
  {
  }

  // ----- outcomes -----

  predicate AllWords(s: seq<nat>) {
    forall i :: 0 <= i < |s| ==> s[i] < TWO_128
  }

  predicate WordEntry(e: Entry) {
    ValidEntry(e) && AllWords(StackOf(e))
  }

  /** The reference machine's state on entry to a block. */
  function VmAt(e: Entry): Vm
    requires WordEntry(e)
  {
    Vm(StackOf(e), e.gas, e.memory)
  }

  /** No instruction of the code touches memory. */
  predicate MemoryFree(msg: Msg) {
    forall pc :: pc in Starts(msg.code, 0) && pc < |msg.code| ==> !TouchesMemory(O.Decode(msg.mode, msg.code[pc]))
  }

  /** On its way from here the reference machine calls no client and asks for memory tamely. */
  predicate Calm(msg: Msg, pc: nat, vm: Vm)
    decreases vm.gas
  {
    && (pc < |msg.code| ==>
          !O.Decode(msg.mode, msg.code[pc]).Host? && Affordable(msg, O.Decode(msg.mode, msg.code[pc]), vm))
    && match Transit(msg, pc, vm)
       case Halts(_) => true
       case Continues(pc', vm') => Calm(msg, pc', vm')
  }

  predicate Reachable(msg: Msg, pc: nat, vm: Vm) {
    |vm.stack| <= STACK_LIMIT && vm.gas <= GAS_MAX && Calm(msg, pc, vm)
  }

  lemma {:induction false} AffordableAt(msg: Msg, pc: nat, vm: Vm)
    requires pc < |msg.code| && Reachable(msg, pc, vm)
    ensures Affordable(msg, O.Decode(msg.mode, msg.code[pc]), vm) && !O.Decode(msg.mode, msg.code[pc]).Host?
  {
  }

  lemma {:induction false} CalmAtNext(msg: Msg, pc: nat, vm: Vm)
    requires pc < |msg.code| && Calm(msg, NextPos(msg.code, pc), vm)
    ensures Calm(msg, Next(msg.code, pc), vm)
  {
  }

  lemma {:induction false} CalmAfterStep(msg: Msg, pc: nat, vm: Vm, vm': Vm)
    requires pc < |msg.code| && O.IsStraight(O.Decode(msg.mode, msg.code[pc])) && Calm(msg, pc, vm)
    requires Step(msg, pc, O.Decode(msg.mode, msg.code[pc]), vm) == Some(vm')
    ensures Calm(msg, Next(msg.code, pc), vm')
  {
    assert Transit(msg, pc, vm) == Continues(NextPos(msg.code, pc), vm');
    CalmAtNext(msg, pc, vm');
  }

  predicate GoodEntry(msg: Msg, pc: nat, e: Entry) {
    WordEntry(e) && Reachable(msg, pc, VmAt(e))
  }

  /**
   A block's result leads to the reference machine's outcome o; `end` is where control
   falls through to. Every transfer to another block has cost some of the gas g.
   */
  predicate Meets(msg: Msg, r: BlockResult, end: nat, g: nat, o: Outcome) {
    match r
    case Aborts => o == Exceptional
    case Crashes => false
    case Falls(e) => GoodEntry(msg, end, e) && e.gas < g && o == Run(msg, end, VmAt(e))
    case Jumps(d, e) =>
      && WordEntry(e) && e.gas < g && (d in JumpDests(msg.code, 0) ==> GoodEntry(msg, d, e))
      && o == (if d in JumpDests(msg.code, 0) then Run(msg, d, VmAt(e)) else Exceptional)
    case Stops(e) => WordEntry(e) && o == Stopped(VmAt(e))
    case Returns(e, output) => WordEntry(e) && o == Returned(VmAt(e), output)
    case Reverts(e, output) => WordEntry(e) && o == Reverted(VmAt(e), output)
  }

  /** Where the plain machine stands and what the reference machine will end with from there. */
  predicate Headed(msg: Msg, pc: nat, p: Plain, vm: Vm, o: Outcome) {
    || (p.Halted? && o == Exceptional)
    || (p.Running? && p == PlainOf(vm, p.low) && Reachable(msg, pc, vm) && o == Run(msg, pc, vm))
  }

  function Forget(p: Plain): Plain {
    if p.Running? then p.(temps := []) else p
  }

  lemma ForgetTemps(msg: Msg, s: Site, e: Entry, p: Plain)
    requires ValidSite(s) && ValidEntry(e) && Related(msg, s, e, p)
    ensures ValidSite(Site(s.bs, [])) && Related(msg, Site(s.bs, []), e, Forget(p))
  {
  }

  // ----- straight-line instructions -----

  /** Counting a cost and then compiling some steps is charging it and then running them. */
  lemma CompiledSteps(msg: Msg, ms: seq<Micro>, cost: nat, bs: BState, e: Entry, p: Plain)
    requires ValidSite(Site(bs, [])) && ValidEntry(e) && Related(msg, Site(bs, []), e, p) && AllPlain(ms)
    ensures
      var s := CompileMicros(ms, Site(Count(bs, cost), []));
      ValidSite(s) && Related(msg, s, e, PlainMicros(msg, ms, Charged(p, cost)))
  {
    CountSimulates(msg, Site(bs, []), cost, e, p);
    var counted := Site(Count(bs, cost), []);
    MicrosSite(ms, counted);
    MicrosSimulate(msg, ms, counted, e, Charged(p, cost));
  }

  lemma ReferenceStep(msg: Msg, pc: nat, p: Plain, vm: Vm, o: Outcome) returns (vm': Vm)
    requires pc < |msg.code| && O.IsStraight(O.Decode(msg.mode, msg.code[pc]))
    requires Headed(msg, pc, p, vm, o)
    ensures
      var op := O.Decode(msg.mode, msg.code[pc]);
      var p' := Forget(PlainMicros(msg, TemplateAt(msg, pc, op), Charged(p, O.StepCost(msg.mode.rev, op))));
      Headed(msg, Next(msg.code, pc), p', vm', o) && (p'.Running? ==> p.Running? && vm'.gas < vm.gas)
  {
    var op := O.Decode(msg.mode, msg.code[pc]);
    vm' := vm;
    if p.Halted? {
      HaltedStays(msg, TemplateAt(msg, pc, op));
    } else {
      AffordableAt(msg, pc, vm);
      InstructionCorrect(msg, pc, op, vm, p.low);
      var r := Step(msg, pc, op, vm);
      if r.Some? {
        StepKeepsBounds(msg, pc, op, vm);
        CalmAfterStep(msg, pc, vm, r.value);
        RunAtNext(msg, pc, r.value);
        vm' := r.value;
      }
    }
  }

  function StraightMicros(msg: Msg, pc: nat, end: nat): seq<Micro>
    requires pc < |msg.code| && end <= |msg.code|
  {
    var op := O.Decode(msg.mode, msg.code[pc]);
    Template(msg.mode.rev, |msg.code|, pc, op, PushOperand(msg.code, pc, end, op))
  }

  function CostAt(msg: Msg, pc: nat): nat
    requires pc < |msg.code|
  {
    O.StepCost(msg.mode.rev, O.Decode(msg.mode, msg.code[pc]))
  }

  /** One instruction moves builder, plain machine and reference machine on together. */
  lemma StraightStep(msg: Msg, pc: nat, end: nat, bs: BState, e: Entry, p: Plain, vm: Vm, o: Outcome)
      returns (p': Plain, vm': Vm)
    requires Spans(msg.code, pc, end) && pc < end && O.IsStraight(O.Decode(msg.mode, msg.code[pc]))
    requires ValidSite(Site(bs, [])) && ValidEntry(e) && Related(msg, Site(bs, []), e, p)
    requires Headed(msg, pc, p, vm, o)
    ensures
      var s := CompileMicros(StraightMicros(msg, pc, end), Site(Count(bs, CostAt(msg, pc)), []));
      ValidSite(Site(s.bs, [])) && Related(msg, Site(s.bs, []), e, p')
    ensures Headed(msg, Next(msg.code, pc), p', vm', o)
    ensures p'.Running? ==> p.Running? && vm'.gas < vm.gas
  {
    var op := O.Decode(msg.mode, msg.code[pc]);
    var ms := StraightMicros(msg, pc, end);
    OperandWithin(msg, pc, end, op);
    TemplatePlain(msg.mode.rev, |msg.code|, pc, op, PushOperand(msg.code, pc, end, op));
    CompiledSteps(msg, ms, CostAt(msg, pc), bs, e, p);
    var q := PlainMicros(msg, ms, Charged(p, CostAt(msg, pc)));
    ForgetTemps(msg, CompileMicros(ms, Site(Count(bs, CostAt(msg, pc)), [])), e, q);
    p' := Forget(q);
    vm' := ReferenceStep(msg, pc, p, vm, o);
  }

  // ----- terminating instructions -----

  /** Reference machine state after a terminating instruction's operands are consumed. */
  function AfterTerm(msg: Msg, op: O.Op, vm: Vm): Vm
    requires Admissible(msg, op, vm)
  {
    var (off, len) := MemoryRange(op, vm.stack);
    Vm(vm.stack[..|vm.stack| - Pops(op)], vm.gas - TotalCost(msg, op, vm), Expand(vm.memory, off, len))
  }

  /** Operands as the control transfer sees them. */
  function TermTemps(op: O.Op, s: seq<Word>): seq<nat> {
    match op
    case Jump => [Top(s, 0)]
    case JumpI => [Top(s, 0), Top(s, 1), Flag(Top(s, 1) != 0)]
    case _ => [Top(s, 0), Top(s, 1)]
  }

  predicate TermRight(msg: Msg, op: O.Op, vm: Vm, q: Plain) {
    if Admissible(msg, op, vm) then
      var vm' := AfterTerm(msg, op, vm);
      && q.Running? && q.stack == vm'.stack && q.gas == vm'.gas && q.memory == vm'.memory
      && q.temps == TermTemps(op, vm.stack)
    else q.Halted?
  }

  lemma JumpTerm(msg: Msg, vm: Vm, low: int)
    requires |vm.stack| <= STACK_LIMIT
    ensures TermRight(msg, O.Jump, vm,
                      PlainMicros(msg, TermMicros(O.Jump), Charged(PlainOf(vm, low), O.StepCost(msg.mode.rev, O.Jump))))
  {
    NoMemoryTouched(msg.mode.rev, vm.memory);
    Micros1(msg, Pop, Charged(PlainOf(vm, low), O.StepCost(msg.mode.rev, O.Jump)));
  }

  lemma TestRuns(msg: Msg, p: Plain, s: seq<Word>)
    requires p.Running? && p.stack == s && p.temps == []
    ensures
      var q := PlainMicros(msg, TermMicros(O.JumpI), p);
      if |s| >= 2 then q.Running? && q.stack == s[..|s| - 2] && q.gas == p.gas && q.memory == p.memory
                       && q.temps == TermTemps(O.JumpI, s)
      else q == Halted
  {
    var test := Do(Bin(Ne, Reg(1), Imm(0)));
    assert TermMicros(O.JumpI) == PopMicros(2) + [test];
    MicrosConcat(msg, PopMicros(2), [test], p);
    PopsRun(msg, 2, p);
    var q := PlainMicros(msg, PopMicros(2), p);
    Micros1(msg, test, q);
    if |s| >= 2 {
      assert q.temps == [Top(s, 0), Top(s, 1)];
    }
  }

  lemma JumpITerm(msg: Msg, vm: Vm, low: int)
    requires |vm.stack| <= STACK_LIMIT
    ensures TermRight(msg, O.JumpI, vm,
                      PlainMicros(msg, TermMicros(O.JumpI),
                                  Charged(PlainOf(vm, low), O.StepCost(msg.mode.rev, O.JumpI))))
  {
    NoMemoryTouched(msg.mode.rev, vm.memory);
    var s := vm.stack;
    var p := Charged(PlainOf(vm, low), O.StepCost(msg.mode.rev, O.JumpI));
    if p.Halted? {
      HaltedStays(msg, TermMicros(O.JumpI));
    } else {
      TestRuns(msg, p, s);
    }
  }

  lemma ReturnTerm(msg: Msg, op: O.Op, vm: Vm, low: int)
    requires |vm.stack| <= STACK_LIMIT && vm.gas <= GAS_MAX && Affordable(msg, op, vm) && (op.Return? || op.Revert?)
    ensures TermRight(msg, op, vm,
                      PlainMicros(msg, TermMicros(op), Charged(PlainOf(vm, low), O.StepCost(msg.mode.rev, op))))
  {
    var s := vm.stack;
    var p := Charged(PlainOf(vm, low), O.StepCost(msg.mode.rev, op));
    assert TermMicros(op) == PopMicros(2) + [Do(MemRequire(Reg(0), Reg(1)))];
    PopsRequire(msg, 2, Reg(0), Reg(1), p, s, Top(s, 0), Top(s, 1));
    if |s| >= 2 {
      assert Tops(s, 2) == [Top(s, 0), Top(s, 1)];
    }
  }

  lemma TermPlain(op: O.Op)
    ensures AllPlain(TermMicros(op))
  {
  }

  predicate IsTransfer(op: O.Op) {
    op.Jump? || op.JumpI? || op.Return? || op.Revert?
  }

  lemma TransferTerm(msg: Msg, op: O.Op, vm: Vm, low: int)
    requires |vm.stack| <= STACK_LIMIT && vm.gas <= GAS_MAX && Affordable(msg, op, vm) && IsTransfer(op)
    ensures TermRight(msg, op, vm,
                      PlainMicros(msg, TermMicros(op), Charged(PlainOf(vm, low), O.StepCost(msg.mode.rev, op))))
  {
    match op
    case Jump => JumpTerm(msg, vm, low);
    case JumpI => JumpITerm(msg, vm, low);
    case Return => ReturnTerm(msg, op, vm, low);
    case Revert => ReturnTerm(msg, op, vm, low);
  }

  /** Memory a successful return hands out lies within memory. */
  lemma ReturnDataCorrect(msg: Msg, vm: Vm, op: O.Op)
    requires vm.gas <= GAS_MAX && Affordable(msg, op, vm) && (op.Return? || op.Revert?) && Admissible(msg, op, vm)
    ensures
      var (off, len) := MemoryRange(op, vm.stack);
      var m := Expand(vm.memory, off, len);
      ReturnData(m, off, len) == Some(OutputOf(m, off, len))
  {
    var (off, len) := MemoryRange(op, vm.stack);
    TameRequest(msg.mode.rev, vm.gas, vm.memory, off, len);
    if len > 0 {
      SmallModulo(len, TWO_64);
    }
  }

  /** Wherever a jump instruction leads, the reference machine stays calm. */
  lemma {:induction false} AfterTermReachable(msg: Msg, pc: nat, op: O.Op, vm: Vm)
    requires pc < |msg.code| && op == O.Decode(msg.mode, msg.code[pc]) && (op.Jump? || op.JumpI?)
    requires Reachable(msg, pc, vm) && Admissible(msg, op, vm)
    ensures AfterTerm(msg, op, vm).gas < vm.gas
    ensures op.JumpI? && Top(vm.stack, 1) == 0 ==> Reachable(msg, Next(msg.code, pc), AfterTerm(msg, op, vm))
    ensures !(op.JumpI? && Top(vm.stack, 1) == 0) && Top(vm.stack, 0) in JumpDests(msg.code, 0) ==>
      Reachable(msg, Top(vm.stack, 0), AfterTerm(msg, op, vm))
  {
    var vm' := AfterTerm(msg, op, vm);
    if op.JumpI? && Top(vm.stack, 1) == 0 {
      assert Transit(msg, pc, vm) == Continues(NextPos(msg.code, pc), vm');
      CalmAtNext(msg, pc, vm');
    } else if Top(vm.stack, 0) in JumpDests(msg.code, 0) {
      assert Transit(msg, pc, vm) == Continues(Top(vm.stack, 0), vm');
    }
  }

  /** The control transfer of a finished block is the reference machine's. */
  lemma TransferMeets(msg: Msg, pc: nat, end: nat, op: O.Op, vm: Vm, temps: seq<Val>, env: seq<nat>, e: Entry, g: nat)
    requires pc < |msg.code| && op == O.Decode(msg.mode, msg.code[pc]) && IsTransfer(op)
    requires op.JumpI? ==> Next(msg.code, pc) == end
    requires Reachable(msg, pc, vm) && Affordable(msg, op, vm) && Admissible(msg, op, vm) && vm.gas <= g
    requires ValidEntry(e) && StackOf(e) == AfterTerm(msg, op, vm).stack
    requires e.gas == AfterTerm(msg, op, vm).gas && e.memory == AfterTerm(msg, op, vm).memory
    requires L.Values(temps, env) == TermTemps(op, vm.stack)
    ensures Meets(msg, Leave(TermOf(op, temps), env, e), end, g, Run(msg, pc, vm))
  {
    assert VmAt(e) == AfterTerm(msg, op, vm);
    match op
    case Jump =>
      AfterTermReachable(msg, pc, op, vm);
      assert Eval(temps[0], env) == Top(vm.stack, 0);
    case JumpI =>
      AfterTermReachable(msg, pc, op, vm);
      assert Eval(temps[0], env) == Top(vm.stack, 0);
      assert Eval(temps[2], env) == Flag(Top(vm.stack, 1) != 0);
      RunAtNext(msg, pc, VmAt(e));
    case Return =>
      ReturnDataCorrect(msg, vm, op);
      assert Eval(temps[0], env) == Top(vm.stack, 0) && Eval(temps[1], env) == Top(vm.stack, 1);
    case Revert =>
      ReturnDataCorrect(msg, vm, op);
      assert Eval(temps[0], env) == Top(vm.stack, 0) && Eval(temps[1], env) == Top(vm.stack, 1);
  }

  lemma TransferFinish(msg: Msg, first: nat, pc: nat, end: nat, op: O.Op, s: Site, e: Entry, q: Plain, vm: Vm, g: nat)
    requires pc < |msg.code| && op == O.Decode(msg.mode, msg.code[pc]) && IsTransfer(op)
    requires op.JumpI? ==> Next(msg.code, pc) == end
    requires Reachable(msg, pc, vm) && Affordable(msg, op, vm) && vm.gas <= g
    requires ValidSite(s) && ValidEntry(e) && Related(msg, s, e, q) && TermRight(msg, op, vm, q)
    ensures Meets(msg, RunBlock(msg, Finish(first, s.bs, TermOf(op, s.temps)), e), end, g, Run(msg, pc, vm))
  {
    if q.Halted? {
      FinishAborts(msg, first, s, TermOf(op, s.temps), e);
    } else {
      var env, e' := FinishRuns(msg, first, s, TermOf(op, s.temps), e, q);
      TransferMeets(msg, pc, end, op, vm, s.temps, env, e', g);
    }
  }

  /** STOP hands the state out; an invalid instruction aborts. */
  lemma HaltFinish(msg: Msg, first: nat, pc: nat, end: nat, op: O.Op, s: Site, e: Entry, q: Plain, vm: Vm, g: nat)
    requires pc < |msg.code| && op == O.Decode(msg.mode, msg.code[pc]) && (op.Stop? || op.Invalid?)
    requires ValidSite(s) && ValidEntry(e) && Related(msg, s, e, q)
    requires q.Running? && q.stack == vm.stack && q.gas == vm.gas && q.memory == vm.memory
    ensures Meets(msg, RunBlock(msg, Finish(first, s.bs, TermOf(op, s.temps)), e), end, g, Run(msg, pc, vm))
  {
    var env, e' := FinishRuns(msg, first, s, TermOf(op, s.temps), e, q);
    assert VmAt(e') == vm;
  }

  /** What the steps before a control transfer have to achieve. */
  predicate TermReady(msg: Msg, op: O.Op, p: Plain, vm: Vm, q: Plain) {
    if p.Halted? then q.Halted?
    else if IsTransfer(op) then TermRight(msg, op, vm, q)
    else q == p
  }

  /** The plain machine's side of a block's last instruction. */
  lemma TermReference(msg: Msg, op: O.Op, p: Plain, vm: Vm)
    requires p.Halted? ||
      (&& p.Running? && p == PlainOf(vm, p.low) && |vm.stack| <= STACK_LIMIT && vm.gas <= GAS_MAX
       && Affordable(msg, op, vm) && !op.Host?)
    requires !O.IsStraight(op)
    ensures TermReady(msg, op, p, vm, PlainMicros(msg, TermMicros(op), Charged(p, O.StepCost(msg.mode.rev, op))))
  {
    if p.Halted? {
      HaltedStays(msg, TermMicros(op));
    } else if IsTransfer(op) {
      TransferTerm(msg, op, vm, p.low);
    }
  }

  lemma TermFinish(
      msg: Msg, first: nat, pc: nat, end: nat, op: O.Op, s: Site, e: Entry, p: Plain, q: Plain, vm: Vm, o: Outcome,
      g: nat)
    requires pc < |msg.code| && op == O.Decode(msg.mode, msg.code[pc]) && !O.IsStraight(op)
    requires op.JumpI? ==> Next(msg.code, pc) == end
    requires ValidSite(s) && ValidEntry(e) && Related(msg, s, e, q) && TermReady(msg, op, p, vm, q)
    requires Headed(msg, pc, p, vm, o) && (p.Running? ==> vm.gas <= g && Affordable(msg, op, vm) && !op.Host?)
    ensures Meets(msg, RunBlock(msg, Finish(first, s.bs, TermOf(op, s.temps)), e), end, g, o)
  {
    if p.Halted? {
      FinishAborts(msg, first, s, TermOf(op, s.temps), e);
    } else if IsTransfer(op) {
      TransferFinish(msg, first, pc, end, op, s, e, q, vm, g);
    } else {
      HaltFinish(msg, first, pc, end, op, s, e, q, vm, g);
    }
  }

  /** The last instruction of a block, when it ends the block by itself. */
  lemma TermStep(msg: Msg, first: nat, pc: nat, end: nat, bs: BState, e: Entry, p: Plain, vm: Vm, o: Outcome, g: nat)
    requires pc < |msg.code| && !O.IsStraight(O.Decode(msg.mode, msg.code[pc]))
    requires O.Decode(msg.mode, msg.code[pc]).JumpI? ==> Next(msg.code, pc) == end
    requires ValidSite(Site(bs, [])) && ValidEntry(e) && Related(msg, Site(bs, []), e, p)
    requires Headed(msg, pc, p, vm, o) && (p.Running? ==> vm.gas <= g)
    ensures
      var op := O.Decode(msg.mode, msg.code[pc]);
      var s := CompileMicros(TermMicros(op), Site(Count(bs, CostAt(msg, pc)), []));
      && ValidSite(s)
      && Meets(msg, RunBlock(msg, Finish(first, s.bs, TermOf(op, s.temps)), e), end, g, o)
  {
    var op := O.Decode(msg.mode, msg.code[pc]);
    TermPlain(op);
    CompiledSteps(msg, TermMicros(op), CostAt(msg, pc), bs, e, p);
    if p.Running? {
      AffordableAt(msg, pc, vm);
    }
    TermReference(msg, op, p, vm);
    TermFinish(msg, first, pc, end, op,
               CompileMicros(TermMicros(op), Site(Count(bs, CostAt(msg, pc)), [])), e, p,
               PlainMicros(msg, TermMicros(op), Charged(p, CostAt(msg, pc))), vm, o, g);
  }

  // ----- whole blocks -----

  /** A block that is left at its end. */
  lemma {:induction false} BlockEnds(
      msg: Msg, first: nat, end: nat, bs: BState, e: Entry, p: Plain, vm: Vm, o: Outcome, g: nat)
    requires ValidSite(Site(bs, [])) && ValidEntry(e) && Related(msg, Site(bs, []), e, p)
    requires Headed(msg, end, p, vm, o) && (p.Running? ==> vm.gas < g)
    ensures Meets(msg, RunBlock(msg, Finish(first, bs, FallThrough), e), end, g, o)
  {
    if p.Halted? {
      FinishAborts(msg, first, Site(bs, []), FallThrough, e);
    } else {
      var env, e' := FinishRuns(msg, first, Site(bs, []), FallThrough, e, p);
      assert VmAt(e') == vm;
    }
  }

  /**
   From any point within a block: the block finished from there leads to the outcome of
   the reference machine.
   */
  lemma {:induction false} BlockSimulates(
      msg: Msg, first: nat, pc: nat, end: nat, bs: BState, e: Entry, p: Plain, vm: Vm, o: Outcome, g: nat)
    requires Spans(msg.code, pc, end)
    requires ValidSite(Site(bs, [])) && ValidEntry(e) && Related(msg, Site(bs, []), e, p)
    requires Headed(msg, pc, p, vm, o) && (p.Running? ==> vm.gas <= g && (pc < end || vm.gas < g))
    ensures
      var (bs', term) := CompileFrom(msg.mode, msg.code, pc, end, bs);
      && ValidSite(Site(bs', []))
      && Meets(msg, RunBlock(msg, Finish(first, bs', term), e), end, g, o)
    decreases end - pc
  {
    if pc == end {
      BlockEnds(msg, first, end, bs, e, p, vm, o, g);
    } else if O.IsStraight(O.Decode(msg.mode, msg.code[pc])) {
      var p', vm' := StraightStep(msg, pc, end, bs, e, p, vm, o);
      var s := CompileMicros(StraightMicros(msg, pc, end), Site(Count(bs, CostAt(msg, pc)), []));
      BlockSimulates(msg, first, Next(msg.code, pc), end, s.bs, e, p', vm', o, g);
    } else {
      TermStep(msg, first, pc, end, bs, e, p, vm, o, g);
    }
  }
}
