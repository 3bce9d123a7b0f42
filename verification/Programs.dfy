/**
 Compiled programs: the blocks of a piece of bytecode, how control passes between them,
 and the theorem that running them is running the bytecode.
 */
module Programs {
  import opened Words
  import O = Opcodes
  import opened Evm
  import opened MemoryUnit
  import opened Ir
  import opened Builder
  import opened Simulation
  import opened Templates
  import opened Instructions
  import opened Blocks
  import opened Positions
  import opened Scanner
  import opened BlockProofs
  import L = LocalStacks

  datatype Target = ToBlock(index: nat) | ToStop | ToAbort

  /** Successors of a block: the next block, and the target of a jump to a known position. */
  datatype Link = Link(next: Target, direct: Option<Target>)

  datatype Program = Program(blocks: seq<Block>, links: seq<Link>, table: map<nat, nat>)

  // ----- one block -----

  lemma {:induction false} CompileFromValid(mode: O.Mode, code: seq<Byte>, pc: nat, end: nat, bs: BState)
    requires end <= |code| && ValidSite(Site(bs, []))
    ensures ValidSite(Site(CompileFrom(mode, code, pc, end, bs).0, []))
    decreases end - pc
  {
    if pc < end {
      var op := O.Decode(mode, code[pc]);
      var counted := Site(Count(bs, O.StepCost(mode.rev, op)), []);
      if O.IsStraight(op) {
        var operand := PushOperand(code, pc, end, op);
        var ms := Template(mode.rev, |code|, pc, op, operand);
        TemplatePlain(mode.rev, |code|, pc, op, operand);
        MicrosSite(ms, counted);
        CompileFromValid(mode, code, Next(code, pc), end, CompileMicros(ms, counted).bs);
      } else {
        TermPlain(op);
        MicrosSite(TermMicros(op), counted);
      }
    }
  }

  function CompileBlockFrom(mode: O.Mode, code: seq<Byte>, s: Span, start: BState): Block
    requires s.end <= |code| && ValidSite(Site(start, []))
  {
    var (bs, term) := CompileFrom(mode, code, s.begin, s.end, start);
    CompileFromValid(mode, code, s.begin, s.end, start);
    Finish(s.begin, bs, term)
  }

  lemma FreshSite()
    ensures ValidSite(Site(START, []))
  {
  }

  function CompileBlock(mode: O.Mode, code: seq<Byte>, s: Span): Block
    requires s.end <= |code|
  {
    FreshSite();
    CompileBlockFrom(mode, code, s, START)
  }

  lemma {:induction false} SegmentSpans(code: seq<Byte>, b: nat, e: nat)
    requires Segment(code, b, e)
    ensures Spans(code, b, e)
    decreases |code| - b
  {
    if b < e {
      SegmentSpans(code, Next(code, b), e);
    }
  }

  /** A block that ends dead is not left at its end. */
  lemma {:induction false} DeadEndsDoNotFall(mode: O.Mode, code: seq<Byte>, pc: nat, end: nat, bs: BState)
    requires Segment(code, pc, end) && EndsDead(code, pc, end)
    ensures
      var term := CompileFrom(mode, code, pc, end, bs).1;
      !term.FallThrough? && !term.CondBr?
    decreases end - pc
  {
    var op := O.Decode(mode, code[pc]);
    if O.IsStraight(op) {
      var counted := Site(Count(bs, O.StepCost(mode.rev, op)), []);
      var ms := Template(mode.rev, |code|, pc, op, PushOperand(code, pc, end, op));
      DeadEndsDoNotFall(mode, code, Next(code, pc), end, CompileMicros(ms, counted).bs);
    }
  }

  // ----- linking -----

  function Lookup(table: map<nat, nat>, d: nat): Target {
    if d in table then ToBlock(table[d]) else ToAbort
  }

  /** Position a block jumps to, if it is known at compile time. */
  function KnownDest(t: Term): Option<nat> {
    match t
    case Br(Imm(d)) => Some(d)
    case CondBr(_, Imm(d)) => Some(d)
    case _ => None
  }

  function LinkOf(blocks: seq<Block>, table: map<nat, nat>, i: nat): Link
    requires i < |blocks|
  {
    Link(if i + 1 < |blocks| then ToBlock(i + 1) else ToStop,
         match KnownDest(blocks[i].term) case Some(d) => Some(Lookup(table, d)) case None => None)
  }

  /** Entries lead to blocks that begin with a JUMPDEST, and none is missing among the first n. */
  predicate TableUpTo(code: seq<Byte>, spans: seq<Span>, n: nat, table: map<nat, nat>) {
    && (forall d :: d in table ==>
          d < |code| && code[d] == O.JUMPDEST && table[d] < |spans| && spans[table[d]].begin == d)
    && (forall i :: 0 <= i < n && i < |spans| && spans[i].begin < |code| && code[spans[i].begin] == O.JUMPDEST ==>
          spans[i].begin in table)
  }

  /** The jump table has an entry for exactly the blocks that begin with a JUMPDEST. */
  predicate IsJumpTable(code: seq<Byte>, spans: seq<Span>, table: map<nat, nat>) {
    TableUpTo(code, spans, |spans|, table)
  }

  predicate IsCompiled(mode: O.Mode, code: seq<Byte>, spans: seq<Span>, prog: Program) {
    && Partition(code, spans) && |prog.blocks| == |prog.links| == |spans|
    && IsJumpTable(code, spans, prog.table)
    && (forall i :: 0 <= i < |spans| ==>
          && spans[i].end <= |code| && prog.blocks[i] == CompileBlock(mode, code, spans[i])
          && prog.links[i] == LinkOf(prog.blocks, prog.table, i))
  }

  /** The keys of the jump table are exactly the valid jump destinations of the code. */
  lemma TableIsJumpDests(code: seq<Byte>, spans: seq<Span>, table: map<nat, nat>, d: nat)
    requires Partition(code, spans) && IsJumpTable(code, spans, table)
    ensures d in table <==> d in JumpDests(code, 0)
  {
    JumpDestsAreStarts(code, 0, d);
    if d in table {
      assert IsBlock(code, spans[table[d]]);
    }
    if d in JumpDests(code, 0) {
      assert BeginsSome(spans, d);
      var i :| 0 <= i < |spans| && spans[i].begin == d;
    }
  }

  // ----- execution -----

  /** How a run of generated code ends; `Stuck` is a transfer of control that cost nothing. */
  datatype Final =
    | FStop(stack: seq<nat>, gas: nat, memory: seq<Byte>)
    | FReturn(stack: seq<nat>, gas: nat, memory: seq<Byte>, output: seq<Byte>)
    | FRevert(stack: seq<nat>, gas: nat, memory: seq<Byte>, output: seq<Byte>)
    | FAbort
    | FCrash
    | Stuck

  function FinalOf(o: Outcome): Final {
    match o
    case Stopped(vm) => FStop(vm.stack, vm.gas, vm.memory)
    case Returned(vm, output) => FReturn(vm.stack, vm.gas, vm.memory, output)
    case Reverted(vm, output) => FRevert(vm.stack, vm.gas, vm.memory, output)
    case Exceptional => FAbort
  }

  function LiveStack(e: Entry): seq<nat> {
    if e.size <= |e.slots| then e.slots[..e.size] else e.slots
  }

  function JumpTarget(prog: Program, i: nat, d: nat): Target {
    if i < |prog.links| && prog.links[i].direct.Some? then prog.links[i].direct.value else Lookup(prog.table, d)
  }

  /** What a block that ends the run hands out. */
  function Handout(r: BlockResult): Final {
    match r
    case Aborts => FAbort
    case Crashes => FCrash
    case Falls(_) => Stuck
    case Jumps(_, _) => Stuck
    case Stops(e) => FStop(LiveStack(e), e.gas, e.memory)
    case Returns(e, output) => FReturn(LiveStack(e), e.gas, e.memory, output)
    case Reverts(e, output) => FRevert(LiveStack(e), e.gas, e.memory, output)
  }

  function RunFrom(msg: Msg, prog: Program, t: Target, e: Entry): Final
    decreases e.gas
  {
    match t
    case ToStop => FStop(LiveStack(e), e.gas, e.memory)
    case ToAbort => FAbort
    case ToBlock(i) =>
      if i >= |prog.blocks| || i >= |prog.links| then FCrash
      else
        var r := RunBlock(msg, prog.blocks[i], e);
        if r.Falls? && r.e.gas < e.gas then RunFrom(msg, prog, prog.links[i].next, r.e)
        else if r.Jumps? && r.e.gas < e.gas then RunFrom(msg, prog, JumpTarget(prog, i, r.dest), r.e)
        else Handout(r)
  }

  /** Running a compiled program: an empty stack in a buffer with arbitrary contents. */
  function RunProgram(msg: Msg, prog: Program, gas: nat, slots: seq<nat>): Final {
    RunFrom(msg, prog, if prog.blocks == [] then ToStop else ToBlock(0), Entry(slots, 0, gas, []))
  }

  // ----- correctness -----

  /** Before anything is compiled the local stack is the global stack. */
  lemma FreshView(s0: seq<nat>)
    ensures L.View(L.EMPTY, [], s0) == s0
  {
    var view := L.View(L.EMPTY, [], s0);
    forall j | 0 <= j < |s0| ensures view[j] == s0[j] {
    }
  }

  lemma StartRelated(msg: Msg, e: Entry)
    requires WordEntry(e)
    ensures Related(msg, Site(START, []), e, PlainOf(VmAt(e), e.size))
  {
    FreshView(StackOf(e));
    assert CodeOf(START) == [];
    var rt := Rt([], e.gas, e.slots, e.memory);
    assert RunSoFar(msg, START, e) == Ok(rt);
    assert Agree(Site(START, []), e, rt, PlainOf(VmAt(e), e.size));
  }

  lemma BlockMeetsFrom(msg: Msg, s: Span, bs: BState, e: Entry)
    requires IsBlock(msg.code, s) && s.end <= |msg.code| && GoodEntry(msg, s.begin, e)
    requires ValidSite(Site(bs, [])) && Related(msg, Site(bs, []), e, PlainOf(VmAt(e), e.size))
    ensures Meets(msg, RunBlock(msg, CompileBlockFrom(msg.mode, msg.code, s, bs), e), s.end, e.gas,
                  Run(msg, s.begin, VmAt(e)))
  {
    SegmentSpans(msg.code, s.begin, s.end);
    BlockSimulates(msg, s.begin, s.begin, s.end, bs, e, PlainOf(VmAt(e), e.size), VmAt(e),
                   Run(msg, s.begin, VmAt(e)), e.gas);
  }

  /** One compiled block leads to the reference machine's outcome. */
  lemma BlockMeets(msg: Msg, s: Span, e: Entry)
    requires IsBlock(msg.code, s) && s.end <= |msg.code| && GoodEntry(msg, s.begin, e)
    ensures Meets(msg, RunBlock(msg, CompileBlock(msg.mode, msg.code, s), e), s.end, e.gas,
                  Run(msg, s.begin, VmAt(e)))
  {
    FreshSite();
    StartRelated(msg, e);
    BlockMeetsFrom(msg, s, START, e);
  }

  // ----- static mode -----

  /** Code compiled for static calls ends in the abort at the first instruction that would change state. */
  lemma {:induction false} StaticBlockAborts(mode: O.Mode, code: seq<Byte>, pc: nat, end: nat, bs: BState, q: nat)
    requires mode.staticCall && Segment(code, pc, end)
    requires q in Starts(code, pc) && q < end && O.ChangesState(code[q])
    ensures CompileFrom(mode, code, pc, end, bs).1 == ExitAbort
    decreases end - pc
  {
    StartsClosed(code, pc, q);
    var op := O.Decode(mode, code[pc]);
    if pc < q {
      StartsFirst(code, pc);
      StartsGap(code, pc, pc, q);
      if O.IsStraight(op) {
        var counted := Site(Count(bs, O.StepCost(mode.rev, op)), []);
        var ms := Template(mode.rev, |code|, pc, op, PushOperand(code, pc, end, op));
        StaticBlockAborts(mode, code, Next(code, pc), end, CompileMicros(ms, counted).bs, q);
      } else {
        NotEnder(mode, code[pc]);
      }
    }
  }

  lemma StartsFirst(code: seq<Byte>, pc: nat)
    requires pc < |code|
    ensures pc in Starts(code, pc)
  {
  }

  lemma NotEnder(mode: O.Mode, b: Byte)
    requires !IsEnder(b) && !O.IsStraight(O.Decode(mode, b))
    ensures O.Decode(mode, b).Host? || O.Decode(mode, b).Invalid?
  {
  }

  /** So a static block with such an instruction aborts, in every state, and so does the reference machine. */
  lemma StaticWriteAborts(msg: Msg, s: Span, e: Entry, q: nat)
    requires msg.mode.staticCall && IsBlock(msg.code, s) && s.end <= |msg.code| && GoodEntry(msg, s.begin, e)
    requires q in Starts(msg.code, s.begin) && q < s.end && O.ChangesState(msg.code[q])
    ensures RunBlock(msg, CompileBlock(msg.mode, msg.code, s), e) == Aborts
    ensures Run(msg, s.begin, VmAt(e)) == Exceptional
  {
    BlockMeets(msg, s, e);
    StaticTerm(msg.mode, msg.code, s, q);
    AbortTerm(msg, CompileBlock(msg.mode, msg.code, s), e);
  }

  lemma StaticTerm(mode: O.Mode, code: seq<Byte>, s: Span, q: nat)
    requires mode.staticCall && IsBlock(code, s) && s.end <= |code|
    requires q in Starts(code, s.begin) && q < s.end && O.ChangesState(code[q])
    ensures CompileBlock(mode, code, s).term == ExitAbort
  {
    StaticBlockAborts(mode, code, s.begin, s.end, START, q);
  }

  lemma AbortTerm(msg: Msg, b: Block, e: Entry)
    requires b.term == ExitAbort
    ensures RunBlock(msg, b, e) == Aborts || RunBlock(msg, b, e) == Crashes
  {
  }

  /** A jump resolved at compile time goes where the jump table would send it. */
  lemma DirectJumpsAgree(msg: Msg, prog: Program, i: nat, e: Entry)
    requires i < |prog.blocks| == |prog.links| && prog.links[i] == LinkOf(prog.blocks, prog.table, i)
    requires RunBlock(msg, prog.blocks[i], e).Jumps?
    ensures JumpTarget(prog, i, RunBlock(msg, prog.blocks[i], e).dest)
            == Lookup(prog.table, RunBlock(msg, prog.blocks[i], e).dest)
  {
  }

  lemma FallsOnlyWhenOpen(msg: Msg, s: Span, e: Entry)
    requires IsBlock(msg.code, s) && s.end <= |msg.code|
    requires RunBlock(msg, CompileBlock(msg.mode, msg.code, s), e).Falls?
    ensures !EndsDead(msg.code, s.begin, s.end)
  {
    FreshSite();
    FallsFromOpen(msg, s, START, e);
  }

  lemma FallsFromOpen(msg: Msg, s: Span, bs: BState, e: Entry)
    requires IsBlock(msg.code, s) && s.end <= |msg.code| && ValidSite(Site(bs, []))
    requires RunBlock(msg, CompileBlockFrom(msg.mode, msg.code, s, bs), e).Falls?
    ensures !EndsDead(msg.code, s.begin, s.end)
  {
    if EndsDead(msg.code, s.begin, s.end) {
      DeadEndsDoNotFall(msg.mode, msg.code, s.begin, s.end, bs);
    }
  }

  /** Falling out of a block leads to where the reference machine goes on. */
  lemma FallsTo(msg: Msg, spans: seq<Span>, prog: Program, i: nat, e: Entry, e': Entry)
    requires IsCompiled(msg.mode, msg.code, spans, prog)
    requires i < |spans| && GoodEntry(msg, spans[i].begin, e) && RunBlock(msg, prog.blocks[i], e) == Falls(e')
    ensures WordEntry(e') && e'.gas < e.gas
    ensures i + 1 < |spans| ==> GoodEntry(msg, spans[i + 1].begin, e')
    ensures Run(msg, spans[i].begin, VmAt(e))
            == if i + 1 < |spans| then Run(msg, spans[i + 1].begin, VmAt(e')) else Stopped(VmAt(e'))
  {
    BlockMeets(msg, spans[i], e);
    FallsOnlyWhenOpen(msg, spans[i], e);
    assert FallsIntoNext(msg.code, spans, i, |msg.code|);
  }

  /** A jump leads to the block at its destination, or aborts if there is none. */
  lemma JumpsTo(msg: Msg, spans: seq<Span>, prog: Program, i: nat, e: Entry, d: nat, e': Entry)
    requires IsCompiled(msg.mode, msg.code, spans, prog)
    requires i < |spans| && GoodEntry(msg, spans[i].begin, e) && RunBlock(msg, prog.blocks[i], e) == Jumps(d, e')
    ensures WordEntry(e') && e'.gas < e.gas
    ensures JumpTarget(prog, i, d) == Lookup(prog.table, d)
    ensures d in prog.table ==> prog.table[d] < |spans| && GoodEntry(msg, spans[prog.table[d]].begin, e')
    ensures Run(msg, spans[i].begin, VmAt(e))
            == if d in prog.table then Run(msg, spans[prog.table[d]].begin, VmAt(e')) else Exceptional
  {
    BlockMeets(msg, spans[i], e);
    DirectJumpsAgree(msg, prog, i, e);
    TableIsJumpDests(msg.code, spans, prog.table, d);
  }

  lemma RunFromFalls(msg: Msg, spans: seq<Span>, prog: Program, i: nat, e: Entry, e': Entry)
    requires IsCompiled(msg.mode, msg.code, spans, prog) && i < |spans|
    requires RunBlock(msg, prog.blocks[i], e) == Falls(e') && e'.gas < e.gas
    ensures RunFrom(msg, prog, ToBlock(i), e)
            == if i + 1 < |spans| then RunFrom(msg, prog, ToBlock(i + 1), e')
               else FStop(LiveStack(e'), e'.gas, e'.memory)
  {
  }

  lemma RunFromJumps(msg: Msg, spans: seq<Span>, prog: Program, i: nat, e: Entry, d: nat, e': Entry)
    requires IsCompiled(msg.mode, msg.code, spans, prog) && i < |spans|
    requires RunBlock(msg, prog.blocks[i], e) == Jumps(d, e') && e'.gas < e.gas
    requires JumpTarget(prog, i, d) == Lookup(prog.table, d)
    ensures RunFrom(msg, prog, ToBlock(i), e)
            == if d in prog.table then RunFrom(msg, prog, ToBlock(prog.table[d]), e') else FAbort
  {
  }

  /** A block that hands a result out hands out the reference machine's. */
  lemma Exits(msg: Msg, r: BlockResult, end: nat, g: nat, o: Outcome)
    requires Meets(msg, r, end, g, o) && !r.Falls? && !r.Jumps?
    ensures Handout(r) == FinalOf(o)
  {
  }

  lemma {:induction false} FallSimulates(msg: Msg, spans: seq<Span>, prog: Program, i: nat, e: Entry, e': Entry)
    requires IsCompiled(msg.mode, msg.code, spans, prog) && i < |spans|
    requires GoodEntry(msg, spans[i].begin, e) && WordEntry(e') && RunBlock(msg, prog.blocks[i], e) == Falls(e')
    requires i + 1 < |spans| ==>
      RunFrom(msg, prog, ToBlock(i + 1), e') == FinalOf(Run(msg, spans[i + 1].begin, VmAt(e')))
    ensures RunFrom(msg, prog, ToBlock(i), e) == FinalOf(Run(msg, spans[i].begin, VmAt(e)))
  {
    FallsTo(msg, spans, prog, i, e, e');
    RunFromFalls(msg, spans, prog, i, e, e');
  }

  lemma {:induction false} JumpSimulates(msg: Msg, spans: seq<Span>, prog: Program, i: nat, e: Entry, d: nat, e': Entry)
    requires IsCompiled(msg.mode, msg.code, spans, prog) && i < |spans|
    requires GoodEntry(msg, spans[i].begin, e) && WordEntry(e') && RunBlock(msg, prog.blocks[i], e) == Jumps(d, e')
    requires d in prog.table ==> prog.table[d] < |spans|
    requires d in prog.table ==>
      RunFrom(msg, prog, ToBlock(prog.table[d]), e') == FinalOf(Run(msg, spans[prog.table[d]].begin, VmAt(e')))
    ensures RunFrom(msg, prog, ToBlock(i), e) == FinalOf(Run(msg, spans[i].begin, VmAt(e)))
  {
    JumpsTo(msg, spans, prog, i, e, d, e');
    RunFromJumps(msg, spans, prog, i, e, d, e');
  }

  lemma {:induction false} ExitSimulates(msg: Msg, spans: seq<Span>, prog: Program, i: nat, e: Entry)
    requires IsCompiled(msg.mode, msg.code, spans, prog) && i < |spans| && GoodEntry(msg, spans[i].begin, e)
    requires !RunBlock(msg, prog.blocks[i], e).Falls? && !RunBlock(msg, prog.blocks[i], e).Jumps?
    ensures RunFrom(msg, prog, ToBlock(i), e) == FinalOf(Run(msg, spans[i].begin, VmAt(e)))
  {
    BlockMeets(msg, spans[i], e);
    Exits(msg, RunBlock(msg, prog.blocks[i], e), spans[i].end, e.gas, Run(msg, spans[i].begin, VmAt(e)));
  }

  /** From the start of any block: the compiled program ends as the reference machine does. */
  lemma {:induction false} ProgramSimulates(msg: Msg, spans: seq<Span>, prog: Program, i: nat, e: Entry)
    requires IsCompiled(msg.mode, msg.code, spans, prog) && i < |spans| && GoodEntry(msg, spans[i].begin, e)
    ensures RunFrom(msg, prog, ToBlock(i), e) == FinalOf(Run(msg, spans[i].begin, VmAt(e)))
    decreases e.gas
  {
    var r := RunBlock(msg, prog.blocks[i], e);
    if r.Falls? {
      FallsTo(msg, spans, prog, i, e, r.e);
      if i + 1 < |spans| {
        ProgramSimulates(msg, spans, prog, i + 1, r.e);
      }
      FallSimulates(msg, spans, prog, i, e, r.e);
    } else if r.Jumps? {
      JumpsTo(msg, spans, prog, i, e, r.dest, r.e);
      if r.dest in prog.table {
        ProgramSimulates(msg, spans, prog, prog.table[r.dest], r.e);
      }
      JumpSimulates(msg, spans, prog, i, e, r.dest, r.e);
    } else {
      ExitSimulates(msg, spans, prog, i, e);
    }
  }

  // ----- when the reference machine stays calm -----

  lemma {:induction false} AffordableWhenSafe(msg: Msg, op: O.Op, vm: Vm)
    requires Safe(msg.mode.rev, vm.gas, vm.memory)
    ensures Affordable(msg, op, vm)
  {
    var (off, len) := MemoryRange(op, vm.stack);
    var cost := O.StepCost(msg.mode.rev, op);
    if cost <= vm.gas {
      SafeIsTame(msg.mode.rev, vm.gas, cost, vm.memory, off, len);
    }
  }

  /** A transition keeps memory within the gas bound and leads to an instruction. */
  lemma {:induction false} TransitKeeps(msg: Msg, pc: nat, vm: Vm, pc': nat, vm': Vm)
    requires SupportedAt(msg, pc) && Transit(msg, pc, vm) == Continues(pc', vm')
    ensures SupportedAt(msg, pc') && vm'.gas < vm.gas
    ensures Safe(msg.mode.rev, vm.gas, vm.memory) ==> Safe(msg.mode.rev, vm'.gas, vm'.memory)
  {
    var op := O.Decode(msg.mode, msg.code[pc]);
    StartsClosed(msg.code, 0, pc);
    if O.IsStraight(op) {
      StepKeepsBounds(msg, pc, op, vm);
    } else {
      TransferKeeps(msg, pc, op, vm, pc', vm');
    }
  }

  lemma {:induction false} TransferKeeps(msg: Msg, pc: nat, op: O.Op, vm: Vm, pc': nat, vm': Vm)
    requires pc < |msg.code| && pc in Starts(msg.code, 0) && op == O.Decode(msg.mode, msg.code[pc]) && IsTransfer(op)
    requires Admissible(msg, op, vm) && Transfer(msg, pc, op, vm) == Continues(pc', vm')
    ensures SupportedAt(msg, pc')
    ensures Safe(msg.mode.rev, vm.gas, vm.memory) ==> Safe(msg.mode.rev, vm'.gas, vm'.memory)
  {
    var (off, len) := MemoryRange(op, vm.stack);
    StartsClosed(msg.code, 0, pc);
    JumpDestsAreStarts(msg.code, 0, pc');
    if Safe(msg.mode.rev, vm.gas, vm.memory) {
      SafeAfterGrowth(msg.mode.rev, vm.gas - O.StepCost(msg.mode.rev, op), vm.memory, off, len);
    }
  }

  lemma {:induction false} CalmFrom(msg: Msg, pc: nat, vm: Vm)
    requires Supported(msg) && SupportedAt(msg, pc)
    requires MemoryFree(msg) || Safe(msg.mode.rev, vm.gas, vm.memory)
    ensures Calm(msg, pc, vm)
    decreases vm.gas
  {
    if pc < |msg.code| && !MemoryFree(msg) {
      AffordableWhenSafe(msg, O.Decode(msg.mode, msg.code[pc]), vm);
    }
    match Transit(msg, pc, vm)
    case Halts(_) =>
    case Continues(pc', vm') =>
      TransitKeeps(msg, pc, vm, pc', vm');
      CalmFrom(msg, pc', vm');
  }

  /** Code without client calls stays calm if it does not touch memory, or with gas below the bound. */
  lemma {:induction false} BoundedIsCalm(msg: Msg, gas: nat)
    requires Supported(msg) && (MemoryFree(msg) || gas < GAS_BOUND)
    ensures Calm(msg, 0, Vm([], gas, []))
  {
    CalmFrom(msg, 0, Vm([], gas, []));
  }

  /**
   Compiler correctness: for all bytecode, all call data, any gas and any initial contents
   of the stack buffer, if the reference machine stays calm, running the compiled program
   gives its outcome, stack, gas, memory and output. In particular the program never leaves
   its buffers and never stops making progress.
   */
  lemma CompilerCorrect(msg: Msg, spans: seq<Span>, prog: Program, gas: nat, slots: seq<nat>)
    requires IsCompiled(msg.mode, msg.code, spans, prog) && gas <= GAS_MAX && |slots| == STACK_LIMIT
    requires Calm(msg, 0, Vm([], gas, []))
    ensures RunProgram(msg, prog, gas, slots) == FinalOf(Execute(msg, gas))
  {
    var e := Entry(slots, 0, gas, []);
    assert VmAt(e) == Vm([], gas, []);
    if msg.code != [] {
      ProgramSimulates(msg, spans, prog, 0, e);
    }
  }
}
