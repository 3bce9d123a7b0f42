/**
 Whole trees of nested messages: which code runs for each, what it sends and writes, and
 what comes back. The host is arbitrary: it decides which code runs for every nested
 message, or answers it without running any.
 */
module MessageRuns {
  import opened Words
  import O = Opcodes
  import opened Calls

  type Hash = h: seq<Byte> | |h| == 32 witness Zeros(32)

  /** Opcodes of instructions that send no message. */
  type Local = b: Byte | !O.SendsMessage(b)

  function OpcodeOf(kind: Kind): Byte {
    match kind
    case Call => O.CALL
    case CallCode => O.CALLCODE
    case DelegateCall => O.DELEGATECALL
    case StaticCall => O.STATICCALL
    case Create => O.CREATE
  }

  datatype Ending = Stops | Returns(output: seq<Byte>) | Reverts(output: seq<Byte>) | Fails

  /** How the host answers a message. */
  datatype Reply =
    | Answers(success: bool, spent: nat, output: seq<Byte>)
    | RunsCode(hash: Hash, code: Script)

  /** Running code as seen from outside: instructions with the gas they use, and messages. */
  datatype Step =
    | Executes(opcode: Local, cost: nat)
    | CopiesReturnData(cost: nat)
    | Messages(inst: Kind, memoryCost: nat, requested: Word, value: Word, exists_: bool, balance: Word,
               address: nat, reply: Reply)

  datatype Script = Script(steps: seq<Step>, ending: Ending, compiles: bool)

  datatype Status = Success | Reverted | OutOfGas | Rejected | InternalError

  predicate Refused(s: Status) {
    s.Rejected? || s.InternalError?
  }

  function StatusOf(ending: Ending): Status {
    match ending
    case Stops | Returns(_) => Success
    case Reverts(_) => Reverted
    case Fails => OutOfGas
  }

  /** Output is handed back by RETURN and REVERT only. */
  function OutputOf(ending: Ending): seq<Byte> {
    match ending
    case Returns(output) => output
    case Reverts(output) => output
    case _ => []
  }

  // ----- compiled code -----

  /** What was compiled, and how. */
  datatype Code = Code(hash: Hash, mode: O.Mode)

  datatype CodeMapEntry = CodeMapEntry(func: Option<Code>, hits: nat)

  type CodeMap = map<string, CodeMapEntry>

  function IdOf(c: Code): string {
    CodeId(c.hash, c.mode.rev, c.mode.staticCall)
  }

  /** Compiled code is filed under its own identifier. */
  ghost predicate Filed(codeMap: CodeMap) {
    forall id :: id in codeMap && codeMap[id].func.Some? ==> id == IdOf(codeMap[id].func.value)
  }

  /** The entry for an identifier, one request later. */
  function Counted(codeMap: CodeMap, id: string): CodeMapEntry {
    if id in codeMap then codeMap[id].(hits := codeMap[id].hits + 1) else CodeMapEntry(None, 1)
  }

  /** Code is there, or there have been enough requests and it can be compiled. */
  predicate Available(codeMap: CodeMap, hitThreshold: nat, id: string, compiles: bool) {
    var entry := Counted(codeMap, id);
    entry.func.Some? || (entry.hits > hitThreshold && compiles)
  }

  datatype Found = Found(status: Status, code: Code, codeMap: CodeMap)

  /** Looks code up, compiling it if it is not there yet. */
  function FindCode(codeMap: CodeMap, hitThreshold: nat, wanted: Code, compiles: bool): Found {
    var id := IdOf(wanted);
    var entry := Counted(codeMap, id);
    var counted := codeMap[id := entry];
    if entry.func.Some? then Found(Success, entry.func.value, counted)
    else if entry.hits <= hitThreshold then Found(Rejected, wanted, counted)
    else if !compiles then Found(InternalError, wanted, counted)
    else Found(Success, wanted, codeMap[id := entry.(func := Some(wanted))])
  }

  /** Code is refused exactly if it is not available; what is found is what was wanted. */
  lemma FindCodeExact(codeMap: CodeMap, hitThreshold: nat, wanted: Code, compiles: bool)
    requires Filed(codeMap)
    ensures
      var f := FindCode(codeMap, hitThreshold, wanted, compiles);
      && f.code == wanted && Filed(f.codeMap)
      && (f.status.Success? <==> Available(codeMap, hitThreshold, IdOf(wanted), compiles))
      && (Refused(f.status) <==> !Available(codeMap, hitThreshold, IdOf(wanted), compiles))
  {
    var entry := Counted(codeMap, IdOf(wanted));
    if entry.func.Some? {
      var c := entry.func.value;
      CodeIdInjective(c.hash, c.mode.rev, c.mode.staticCall, wanted.hash, wanted.mode.rev, wanted.mode.staticCall);
    }
  }

  /** The code map after a number of requests for the same code, which compiles. */
  function Requested(codeMap: CodeMap, hitThreshold: nat, wanted: Code, n: nat): CodeMap {
    if n == 0 then codeMap
    else FindCode(Requested(codeMap, hitThreshold, wanted, n - 1), hitThreshold, wanted, true).codeMap
  }

  /** Code that has not been asked for before is refused as often as the threshold says, then compiled and kept. */
  lemma {:induction false} CompiledPastThreshold(codeMap: CodeMap, hitThreshold: nat, wanted: Code, n: nat)
    requires IdOf(wanted) !in codeMap
    ensures
      var m := Requested(codeMap, hitThreshold, wanted, n);
      && FindCode(m, hitThreshold, wanted, true).status == (if n < hitThreshold then Rejected else Success)
      && (n > 0 ==> IdOf(wanted) in m
                    && m[IdOf(wanted)] == CodeMapEntry(if n > hitThreshold then Some(wanted) else None, n))
  {
    if n > 0 {
      CompiledPastThreshold(codeMap, hitThreshold, wanted, n - 1);
    }
  }

  // ----- running -----

  /** Callbacks into the host, in order. A frame is the path of message numbers that leads to the code. */
  datatype Event =
    | Wrote(opcode: Byte, running: Message)
    | Sent(inst: Kind, value: Word, m: Message, refused: bool, frame: seq<nat>, running: Message)
    | Copied(data: seq<Byte>, own: seq<Byte>)

  /** The state of the virtual machine instance; all code shares one buffer for return data. */
  datatype Machine = Machine(currentMsg: Option<Message>, codeMap: CodeMap, returnBuffer: seq<Byte>)

  /** The return data of running code: its size cell, and the output of the last message the code itself sent. */
  datatype Cell = Cell(size: nat, own: seq<Byte>)

  const NOTHING := Cell(0, [])

  datatype Setup = Setup(rev: O.Revision, hitThreshold: nat)

  /** What a run comes to: besides the gas that is left, all that was charged or lost in it and below it. */
  datatype Ran = Ran(status: Status, gas: nat, spent: int, output: seq<Byte>, mach: Machine, trace: seq<Event>)

  /** A step that goes on: with the gas that is left, and what the callee used if there was one. */
  datatype Progress = Halts | Goes(mach: Machine, gas: nat, used: int, cell: Cell, trace: seq<Event>)

  datatype Called = Called(r: nat, used: int, mach: Machine, cell: Cell, trace: seq<Event>)

  /** What a step costs by itself: for a message its charges, less the stipend the callee gets for free. */
  function Price(rev: O.Revision, isStatic: bool, step: Step): int {
    match step
    case Executes(_, cost) => cost
    case CopiesReturnData(cost) => cost
    case Messages(inst, memoryCost, _, value, exists_, _, _, _) =>
      if inst.Create? then CreateCost(rev) + memoryCost
      else CallCosts(rev, inst, isStatic, memoryCost, value, exists_) - Stipend(value)
  }

  function PlanOf(mode: O.Mode, gas: nat, step: Step): Option<Plan>
    requires step.Messages?
  {
    if O.Decode(mode, OpcodeOf(step.inst)).Invalid? then None
    else if step.inst.Create? then PlanCreate(mode.rev, gas, step.memoryCost)
    else PlanCall(mode.rev, step.inst, mode.staticCall, gas, step.memoryCost, step.requested, step.value, step.exists_)
  }

  /** Executes a message. When it is refused, it stays the current one. */
  function Execute(setup: Setup, mach: Machine, hash: Hash, msg: Message, script: Script, frame: seq<nat>): Ran
    decreases script, 2
  {
    var wanted := Code(hash, O.Mode(setup.rev, msg.isStatic));
    var found := FindCode(mach.codeMap, setup.hitThreshold, wanted, script.compiles);
    var entered := Machine(Some(msg), found.codeMap, mach.returnBuffer);
    if !found.status.Success? then Ran(found.status, 0, msg.gas, [], entered, [])
    else
      var ran := RunFrom(setup, found.code.mode, entered, msg, script, 0, msg.gas, NOTHING, frame);
      ran.(gas := if ran.status.OutOfGas? then 0 else ran.gas,
           spent := if ran.status.OutOfGas? then msg.gas else ran.spent,
           mach := ran.mach.(currentMsg := mach.currentMsg))
  }

  /** Runs compiled code from its k-th step to the end. */
  function RunFrom(
      setup: Setup, mode: O.Mode, mach: Machine, msg: Message, script: Script, k: nat, gas: nat, cell: Cell,
      frame: seq<nat>)
      : (ran: Ran)
    requires mach.currentMsg.Some?
    ensures ran.mach.currentMsg.Some? && !Refused(ran.status)
    decreases script, 1, |script.steps| - k
  {
    if k >= |script.steps| then Ran(StatusOf(script.ending), gas, 0, OutputOf(script.ending), mach, [])
    else match TakeStep(setup, mode, mach, msg, script.steps[k], gas, cell, frame, k)
      case Halts => Ran(OutOfGas, 0, gas, [], mach, [])
      case Goes(mach', gas', used, cell', trace) =>
        var rest := RunFrom(setup, mode, mach', msg, script, k + 1, gas', cell', frame);
        rest.(spent := Price(mode.rev, mode.staticCall, script.steps[k]) + used + rest.spent,
              trace := trace + rest.trace)
  }

  /** One step: an instruction, or a message that is sent if it can be paid for. */
  function TakeStep(
      setup: Setup, mode: O.Mode, mach: Machine, msg: Message, step: Step, gas: nat, cell: Cell, frame: seq<nat>,
      k: nat)
      : (p: Progress)
    requires mach.currentMsg.Some?
    ensures p.Goes? ==> p.mach.currentMsg.Some?
    decreases step, 4
  {
    match step
    case Executes(opcode, cost) =>
      if O.Decode(mode, opcode).Invalid? || cost > gas then Halts
      else Goes(mach, gas - cost, 0, cell, Written(opcode, msg))
    case CopiesReturnData(cost) =>
      if O.Decode(mode, O.RETURNDATACOPY).Invalid? || cost > gas then Halts
      else Goes(mach, gas - cost, 0, cell, [Copied(Prefix(mach.returnBuffer, cell.size), cell.own)])
    case Messages(_, _, _, _, _, _, _, _) =>
      match PlanOf(mode, gas, step)
      case None => Halts
      case Some(plan) =>
        var c := CallOut(setup, mach, msg, step, plan.given, frame, k);
        Goes(c.mach, plan.kept + Unpack(c.r).0, c.used, c.cell, c.trace)
  }

  function Prefix(bytes: seq<Byte>, n: nat): seq<Byte> {
    if n <= |bytes| then bytes[..n] else bytes
  }

  function Written(opcode: Byte, running: Message): seq<Event> {
    if O.ChangesState(opcode) then [Wrote(opcode, running)] else []
  }

  /** Sends a message, built from the current one, unless depth or balance forbid it. */
  function CallOut(
      setup: Setup, mach: Machine, running: Message, step: Step, gas: nat, frame: seq<nat>, k: nat): (c: Called)
    requires mach.currentMsg.Some? && step.Messages?
    ensures c.mach.currentMsg.Some?
    decreases step, 3
  {
    if !Admitted(step.inst, running.depth, step.value, step.balance) 
    then Called(Pack(gas, false), 0, mach, NOTHING, [])
    else
      var m := Nested(mach.currentMsg.value, step.inst, gas, step.address, step.value);
      match step.reply
      case Answers(success, spent, output) =>
        Called(Pack(if spent <= gas then gas - spent else 0, success), if spent <= gas then spent else gas,
               mach.(returnBuffer := output), Cell(|output|, output),
               [Sent(step.inst, step.value, m, false, frame, running)])
      case RunsCode(hash, code) =>
        var ran := Execute(setup, mach, hash, m, code, frame + [k]);
        Called(Pack(ran.gas, ran.status.Success?), ran.spent, ran.mach.(returnBuffer := ran.output),
               Cell(|ran.output|, ran.output),
               [Sent(step.inst, step.value, m, Refused(ran.status), frame, running)] + ran.trace)
  }

  // ----- gas and static mode over the whole tree -----

  /** Nothing the Specification section of EIP-214 forbids; every message stays static. */
  ghost predicate Quiet(trace: seq<Event>) {
    forall i :: 0 <= i < |trace| ==>
      && !trace[i].Wrote?
      && (trace[i].Sent? ==>
            && trace[i].m.isStatic && !trace[i].inst.Create?
            && (trace[i].inst.Call? ==> trace[i].value == 0))
  }

  /** No message carries more gas than there was. */
  ghost predicate Funded(trace: seq<Event>, gas: nat) {
    forall i :: 0 <= i < |trace| ==> trace[i].Sent? ==> trace[i].m.gas <= gas
  }

  /**
   What code in a given mode keeps: all gas is left or spent, and nothing but static messages
   if its own is.
   */
  ghost predicate Sound(isStatic: bool, gas: nat, gas': nat, spent: int, mach: Machine, trace: seq<Event>) {
    && Filed(mach.codeMap) && gas' + spent == gas && spent >= 0 && Funded(trace, gas)
    && (isStatic ==> Quiet(trace) && (mach.currentMsg.Some? ==> mach.currentMsg.value.isStatic))
  }

  /**
   Over the whole tree of messages, the gas left at the end and all that was charged or lost
   add up to the gas of the message, and none sent has more. A static message causes nothing
   but static messages without transfers, whatever the host does. Only code that comes to its
   end succeeds or reverts, with the output it ends with; otherwise nothing is left or output.
   */
  lemma {:induction false} ExecuteSound(
      setup: Setup, mach: Machine, hash: Hash, msg: Message, script: Script, frame: seq<nat>)
    requires Filed(mach.codeMap) && msg.gas <= GAS_MAX
    ensures
      var ran := Execute(setup, mach, hash, msg, script, frame);
      && Filed(ran.mach.codeMap) && Funded(ran.trace, msg.gas)
      && ran.gas + ran.spent == msg.gas && ran.gas <= msg.gas
      && (msg.isStatic ==> Quiet(ran.trace))
      && EndsAs(script.ending, ran.status, ran.gas, ran.output)
    decreases script, 2
  {
    var wanted := Code(hash, O.Mode(setup.rev, msg.isStatic));
    var found := FindCode(mach.codeMap, setup.hitThreshold, wanted, script.compiles);
    FindCodeExact(mach.codeMap, setup.hitThreshold, wanted, script.compiles);
    if found.status.Success? {
      var entered := Machine(Some(msg), found.codeMap, mach.returnBuffer);
      RunSound(setup, found.code.mode, entered, msg, script, 0, msg.gas, NOTHING, frame);
    }
  }

  predicate EndsAs(ending: Ending, status: Status, gas: nat, output: seq<Byte>) {
    if status.Success? then ending == Returns(output) || (ending.Stops? && output == [])
    else if status.Reverted? then ending == Reverts(output)
    else gas == 0 && output == []
  }

  lemma {:induction false} RunSound(
      setup: Setup, mode: O.Mode, mach: Machine, msg: Message, script: Script, k: nat, gas: nat, cell: Cell,
      frame: seq<nat>)
    requires mach.currentMsg.Some? && Filed(mach.codeMap) && gas <= GAS_MAX
    requires msg.isStatic ==> mode.staticCall && mach.currentMsg.value.isStatic
    ensures
      var ran := RunFrom(setup, mode, mach, msg, script, k, gas, cell, frame);
      && Sound(msg.isStatic, gas, ran.gas, ran.spent, ran.mach, ran.trace)
      && EndsAs(script.ending, ran.status, if ran.status.OutOfGas? then 0 else ran.gas, ran.output)
    decreases script, 1, |script.steps| - k
  {
    if k < |script.steps| {
      var p := TakeStep(setup, mode, mach, msg, script.steps[k], gas, cell, frame, k);
      StepSound(setup, mode, mach, msg, script.steps[k], gas, cell, frame, k);
      if p.Goes? {
        RunSound(setup, mode, p.mach, msg, script, k + 1, p.gas, p.cell, frame);
        var rest := RunFrom(setup, mode, p.mach, msg, script, k + 1, p.gas, p.cell, frame);
        SoundAfter(msg.isStatic, gas, p.trace, p.gas, Price(mode.rev, mode.staticCall, script.steps[k]) + p.used, rest);
      }
    }
  }

  /**
   A step that goes on takes its own price and what the callee used, and nothing else. No step
   goes on that is not allowed or cannot be paid for, and every other does. A message that is
   sent is given the most that is allowed.
   */
  lemma {:induction false} StepSound(
      setup: Setup, mode: O.Mode, mach: Machine, msg: Message, step: Step, gas: nat, cell: Cell, frame: seq<nat>,
      k: nat)
    requires mach.currentMsg.Some? && Filed(mach.codeMap) && gas <= GAS_MAX
    requires msg.isStatic ==> mode.staticCall && mach.currentMsg.value.isStatic
    ensures
      var p := TakeStep(setup, mode, mach, msg, step, gas, cell, frame, k);
      var price := Price(mode.rev, mode.staticCall, step);
      && (p.Goes? <==> Payable(mode, step, gas))
      && (p.Goes? ==>
            && Sound(msg.isStatic, gas, p.gas, price + p.used, p.mach, p.trace)
            && price >= 0 && p.gas == gas - price - p.used
            && (!step.Messages? ==> p.used == 0 && p.mach == mach && p.cell == cell)
            && (step.Executes? ==> (p.trace != [] <==> O.ChangesState(step.opcode)))
            && (step.Messages? && p.trace != [] ==> p.trace[0].Sent? && GivenMost(mode, step, gas, p.trace[0].m.gas)))
    decreases step, 4
  {
    if step.Messages? {
      PlanExact(mode, gas, step);
    }
    if step.Messages? && PlanOf(mode, gas, step).Some? {
      CallSound(setup, mach, msg, step, PlanOf(mode, gas, step).value.given, frame, k);
      SentFirst(setup, mach, msg, step, PlanOf(mode, gas, step).value.given, frame, k);
    }
  }

  /** The instruction is there in its mode, and there is gas for it; before EIP-150, also for all it asks for. */
  predicate Payable(mode: O.Mode, step: Step, gas: nat) {
    match step
    case Executes(opcode, cost) => !O.Decode(mode, opcode).Invalid? && cost <= gas
    case CopiesReturnData(cost) => mode.rev >= O.BYZANTIUM && cost <= gas
    case Messages(inst, memoryCost, requested, value, exists_, _, _, _) =>
      match inst
      case Create => !mode.staticCall && CreateCost(mode.rev) + memoryCost <= gas
      case _ =>
        var costs := CallCosts(mode.rev, inst, mode.staticCall, memoryCost, value, exists_);
        && (inst.DelegateCall? ==> mode.rev >= O.HOMESTEAD)
        && (inst.StaticCall? ==> mode.rev >= O.BYZANTIUM)
        && costs <= gas
        && (mode.rev >= O.TANGERINE_WHISTLE || requested <= gas - costs)
  }

  /** A callee gets the most it may of what is left after the charges, and the stipend. */
  predicate GivenMost(mode: O.Mode, step: Step, gas: nat, given: nat)
    requires step.Messages?
  {
    if step.inst.Create? then
      var left := gas - CreateCost(mode.rev) - step.memoryCost;
      given == left - (if mode.rev >= O.TANGERINE_WHISTLE then left / 64 else 0)
    else
      var costs := CallCosts(mode.rev, step.inst, mode.staticCall, step.memoryCost, step.value, step.exists_);
      costs <= gas && given >= Stipend(step.value)
      && MostAllowed(mode.rev, gas - costs, given - Stipend(step.value), step.requested)
  }

  /** The first thing a call leads to is its own message, with the gas it was given. */
  lemma {:induction false} SentFirst(
      setup: Setup, mach: Machine, running: Message, step: Step, gas: nat, frame: seq<nat>, k: nat)
    requires mach.currentMsg.Some? && step.Messages?
    ensures
      var c := CallOut(setup, mach, running, step, gas, frame, k);
      c.trace != [] ==>
        && c.trace[0].Sent? && c.trace[0].inst == step.inst && c.trace[0].running == running
        && c.trace[0].m == Nested(mach.currentMsg.value, step.inst, gas, step.address, step.value)
        && (step.reply.RunsCode? ==>
              var ran := Execute(setup, mach, step.reply.hash, c.trace[0].m, step.reply.code, frame + [k]);
              && c.used == ran.spent && c.cell == Cell(|ran.output|, ran.output)
              && c.trace[0].refused == Refused(ran.status) && c.trace[1..] == ran.trace)
  {
  }

  lemma SoundAfter(isStatic: bool, gas: nat, trace: seq<Event>, left: nat, spent: int, rest: Ran)
    requires left + spent == gas && spent >= 0 && Funded(trace, gas) && (isStatic ==> Quiet(trace))
    requires Sound(isStatic, left, rest.gas, rest.spent, rest.mach, rest.trace)
    ensures Sound(isStatic, gas, rest.gas, spent + rest.spent, rest.mach, trace + rest.trace)
  {
  }

  /**
   A callee uses what the host says it did, or what its code spent, but never more than it got;
   a message that depth or balance forbid is not sent, and gives all gas back.
   */
  lemma {:induction false} CallSound(
      setup: Setup, mach: Machine, running: Message, step: Step, gas: nat, frame: seq<nat>, k: nat)
    requires mach.currentMsg.Some? && Filed(mach.codeMap) && gas <= GAS_MAX && step.Messages?
    requires running.isStatic ==>
      mach.currentMsg.value.isStatic && !step.inst.Create? && (step.inst.Call? ==> step.value == 0)
    ensures
      var c := CallOut(setup, mach, running, step, gas, frame, k);
      && Sound(running.isStatic, gas, Unpack(c.r).0, c.used, c.mach, c.trace)
      && (c.trace != [] <==> running.depth < 1024 && (step.inst.DelegateCall? || step.value <= step.balance))
      && (c.trace == [] ==> Unpack(c.r) == (gas, false) && c.cell == NOTHING && c.mach == mach)
      && (c.trace != [] && step.reply.Answers? ==>
            c.used == (if step.reply.spent <= gas then step.reply.spent else gas)
            && Unpack(c.r).1 == step.reply.success && c.cell.own == step.reply.output)
    decreases step, 3
  {
    if !Admitted(step.inst, running.depth, step.value, step.balance) {
      UnpackPacked(gas, false);
    } else {
      var m := Nested(mach.currentMsg.value, step.inst, gas, step.address, step.value);
      match step.reply
      case Answers(success, spent, _) => UnpackPacked(if spent <= gas then gas - spent else 0, success);
      case RunsCode(hash, code) =>
        ExecuteSound(setup, mach, hash, m, code, frame + [k]);
        var ran := Execute(setup, mach, hash, m, code, frame + [k]);
        UnpackPacked(ran.gas, ran.status.Success?);
    }
  }

  /** A message takes its price, and is allowed in its mode. */
  lemma PlanExact(mode: O.Mode, gas: nat, step: Step)
    requires step.Messages? && gas <= GAS_MAX
    ensures
      var plan := PlanOf(mode, gas, step);
      && (plan.Some? <==> Payable(mode, step, gas))
      && (plan.Some? ==>
            && Price(mode.rev, mode.staticCall, step) >= 0
            && plan.value.kept + plan.value.given + Price(mode.rev, mode.staticCall, step) == gas
            && GivenMost(mode, step, gas, plan.value.given)
            && (mode.staticCall ==> !step.inst.Create? && (step.inst.Call? ==> step.value == 0)))
  {
    if !step.inst.Create? {
      PlanConserves(mode.rev, step.inst, mode.staticCall, gas, step.memoryCost, step.requested, step.value,
                    step.exists_);
    }
  }

  // ----- messages and the code that sends them -----

  /** A message descends from the one whose code sent it. */
  predicate IsChild(e: Event)
    requires e.Sent?
  {
    e.m == Nested(e.running, e.inst, e.m.gas, e.m.address, e.value) && e.m.depth <= DEPTH_LIMIT
  }

  ghost predicate Parented(trace: seq<Event>) {
    forall i :: 0 <= i < |trace| ==> trace[i].Sent? ==> IsChild(trace[i])
  }

  /** The first message was refused, and the second is from the same code. */
  predicate AfterRefusal(a: Event, b: Event) {
    a.Sent? && b.Sent? && a.refused && a.frame == b.frame
  }

  /** Some code sent a message after one of its own had been refused. */
  ghost predicate Misled(trace: seq<Event>) {
    exists i, j :: 0 <= i < j < |trace| && AfterRefusal(trace[i], trace[j])
  }

  ghost predicate SentBy(trace: seq<Event>, frame: seq<nat>) {
    exists i :: 0 <= i < |trace| && trace[i].Sent? && trace[i].frame == frame
  }

  ghost predicate RefusedBy(trace: seq<Event>, frame: seq<nat>) {
    exists i :: 0 <= i < |trace| && trace[i].Sent? && trace[i].refused && trace[i].frame == frame
  }

  /** The current message is not that of the running code. */
  predicate Lost(mach: Machine, msg: Message) {
    mach.currentMsg != Some(msg)
  }

  /** It is then one from further down. */
  predicate Deeper(mach: Machine, msg: Message) {
    mach.currentMsg.Some? && (Lost(mach, msg) ==> mach.currentMsg.value.depth > msg.depth)
  }

  /** Messages descend from their senders exactly if nobody is misled, and a lost sender sends nothing. */
  ghost predicate Exact(trace: seq<Event>, frame: seq<nat>, lost: bool) {
    Parented(trace) <==> !Misled(trace) && (lost ==> !SentBy(trace, frame))
  }

  /** Sent by the code of a frame, or by code below one of its messages lo to hi. */
  predicate Within(e: Event, frame: seq<nat>, lo: nat, hi: nat) {
    e.Sent? ==> frame <= e.frame && (e.frame != frame ==> lo <= e.frame[|frame|] < hi)
  }

  ghost predicate AllWithin(trace: seq<Event>, frame: seq<nat>, lo: nat, hi: nat) {
    forall i :: 0 <= i < |trace| ==> Within(trace[i], frame, lo, hi)
  }

  lemma MisledConcat(a: seq<Event>, b: seq<Event>)
    ensures Misled(a + b) <==>
            Misled(a) || Misled(b) || exists i, j :: 0 <= i < |a| && 0 <= j < |b| && AfterRefusal(a[i], b[j])
  {
    var ab := a + b;
    if Misled(ab) {
      var i, j :| 0 <= i < j < |ab| && AfterRefusal(ab[i], ab[j]);
      if i < |a| <= j {
        assert AfterRefusal(a[i], b[j - |a|]);
      } else if j < |a| {
        assert AfterRefusal(a[i], a[j]);
      } else {
        assert AfterRefusal(b[i - |a|], b[j - |a|]);
      }
    }
    if Misled(a) {
      var i, j :| 0 <= i < j < |a| && AfterRefusal(a[i], a[j]);
      assert AfterRefusal(ab[i], ab[j]);
    }
    if Misled(b) {
      var i, j :| 0 <= i < j < |b| && AfterRefusal(b[i], b[j]);
      assert AfterRefusal(ab[|a| + i], ab[|a| + j]);
    }
    if exists i, j :: 0 <= i < |a| && 0 <= j < |b| && AfterRefusal(a[i], b[j]) {
      var i, j :| 0 <= i < |a| && 0 <= j < |b| && AfterRefusal(a[i], b[j]);
      assert AfterRefusal(ab[i], ab[|a| + j]);
    }
  }

  lemma ParentedConcat(a: seq<Event>, b: seq<Event>)
    ensures Parented(a + b) <==> Parented(a) && Parented(b)
  {
    var ab := a + b;
    if Parented(ab) {
      forall i | 0 <= i < |a| && a[i].Sent? ensures IsChild(a[i]) {
        assert ab[i] == a[i];
      }
      forall i | 0 <= i < |b| && b[i].Sent? ensures IsChild(b[i]) {
        assert ab[|a| + i] == b[i];
      }
    }
  }

  lemma SentByConcat(a: seq<Event>, b: seq<Event>, frame: seq<nat>)
    ensures SentBy(a + b, frame) <==> SentBy(a, frame) || SentBy(b, frame)
  {
    var ab := a + b;
    if SentBy(a, frame) {
      var i :| 0 <= i < |a| && a[i].Sent? && a[i].frame == frame;
      assert ab[i] == a[i];
    }
    if SentBy(b, frame) {
      var i :| 0 <= i < |b| && b[i].Sent? && b[i].frame == frame;
      assert ab[|a| + i] == b[i];
    }
  }

  /** Code below different messages is different code; only the sender itself appears in both. */
  lemma OnlySenderInBoth(a: seq<Event>, b: seq<Event>, frame: seq<nat>, lo: nat, k: nat, n: nat)
    requires AllWithin(a, frame, lo, k) && AllWithin(b, frame, k, n)
    ensures (exists i, j :: 0 <= i < |a| && 0 <= j < |b| && AfterRefusal(a[i], b[j]))
            <==> RefusedBy(a, frame) && SentBy(b, frame)
  {
    if exists i, j :: 0 <= i < |a| && 0 <= j < |b| && AfterRefusal(a[i], b[j]) {
      var i, j :| 0 <= i < |a| && 0 <= j < |b| && AfterRefusal(a[i], b[j]);
      assert Within(a[i], frame, lo, k) && Within(b[j], frame, k, n);
      assert a[i].frame == frame;
    }
    if RefusedBy(a, frame) && SentBy(b, frame) {
      var i :| 0 <= i < |a| && a[i].Sent? && a[i].refused && a[i].frame == frame;
      var j :| 0 <= j < |b| && b[j].Sent? && b[j].frame == frame;
      assert AfterRefusal(a[i], b[j]);
    }
  }

  lemma ExactConcat(a: seq<Event>, b: seq<Event>, frame: seq<nat>, lo: nat, k: nat, n: nat, lost: bool)
    requires AllWithin(a, frame, lo, k) && AllWithin(b, frame, k, n)
    requires Exact(a, frame, lost) && Exact(b, frame, lost || RefusedBy(a, frame))
    ensures Exact(a + b, frame, lost)
  {
    MisledConcat(a, b);
    ParentedConcat(a, b);
    SentByConcat(a, b, frame);
    OnlySenderInBoth(a, b, frame, lo, k, n);
  }

  /**
   As long as no code sends a message after one of its own was refused, every message
   descends from the one whose code sent it; and as soon as some code does, not.
   */
  lemma {:induction false} ParentedExactly(
      setup: Setup, mach: Machine, hash: Hash, msg: Message, script: Script, frame: seq<nat>)
    ensures
      var ran := Execute(setup, mach, hash, msg, script, frame);
      && AllWithin(ran.trace, frame, 0, |script.steps|)
      && (Parented(ran.trace) <==> !Misled(ran.trace))
    decreases script, 2
  {
    var wanted := Code(hash, O.Mode(setup.rev, msg.isStatic));
    var found := FindCode(mach.codeMap, setup.hitThreshold, wanted, script.compiles);
    if found.status.Success? {
      var entered := Machine(Some(msg), found.codeMap, mach.returnBuffer);
      RunExact(setup, found.code.mode, entered, msg, script, 0, msg.gas, NOTHING, frame);
    }
  }

  lemma {:induction false} RunExact(
      setup: Setup, mode: O.Mode, mach: Machine, msg: Message, script: Script, k: nat, gas: nat, cell: Cell,
      frame: seq<nat>)
    requires Deeper(mach, msg) && k <= |script.steps|
    ensures
      var ran := RunFrom(setup, mode, mach, msg, script, k, gas, cell, frame);
      AllWithin(ran.trace, frame, k, |script.steps|) && Exact(ran.trace, frame, Lost(mach, msg))
    decreases script, 1, |script.steps| - k
  {
    if k < |script.steps| {
      var p := TakeStep(setup, mode, mach, msg, script.steps[k], gas, cell, frame, k);
      StepExact(setup, mode, mach, msg, script.steps[k], gas, cell, frame, k);
      if p.Goes? {
        RunExact(setup, mode, p.mach, msg, script, k + 1, p.gas, p.cell, frame);
        var rest := RunFrom(setup, mode, p.mach, msg, script, k + 1, p.gas, p.cell, frame);
        ExactConcat(p.trace, rest.trace, frame, k, k + 1, |script.steps|, Lost(mach, msg));
      }
    }
  }

  /** What one step contributes: it is exact, and the sender is lost afterwards if it was or has been refused. */
  ghost predicate StepIsExact(msg: Message, mach: Machine, mach': Machine, trace: seq<Event>, frame: seq<nat>, k: nat) {
    && AllWithin(trace, frame, k, k + 1) && Exact(trace, frame, Lost(mach, msg))
    && Deeper(mach', msg) && (Lost(mach', msg) <==> Lost(mach, msg) || RefusedBy(trace, frame))
  }

  lemma {:induction false} StepExact(
      setup: Setup, mode: O.Mode, mach: Machine, msg: Message, step: Step, gas: nat, cell: Cell, frame: seq<nat>,
      k: nat)
    requires Deeper(mach, msg)
    ensures
      var p := TakeStep(setup, mode, mach, msg, step, gas, cell, frame, k);
      p.Goes? ==> StepIsExact(msg, mach, p.mach, p.trace, frame, k)
    decreases step, 4
  {
    if step.Messages? && PlanOf(mode, gas, step).Some? {
      CallExact(setup, mach, msg, step, PlanOf(mode, gas, step).value.given, frame, k);
    }
  }

  lemma {:induction false} CallExact(
      setup: Setup, mach: Machine, running: Message, step: Step, gas: nat, frame: seq<nat>, k: nat)
    requires Deeper(mach, running) && step.Messages?
    ensures
      var c := CallOut(setup, mach, running, step, gas, frame, k);
      StepIsExact(running, mach, c.mach, c.trace, frame, k)
    decreases step, 3
  {
    if Admitted(step.inst, running.depth, step.value, step.balance) {
      var m := Nested(mach.currentMsg.value, step.inst, gas, step.address, step.value);
      match step.reply
      case Answers(_, _, output) =>
        var sent := Sent(step.inst, step.value, m, false, frame, running);
        SentExact(mach, mach.(returnBuffer := output), running, step, sent, [], frame, k);
      case RunsCode(hash, code) =>
        ParentedExactly(setup, mach, hash, m, code, frame + [k]);
        var ran := Execute(setup, mach, hash, m, code, frame + [k]);
        var sent := Sent(step.inst, step.value, m, Refused(ran.status), frame, running);
        SentExact(mach, ran.mach.(returnBuffer := ran.output), running, step, sent, ran.trace, frame, k);
    }
  }

  /** A message that was sent, followed by what its own code did. */
  lemma {:induction false} SentExact(
      mach: Machine, mach': Machine, running: Message, step: Step, sent: Event, below: seq<Event>, frame: seq<nat>,
      k: nat)
    requires Deeper(mach, running) && step.Messages?
    requires Admitted(step.inst, running.depth, step.value, step.balance)
    requires sent.Sent? && sent.frame == frame && sent.running == running
    requires sent.inst == step.inst && sent.value == step.value
    requires sent.m == Nested(mach.currentMsg.value, step.inst, sent.m.gas, step.address, step.value)
    requires mach'.currentMsg == if sent.refused then Some(sent.m) else mach.currentMsg
    requires forall i :: 0 <= i < |below| ==> below[i].Sent? ==> frame + [k] <= below[i].frame
    requires Parented(below) <==> !Misled(below)
    ensures StepIsExact(running, mach, mach', [sent] + below, frame, k)
  {
    var trace := [sent] + below;
    MisledConcat([sent], below);
    ParentedConcat([sent], below);
    assert [sent][0] == sent && trace[0] == sent;
    forall i | 0 <= i < |below| && below[i].Sent?
      ensures below[i].frame != frame && Within(below[i], frame, k, k + 1)
    {
      assert below[i].frame[|frame|] == (frame + [k])[|frame|] == k;
    }
    assert !SentBy(below, frame);
    assert IsChild(sent) <==> !Lost(mach, running);
    assert Parented([sent]) <==> IsChild(sent);
    assert SentBy(trace, frame);
    assert RefusedBy(trace, frame) <==> sent.refused;
  }

  // ----- return data -----

  /** The shared buffer holds what the running code's own last message gave back. */
  predicate Holds(mach: Machine, cell: Cell) {
    cell.size == |cell.own| <= |mach.returnBuffer| && mach.returnBuffer[..cell.size] == cell.own
  }

  /** Return data that is copied is always the sender's own. */
  ghost predicate OwnData(trace: seq<Event>) {
    forall i :: 0 <= i < |trace| ==> trace[i].Copied? ==> trace[i].data == trace[i].own
  }

  /**
   Although all code of a tree shares one buffer, code that copies return data gets the
   output of the last message it sent itself, and nothing if that was not admitted.
   */
  lemma {:induction false} ExecuteOwnData(
      setup: Setup, mach: Machine, hash: Hash, msg: Message, script: Script, frame: seq<nat>)
    ensures OwnData(Execute(setup, mach, hash, msg, script, frame).trace)
    decreases script, 2
  {
    var wanted := Code(hash, O.Mode(setup.rev, msg.isStatic));
    var found := FindCode(mach.codeMap, setup.hitThreshold, wanted, script.compiles);
    if found.status.Success? {
      var entered := Machine(Some(msg), found.codeMap, mach.returnBuffer);
      RunOwnData(setup, found.code.mode, entered, msg, script, 0, msg.gas, NOTHING, frame);
    }
  }

  lemma {:induction false} RunOwnData(
      setup: Setup, mode: O.Mode, mach: Machine, msg: Message, script: Script, k: nat, gas: nat, cell: Cell,
      frame: seq<nat>)
    requires mach.currentMsg.Some? && Holds(mach, cell)
    ensures OwnData(RunFrom(setup, mode, mach, msg, script, k, gas, cell, frame).trace)
    decreases script, 1, |script.steps| - k
  {
    if k < |script.steps| {
      var p := TakeStep(setup, mode, mach, msg, script.steps[k], gas, cell, frame, k);
      StepOwnData(setup, mode, mach, msg, script.steps[k], gas, cell, frame, k);
      if p.Goes? {
        RunOwnData(setup, mode, p.mach, msg, script, k + 1, p.gas, p.cell, frame);
      }
    }
  }

  lemma {:induction false} StepOwnData(
      setup: Setup, mode: O.Mode, mach: Machine, msg: Message, step: Step, gas: nat, cell: Cell, frame: seq<nat>,
      k: nat)
    requires mach.currentMsg.Some? && Holds(mach, cell)
    ensures
      var p := TakeStep(setup, mode, mach, msg, step, gas, cell, frame, k);
      p.Goes? ==> Holds(p.mach, p.cell) && OwnData(p.trace)
    decreases step, 4
  {
    if step.Messages? && PlanOf(mode, gas, step).Some? {
      CallOwnData(setup, mach, msg, step, PlanOf(mode, gas, step).value.given, frame, k);
    }
  }

  lemma {:induction false} CallOwnData(
      setup: Setup, mach: Machine, running: Message, step: Step, gas: nat, frame: seq<nat>, k: nat)
    requires mach.currentMsg.Some? && step.Messages?
    ensures
      var c := CallOut(setup, mach, running, step, gas, frame, k);
      Holds(c.mach, c.cell) && OwnData(c.trace)
    decreases step, 3
  {
    if Admitted(step.inst, running.depth, step.value, step.balance) && step.reply.RunsCode? {
      var m := Nested(mach.currentMsg.value, step.inst, gas, step.address, step.value);
      ExecuteOwnData(setup, mach, step.reply.hash, m, step.reply.code, frame + [k]);
    }
  }

  // ----- when nothing is refused -----

  /** All code the host may run is available; code for nested messages in the mode it will have. */
  ghost predicate AllAvailable(codeMap: CodeMap, setup: Setup, isStatic: bool, script: Script)
    decreases script
  {
    forall i :: 0 <= i < |script.steps| && script.steps[i].Messages? && script.steps[i].reply.RunsCode? ==>
      BelowAvailable(codeMap, setup, isStatic || script.steps[i].inst.StaticCall?, script.steps[i].reply)
  }

  ghost predicate BelowAvailable(codeMap: CodeMap, setup: Setup, isStatic: bool, reply: Reply)
    requires reply.RunsCode?
    decreases reply
  {
    && Available(codeMap, setup.hitThreshold, IdOf(Code(reply.hash, O.Mode(setup.rev, isStatic))), reply.code.compiles)
    && AllAvailable(codeMap, setup, isStatic, reply.code)
  }

  ghost predicate AllCompile(script: Script) {
    script.compiles &&
    forall i :: 0 <= i < |script.steps| && script.steps[i].Messages? && script.steps[i].reply.RunsCode? ==>
      AllCompile(script.steps[i].reply.code)
  }

  /** Without a threshold, all code that compiles is available. */
  lemma {:induction false} CompilableAvailable(codeMap: CodeMap, setup: Setup, isStatic: bool, script: Script)
    requires setup.hitThreshold == 0 && AllCompile(script)
    ensures AllAvailable(codeMap, setup, isStatic, script)
    decreases script
  {
    forall i | 0 <= i < |script.steps| && script.steps[i].Messages? && script.steps[i].reply.RunsCode?
      ensures BelowAvailable(codeMap, setup, isStatic || script.steps[i].inst.StaticCall?, script.steps[i].reply)
    {
      CompilableAvailable(codeMap, setup, isStatic || script.steps[i].inst.StaticCall?, script.steps[i].reply.code);
    }
  }

  /** Entries stay: compiled code is not dropped, and requests are never forgotten. */
  ghost predicate Keeps(before: CodeMap, after: CodeMap) {
    forall id :: id in before ==>
      && id in after && before[id].hits <= after[id].hits
      && (before[id].func.Some? ==> after[id].func == before[id].func)
  }

  lemma FindCodeKeeps(before: CodeMap, codeMap: CodeMap, hitThreshold: nat, wanted: Code, compiles: bool)
    requires Keeps(before, codeMap)
    ensures
      var f := FindCode(codeMap, hitThreshold, wanted, compiles);
      && Keeps(before, f.codeMap)
      && (Available(before, hitThreshold, IdOf(wanted), compiles) ==> f.status.Success?)
  {
  }

  ghost predicate NoneRefused(trace: seq<Event>) {
    forall i :: 0 <= i < |trace| ==> trace[i].Sent? ==> !trace[i].refused
  }

  /** If all code was available from the start, nothing is refused on the way. */
  lemma {:induction false} NothingRefused(
      before: CodeMap, setup: Setup, mach: Machine, hash: Hash, msg: Message, script: Script, frame: seq<nat>)
    requires Keeps(before, mach.codeMap) && BelowAvailable(before, setup, msg.isStatic, RunsCode(hash, script))
    ensures
      var ran := Execute(setup, mach, hash, msg, script, frame);
      && !Refused(ran.status) && Keeps(before, ran.mach.codeMap)
      && NoneRefused(ran.trace) && Parented(ran.trace)
    decreases script, 2
  {
    var wanted := Code(hash, O.Mode(setup.rev, msg.isStatic));
    var found := FindCode(mach.codeMap, setup.hitThreshold, wanted, script.compiles);
    FindCodeKeeps(before, mach.codeMap, setup.hitThreshold, wanted, script.compiles);
    var entered := Machine(Some(msg), found.codeMap, mach.returnBuffer);
    RunNotRefused(before, setup, found.code.mode, entered, msg, script, 0, msg.gas, NOTHING, frame);
    ParentedExactly(setup, mach, hash, msg, script, frame);
  }

  lemma {:induction false} RunNotRefused(
      before: CodeMap, setup: Setup, mode: O.Mode, mach: Machine, msg: Message, script: Script, k: nat, gas: nat,
      cell: Cell, frame: seq<nat>)
    requires mach.currentMsg == Some(msg) && Keeps(before, mach.codeMap)
    requires AllAvailable(before, setup, msg.isStatic, script)
    ensures
      var ran := RunFrom(setup, mode, mach, msg, script, k, gas, cell, frame);
      Keeps(before, ran.mach.codeMap) && NoneRefused(ran.trace)
    decreases script, 1, |script.steps| - k
  {
    if k < |script.steps| {
      var p := TakeStep(setup, mode, mach, msg, script.steps[k], gas, cell, frame, k);
      StepNotRefused(before, setup, mode, mach, msg, script.steps[k], gas, cell, frame, k);
      if p.Goes? {
        RunNotRefused(before, setup, mode, p.mach, msg, script, k + 1, p.gas, p.cell, frame);
      }
    }
  }

  lemma {:induction false} StepNotRefused(
      before: CodeMap, setup: Setup, mode: O.Mode, mach: Machine, msg: Message, step: Step, gas: nat, cell: Cell,
      frame: seq<nat>, k: nat)
    requires mach.currentMsg == Some(msg) && Keeps(before, mach.codeMap)
    requires step.Messages? && step.reply.RunsCode? ==>
      BelowAvailable(before, setup, msg.isStatic || step.inst.StaticCall?, step.reply)
    ensures
      var p := TakeStep(setup, mode, mach, msg, step, gas, cell, frame, k);
      p.Goes? ==> p.mach.currentMsg == Some(msg) && Keeps(before, p.mach.codeMap) && NoneRefused(p.trace)
    decreases step, 4
  {
    if step.Messages? && PlanOf(mode, gas, step).Some? {
      CallNotRefused(before, setup, mach, msg, step, PlanOf(mode, gas, step).value.given, frame, k);
    }
  }

  lemma {:induction false} CallNotRefused(
      before: CodeMap, setup: Setup, mach: Machine, running: Message, step: Step, gas: nat, frame: seq<nat>, k: nat)
    requires mach.currentMsg == Some(running) && Keeps(before, mach.codeMap) && step.Messages?
    requires step.reply.RunsCode? ==>
      BelowAvailable(before, setup, running.isStatic || step.inst.StaticCall?, step.reply)
    ensures
      var c := CallOut(setup, mach, running, step, gas, frame, k);
      c.mach.currentMsg == Some(running) && Keeps(before, c.mach.codeMap) && NoneRefused(c.trace)
    decreases step, 3
  {
    if Admitted(step.inst, running.depth, step.value, step.balance) && step.reply.RunsCode? {
      var m := Nested(running, step.inst, gas, step.address, step.value);
      NothingRefused(before, setup, mach, step.reply.hash, m, step.reply.code, frame + [k]);
    }
  }

  // ----- a call in numbers -----

  /** The host spends 100 of the 5000 given to a callee; with the depth exhausted, the call costs its base only. */
  lemma CallExample(setup: Setup, mach: Machine, msg: Message, address: nat, success: bool, frame: seq<nat>, k: nat)
    requires mach.currentMsg.Some? && Filed(mach.codeMap)
    ensures
      var step := Messages(Call, 0, 5000, 0, true, 0, address, Answers(success, 100, []));
      var p := TakeStep(setup, O.Mode(O.AION_V1, false), mach, msg.(isStatic := false), step, 10000, NOTHING, frame, k);
      p.Goes? && p.gas == if msg.depth < 1024 then 8900 else 9000
  {
    var step := Messages(Call, 0, 5000, 0, true, 0, address, Answers(success, 100, []));
    PlanExact(O.Mode(O.AION_V1, false), 10000, step);
    StepSound(setup, O.Mode(O.AION_V1, false), mach, msg.(isStatic := false), step, 10000, NOTHING, frame, k);
    CallSound(setup, mach, msg.(isStatic := false), step, 5000, frame, k);
  }

  // ----- a run that goes wrong -----

  /** A call that asks for nothing. */
  function Plainly(address: nat, reply: Reply): Step {
    Messages(Call, 0, 0, 0, true, 0, address, reply)
  }

  lemma PlainlyPlanned(mode: O.Mode, gas: nat, address: nat, reply: Reply)
    requires 1000 <= gas <= GAS_MAX
    ensures PlanOf(mode, gas, Plainly(address, reply)) == Some(Plan(gas - CallBaseCost(mode.rev), 0))
  {
  }

  /** Code that sends two messages: the host runs uncompilable code for the first and answers the second. */
  function TwoMessages(hash: Hash): Script {
    Script([Plainly(2, RunsCode(hash, Script([], Stops, false))), Plainly(3, Answers(true, 0, []))], Stops, true)
  }

  /** The second message is sent by code at some depth, but as if by a message one level further down. */
  lemma MisledRun(setup: Setup, mach: Machine, hash: Hash, msg: Message, hash': Hash, frame: seq<nat>)
    requires Filed(mach.codeMap) && 2000 <= msg.gas <= GAS_MAX && msg.depth < DEPTH_LIMIT
    requires Available(mach.codeMap, setup.hitThreshold, IdOf(Code(hash, O.Mode(setup.rev, msg.isStatic))), true)
    requires !Available(mach.codeMap, setup.hitThreshold, IdOf(Code(hash', O.Mode(setup.rev, msg.isStatic))), false)
    requires hash != hash'
    ensures
      var ran := Execute(setup, mach, hash, msg, TwoMessages(hash'), frame);
      && ran.status == Success && |ran.trace| == 2
      && ran.trace[0].Sent? && ran.trace[0].refused
      && ran.trace[1].Sent? && ran.trace[1].running == msg && ran.trace[1].m.depth == msg.depth + 2
      && Misled(ran.trace) && !Parented(ran.trace)
  {
    var script := TwoMessages(hash');
    var mode := O.Mode(setup.rev, msg.isStatic);
    var found := FindCode(mach.codeMap, setup.hitThreshold, Code(hash, mode), true);
    FindCodeExact(mach.codeMap, setup.hitThreshold, Code(hash, mode), true);
    var entered := Machine(Some(msg), found.codeMap, mach.returnBuffer);
    CodeIdInjective(hash, mode.rev, mode.staticCall, hash', mode.rev, mode.staticCall);
    var p := TakeStep(setup, mode, entered, msg, script.steps[0], msg.gas, NOTHING, frame, 0);
    FirstRefused(setup, mode, entered, msg, hash', frame);
    var q := TakeStep(setup, mode, p.mach, msg, script.steps[1], p.gas, p.cell, frame, 1);
    SecondSent(setup, mode, p.mach, msg, p.gas, p.cell, frame);
    RunTwo(setup, mode, entered, msg, script, msg.gas, NOTHING, frame, p, q);
    var ran := Execute(setup, mach, hash, msg, script, frame);
    assert ran.trace == p.trace + q.trace;
    assert AfterRefusal(ran.trace[0], ran.trace[1]);
    ParentedExactly(setup, mach, hash, msg, script, frame);
  }

  function TwoPrices(mode: O.Mode, script: Script): int
    requires |script.steps| == 2
  {
    Price(mode.rev, mode.staticCall, script.steps[0]) + Price(mode.rev, mode.staticCall, script.steps[1])
  }

  lemma {:induction false} RunTwo(
      setup: Setup, mode: O.Mode, mach: Machine, msg: Message, script: Script, gas: nat, cell: Cell, frame: seq<nat>,
      p: Progress, q: Progress)
    requires mach.currentMsg.Some? && |script.steps| == 2 && script.ending == Stops && p.Goes? && q.Goes?
    requires p == TakeStep(setup, mode, mach, msg, script.steps[0], gas, cell, frame, 0)
    requires q == TakeStep(setup, mode, p.mach, msg, script.steps[1], p.gas, p.cell, frame, 1)
    ensures RunFrom(setup, mode, mach, msg, script, 0, gas, cell, frame)
            == Ran(Success, q.gas, TwoPrices(mode, script) + p.used + q.used, [], q.mach, p.trace + q.trace)
  {
    var rest := RunFrom(setup, mode, p.mach, msg, script, 1, p.gas, p.cell, frame);
    assert RunFrom(setup, mode, q.mach, msg, script, 2, q.gas, q.cell, frame) == Ran(Success, q.gas, 0, [], q.mach, []);
    var second := Price(mode.rev, mode.staticCall, script.steps[1]);
    assert rest == Ran(Success, q.gas, second + q.used, [], q.mach, q.trace + []);
    assert q.trace + [] == q.trace;
  }

  lemma {:induction false} SecondSent(
      setup: Setup, mode: O.Mode, mach: Machine, msg: Message, gas: nat, cell: Cell, frame: seq<nat>)
    requires mach.currentMsg.Some? && 1000 <= gas <= GAS_MAX && msg.depth < DEPTH_LIMIT
    ensures
      var p := TakeStep(setup, mode, mach, msg, Plainly(3, Answers(true, 0, [])), gas, cell, frame, 1);
      && p.Goes? && p.trace == [Sent(Call, 0, Nested(mach.currentMsg.value, Call, 0, 3, 0), false, frame, msg)]
  {
    PlainlyPlanned(mode, gas, 3, Answers(true, 0, []));
  }

  lemma FirstRefused(setup: Setup, mode: O.Mode, mach: Machine, msg: Message, hash: Hash, frame: seq<nat>)
    requires mach.currentMsg == Some(msg) && 2000 <= msg.gas <= GAS_MAX && msg.depth < DEPTH_LIMIT
    requires mode == O.Mode(setup.rev, msg.isStatic)
    requires !Available(mach.codeMap, setup.hitThreshold, IdOf(Code(hash, mode)), false)
    ensures
      var p := TakeStep(setup, mode, mach, msg, TwoMessages(hash).steps[0], msg.gas, NOTHING, frame, 0);
      var m := Nested(msg, Call, 0, 2, 0);
      && p.Goes? && p.gas >= 1000 && p.gas <= GAS_MAX && p.mach.currentMsg == Some(m)
      && p.trace == [Sent(Call, 0, m, true, frame, msg)]
  {
    var reply := RunsCode(hash, Script([], Stops, false));
    PlainlyPlanned(mode, msg.gas, 2, reply);
    UnpackPacked(0, false);
    var m := Nested(msg, Call, 0, 2, 0);
    var ran := Execute(setup, mach, hash, m, Script([], Stops, false), frame + [0]);
    assert Refused(ran.status) && ran.trace == [] && ran.gas == 0;
    assert [Sent(Call, 0, m, true, frame, msg)] + ran.trace == [Sent(Call, 0, m, true, frame, msg)];
  }
}
