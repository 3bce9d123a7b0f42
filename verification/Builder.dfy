/**
 Compilation of one basic block as a transformation of a builder state: the code so far,
 the local stack, and the cost block that is still open. A cost block starts with one gas
 check whose amount is only known once the block is committed.
 */
module Builder {
  import opened Words
  import opened Evm
  import opened Ir
  import L = LocalStacks

  /**
   `done` is the code before the open gas check, `open` the code after it; without an open
   check all code is in `done`.
   */
  datatype BState = BState(
    done: seq<Instr>,
    open: seq<Instr>,
    checking: bool,
    cost: nat,
    regs: nat,
    ls: L.LStack)

  const START := BState([], [], false, 0, 0, L.EMPTY)

  /** The code with the amount counted so far filled in. */
  function CodeOf(bs: BState): seq<Instr> {
    bs.done + (if bs.checking then [GasCheck(bs.cost)] else []) + bs.open
  }

  /** Counts a fixed cost, opening a cost block if there is none. */
  function Count(bs: BState, cost: nat): BState {
    if bs.checking then bs.(cost := bs.cost + cost)
    else bs.(checking := true, cost := cost)
  }

  /** Ends the cost block; a check of nothing is removed. */
  function Commit(bs: BState): BState {
    if !bs.checking then bs
    else bs.(done := bs.done + (if bs.cost == 0 then [] else [GasCheck(bs.cost)]) + bs.open,
             open := [], checking := false, cost := 0)
  }

  function Emit(bs: BState, i: Instr): BState {
    var regs := if ProducesValue(i) then bs.regs + 1 else bs.regs;
    if bs.checking then bs.(open := bs.open + [i], regs := regs)
    else bs.(done := bs.done + [i], regs := regs)
  }

  // ----- the state a block starts from -----

  /** Global stack buffer and size, gas and memory on entry to a block. */
  datatype Entry = Entry(slots: seq<nat>, size: nat, gas: nat, memory: seq<Byte>)

  predicate ValidEntry(e: Entry) {
    |e.slots| == STACK_LIMIT && e.size <= STACK_LIMIT
  }

  function StackOf(e: Entry): (s: seq<nat>)
    requires ValidEntry(e)
    ensures |s| == e.size
  {
    e.slots[..e.size]
  }

  /** Running the block as if it ended here. */
  function RunSoFar(msg: Msg, bs: BState, e: Entry): Result {
    if L.Fits(bs.ls, e.size) then Exec(msg, e.size, CodeOf(bs), Rt([], e.gas, e.slots, e.memory))
    else Abort
  }

  // ----- the plain machine a block is compared with -----

  /**
   One instruction stream executed directly on a plain stack; `temps` are the values
   computed so far within one bytecode instruction, `low` is the lowest stack position
   looked at so far within the block.
   */
  datatype Plain =
    | Halted
    | Undefined
    | Running(stack: seq<nat>, gas: nat, memory: seq<Byte>, temps: seq<nat>, low: int)

  /** Everything but the stack, as a machine state without stack buffer. */
  function Registers(p: Plain): Rt
    requires p.Running?
  {
    Rt(p.temps, p.gas, [], p.memory)
  }

  /** The steps bytecode instructions are made of; registers denote `temps`. */
  datatype Micro =
    | Get(index: nat)          // look an item up, as a new temporary
    | Set(index: nat, v: Val)  // replace an item that has been looked up
    | Pop                      // remove the top item, as a new temporary
    | Push(v: Val)
    | Do(i: Instr)             // an instruction that does not touch the stack
    | Observe                  // commit the open costs and read the gas counter

  predicate IsPlain(i: Instr) {
    !(i.Load? || i.Store? || i.GasCheck? || i.ReadGas?)
  }

  function Charged(p: Plain, cost: nat): Plain {
    if !p.Running? then p
    else if cost <= p.gas then p.(gas := p.gas - cost)
    else Halted
  }

  function Resume(p: Plain, r: Result): Plain
    requires p.Running?
  {
    match r
    case Ok(rt) => p.(temps := rt.env, gas := rt.gas, memory := rt.memory)
    case Abort => Halted
    case Wild => Undefined
  }

  function PlainMicro(msg: Msg, m: Micro, p: Plain): Plain {
    if !p.Running? then p
    else match m
      case Get(index) =>
        var pos := |p.stack| - 1 - index;
        if pos < 0 then Halted
        else p.(temps := p.temps + [p.stack[pos]], low := L.Min(p.low, pos))
      case Set(index, v) =>
        var pos := |p.stack| - 1 - index;
        if pos < 0 || pos < p.low then Undefined
        else p.(stack := p.stack[pos := Eval(v, p.temps)])
      case Pop =>
        var pos := |p.stack| - 1;
        if pos < 0 then Halted
        else p.(stack := p.stack[..pos], temps := p.temps + [p.stack[pos]], low := L.Min(p.low, pos))
      case Push(v) =>
        if |p.stack| + 1 > STACK_LIMIT then Halted
        else p.(stack := p.stack + [Eval(v, p.temps)])
      case Do(i) =>
        if IsPlain(i) then Resume(p, ExecInstr(msg, 0, i, Registers(p))) else Undefined
      case Observe => p.(temps := p.temps + [p.gas])
  }

  function PlainMicros(msg: Msg, ms: seq<Micro>, p: Plain): Plain
    decreases ms
  {
    if ms == [] then p else PlainMicros(msg, ms[1..], PlainMicro(msg, ms[0], p))
  }

  // ----- compiling the same steps -----

  function SubstVal(v: Val, temps: seq<Val>): Val {
    match v
    case Imm(_) => v
    case Reg(i) => if i < |temps| then temps[i] else Imm(0)
  }

  function Subst(i: Instr, t: seq<Val>): Instr {
    match i
    case Bin(op, x, y) => Bin(op, SubstVal(x, t), SubstVal(y, t))
    case Select(c, x, y) => Select(SubstVal(c, t), SubstVal(x, t), SubstVal(y, t))
    case Charge(v) => Charge(SubstVal(v, t))
    case MemRequire(off, len) => MemRequire(SubstVal(off, t), SubstVal(len, t))
    case MemLoad(addr) => MemLoad(SubstVal(addr, t))
    case MemStore(addr, v) => MemStore(SubstVal(addr, t), SubstVal(v, t))
    case MemStore8(addr, v) => MemStore8(SubstVal(addr, t), SubstVal(v, t))
    case DataLoad(idx) => DataLoad(SubstVal(idx, t))
    case Copy(source, src, dest, len) => Copy(source, SubstVal(src, t), SubstVal(dest, t), SubstVal(len, t))
    case _ => i
  }

  /** Builder state together with the values of the temporaries. */
  datatype Site = Site(bs: BState, temps: seq<Val>)

  function EmitFetch(bs: BState, ls: L.LStack, code: seq<Instr>): BState {
    if code == [] then bs.(ls := ls) else Emit(bs, code[0]).(ls := ls)
  }

  function CompileMicro(m: Micro, s: Site): Site {
    match m
    case Get(index) =>
      var (ls, v, code) := L.Get(s.bs.ls, index, s.bs.regs);
      Site(EmitFetch(s.bs, ls, code), s.temps + [v])
    case Set(index, v) => s.(bs := s.bs.(ls := L.Set(s.bs.ls, index, SubstVal(v, s.temps))))
    case Pop =>
      var (ls, v, code) := L.Pop(s.bs.ls, s.bs.regs);
      Site(EmitFetch(s.bs, ls, code), s.temps + [v])
    case Push(v) => s.(bs := s.bs.(ls := L.Push(s.bs.ls, SubstVal(v, s.temps))))
    case Do(i) =>
      Site(Emit(s.bs, Subst(i, s.temps)), if ProducesValue(i) then s.temps + [Reg(s.bs.regs)] else s.temps)
    case Observe =>
      var bs := Commit(s.bs);
      Site(Emit(bs, ReadGas), s.temps + [Reg(bs.regs)])
  }

  function CompileMicros(ms: seq<Micro>, s: Site): Site
    decreases ms
  {
    if ms == [] then s else CompileMicros(ms[1..], CompileMicro(ms[0], s))
  }

  // ----- the relation between both -----

  predicate GasFree(code: seq<Instr>) {
    forall k :: 0 <= k < |code| ==> !code[k].ReadGas?
  }

  predicate ValidSite(s: Site) {
    && L.Valid(s.bs.ls, s.bs.regs)
    && GasFree(s.bs.open)
    && (!s.bs.checking ==> s.bs.open == [] && s.bs.cost == 0)
    && forall k :: 0 <= k < |s.temps| ==> ValidVal(s.temps[k], s.bs.regs)
  }

  /** A state of the generated code stands for a state of the plain machine. */
  predicate Agree(s: Site, e: Entry, rt: Rt, p: Plain)
    requires ValidEntry(e)
  {
    && p.Running?
    && |rt.env| == s.bs.regs && rt.slots == e.slots
    && rt.gas == p.gas && rt.memory == p.memory
    && s.bs.ls.globalPops <= e.size
    && p.stack == L.View(s.bs.ls, rt.env, StackOf(e))
    && p.temps == L.Values(s.temps, rt.env)
    && p.low == e.size - s.bs.ls.depth
  }

  /**
   If the block ended here, the generated code would abort exactly when the plain machine
   has halted, and otherwise stand for the plain machine's state. Nothing is claimed once
   the plain machine has left defined behaviour.
   */
  predicate Related(msg: Msg, s: Site, e: Entry, p: Plain)
    requires ValidEntry(e)
  {
    p.Undefined? ||
    match RunSoFar(msg, s.bs, e)
      case Abort => p.Halted?
      case Wild => false
      case Ok(rt) => Agree(s, e, rt, p)
  }
}
