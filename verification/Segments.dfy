/**
 The two batching optimisations on their own: a run of stack operations and charges,
 compiled with one stack check, one write-back and batched gas checks, against the same
 operations performed one by one.
 */
module Segments {
  import opened Words
  import opened Evm
  import opened Ir
  import opened Builder
  import opened Simulation
  import opened Instructions
  import opened Blocks
  import opened BlockProofs
  import opened Programs
  import L = LocalStacks

  datatype Event =
    | Static(cost: nat)    // a cost known at compile time
    | Dynamic(price: Word) // a cost computed by the code
    | ReadGasLeft          // pushes the gas left
    | PushWord(v: Word)
    | PopWord
    | DupWord(i: nat)      // copies the item i below the top
    | SwapWords(i: nat)    // exchanges the top with the item i + 1 below it

  // ----- one by one -----

  datatype Plainly = Plainly(stack: seq<nat>, gas: nat)

  function Perform(ev: Event, p: Plainly): Option<Plainly> {
    var n := |p.stack|;
    match ev
    case Static(c) => if c <= p.gas then Some(p.(gas := p.gas - c)) else None
    case Dynamic(c) => if c <= p.gas then Some(p.(gas := p.gas - c)) else None
    case ReadGasLeft => if n < STACK_LIMIT then Some(p.(stack := p.stack + [p.gas])) else None
    case PushWord(v) => if n < STACK_LIMIT then Some(p.(stack := p.stack + [v])) else None
    case PopWord => if n > 0 then Some(p.(stack := p.stack[..n - 1])) else None
    case DupWord(i) =>
      if i < n < STACK_LIMIT then Some(p.(stack := p.stack + [p.stack[n - 1 - i]])) else None
    case SwapWords(i) =>
      if i + 1 < n then Some(p.(stack := p.stack[n - 1 := p.stack[n - 2 - i]][n - 2 - i := p.stack[n - 1]]))
      else None
  }

  function PerformAll(evs: seq<Event>, p: Plainly): Option<Plainly>
    decreases |evs|
  {
    if evs == [] then Some(p)
    else match Perform(evs[0], p)
      case None => None
      case Some(p') => PerformAll(evs[1..], p')
  }

  // ----- compiled -----

  function EventMicros(ev: Event): seq<Micro> {
    match ev
    case Static(_) => []
    case Dynamic(c) => [Do(Charge(Imm(c)))]
    case ReadGasLeft => [Observe, Push(Reg(0))]
    case PushWord(v) => [Push(Imm(v))]
    case PopWord => [Pop]
    case DupWord(i) => [Get(i), Push(Reg(0))]
    case SwapWords(i) => [Get(i + 1), Get(0), Set(i + 1, Reg(1)), Set(0, Reg(0))]
  }

  function CompileEvent(ev: Event, bs: BState): BState {
    if ev.Static? then Count(bs, ev.cost) else CompileMicros(EventMicros(ev), Site(bs, [])).bs
  }

  function CompileEvents(evs: seq<Event>, bs: BState): BState
    decreases |evs|
  {
    if evs == [] then bs else CompileEvents(evs[1..], CompileEvent(evs[0], bs))
  }

  lemma EventValid(ev: Event, bs: BState)
    requires ValidSite(Site(bs, []))
    ensures ValidSite(Site(CompileEvent(ev, bs), []))
  {
    if !ev.Static? {
      assert AllPlain(EventMicros(ev));
      MicrosSite(EventMicros(ev), Site(bs, []));
    }
  }

  lemma {:induction false} EventsValid(evs: seq<Event>, bs: BState)
    requires ValidSite(Site(bs, []))
    ensures ValidSite(Site(CompileEvents(evs, bs), []))
    decreases |evs|
  {
    if evs != [] {
      EventValid(evs[0], bs);
      EventsValid(evs[1..], CompileEvent(evs[0], bs));
    }
  }

  function CompileSegmentFrom(evs: seq<Event>, start: BState): Block
    requires ValidSite(Site(start, []))
  {
    EventsValid(evs, start);
    Finish(0, CompileEvents(evs, start), FallThrough)
  }

  /** The block the events are compiled to. */
  function CompileSegment(evs: seq<Event>): Block {
    FreshSite();
    CompileSegmentFrom(evs, START)
  }

  // ----- both agree -----

  /** Charges wider than the gas counter saturate, which only goes unnoticed while gas is below the maximum. */
  predicate Exact(ev: Event, gas: nat) {
    ev.Dynamic? ==> ev.price <= GAS_MAX || gas < GAS_MAX
  }

  /** A saturated charge is paid exactly when the full one would be, unless the counter is at its maximum. */
  lemma ChargeExact(rt: Rt, cost: Word)
    requires rt.gas <= GAS_MAX
    ensures (Pay(rt, Saturate(cost)) == if cost <= rt.gas then Ok(rt.(gas := rt.gas - cost)) else Abort)
            <==> Exact(Dynamic(cost), rt.gas)
  {
  }

  /** One event on the plain machine of the simulation. */
  function PlainEvent(msg: Msg, ev: Event, p: Plain): Plain {
    if ev.Static? then Charged(p, ev.cost) else Forget(PlainMicros(msg, EventMicros(ev), p))
  }

  lemma SwapRuns(msg: Msg, i: nat, p: Plain)
    requires p.Running? && p.temps == []
    ensures
      var q := PlainEvent(msg, SwapWords(i), p);
      var n := |p.stack|;
      if i + 1 < n then
        q.Running? && q.gas == p.gas && q.memory == p.memory && q.temps == []
        && q.stack == p.stack[n - 1 := p.stack[n - 2 - i]][n - 2 - i := p.stack[n - 1]]
      else q == Halted
  {
    var ms := EventMicros(SwapWords(i));
    Micros4(msg, ms[0], ms[1], ms[2], ms[3], p);
    var n := |p.stack|;
    if i + 1 < n {
      var q := PlainMicros(msg, ms, p);
      assert q.stack == p.stack[n - 2 - i := p.stack[n - 1]][n - 1 := p.stack[n - 2 - i]];
    }
  }

  lemma EventRuns(msg: Msg, ev: Event, p: Plainly, memory: seq<Byte>, low: int)
    requires Exact(ev, p.gas)
    ensures
      var q := PlainEvent(msg, ev, Running(p.stack, p.gas, memory, [], low));
      var r := Perform(ev, p);
      if r.Some?
      then q.Running? && q.stack == r.value.stack && q.gas == r.value.gas && q.memory == memory && q.temps == []
      else q == Halted
  {
    var q := Running(p.stack, p.gas, memory, [], low);
    var ms := EventMicros(ev);
    match ev
    case Static(c) =>
    case Dynamic(c) => Micros1(msg, ms[0], q);
    case ReadGasLeft => Micros2(msg, ms[0], ms[1], q);
    case PushWord(v) => Micros1(msg, ms[0], q);
    case PopWord => Micros1(msg, ms[0], q);
    case DupWord(i) => Micros2(msg, ms[0], ms[1], q);
    case SwapWords(i) => SwapRuns(msg, i, q);
  }

  lemma EventSimulates(msg: Msg, ev: Event, bs: BState, e: Entry, p: Plain)
    requires ValidSite(Site(bs, [])) && ValidEntry(e) && Related(msg, Site(bs, []), e, p)
    ensures Related(msg, Site(CompileEvent(ev, bs), []), e, PlainEvent(msg, ev, p))
  {
    if ev.Static? {
      CountSimulates(msg, Site(bs, []), ev.cost, e, p);
    } else {
      var ms := EventMicros(ev);
      assert AllPlain(ms);
      MicrosSite(ms, Site(bs, []));
      MicrosSimulate(msg, ms, Site(bs, []), e, p);
      ForgetTemps(msg, CompileMicros(ms, Site(bs, [])), e, PlainMicros(msg, ms, p));
    }
  }

  lemma HaltedEvent(msg: Msg, ev: Event)
    ensures PlainEvent(msg, ev, Halted) == Halted
  {
    HaltedStays(msg, EventMicros(ev));
  }

  /** What the compiled segment has to do. */
  predicate Refines(r: BlockResult, e: Entry, p: Option<Plainly>) {
    match p
    case None => r == Aborts
    case Some(q) =>
      r.Falls? && ValidEntry(r.e) && StackOf(r.e) == q.stack && r.e.gas == q.gas && r.e.memory == e.memory
  }

  predicate AllExact(evs: seq<Event>, gas: nat) {
    forall k :: 0 <= k < |evs| ==> Exact(evs[k], gas)
  }

  lemma {:induction false} EventsSimulate(msg: Msg, evs: seq<Event>, bs: BState, e: Entry, p: Plain)
    requires ValidSite(Site(bs, [])) && ValidEntry(e) && Related(msg, Site(bs, []), e, p)
    requires p.Halted? || (p.Running? && p.temps == [] && AllExact(evs, p.gas) && p.memory == e.memory)
    ensures
      var r := if p.Halted? then None else PerformAll(evs, Plainly(p.stack, p.gas));
      Refines(RunBlock(msg, CompileSegmentFrom(evs, bs), e), e, r)
    decreases |evs|
  {
    if evs == [] {
      if p.Halted? {
        FinishAborts(msg, 0, Site(bs, []), FallThrough, e);
      } else {
        var env, e' := FinishRuns(msg, 0, Site(bs, []), FallThrough, e, p);
      }
    } else {
      var ev := evs[0];
      EventValid(ev, bs);
      EventSimulates(msg, ev, bs, e, p);
      if p.Halted? {
        HaltedEvent(msg, ev);
      } else {
        EventRuns(msg, ev, Plainly(p.stack, p.gas), p.memory, p.low);
      }
      var p' := PlainEvent(msg, ev, p);
      assert p'.Running? ==> AllExact(evs[1..], p'.gas);
      EventsSimulate(msg, evs[1..], CompileEvent(ev, bs), e, p');
    }
  }

  lemma FreshRelated(msg: Msg, e: Entry)
    requires ValidEntry(e)
    ensures Related(msg, Site(START, []), e, Running(StackOf(e), e.gas, e.memory, [], e.size))
  {
    FreshView(StackOf(e));
    assert CodeOf(START) == [];
    var rt := Rt([], e.gas, e.slots, e.memory);
    assert RunSoFar(msg, START, e) == Ok(rt);
    assert Agree(Site(START, []), e, rt, Running(StackOf(e), e.gas, e.memory, [], e.size));
  }

  /**
   For every list of stack operations, static and dynamic charges and gas readings, the
   compiled segment aborts exactly when some step performed on its own would, and
   otherwise leaves the same stack, slot for slot, and the same gas; every reading sees
   the gas of the stepwise meter.
   */
  lemma SegmentRefines(msg: Msg, evs: seq<Event>, e: Entry)
    requires ValidEntry(e) && AllExact(evs, e.gas)
    ensures Refines(RunBlock(msg, CompileSegment(evs), e), e, PerformAll(evs, Plainly(StackOf(e), e.gas)))
  {
    FreshSite();
    FreshRelated(msg, e);
    EventsSimulate(msg, evs, START, e, Running(StackOf(e), e.gas, e.memory, [], e.size));
  }

  // ----- the stack check alone -----

  predicate StackOnly(evs: seq<Event>) {
    forall k :: 0 <= k < |evs| ==> !evs[k].Static? && !evs[k].Dynamic?
  }

  predicate Harmless(code: seq<Instr>) {
    forall k :: 0 <= k < |code| ==> code[k].Load? || code[k].Store? || code[k].ReadGas?
  }

  lemma {:induction false} HarmlessRuns(msg: Msg, sp: nat, code: seq<Instr>, rt: Rt)
    requires Harmless(code)
    ensures !Exec(msg, sp, code, rt).Abort?
  {
    if code != [] {
      HarmlessRuns(msg, sp, code[..|code| - 1], rt);
    }
  }

  predicate Uncharged(bs: BState) {
    !bs.checking && bs.open == [] && Harmless(bs.done)
  }

  lemma EventUncharged(ev: Event, bs: BState)
    requires Uncharged(bs) && !ev.Static? && !ev.Dynamic?
    ensures Uncharged(CompileEvent(ev, bs))
  {
    MicrosUncharged(EventMicros(ev), Site(bs, []));
  }

  lemma {:induction false} MicrosUncharged(ms: seq<Micro>, s: Site)
    requires Uncharged(s.bs) && forall k :: 0 <= k < |ms| ==> !ms[k].Do?
    ensures Uncharged(CompileMicros(ms, s).bs)
    decreases |ms|
  {
    if ms != [] {
      MicrosUncharged(ms[1..], CompileMicro(ms[0], s));
    }
  }

  lemma {:induction false} EventsUncharged(evs: seq<Event>, bs: BState)
    requires Uncharged(bs) && StackOnly(evs)
    ensures Uncharged(CompileEvents(evs, bs))
    decreases |evs|
  {
    if evs != [] {
      EventUncharged(evs[0], bs);
      EventsUncharged(evs[1..], CompileEvent(evs[0], bs));
    }
  }

  lemma {:induction false} StoresHarmless(ls: L.LStack, upTo: int)
    requires 0 - ls.depth <= upTo <= ls.Size() && ls.globalPops <= ls.depth
    ensures Harmless(L.FinalStores(ls, upTo))
    decreases upTo + ls.depth
  {
    if upTo > 0 - ls.depth {
      StoresHarmless(ls, upTo - 1);
    }
  }

  /**
   The single stack check at the start of a block is exact: the recorded minimum and
   maximum admit a stack size exactly when no operation of the block, performed one by
   one, would underflow or exceed the limit.
   */
  lemma StackCheckExact(msg: Msg, evs: seq<Event>, e: Entry)
    requires ValidEntry(e) && StackOnly(evs)
    ensures
      var b := CompileSegment(evs);
      0 <= e.size + b.min && e.size + b.max <= STACK_LIMIT <==> PerformAll(evs, Plainly(StackOf(e), e.gas)).Some?
  {
    SegmentRefines(msg, evs, e);
    FreshSite();
    CheckDecides(msg, evs, START, e);
  }

  lemma CheckDecides(msg: Msg, evs: seq<Event>, bs: BState, e: Entry)
    requires ValidSite(Site(bs, [])) && Uncharged(bs) && StackOnly(evs)
    ensures
      var b := CompileSegmentFrom(evs, bs);
      0 <= e.size + b.min && e.size + b.max <= STACK_LIMIT <==> RunBlock(msg, b, e) != Aborts
  {
    EventsUncharged(evs, bs);
    EventsValid(evs, bs);
    var bs' := CompileEvents(evs, bs);
    StoresHarmless(bs'.ls, bs'.ls.Size());
    HarmlessRuns(msg, e.size, CompileSegmentFrom(evs, bs).code, Rt([], e.gas, e.slots, e.memory));
  }
}
