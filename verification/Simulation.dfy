/**
 Every step of compilation keeps the generated code and the plain machine related:
 batching of gas, lazy fetching from the global stack and the single stack check per
 block are invisible.
 */
module Simulation {
  import opened Words
  import opened Evm
  import opened Ir
  import opened Builder
  import L = LocalStacks

  // ----- gas batching -----

  lemma {:induction false} GasNeverGrows(msg: Msg, sp: nat, code: seq<Instr>, rt: Rt)
    ensures Exec(msg, sp, code, rt).Ok? ==> Exec(msg, sp, code, rt).rt.gas <= rt.gas
  {
    if code != [] {
      GasNeverGrows(msg, sp, code[..|code| - 1], rt);
    }
  }

  function Poorer(rt: Rt, d: nat): Rt
    requires d <= rt.gas
  {
    rt.(gas := rt.gas - d)
  }

  /** What follows from running code with d less gas, given the run r with the full gas. */
  function Shifted(r: Result, d: nat): Result {
    match r
    case Ok(rt) => if d <= rt.gas then Ok(Poorer(rt, d)) else Abort
    case Abort => Abort
    case Wild => Wild
  }

  lemma InstrShift(msg: Msg, sp: nat, i: Instr, rt: Rt, d: nat)
    requires !i.ReadGas? && d <= rt.gas && !ExecInstr(msg, sp, i, rt).Wild?
    ensures ExecInstr(msg, sp, i, Poorer(rt, d)) == Shifted(ExecInstr(msg, sp, i, rt), d)
  {
  }

  /**
   Code that does not read the gas counter behaves the same with d less gas, except that
   it aborts if it would have ended with less than d. A cost may therefore be charged
   before such code instead of after it.
   */
  lemma {:induction false} GasShift(msg: Msg, sp: nat, code: seq<Instr>, rt: Rt, d: nat)
    requires GasFree(code) && d <= rt.gas && !Exec(msg, sp, code, rt).Wild?
    ensures Exec(msg, sp, code, Poorer(rt, d)) == Shifted(Exec(msg, sp, code, rt), d)
  {
    if code != [] {
      var init := code[..|code| - 1];
      var last := code[|code| - 1];
      GasShift(msg, sp, init, rt, d);
      var r := Exec(msg, sp, init, rt);
      if r.Ok? {
        GasNeverGrows(msg, sp, [last], r.rt);
        assert [last][..0] == [];
        if d <= r.rt.gas {
          InstrShift(msg, sp, last, r.rt, d);
        }
      }
    }
  }

  function Start(e: Entry): Rt {
    Rt([], e.gas, e.slots, e.memory)
  }

  /** Running a block with an open check: the code before it, the payment, the code after it. */
  lemma OpenBlock(msg: Msg, bs: BState, sp: nat, rt: Rt)
    requires bs.checking
    ensures Exec(msg, sp, CodeOf(bs), rt) ==
            match Exec(msg, sp, bs.done, rt) {
              case Ok(rt') => if bs.cost <= rt'.gas then Exec(msg, sp, bs.open, Poorer(rt', bs.cost)) else Abort
              case Abort => Abort
              case Wild => Wild
            }
  {
    ExecConcat(msg, sp, bs.done + [GasCheck(bs.cost)], bs.open, rt);
    ExecSnoc(msg, sp, bs.done, GasCheck(bs.cost), rt);
  }

  /** Raising the amount of the open check is paying that much more at the end. */
  lemma CountRun(msg: Msg, s: Site, cost: nat, sp: nat, rt: Rt)
    requires ValidSite(s) && !Exec(msg, sp, CodeOf(s.bs), rt).Wild?
    ensures Exec(msg, sp, CodeOf(Count(s.bs, cost)), rt) == Shifted(Exec(msg, sp, CodeOf(s.bs), rt), cost)
  {
    var bs := s.bs;
    OpenBlock(msg, Count(bs, cost), sp, rt);
    if bs.checking {
      OpenBlock(msg, bs, sp, rt);
      var r := Exec(msg, sp, bs.done, rt);
      if r.Ok? && bs.cost <= r.rt.gas {
        var rt1 := Poorer(r.rt, bs.cost);
        if bs.cost + cost <= r.rt.gas {
          GasShift(msg, sp, bs.open, rt1, cost);
          assert Poorer(rt1, cost) == Poorer(r.rt, bs.cost + cost);
        } else {
          GasNeverGrows(msg, sp, bs.open, rt1);
        }
      }
    } else {
      assert CodeOf(bs) == bs.done;
    }
  }

  /** Counting a cost early is charging it now. */
  lemma CountSimulates(msg: Msg, s: Site, cost: nat, e: Entry, p: Plain)
    requires ValidSite(s) && ValidEntry(e) && Related(msg, s, e, p)
    ensures ValidSite(s.(bs := Count(s.bs, cost)))
    ensures Related(msg, s.(bs := Count(s.bs, cost)), e, Charged(p, cost))
  {
    if !p.Undefined? && L.Fits(s.bs.ls, e.size) {
      CountRun(msg, s, cost, e.size, Start(e));
    }
  }

  /** Ending a cost block changes nothing, also where an empty check is removed. */
  lemma CommitRun(msg: Msg, bs: BState, sp: nat, rt: Rt)
    ensures Exec(msg, sp, CodeOf(Commit(bs)), rt) == Exec(msg, sp, CodeOf(bs), rt)
  {
    if bs.checking {
      if bs.cost == 0 {
        OpenBlock(msg, bs, sp, rt);
        ExecConcat(msg, sp, bs.done, bs.open, rt);
        assert CodeOf(Commit(bs)) == bs.done + bs.open;
        var r := Exec(msg, sp, bs.done, rt);
        assert r.Ok? ==> Poorer(r.rt, 0) == r.rt;
      } else {
        assert CodeOf(Commit(bs)) == CodeOf(bs);
      }
    }
  }

  // ----- appending code -----

  lemma EmitRun(msg: Msg, bs: BState, i: Instr, sp: nat, rt: Rt)
    requires !bs.checking ==> bs.open == []
    ensures Exec(msg, sp, CodeOf(Emit(bs, i)), rt) ==
            match Exec(msg, sp, CodeOf(bs), rt) {
              case Ok(rt') => ExecInstr(msg, sp, i, rt')
              case Abort => Abort
              case Wild => Wild
            }
  {
    assert CodeOf(Emit(bs, i)) == CodeOf(bs) + [i];
    ExecSnoc(msg, sp, CodeOf(bs), i, rt);
  }

  /** Code that fetches at most one item from below the top of a stack of n items. */
  predicate IsFetch(code: seq<Instr>, n: nat) {
    code == [] || (|code| == 1 && code[0].Load? && 0 - n <= code[0].slot < 0)
  }

  /** Fetching defines the values the local stack expects. */
  lemma FetchRun(msg: Msg, bs: BState, ls: L.LStack, code: seq<Instr>, e: Entry)
    requires ValidEntry(e) && IsFetch(code, e.size) && (!bs.checking ==> bs.open == [])
    ensures
      var r := Exec(msg, e.size, CodeOf(bs), Start(e));
      r.Ok? && r.rt.slots == e.slots ==>
        Exec(msg, e.size, CodeOf(EmitFetch(bs, ls, code)), Start(e))
        == Ok(r.rt.(env := r.rt.env + L.Fetched(code, StackOf(e))))
  {
    var r := Exec(msg, e.size, CodeOf(bs), Start(e));
    if code != [] {
      EmitRun(msg, bs, code[0], e.size, Start(e));
      if r.Ok? && r.rt.slots == e.slots {
        assert L.Fetched(code, StackOf(e)) == [e.slots[e.size + code[0].slot]];
      }
    } else if r.Ok? {
      assert r.rt.env + L.Fetched(code, StackOf(e)) == r.rt.env;
    }
  }

  /** A run that has aborted stays aborted whatever is fetched later. */
  lemma FetchAbort(msg: Msg, bs: BState, ls: L.LStack, code: seq<Instr>, sp: nat, rt: Rt)
    requires |code| <= 1 && (!bs.checking ==> bs.open == [])
    requires Exec(msg, sp, CodeOf(bs), rt).Abort?
    ensures Exec(msg, sp, CodeOf(EmitFetch(bs, ls, code)), rt).Abort?
  {
    if code != [] {
      EmitRun(msg, bs, code[0], sp, rt);
    }
  }

  lemma TempsExtended(temps: seq<Val>, v: Val, env: seq<nat>, more: seq<nat>)
    requires forall k :: 0 <= k < |temps| ==> ValidVal(temps[k], |env|)
    ensures L.Values(temps + [v], env + more) == L.Values(temps, env) + [Eval(v, env + more)]
    ensures L.Values(temps, env + more) == L.Values(temps, env)
  {
    forall k | 0 <= k < |temps| ensures Eval(temps[k], env + more) == Eval(temps[k], env) {
      L.EvalExtended(temps[k], env, more);
    }
  }

  // ----- stack steps -----

  /** A look-up that fits, after a run that has not aborted. */
  lemma FetchAgrees(msg: Msg, s: Site, ls: L.LStack, v: Val, code: seq<Instr>, e: Entry, rt: Rt, p: Plain, p': Plain)
    requires ValidSite(s) && ValidEntry(e) && L.Fits(ls, e.size) && IsFetch(code, e.size)
    requires Exec(msg, e.size, CodeOf(s.bs), Start(e)) == Ok(rt) && Agree(s, e, rt, p)
    requires p'.Running? && p'.gas == p.gas && p'.memory == p.memory && p'.low == e.size - ls.depth
    requires ls.globalPops <= e.size
    requires p'.stack == L.View(ls, rt.env + L.Fetched(code, StackOf(e)), StackOf(e))
    requires p'.temps == p.temps + [Eval(v, rt.env + L.Fetched(code, StackOf(e)))]
    ensures Related(msg, Site(EmitFetch(s.bs, ls, code), s.temps + [v]), e, p')
  {
    FetchRun(msg, s.bs, ls, code, e);
    TempsExtended(s.temps, v, rt.env, L.Fetched(code, StackOf(e)));
  }

  /** A look-up that does not fit, or that follows an aborted run. */
  lemma FetchHalts(msg: Msg, s: Site, ls: L.LStack, v: Val, code: seq<Instr>, e: Entry)
    requires ValidSite(s) && ValidEntry(e) && |code| <= 1
    requires !L.Fits(ls, e.size) || Exec(msg, e.size, CodeOf(s.bs), Start(e)).Abort?
    ensures Related(msg, Site(EmitFetch(s.bs, ls, code), s.temps + [v]), e, Halted)
  {
    if L.Fits(ls, e.size) {
      FetchAbort(msg, s.bs, ls, code, e.size, Start(e));
    }
  }

  lemma GetSite(s: Site, index: nat)
    requires ValidSite(s)
    ensures ValidSite(CompileMicro(Get(index), s))
  {
    var (ls, v, code) := L.Get(s.bs.ls, index, s.bs.regs);
    L.GetStructure(s.bs.ls, index, s.bs.regs);
  }

  lemma GetSimulates(msg: Msg, s: Site, index: nat, e: Entry, p: Plain)
    requires ValidSite(s) && ValidEntry(e) && Related(msg, s, e, p)
    ensures Related(msg, CompileMicro(Get(index), s), e, PlainMicro(msg, Get(index), p))
  {
    if p.Undefined? {
      return;
    }
    var (ls, v, code) := L.Get(s.bs.ls, index, s.bs.regs);
    L.GetStructure(s.bs.ls, index, s.bs.regs);
    if p.Running? {
      L.GetDemand(s.bs.ls, index, s.bs.regs, e.size);
    }
    if p.Halted? || !L.Fits(ls, e.size) {
      FetchHalts(msg, s, ls, v, code, e);
    } else {
      GetAgrees(msg, s, index, ls, v, code, e, p);
    }
  }

  lemma GetAgrees(msg: Msg, s: Site, index: nat, ls: L.LStack, v: Val, code: seq<Instr>, e: Entry, p: Plain)
    requires ValidSite(s) && ValidEntry(e) && Related(msg, s, e, p) && p.Running?
    requires (ls, v, code) == L.Get(s.bs.ls, index, s.bs.regs) && L.Fits(ls, e.size)
    ensures Related(msg, Site(EmitFetch(s.bs, ls, code), s.temps + [v]), e, PlainMicro(msg, Get(index), p))
  {
    L.GetStructure(s.bs.ls, index, s.bs.regs);
    L.GetDemand(s.bs.ls, index, s.bs.regs, e.size);
    GetAgreesAfter(msg, s, index, ls, v, code, e, Exec(msg, e.size, CodeOf(s.bs), Start(e)).rt, p);
  }

  lemma GetAgreesAfter(
      msg: Msg, s: Site, index: nat, ls: L.LStack, v: Val, code: seq<Instr>, e: Entry, rt: Rt, p: Plain)
    requires ValidSite(s) && ValidEntry(e) && L.Fits(ls, e.size) && IsFetch(code, e.size)
    requires (ls, v, code) == L.Get(s.bs.ls, index, s.bs.regs) && ls.globalPops <= e.size
    requires Exec(msg, e.size, CodeOf(s.bs), Start(e)) == Ok(rt) && Agree(s, e, rt, p)
    ensures Related(msg, Site(EmitFetch(s.bs, ls, code), s.temps + [v]), e, PlainMicro(msg, Get(index), p))
  {
    var p' := p.(temps := p.temps + [Eval(v, rt.env + L.Fetched(code, StackOf(e)))], low := e.size - ls.depth);
    GetValue(s, index, ls, v, code, e, rt, p);
    PlainGet(msg, index, p, p');
    L.GetCorrect(s.bs.ls, index, rt.env, StackOf(e));
    FetchAgrees(msg, s, ls, v, code, e, rt, p, p');
  }

  /** What the local stack gives for an index is what the plain machine has there. */
  lemma GetValue(s: Site, index: nat, ls: L.LStack, v: Val, code: seq<Instr>, e: Entry, rt: Rt, p: Plain)
    requires ValidSite(s) && ValidEntry(e) && L.Fits(ls, e.size) && IsFetch(code, e.size)
    requires (ls, v, code) == L.Get(s.bs.ls, index, s.bs.regs) && ls.globalPops <= e.size
    requires Agree(s, e, rt, p)
    ensures p.Running? && index < |p.stack|
    ensures Eval(v, rt.env + L.Fetched(code, StackOf(e))) == p.stack[|p.stack| - 1 - index]
    ensures e.size - ls.depth == L.Min(p.low, |p.stack| - 1 - index)
  {
    L.GetCorrect(s.bs.ls, index, rt.env, StackOf(e));
  }

  lemma PlainGet(msg: Msg, index: nat, p: Plain, p': Plain)
    requires p.Running? && index < |p.stack| && p'.Running?
    requires p' == p.(temps := p.temps + [p.stack[|p.stack| - 1 - index]], low := L.Min(p.low, |p.stack| - 1 - index))
    ensures PlainMicro(msg, Get(index), p) == p'
  {
  }

  lemma PopSite(s: Site)
    requires ValidSite(s)
    ensures ValidSite(CompileMicro(Pop, s))
  {
    L.PopDemand(s.bs.ls, s.bs.regs, 0);
  }

  lemma PopSimulates(msg: Msg, s: Site, e: Entry, p: Plain)
    requires ValidSite(s) && ValidEntry(e) && Related(msg, s, e, p)
    ensures Related(msg, CompileMicro(Pop, s), e, PlainMicro(msg, Pop, p))
  {
    if p.Undefined? {
      return;
    }
    var (ls, v, code) := L.Pop(s.bs.ls, s.bs.regs);
    L.PopDemand(s.bs.ls, s.bs.regs, e.size);
    if p.Halted? || !L.Fits(ls, e.size) {
      FetchHalts(msg, s, ls, v, code, e);
    } else {
      PopAgrees(msg, s, ls, v, code, e, p);
    }
  }

  lemma PopAgrees(msg: Msg, s: Site, ls: L.LStack, v: Val, code: seq<Instr>, e: Entry, p: Plain)
    requires ValidSite(s) && ValidEntry(e) && Related(msg, s, e, p) && p.Running?
    requires (ls, v, code) == L.Pop(s.bs.ls, s.bs.regs) && L.Fits(ls, e.size)
    ensures Related(msg, Site(EmitFetch(s.bs, ls, code), s.temps + [v]), e, PlainMicro(msg, Pop, p))
  {
    L.PopDemand(s.bs.ls, s.bs.regs, e.size);
    var rt := Exec(msg, e.size, CodeOf(s.bs), Start(e)).rt;
    L.PopCorrect(s.bs.ls, rt.env, StackOf(e));
    FetchAgrees(msg, s, ls, v, code, e, rt, p, PlainMicro(msg, Pop, p));
  }

  lemma SubstValue(v: Val, temps: seq<Val>, env: seq<nat>)
    ensures Eval(SubstVal(v, temps), env) == Eval(v, L.Values(temps, env))
  {
  }

  lemma SubstValid(v: Val, temps: seq<Val>, regs: nat)
    requires forall k :: 0 <= k < |temps| ==> ValidVal(temps[k], regs)
    ensures ValidVal(SubstVal(v, temps), regs)
  {
  }

  /** Changing only the local stack leaves the code, and so the run, as it was. */
  lemma SameRun(msg: Msg, bs: BState, ls: L.LStack, e: Entry)
    requires L.Fits(bs.ls, e.size) && L.Fits(ls, e.size)
    ensures RunSoFar(msg, bs.(ls := ls), e) == RunSoFar(msg, bs, e)
  {
    assert CodeOf(bs.(ls := ls)) == CodeOf(bs);
  }

  lemma PushSite(s: Site, v: Val)
    requires ValidSite(s)
    ensures ValidSite(CompileMicro(Push(v), s))
  {
    SubstValid(v, s.temps, s.bs.regs);
  }

  lemma PushSimulates(msg: Msg, s: Site, v: Val, e: Entry, p: Plain)
    requires ValidSite(s) && ValidEntry(e) && Related(msg, s, e, p)
    ensures Related(msg, CompileMicro(Push(v), s), e, PlainMicro(msg, Push(v), p))
  {
    if p.Undefined? || !L.Fits(s.bs.ls, e.size) {
      return;
    }
    var w := SubstVal(v, s.temps);
    var ls := L.Push(s.bs.ls, w);
    SubstValid(v, s.temps, s.bs.regs);
    if L.Fits(ls, e.size) {
      SameRun(msg, s.bs, ls, e);
    }
    var r := Exec(msg, e.size, CodeOf(s.bs), Start(e));
    if r.Ok? {
      L.PushCorrect(s.bs.ls, w, r.rt.env, StackOf(e));
      SubstValue(v, s.temps, r.rt.env);
    }
  }

  lemma SetSite(s: Site, index: nat, v: Val)
    requires ValidSite(s)
    ensures ValidSite(CompileMicro(Set(index, v), s))
  {
    SubstValid(v, s.temps, s.bs.regs);
  }

  lemma SetSimulates(msg: Msg, s: Site, index: nat, v: Val, e: Entry, p: Plain)
    requires ValidSite(s) && ValidEntry(e) && Related(msg, s, e, p)
    ensures Related(msg, CompileMicro(Set(index, v), s), e, PlainMicro(msg, Set(index, v), p))
  {
    if p.Undefined? || PlainMicro(msg, Set(index, v), p).Undefined? {
      return;
    }
    var w := SubstVal(v, s.temps);
    var ls := L.Set(s.bs.ls, index, w);
    if L.Fits(s.bs.ls, e.size) {
      SameRun(msg, s.bs, ls, e);
      var r := Exec(msg, e.size, CodeOf(s.bs), Start(e));
      if r.Ok? {
        SubstValid(v, s.temps, s.bs.regs);
        L.SetCorrect(s.bs.ls, index, w, r.rt.env, StackOf(e));
        SubstValue(v, s.temps, r.rt.env);
      }
    }
  }

  // ----- other steps -----

  lemma DoSite(s: Site, i: Instr)
    requires ValidSite(s) && IsPlain(i)
    ensures ValidSite(CompileMicro(Do(i), s))
  {
  }

  /** An instruction over substituted values does what the original does over the temporaries. */
  lemma SubstExec(msg: Msg, sp: nat, i: Instr, temps: seq<Val>, rt: Rt)
    requires IsPlain(i)
    ensures
      var r := ExecInstr(msg, sp, Subst(i, temps), rt);
      var q := ExecInstr(msg, 0, i, Rt(L.Values(temps, rt.env), rt.gas, [], rt.memory));
      match r {
        case Ok(rt') =>
          && q.Ok? && q.rt.gas == rt'.gas && q.rt.memory == rt'.memory && rt'.slots == rt.slots
          && if ProducesValue(i)
             then |rt'.env| == |rt.env| + 1 && rt'.env[..|rt.env|] == rt.env
                  && q.rt.env == L.Values(temps, rt.env) + [rt'.env[|rt.env|]]
             else rt'.env == rt.env && q.rt.env == L.Values(temps, rt.env)
        case Abort => q.Abort?
        case Wild => q.Wild?
      }
  {
    forall v: Val ensures Eval(SubstVal(v, temps), rt.env) == Eval(v, L.Values(temps, rt.env)) {
      SubstValue(v, temps, rt.env);
    }
  }

  /** Appending an instruction that defines a value, or none, after a run that has not aborted. */
  lemma EmitAgrees(msg: Msg, s: Site, j: Instr, temps: seq<Val>, e: Entry, rt: Rt, more: seq<nat>, p: Plain, p': Plain)
    requires ValidSite(s) && ValidEntry(e) && L.Fits(s.bs.ls, e.size) && Agree(s, e, rt, p)
    requires Exec(msg, e.size, CodeOf(s.bs), Start(e)) == Ok(rt)
    requires more == [] ==> !ProducesValue(j) && temps == s.temps
    requires |more| <= 1
    requires |more| == 1 ==> ProducesValue(j) && temps == s.temps + [Reg(s.bs.regs)]
    requires p'.Running? && p'.stack == p.stack && p'.low == p.low && p'.temps == p.temps + more
    requires ExecInstr(msg, e.size, j, rt) == Ok(Rt(rt.env + more, p'.gas, rt.slots, p'.memory))
    ensures Related(msg, Site(Emit(s.bs, j), temps), e, p')
  {
    EmitRun(msg, s.bs, j, e.size, Start(e));
    L.ViewExtended(s.bs.ls, rt.env, more, StackOf(e));
    TempsExtended(s.temps, Reg(s.bs.regs), rt.env, more);
  }

  lemma EmitHalts(msg: Msg, s: Site, j: Instr, temps: seq<Val>, e: Entry)
    requires ValidSite(s) && ValidEntry(e)
    requires var r := RunSoFar(msg, s.bs, e);
             r.Abort? || (r.Ok? && ExecInstr(msg, e.size, j, r.rt).Abort?)
    ensures Related(msg, Site(Emit(s.bs, j), temps), e, Halted)
  {
    EmitRun(msg, s.bs, j, e.size, Start(e));
  }

  lemma DoSimulates(msg: Msg, s: Site, i: Instr, e: Entry, p: Plain)
    requires ValidSite(s) && ValidEntry(e) && Related(msg, s, e, p) && IsPlain(i)
    ensures Related(msg, CompileMicro(Do(i), s), e, PlainMicro(msg, Do(i), p))
  {
    if p.Undefined? {
      return;
    }
    var j := Subst(i, s.temps);
    var temps := if ProducesValue(i) then s.temps + [Reg(s.bs.regs)] else s.temps;
    if p.Halted? {
      EmitHalts(msg, s, j, temps, e);
    } else {
      var rt := RunSoFar(msg, s.bs, e).rt;
      SubstExec(msg, e.size, i, s.temps, rt);
      match ExecInstr(msg, e.size, j, rt)
      case Abort => EmitHalts(msg, s, j, temps, e);
      case Wild =>
      case Ok(_) => DoAgrees(msg, s, i, j, temps, e, rt, p);
    }
  }

  lemma DoAgrees(msg: Msg, s: Site, i: Instr, j: Instr, temps: seq<Val>, e: Entry, rt: Rt, p: Plain)
    requires ValidSite(s) && ValidEntry(e) && Related(msg, s, e, p) && IsPlain(i) && p.Running?
    requires RunSoFar(msg, s.bs, e) == Ok(rt) && j == Subst(i, s.temps) && ExecInstr(msg, e.size, j, rt).Ok?
    requires temps == if ProducesValue(i) then s.temps + [Reg(s.bs.regs)] else s.temps
    ensures Related(msg, Site(Emit(s.bs, j), temps), e, PlainMicro(msg, Do(i), p))
  {
    var more := DoneAlike(msg, s, i, j, e, rt, p);
    EmitAgrees(msg, s, j, temps, e, rt, more, p, PlainMicro(msg, Do(i), p));
  }

  /** The instruction and its plain form define the same value, if any, and do the same to gas and memory. */
  lemma DoneAlike(msg: Msg, s: Site, i: Instr, j: Instr, e: Entry, rt: Rt, p: Plain) returns (more: seq<nat>)
    requires ValidSite(s) && ValidEntry(e) && L.Fits(s.bs.ls, e.size) && Agree(s, e, rt, p) && IsPlain(i)
    requires j == Subst(i, s.temps) && ExecInstr(msg, e.size, j, rt).Ok?
    ensures |more| == (if ProducesValue(i) then 1 else 0) && (ProducesValue(j) <==> ProducesValue(i))
    ensures
      var p' := PlainMicro(msg, Do(i), p);
      && p'.Running? && p'.stack == p.stack && p'.low == p.low && p'.temps == p.temps + more
      && ExecInstr(msg, e.size, j, rt) == Ok(Rt(rt.env + more, p'.gas, rt.slots, p'.memory))
  {
    SubstExec(msg, e.size, i, s.temps, rt);
    var rt' := ExecInstr(msg, e.size, j, rt).rt;
    more := rt'.env[|rt.env|..];
    assert rt'.env == rt.env + more;
  }

  lemma ObserveSite(s: Site)
    requires ValidSite(s)
    ensures ValidSite(CompileMicro(Observe, s))
  {
  }

  /** After a commit the gas counter holds exactly what the plain machine has left. */
  lemma ObserveSimulates(msg: Msg, s: Site, e: Entry, p: Plain)
    requires ValidSite(s) && ValidEntry(e) && Related(msg, s, e, p)
    ensures Related(msg, CompileMicro(Observe, s), e, PlainMicro(msg, Observe, p))
  {
    if p.Undefined? {
      return;
    }
    var s' := s.(bs := Commit(s.bs));
    CommitRun(msg, s.bs, e.size, Start(e));
    var temps := s.temps + [Reg(s'.bs.regs)];
    if p.Halted? {
      EmitHalts(msg, s', ReadGas, temps, e);
    } else {
      var rt := RunSoFar(msg, s.bs, e).rt;
      EmitAgrees(msg, s', ReadGas, temps, e, rt, [rt.gas], p, PlainMicro(msg, Observe, p));
    }
  }

  // ----- any sequence of steps -----

  predicate AllPlain(ms: seq<Micro>) {
    forall k :: 0 <= k < |ms| ==> ms[k].Do? ==> IsPlain(ms[k].i)
  }

  lemma MicroSite(m: Micro, s: Site)
    requires ValidSite(s) && (m.Do? ==> IsPlain(m.i))
    ensures ValidSite(CompileMicro(m, s))
  {
    match m
    case Get(index) => GetSite(s, index);
    case Set(index, v) => SetSite(s, index, v);
    case Pop => PopSite(s);
    case Push(v) => PushSite(s, v);
    case Do(i) => DoSite(s, i);
    case Observe => ObserveSite(s);
  }

  lemma MicroSimulates(msg: Msg, m: Micro, s: Site, e: Entry, p: Plain)
    requires ValidSite(s) && ValidEntry(e) && Related(msg, s, e, p) && (m.Do? ==> IsPlain(m.i))
    ensures Related(msg, CompileMicro(m, s), e, PlainMicro(msg, m, p))
  {
    match m
    case Get(index) => GetSimulates(msg, s, index, e, p);
    case Set(index, v) => SetSimulates(msg, s, index, v, e, p);
    case Pop => PopSimulates(msg, s, e, p);
    case Push(v) => PushSimulates(msg, s, v, e, p);
    case Do(i) => DoSimulates(msg, s, i, e, p);
    case Observe => ObserveSimulates(msg, s, e, p);
  }

  lemma {:induction false} MicrosSite(ms: seq<Micro>, s: Site)
    requires ValidSite(s) && AllPlain(ms)
    ensures ValidSite(CompileMicros(ms, s))
    decreases |ms|
  {
    if ms != [] {
      MicroSite(ms[0], s);
      MicrosSite(ms[1..], CompileMicro(ms[0], s));
    }
  }

  /**
   The main simulation: for every sequence of stack, arithmetic, memory and gas steps and
   every state on entry, the block compiled from it aborts exactly when the plain machine
   halts, and otherwise ends in the state the plain machine is in.
   */
  lemma {:induction false} MicrosSimulate(msg: Msg, ms: seq<Micro>, s: Site, e: Entry, p: Plain)
    requires ValidSite(s) && ValidEntry(e) && Related(msg, s, e, p) && AllPlain(ms)
    ensures Related(msg, CompileMicros(ms, s), e, PlainMicros(msg, ms, p))
    decreases |ms|
  {
    if ms != [] {
      MicroSite(ms[0], s);
      MicroSimulates(msg, ms[0], s, e, p);
      MicrosSimulate(msg, ms[1..], CompileMicro(ms[0], s), e, PlainMicro(msg, ms[0], p));
    }
  }
}
