/**
 Assembled code does what its items mean: a run of the items on the assembly machine,
 with labels where the assembler puts them and instructions as the virtual machine
 executes them, is a run of the bytecode.
 */
module AsmRuns {
  import opened Words
  import O = Opcodes
  import E = Evm
  import I = Items
  import A = AsmMachine
  import L = Layout
  import Assembler
  import Instructions
  import Positions

  // ----- the virtual machine as an interpretation of items -----

  /** Instructions whose effect depends on nothing but their operands, memory and the message. */
  predicate Executable(op: O.Op) {
    op.Alu? || op.MLoad? || op.MStore? || op.MStore8? || op.CallDataLoad? || op.CallDataSize? || op.CallDataCopy?
    || op.MessageField?
  }

  /** What an instruction does to its operands, lowest first, and to memory. */
  function ExecOp(msg: E.Msg, b: Byte, args: seq<Word>, memory: seq<Byte>): Option<(seq<Word>, seq<Byte>)> {
    var op := O.Decode(msg.mode, b);
    if !Executable(op) || |args| != E.Pops(op) then None
    else Some(E.Effect(msg, 0, op, E.Vm(args, 0, memory), 0))
  }

  /** An interpretation that agrees with assembled code: labels, values of references, and instructions. */
  ghost predicate Realised(itp: A.Interp<seq<Byte>>, msg: E.Msg, p: L.Program, vals: seq<nat>)
    requires L.Valid(p) && |vals| == |p.items|
  {
    Executes(itp, msg) && AllRealised(itp, p, vals)
  }

  ghost predicate Executes(itp: A.Interp<seq<Byte>>, msg: E.Msg) {
    forall b: Byte, args, memory :: itp.exec(b, args, memory) == ExecOp(msg, b, args, memory)
  }

  ghost predicate AllRealised(itp: A.Interp<seq<Byte>>, p: L.Program, vals: seq<nat>)
    requires L.Valid(p) && |vals| == |p.items|
  {
    forall i :: 0 <= i < |p.items| ==> ItemRealised(itp, p, vals, i)
  }

  predicate ItemRealised(itp: A.Interp<seq<Byte>>, p: L.Program, vals: seq<nat>, i: nat)
    requires L.Valid(p) && |vals| == |p.items| && i < |p.items|
  {
    var item := p.items[i];
    && (item.Tag? ==> itp.address(item.tag) == L.Start(p, i))
    && (item.PushTag? ==> itp.address(item.tag) == L.Reading(p, vals, i).data)
    && (!item.Tag? && !item.Operation? && !item.PushTag? && !item.Push? ==>
          itp.value(item) == L.Reading(p, vals, i).data)
  }

  /** Items are followed by a STOP or by the end of the code. */
  predicate Terminated(code: seq<Byte>, p: L.Program)
    requires L.Valid(p)
  {
    var n := L.Start(p, |p.items|);
    n == |code| || (n < |code| && code[n] == O.STOP)
  }

  /** A message that carries the code of some items. */
  ghost predicate Carries(msg: E.Msg, p: L.Program, vals: seq<nat>)
    requires L.Valid(p) && |vals| == |p.items|
  {
    L.Code(p, vals) <= msg.code && Terminated(msg.code, p) && p.b <= 4 && p.d <= 4
  }

  // ----- one instruction of the virtual machine -----

  /** From one position to another at a cost of c, or an exceptional halt if there is not enough gas. */
  predicate Advances(
      msg: E.Msg, pc: nat, s: seq<Word>, m: seq<Byte>, gas: nat, pc': nat, s': seq<Word>, m': seq<Byte>, c: nat)
  {
    E.Run(msg, pc, E.Vm(s, gas, m)) == if gas < c then E.Exceptional else E.Run(msg, pc', E.Vm(s', gas - c, m'))
  }

  /** The same cost whatever the gas. */
  ghost predicate Leads(
      msg: E.Msg, pc: nat, s: seq<Word>, m: seq<Byte>, pc': nat, s': seq<Word>, m': seq<Byte>, c: nat)
  {
    forall gas: nat :: Advances(msg, pc, s, m, gas, pc', s', m', c)
  }

  lemma {:induction false} AdvancesTwice(
      msg: E.Msg, pc: nat, s: seq<Word>, m: seq<Byte>, gas: nat, pc': nat, s': seq<Word>, m': seq<Byte>, c: nat,
      pc'': nat, s'': seq<Word>, m'': seq<Byte>, c': nat)
    requires Advances(msg, pc, s, m, gas, pc', s', m', c)
    requires gas >= c ==> Advances(msg, pc', s', m', gas - c, pc'', s'', m'', c')
    ensures Advances(msg, pc, s, m, gas, pc'', s'', m'', c + c')
  {
    assert gas >= c ==> gas - c - c' == gas - (c + c');
  }

  lemma {:induction false} LeadsWith(
      msg: E.Msg, pc: nat, s: seq<Word>, m: seq<Byte>, pc': nat, s': seq<Word>, m': seq<Byte>, c: nat, gas: nat)
    requires Leads(msg, pc, s, m, pc', s', m', c)
    ensures Advances(msg, pc, s, m, gas, pc', s', m', c)
  {
  }

  lemma {:induction false} LeadsTwice(
      msg: E.Msg, pc: nat, s: seq<Word>, m: seq<Byte>, pc': nat, s': seq<Word>, m': seq<Byte>, c: nat,
      pc'': nat, s'': seq<Word>, m'': seq<Byte>, c': nat)
    requires Leads(msg, pc, s, m, pc', s', m', c) && Leads(msg, pc', s', m', pc'', s'', m'', c')
    ensures Leads(msg, pc, s, m, pc'', s'', m'', c + c')
  {
    var total := c + c';
    forall gas: nat ensures Advances(msg, pc, s, m, gas, pc'', s'', m'', total) {
      LeadsWith(msg, pc, s, m, pc', s', m', c, gas);
      if gas >= c {
        LeadsWith(msg, pc', s', m', pc'', s'', m'', c', gas - c);
      }
      AdvancesTwice(msg, pc, s, m, gas, pc', s', m', c, pc'', s'', m'', c');
    }
  }

  /** The cost of an instruction, which does not depend on gas. */
  function PriceOf(msg: E.Msg, op: O.Op, s: seq<Word>, m: seq<Byte>): nat {
    E.TotalCost(msg, op, E.Vm(s, 0, m))
  }

  /** An instruction other than GAS does the same whatever the gas. */
  lemma EffectGasFree(msg: E.Msg, pc: nat, op: O.Op, s: seq<Word>, m: seq<Byte>, gas: nat, g: nat)
    requires E.Pops(op) <= |s| && !op.Gas?
    ensures E.Effect(msg, pc, op, E.Vm(s, gas, m), g) == E.Effect(msg, pc, op, E.Vm(s, 0, m), 0)
  {
  }

  lemma {:induction false} StepGasFree(msg: E.Msg, pc: nat, op: O.Op, s: seq<Word>, m: seq<Byte>, gas: nat)
    requires O.IsStraight(op) && !op.Gas?
    requires E.Pops(op) <= |s| && |s| - E.Pops(op) + E.Pushes(op) <= E.STACK_LIMIT
    ensures
      var r := E.Effect(msg, pc, op, E.Vm(s, 0, m), 0);
      var c := PriceOf(msg, op, s, m);
      E.Step(msg, pc, op, E.Vm(s, gas, m)) == if gas < c then None else Some(E.Vm(r.0, gas - c, r.1))
  {
    var c := PriceOf(msg, op, s, m);
    if gas >= c {
      EffectGasFree(msg, pc, op, s, m, gas, gas - c);
      StepIs(msg, pc, op, E.Vm(s, gas, m), c, E.Effect(msg, pc, op, E.Vm(s, gas, m), gas - c));
    } else {
      assert !E.Admissible(msg, op, E.Vm(s, gas, m));
    }
  }

  lemma {:induction false} StepIs(msg: E.Msg, pc: nat, op: O.Op, vm: E.Vm, c: nat, r: (seq<Word>, seq<Byte>))
    requires O.IsStraight(op) && E.Admissible(msg, op, vm) && c == E.TotalCost(msg, op, vm)
    requires r == E.Effect(msg, pc, op, vm, vm.gas - c)
    ensures E.Step(msg, pc, op, vm) == Some(E.Vm(r.0, vm.gas - c, r.1))
  {
  }

  lemma {:induction false} RunStraight(msg: E.Msg, pc: nat, op: O.Op, vm: E.Vm)
    requires pc < |msg.code| && op == O.Decode(msg.mode, msg.code[pc]) && O.IsStraight(op)
    ensures E.Run(msg, pc, vm) ==
            match E.Step(msg, pc, op, vm) {
              case None => E.Exceptional
              case Some(vm') => E.Run(msg, E.NextPos(msg.code, pc), vm')
            }
  {
  }

  lemma {:induction false} StraightLeads(msg: E.Msg, pc: nat, op: O.Op, s: seq<Word>, m: seq<Byte>) returns (c: nat)
    requires pc < |msg.code| && op == O.Decode(msg.mode, msg.code[pc]) && O.IsStraight(op) && !op.Gas?
    requires E.Pops(op) <= |s| && |s| - E.Pops(op) + E.Pushes(op) <= E.STACK_LIMIT
    ensures
      var r := E.Effect(msg, pc, op, E.Vm(s, 0, m), 0);
      Leads(msg, pc, s, m, E.NextPos(msg.code, pc), r.0, r.1, c)
  {
    var r := E.Effect(msg, pc, op, E.Vm(s, 0, m), 0);
    c := PriceOf(msg, op, s, m);
    forall gas: nat ensures Advances(msg, pc, s, m, gas, E.NextPos(msg.code, pc), r.0, r.1, c) {
      StepGasFree(msg, pc, op, s, m, gas);
      RunStraight(msg, pc, op, E.Vm(s, gas, m));
    }
  }

  // ----- one item -----

  /** The instruction an item is assembled to, and its operand. */
  lemma {:induction false} ItemInCode(msg: E.Msg, p: L.Program, vals: seq<nat>, k: nat)
    requires L.Valid(p) && |vals| == |p.items| && Carries(msg, p, vals) && k < |p.items|
    ensures
      var pc := L.Start(p, k);
      var item := p.items[k];
      && pc < |msg.code| && msg.code[pc] == L.Opcode(item, p.b, p.d)
      && E.NextPos(msg.code, pc) == L.Start(p, k + 1)
      && E.PushData(msg.code, pc, L.Width(item, p.b, p.d)) == L.Reading(p, vals, k).data
  {
    var code := L.Code(p, vals);
    var tail := msg.code[|code|..];
    assert msg.code == code + tail;
    L.ChunkFound(p, vals, msg.code, tail, k);
    L.ReadsOne(p, vals, msg.code, tail, k);
    L.ItemReadsBack(msg.code, L.Start(p, k), p.items[k], L.TextOf(p, p.items[k]), p.b, p.d, vals[k]);
    L.AdditionalIsPushBytes(msg.code[L.Start(p, k)]);
  }

  /** The extended stack instructions exist from some revision on. */
  predicate Offered(mode: O.Mode, item: I.Item) {
    item.Operation? && (I.IsDupCode(item.op) || I.IsSwapCode(item.op)) && item.op >= 0xb0 ==> mode.rev >= O.AION_V1
  }

  lemma {:induction false} WordWidth(v: Wide)
    ensures v < TWO_128 <==> E.SignificantBytes(v) <= 16
  {
    Pow256IsPow2(16);
    Pow2At128();
    L.SignificantBytesBound(v);
    if v < TWO_128 {
      L.SignificantBytesAtMost(v, 16);
    } else if E.SignificantBytes(v) <= 16 {
      Pow256Monotone(E.SignificantBytes(v), 16);
    }
  }

  /** A push instruction pushes what its item means. */
  lemma {:induction false} PushedWords(
      itp: A.Interp<seq<Byte>>, p: L.Program, vals: seq<nat>, k: nat)
    requires L.Valid(p) && |vals| == |p.items| && k < |p.items| && ItemRealised(itp, p, vals, k) && p.b <= 4 && p.d <= 4
    requires !p.items[k].Operation? && !p.items[k].Tag?
    ensures
      var v := L.Reading(p, vals, k).data;
      A.Pushed(itp, p.items[k])
      == if L.Width(p.items[k], p.b, p.d) > 16 then E.Halves(v) else [v % TWO_128]
  {
    var item := p.items[k];
    var v := L.Reading(p, vals, k).data;
    if item.Push? {
      SplitIsHalves(item.data);
    } else if item.PushTag? {
      assert v < TWO_128 && v % TWO_128 == v;
    }
  }

  lemma {:induction false} SplitIsHalves(v: Wide)
    ensures A.SplitWords(v) == if E.SignificantBytes(v) > 16 then E.Halves(v) else [v % TWO_128]
  {
    WordWidth(v);
    if v >= TWO_128 {
      assert v / TWO_128 < TWO_128;
      assert (v / TWO_128) % TWO_128 == v / TWO_128;
    }
  }

  lemma {:induction false} PushDecodes(mode: O.Mode, item: I.Item, b: nat, d: nat)
    requires L.Encodable(item, b, d) && !item.Operation? && !item.Tag?
    ensures O.Decode(mode, L.Opcode(item, b, d)) == O.Push(L.Width(item, b, d))
  {
  }

  lemma {:induction false} NoGrowth(msg: E.Msg, m: seq<Byte>)
    ensures E.Expand(m, 0, 0) == m && E.ExpandCost(msg.mode.rev, m, 0, 0) == 0
  {
  }

  /** The instruction an item is assembled to. */
  function OpOf(msg: E.Msg, p: L.Program, k: nat): O.Op
    requires L.Valid(p) && k < |p.items|
  {
    O.Decode(msg.mode, L.Opcode(p.items[k], p.b, p.d))
  }

  lemma {:induction false} PushLeads(
      itp: A.Interp<seq<Byte>>, msg: E.Msg, p: L.Program, vals: seq<nat>, k: nat, s: seq<Word>, m: seq<Byte>)
      returns (c: nat)
    requires L.Valid(p) && |vals| == |p.items| && Carries(msg, p, vals) && Realised(itp, msg, p, vals)
    requires k < |p.items| && !p.items[k].Operation? && !p.items[k].Tag?
    requires |s + A.Pushed(itp, p.items[k])| <= E.STACK_LIMIT
    ensures Leads(msg, L.Start(p, k), s, m, L.Start(p, k + 1), s + A.Pushed(itp, p.items[k]), m, c)
  {
    var pc := L.Start(p, k);
    var n := L.Width(p.items[k], p.b, p.d);
    ItemInCode(msg, p, vals, k);
    PushDecodes(msg.mode, p.items[k], p.b, p.d);
    PushedWords(itp, p, vals, k);
    c := StraightLeads(msg, pc, O.Push(n), s, m);
    PushEffect(msg, pc, n, s, m);
  }

  lemma {:induction false} PushEffect(msg: E.Msg, pc: nat, n: nat, s: seq<Word>, m: seq<Byte>)
    ensures
      var v := E.PushData(msg.code, pc, n);
      E.Effect(msg, pc, O.Push(n), E.Vm(s, 0, m), 0)
      == (s + (if n > 16 then E.Halves(v) else [v % TWO_128]), m)
  {
    NoGrowth(msg, m);
    assert s[..|s|] == s;
  }

  /** The effect of an instruction on the operands alone is its effect on the whole stack. */
  lemma {:induction false} EffectOnOperands(msg: E.Msg, pc: nat, op: O.Op, s: seq<Word>, m: seq<Byte>)
    requires Executable(op) && E.Pops(op) <= |s|
    ensures
      var n := |s| - E.Pops(op);
      var r := E.Effect(msg, 0, op, E.Vm(s[n..], 0, m), 0);
      E.Effect(msg, pc, op, E.Vm(s, 0, m), 0) == (s[..n] + r.0, r.1)
  {
    var n := |s| - E.Pops(op);
    var args := s[n..];
    assert forall i: nat :: i < E.Pops(op) ==> E.Top(args, i) == E.Top(s, i);
    assert args[..0] == [];
    if op.Alu? {
      AluOnOperands(op.alu, E.Top(s, 0), E.Top(s, 1), E.Top(s, 2), E.Top(args, 1), E.Top(args, 2));
      var v := E.AluResult(op.alu, E.Top(s, 0), E.Top(s, 1), E.Top(s, 2));
      assert args[..0] + [v] == [v];
    } else {
      OtherOnOperands(msg, pc, op, s, args, n, m);
    }
  }

  lemma {:induction false} OtherOnOperands(
      msg: E.Msg, pc: nat, op: O.Op, s: seq<Word>, args: seq<Word>, n: nat, m: seq<Byte>)
    requires Executable(op) && !op.Alu? && E.Pops(op) <= |s| && n == |s| - E.Pops(op) && args == s[n..]
    requires forall i: nat :: i < E.Pops(op) ==> E.Top(args, i) == E.Top(s, i)
    ensures
      var r := E.Effect(msg, 0, op, E.Vm(args, 0, m), 0);
      E.Effect(msg, pc, op, E.Vm(s, 0, m), 0) == (s[..n] + r.0, r.1)
  {
    assert E.MemoryRange(op, args) == E.MemoryRange(op, s);
    var got := E.Effect(msg, pc, op, E.Vm(s, 0, m), 0);
    var r := E.Effect(msg, 0, op, E.Vm(args, 0, m), 0);
    assert args[..0] == [];
    assert got.1 == r.1;
    assert got.0 == s[..n] + r.0;
  }

  /** Operators ignore what they do not take. */
  lemma {:induction false} AluOnOperands(alu: O.AluOp, a: Word, b: Word, c: Word, b': Word, c': Word)
    requires E.AluArity(alu) >= 2 ==> b == b'
    requires E.AluArity(alu) >= 3 ==> c == c'
    ensures E.AluResult(alu, a, b, c) == E.AluResult(alu, a, b', c')
  {
  }

  /** An operation that succeeds is an instruction of the virtual machine, on the operands it has there. */
  lemma {:induction false} ApplyIsEffect(
      itp: A.Interp<seq<Byte>>, msg: E.Msg, p: L.Program, vals: seq<nat>, pc: nat, b: Byte, s: seq<Word>, m: seq<Byte>)
    requires L.Valid(p) && |vals| == |p.items| && Realised(itp, msg, p, vals) && A.Apply(itp, b, s, m).Some?
    ensures
      var op := O.Decode(msg.mode, b);
      && Executable(op) && E.Pops(op) <= |s| && |s| - E.Pops(op) + E.Pushes(op) <= E.STACK_LIMIT
      && A.Apply(itp, b, s, m).value == E.Effect(msg, pc, op, E.Vm(s, 0, m), 0)
  {
    var op := O.Decode(msg.mode, b);
    var n := |s| - I.InfoOf(b).args;
    ApplySplits(itp, b, s, m, n);
    assert itp.exec(b, s[n..], m) == ExecOp(msg, b, s[n..], m);
    EffectOnOperands(msg, pc, op, s, m);
    Instructions.EffectSizes(msg, 0, op, E.Vm(s[n..], 0, m), 0);
  }

  lemma {:induction false} ApplySplits(itp: A.Interp<seq<Byte>>, b: Byte, s: seq<Word>, m: seq<Byte>, n: int)
    requires A.Apply(itp, b, s, m).Some? && n == |s| - I.InfoOf(b).args
    ensures 0 <= n <= |s| && itp.exec(b, s[n..], m).Some?
    ensures
      var r := itp.exec(b, s[n..], m).value;
      |s[..n] + r.0| <= E.STACK_LIMIT && A.Apply(itp, b, s, m).value == (s[..n] + r.0, r.1)
  {
  }

  /** An item whose effect is that of the instruction it is assembled to. */
  lemma {:induction false} ItemLeads(
      msg: E.Msg, p: L.Program, vals: seq<nat>, k: nat, s: seq<Word>, m: seq<Byte>, s': seq<Word>, m': seq<Byte>)
      returns (c: nat)
    requires L.Valid(p) && |vals| == |p.items| && Carries(msg, p, vals) && k < |p.items|
    requires O.IsStraight(OpOf(msg, p, k)) && !OpOf(msg, p, k).Gas? && E.Pops(OpOf(msg, p, k)) <= |s|
    requires |s| - E.Pops(OpOf(msg, p, k)) + E.Pushes(OpOf(msg, p, k)) <= E.STACK_LIMIT
    requires E.Effect(msg, L.Start(p, k), OpOf(msg, p, k), E.Vm(s, 0, m), 0) == (s', m')
    ensures Leads(msg, L.Start(p, k), s, m, L.Start(p, k + 1), s', m', c)
  {
    ItemInCode(msg, p, vals, k);
    c := StraightLeads(msg, L.Start(p, k), OpOf(msg, p, k), s, m);
  }

  lemma {:induction false} StackOpEffect(msg: E.Msg, pc: nat, op: O.Op, s: seq<Word>, m: seq<Byte>)
    requires (op.JumpDest? || op.Pop? || op.Dup? || op.Swap?) && E.Pops(op) <= |s|
    ensures
      E.Effect(msg, pc, op, E.Vm(s, 0, m), 0).1 == m &&
      E.Effect(msg, pc, op, E.Vm(s, 0, m), 0).0
      == match op {
           case Pop => s[..|s| - 1]
           case Dup(i) => s + [E.Top(s, i)]
           case Swap(i) => E.SwapWithTop(s, i)
           case _ => s
         }
  {
    NoGrowth(msg, m);
    assert s[..|s|] == s;
  }

  /** Every item that does not transfer control. */
  lemma {:induction false} LocalLeads(
      itp: A.Interp<seq<Byte>>, msg: E.Msg, p: L.Program, vals: seq<nat>, k: nat, s: seq<Word>, m: seq<Byte>)
      returns (c: nat)
    requires L.Valid(p) && |vals| == |p.items| && Carries(msg, p, vals) && Realised(itp, msg, p, vals)
    requires k < |p.items| && !A.IsControl(p.items[k]) && Offered(msg.mode, p.items[k]) && |s| <= E.STACK_LIMIT
    requires A.Local(itp, p.items[k], s, m).Some?
    ensures
      var r := A.Local(itp, p.items[k], s, m).value;
      |r.0| <= E.STACK_LIMIT && Leads(msg, L.Start(p, k), s, m, L.Start(p, k + 1), r.0, r.1, c)
  {
    var r := A.Local(itp, p.items[k], s, m).value;
    if !p.items[k].Operation? && !p.items[k].Tag? {
      c := PushLeads(itp, msg, p, vals, k, s, m);
    } else {
      LocalEffect(itp, msg, p, vals, k, s, m);
      c := ItemLeads(msg, p, vals, k, s, m, r.0, r.1);
    }
  }

  lemma {:induction false} LocalEffect(
      itp: A.Interp<seq<Byte>>, msg: E.Msg, p: L.Program, vals: seq<nat>, k: nat, s: seq<Word>, m: seq<Byte>)
    requires L.Valid(p) && |vals| == |p.items| && Realised(itp, msg, p, vals)
    requires k < |p.items| && (p.items[k].Operation? || p.items[k].Tag?) && !A.IsControl(p.items[k])
    requires Offered(msg.mode, p.items[k]) && |s| <= E.STACK_LIMIT && A.Local(itp, p.items[k], s, m).Some?
    ensures
      var op := OpOf(msg, p, k);
      && O.IsStraight(op) && !op.Gas?
      && E.Pops(op) <= |s| && |s| - E.Pops(op) + E.Pushes(op) <= E.STACK_LIMIT
      && E.Effect(msg, L.Start(p, k), op, E.Vm(s, 0, m), 0) == A.Local(itp, p.items[k], s, m).value
  {
    var item := p.items[k];
    var pc := L.Start(p, k);
    if item.Tag? || item.op == I.POP || I.IsDupCode(item.op) || I.IsSwapCode(item.op) {
      StackOpDecodes(msg.mode, item, p.b, p.d);
      StackOpEffect(msg, pc, OpOf(msg, p, k), s, m);
    } else {
      ApplyIsEffect(itp, msg, p, vals, pc, item.op, s, m);
    }
  }

  lemma {:induction false} StackOpDecodes(mode: O.Mode, item: I.Item, b: nat, d: nat)
    requires L.Encodable(item, b, d) && Offered(mode, item)
    ensures
      && (item.Tag? ==> O.Decode(mode, L.Opcode(item, b, d)) == O.JumpDest)
      && (item == I.Operation(I.POP) ==> O.Decode(mode, L.Opcode(item, b, d)) == O.Pop)
      && (item.Operation? && I.IsDupCode(item.op) ==>
            O.Decode(mode, L.Opcode(item, b, d)) == O.Dup(I.DupDepth(item.op) - 1))
      && (item.Operation? && I.IsSwapCode(item.op) ==>
            O.Decode(mode, L.Opcode(item, b, d)) == O.Swap(I.SwapDepth(item.op)))
  {
  }

  // ----- transfers of control -----

  /** What a run that ends as the items do leaves, with g gas left. */
  function FinalFor(msg: E.Msg, o: A.Outcome<seq<Byte>>, g: nat): E.Outcome {
    var op := O.Decode(msg.mode, o.op);
    var (off, len) := E.MemoryRange(op, o.stack);
    var m := E.Expand(o.world, off, len);
    if op.Stop? then E.Stopped(E.Vm(o.stack, g, o.world))
    else if op.Return? && |o.stack| >= 2 then
      E.Returned(E.Vm(o.stack[..|o.stack| - 2], g, m), E.OutputOf(m, off, len))
    else if op.Revert? && |o.stack| >= 2 then
      E.Reverted(E.Vm(o.stack[..|o.stack| - 2], g, m), E.OutputOf(m, off, len))
    else E.Exceptional
  }

  /** The run costs c and then ends as the items do; with less gas it halts exceptionally. */
  predicate EndsLike(
      msg: E.Msg, pc: nat, s: seq<Word>, m: seq<Byte>, gas: nat, o: A.Outcome<seq<Byte>>, c: nat)
  {
    E.Run(msg, pc, E.Vm(s, gas, m)) == if gas < c then E.Exceptional else FinalFor(msg, o, gas - c)
  }

  ghost predicate Ends(msg: E.Msg, pc: nat, s: seq<Word>, m: seq<Byte>, o: A.Outcome<seq<Byte>>, c: nat) {
    forall gas: nat :: EndsLike(msg, pc, s, m, gas, o, c)
  }

  lemma {:induction false} EndsWith(
      msg: E.Msg, pc: nat, s: seq<Word>, m: seq<Byte>, o: A.Outcome<seq<Byte>>, c: nat, gas: nat)
    requires Ends(msg, pc, s, m, o, c)
    ensures EndsLike(msg, pc, s, m, gas, o, c)
  {
  }

  lemma {:induction false} AdvancesThenEnds(
      msg: E.Msg, pc: nat, s: seq<Word>, m: seq<Byte>, gas: nat, pc': nat, s': seq<Word>, m': seq<Byte>, c: nat,
      o: A.Outcome<seq<Byte>>, c': nat)
    requires Advances(msg, pc, s, m, gas, pc', s', m', c)
    requires gas >= c ==> EndsLike(msg, pc', s', m', gas - c, o, c')
    ensures EndsLike(msg, pc, s, m, gas, o, c + c')
  {
    assert gas >= c ==> gas - c - c' == gas - (c + c');
  }

  lemma {:induction false} LeadsThenEnds(
      msg: E.Msg, pc: nat, s: seq<Word>, m: seq<Byte>, pc': nat, s': seq<Word>, m': seq<Byte>, c: nat,
      o: A.Outcome<seq<Byte>>, c': nat)
    requires Leads(msg, pc, s, m, pc', s', m', c) && Ends(msg, pc', s', m', o, c')
    ensures Ends(msg, pc, s, m, o, c + c')
  {
    var total := c + c';
    forall gas: nat ensures EndsLike(msg, pc, s, m, gas, o, total) {
      LeadsWith(msg, pc, s, m, pc', s', m', c, gas);
      if gas >= c {
        EndsWith(msg, pc', s', m', o, c', gas - c);
      }
      AdvancesThenEnds(msg, pc, s, m, gas, pc', s', m', c, o, c');
    }
  }

  /** Ending instructions, on whatever stack they find. */
  lemma {:induction false} EndingEnds(msg: E.Msg, pc: nat, s: seq<Word>, m: seq<Byte>, o: A.Outcome<seq<Byte>>)
      returns (c: nat)
    requires pc < |msg.code| && o == A.Outcome(msg.code[pc], s, m) && |s| <= E.STACK_LIMIT
    requires A.IsEnding(o.op) && |s| >= I.InfoOf(o.op).args
    ensures Ends(msg, pc, s, m, o, c)
  {
    var op := O.Decode(msg.mode, o.op);
    c := if op.Return? || op.Revert? then PriceOf(msg, op, s, m) else 0;
    forall gas: nat ensures EndsLike(msg, pc, s, m, gas, o, c) {
      assert E.TotalCost(msg, op, E.Vm(s, gas, m)) == PriceOf(msg, op, s, m);
    }
  }

  /** Behind the last item the code stops. */
  lemma {:induction false} EndEnds(msg: E.Msg, p: L.Program, s: seq<Word>, m: seq<Byte>)
    requires L.Valid(p) && Terminated(msg.code, p)
    ensures Ends(msg, L.Start(p, |p.items|), s, m, A.Outcome(I.STOP, s, m), 0)
  {
    forall gas: nat ensures EndsLike(msg, L.Start(p, |p.items|), s, m, gas, A.Outcome(I.STOP, s, m), 0) {
    }
  }

  /** The target of a jump is a tag with that address. */
  lemma {:induction false} TargetIsTag(itp: A.Interp<seq<Byte>>, prog: seq<I.Item>, v: Word)
    requires A.Target(itp, prog, v).Some?
    ensures
      var k := A.Target(itp, prog, v).value;
      0 < k <= |prog| && A.IsTagAt(itp, prog[k - 1], v)
    decreases |prog|
  {
    if !A.IsTagAt(itp, prog[0], v) {
      TargetIsTag(itp, prog[1..], v);
    }
  }

  /** Where a jump instruction leads. */
  predicate LeadsTo(msg: E.Msg, pc: nat, op: O.Op, s: seq<Word>, pc': nat)
    requires pc < |msg.code|
  {
    if op.JumpI? && E.Top(s, 1) == 0 then pc' == E.NextPos(msg.code, pc)
    else pc' == E.Top(s, 0) && pc' in E.JumpDests(msg.code, 0)
  }

  lemma {:induction false} JumpTransfers(msg: E.Msg, pc: nat, op: O.Op, vm: E.Vm, pc': nat, c: nat)
    requires pc < |msg.code| && (op.Jump? || op.JumpI?) && LeadsTo(msg, pc, op, vm.stack, pc')
    requires E.Admissible(msg, op, vm) && c == E.TotalCost(msg, op, vm) && E.Expand(vm.memory, 0, 0) == vm.memory
    ensures E.Transfer(msg, pc, op, vm)
            == E.Continues(pc', E.Vm(vm.stack[..|vm.stack| - E.Pops(op)], vm.gas - c, vm.memory))
  {
  }

  lemma {:induction false} JumpTransits(msg: E.Msg, pc: nat, op: O.Op, vm: E.Vm)
    requires pc < |msg.code| && op == O.Decode(msg.mode, msg.code[pc]) && (op.Jump? || op.JumpI?)
    ensures E.Admissible(msg, op, vm) ==> E.Transit(msg, pc, vm) == E.Transfer(msg, pc, op, vm)
    ensures !E.Admissible(msg, op, vm) ==> E.Transit(msg, pc, vm) == E.Halts(E.Exceptional)
  {
  }

  lemma {:induction false} RunContinues(msg: E.Msg, pc: nat, vm: E.Vm, pc': nat, vm': E.Vm)
    requires E.Transit(msg, pc, vm) == E.Continues(pc', vm')
    ensures E.Run(msg, pc, vm) == E.Run(msg, pc', vm')
  {
  }

  lemma {:induction false} RunHalts(msg: E.Msg, pc: nat, vm: E.Vm, o: E.Outcome)
    requires E.Transit(msg, pc, vm) == E.Halts(o)
    ensures E.Run(msg, pc, vm) == o
  {
  }

  lemma {:induction false} JumpPrice(msg: E.Msg, op: O.Op, s: seq<Word>, m: seq<Byte>, gas: nat)
    requires (op.Jump? || op.JumpI?) && E.Pops(op) <= |s| <= E.STACK_LIMIT
    ensures E.TotalCost(msg, op, E.Vm(s, gas, m)) == O.StepCost(msg.mode.rev, op)
    ensures E.Admissible(msg, op, E.Vm(s, gas, m)) <==> O.StepCost(msg.mode.rev, op) <= gas
  {
    NoGrowth(msg, m);
  }

  lemma {:induction false} JumpAdvances(
      msg: E.Msg, pc: nat, s: seq<Word>, m: seq<Byte>, gas: nat, op: O.Op, pc': nat, c: nat)
    requires pc < |msg.code| && op == O.Decode(msg.mode, msg.code[pc]) && (op.Jump? || op.JumpI?)
    requires E.Pops(op) <= |s| <= E.STACK_LIMIT && LeadsTo(msg, pc, op, s, pc') && c == O.StepCost(msg.mode.rev, op)
    ensures Advances(msg, pc, s, m, gas, pc', s[..|s| - E.Pops(op)], m, c)
  {
    var vm := E.Vm(s, gas, m);
    NoGrowth(msg, m);
    JumpPrice(msg, op, s, m, gas);
    JumpTransits(msg, pc, op, vm);
    if c <= gas {
      JumpTransfers(msg, pc, op, vm, pc', c);
      RunContinues(msg, pc, vm, pc', E.Vm(s[..|s| - E.Pops(op)], gas - c, m));
    } else {
      RunHalts(msg, pc, vm, E.Exceptional);
    }
  }

  lemma {:induction false} JumpLeads(msg: E.Msg, pc: nat, s: seq<Word>, m: seq<Byte>, op: O.Op, pc': nat)
      returns (c: nat)
    requires pc < |msg.code| && op == O.Decode(msg.mode, msg.code[pc]) && (op.Jump? || op.JumpI?)
    requires E.Pops(op) <= |s| <= E.STACK_LIMIT && LeadsTo(msg, pc, op, s, pc')
    ensures Leads(msg, pc, s, m, pc', s[..|s| - E.Pops(op)], m, c)
  {
    c := O.StepCost(msg.mode.rev, op);
    var s' := s[..|s| - E.Pops(op)];
    forall gas: nat ensures Advances(msg, pc, s, m, gas, pc', s', m, c) {
      JumpAdvances(msg, pc, s, m, gas, op, pc', c);
    }
  }

  predicate IsJump(item: I.Item) {
    item == I.Operation(I.JUMP) || item == I.Operation(I.JUMPI)
  }

  lemma {:induction false} JumpDecodes(mode: O.Mode, item: I.Item)
    requires IsJump(item)
    ensures O.Decode(mode, item.op) == (if item.op == I.JUMP then O.Jump else O.JumpI)
    ensures E.Pops(O.Decode(mode, item.op)) == I.InfoOf(item.op).args
  {
  }

  /** Whether a jump item falls through. */
  predicate FallsThrough(item: I.Item, s: seq<Word>) {
    item == I.Operation(I.JUMPI) && E.Top(s, 1) == 0
  }

  /** Where a jump item goes on. */
  lemma {:induction false} JumpStep(
      itp: A.Interp<seq<Byte>>, prog: seq<I.Item>, k: nat, s: seq<Word>, m: seq<Byte>, st: A.State<seq<Byte>>)
    requires k < |prog| && A.IsControl(prog[k]) && A.Step(itp, prog, A.State(k, s, m)) == A.Goes(st)
    ensures IsJump(prog[k])
    ensures
      var n := I.InfoOf(prog[k].op).args;
      && n <= |s| && st.stack == s[..|s| - n] && st.world == m
      && if FallsThrough(prog[k], s) then st.pc == k + 1 else A.Target(itp, prog, E.Top(s, 0)) == Some(st.pc)
  {
  }

  /** A tag is reached by its address, and passed. */
  lemma {:induction false} TagLeads(
      itp: A.Interp<seq<Byte>>, msg: E.Msg, p: L.Program, vals: seq<nat>, q: nat, v: Word, s: seq<Word>, m: seq<Byte>)
      returns (c: nat)
    requires L.Valid(p) && |vals| == |p.items| && Carries(msg, p, vals) && AllRealised(itp, p, vals)
    requires A.Target(itp, p.items, v) == Some(q) && |s| <= E.STACK_LIMIT
    ensures q <= |p.items| && v in E.JumpDests(msg.code, 0) && Leads(msg, v, s, m, L.Start(p, q), s, m, c)
  {
    TargetIsTag(itp, p.items, v);
    var j := q - 1;
    assert ItemRealised(itp, p, vals, j) && v == L.Start(p, j);
    var tail := msg.code[|L.Code(p, vals)|..];
    assert msg.code == L.Code(p, vals) + tail;
    L.TagsAreJumpDests(p, vals, tail, j);
    StackOpDecodes(msg.mode, p.items[j], p.b, p.d);
    StackOpEffect(msg, v, O.JumpDest, s, m);
    c := ItemLeads(msg, p, vals, j, s, m, s, m);
  }

  /** The instruction of a jump item leads where its operands say. */
  lemma {:induction false} JumpItemLeads(
      msg: E.Msg, p: L.Program, vals: seq<nat>, k: nat, s: seq<Word>, m: seq<Byte>, pc': nat) returns (c: nat)
    requires L.Valid(p) && |vals| == |p.items| && Carries(msg, p, vals) && k < |p.items| && IsJump(p.items[k])
    requires I.InfoOf(p.items[k].op).args <= |s| <= E.STACK_LIMIT
    requires if FallsThrough(p.items[k], s) then pc' == L.Start(p, k + 1)
             else pc' == E.Top(s, 0) && pc' in E.JumpDests(msg.code, 0)
    ensures Leads(msg, L.Start(p, k), s, m, pc', s[..|s| - I.InfoOf(p.items[k].op).args], m, c)
  {
    ItemInCode(msg, p, vals, k);
    JumpDecodes(msg.mode, p.items[k]);
    c := JumpLeads(msg, L.Start(p, k), s, m, OpOf(msg, p, k), pc');
  }

  lemma {:induction false} JumpGoes(
      itp: A.Interp<seq<Byte>>, msg: E.Msg, p: L.Program, vals: seq<nat>, k: nat, s: seq<Word>, m: seq<Byte>, q: nat)
      returns (c: nat)
    requires L.Valid(p) && |vals| == |p.items| && Carries(msg, p, vals) && AllRealised(itp, p, vals)
    requires k < |p.items| && IsJump(p.items[k]) && I.InfoOf(p.items[k].op).args <= |s| <= E.STACK_LIMIT
    requires !FallsThrough(p.items[k], s) && A.Target(itp, p.items, E.Top(s, 0)) == Some(q)
    ensures q <= |p.items|
    ensures Leads(msg, L.Start(p, k), s, m, L.Start(p, q), s[..|s| - I.InfoOf(p.items[k].op).args], m, c)
  {
    var s' := s[..|s| - I.InfoOf(p.items[k].op).args];
    var c2 := TagLeads(itp, msg, p, vals, q, E.Top(s, 0), s', m);
    var c1 := JumpItemLeads(msg, p, vals, k, s, m, E.Top(s, 0));
    LeadsTwice(msg, L.Start(p, k), s, m, E.Top(s, 0), s', m, c1, L.Start(p, q), s', m, c2);
    c := c1 + c2;
  }

  // ----- whole runs -----

  /** One step of a run of items that goes on. */
  lemma {:induction false} StepLeads(
      itp: A.Interp<seq<Byte>>, msg: E.Msg, p: L.Program, vals: seq<nat>, k: nat, s: seq<Word>, m: seq<Byte>,
      st: A.State<seq<Byte>>) returns (c: nat)
    requires L.Valid(p) && |vals| == |p.items| && Carries(msg, p, vals) && Realised(itp, msg, p, vals)
    requires k < |p.items| && Offered(msg.mode, p.items[k])
    requires |s| <= E.STACK_LIMIT && A.Step(itp, p.items, A.State(k, s, m)) == A.Goes(st)
    ensures st.pc <= |p.items| && |st.stack| <= E.STACK_LIMIT
    ensures Leads(msg, L.Start(p, k), s, m, L.Start(p, st.pc), st.stack, st.world, c)
  {
    if !A.IsControl(p.items[k]) {
      LocalStep(itp, p.items, k, s, m, st);
      c := LocalLeads(itp, msg, p, vals, k, s, m);
    } else {
      c := JumpStepLeads(itp, msg, p, vals, k, s, m, st);
    }
  }

  lemma {:induction false} LocalStep(
      itp: A.Interp<seq<Byte>>, prog: seq<I.Item>, k: nat, s: seq<Word>, m: seq<Byte>, st: A.State<seq<Byte>>)
    requires k < |prog| && !A.IsControl(prog[k]) && A.Step(itp, prog, A.State(k, s, m)) == A.Goes(st)
    ensures A.Local(itp, prog[k], s, m).Some?
    ensures
      var r := A.Local(itp, prog[k], s, m).value;
      st == A.State(k + 1, r.0, r.1)
  {
  }

  lemma {:induction false} JumpStepLeads(
      itp: A.Interp<seq<Byte>>, msg: E.Msg, p: L.Program, vals: seq<nat>, k: nat, s: seq<Word>, m: seq<Byte>,
      st: A.State<seq<Byte>>) returns (c: nat)
    requires L.Valid(p) && |vals| == |p.items| && Carries(msg, p, vals) && AllRealised(itp, p, vals)
    requires k < |p.items| && A.IsControl(p.items[k])
    requires |s| <= E.STACK_LIMIT && A.Step(itp, p.items, A.State(k, s, m)) == A.Goes(st)
    ensures st.pc <= |p.items| && |st.stack| <= E.STACK_LIMIT
    ensures Leads(msg, L.Start(p, k), s, m, L.Start(p, st.pc), st.stack, st.world, c)
  {
    JumpStep(itp, p.items, k, s, m, st);
    c := JumpsLead(itp, msg, p, vals, k, s, m, st.pc);
  }

  lemma {:induction false} JumpsLead(
      itp: A.Interp<seq<Byte>>, msg: E.Msg, p: L.Program, vals: seq<nat>, k: nat, s: seq<Word>, m: seq<Byte>, q: nat)
      returns (c: nat)
    requires L.Valid(p) && |vals| == |p.items| && Carries(msg, p, vals) && AllRealised(itp, p, vals)
    requires k < |p.items| && IsJump(p.items[k]) && I.InfoOf(p.items[k].op).args <= |s| <= E.STACK_LIMIT
    requires if FallsThrough(p.items[k], s) then q == k + 1 else A.Target(itp, p.items, E.Top(s, 0)) == Some(q)
    ensures q <= |p.items|
    ensures Leads(msg, L.Start(p, k), s, m, L.Start(p, q), s[..|s| - I.InfoOf(p.items[k].op).args], m, c)
  {
    if FallsThrough(p.items[k], s) {
      c := JumpItemLeads(msg, p, vals, k, s, m, L.Start(p, k + 1));
    } else {
      c := JumpGoes(itp, msg, p, vals, k, s, m, q);
    }
  }

  lemma {:induction false} StepEnds(
      itp: A.Interp<seq<Byte>>, msg: E.Msg, p: L.Program, vals: seq<nat>, k: nat, s: seq<Word>, m: seq<Byte>,
      o: A.Outcome<seq<Byte>>) returns (c: nat)
    requires L.Valid(p) && |vals| == |p.items| && Carries(msg, p, vals)
    requires k <= |p.items| && |s| <= E.STACK_LIMIT && A.Step(itp, p.items, A.State(k, s, m)) == A.Ends(o)
    ensures Ends(msg, L.Start(p, k), s, m, o, c)
  {
    if k == |p.items| {
      EndEnds(msg, p, s, m);
      c := 0;
    } else {
      ItemInCode(msg, p, vals, k);
      c := EndingEnds(msg, L.Start(p, k), s, m, o);
    }
  }

  /** One step of the items is some instructions of the code. */
  ghost predicate StepAgrees(itp: A.Interp<seq<Byte>>, msg: E.Msg, p: L.Program, k: nat, s: seq<Word>, m: seq<Byte>)
    requires L.Valid(p) && k <= |p.items|
  {
    match A.Step(itp, p.items, A.State(k, s, m))
    case Sticks => true
    case Ends(o) => exists c: nat :: Ends(msg, L.Start(p, k), s, m, o, c)
    case Goes(st) =>
      && st.pc <= |p.items| && |st.stack| <= E.STACK_LIMIT
      && exists c: nat :: Leads(msg, L.Start(p, k), s, m, L.Start(p, st.pc), st.stack, st.world, c)
  }

  ghost predicate StepsAgree(itp: A.Interp<seq<Byte>>, msg: E.Msg, p: L.Program)
    requires L.Valid(p)
  {
    forall k: nat, s, m :: k <= |p.items| && |s| <= E.STACK_LIMIT ==> StepAgrees(itp, msg, p, k, s, m)
  }

  lemma {:induction false} AllStepsAgree(itp: A.Interp<seq<Byte>>, msg: E.Msg, p: L.Program, vals: seq<nat>)
    requires L.Valid(p) && |vals| == |p.items| && Carries(msg, p, vals) && Realised(itp, msg, p, vals)
    requires forall i :: 0 <= i < |p.items| ==> Offered(msg.mode, p.items[i])
    ensures StepsAgree(itp, msg, p)
  {
    forall k: nat, s, m | k <= |p.items| && |s| <= E.STACK_LIMIT ensures StepAgrees(itp, msg, p, k, s, m) {
      OneStepAgrees(itp, msg, p, vals, k, s, m);
    }
  }

  lemma {:induction false} OneStepAgrees(
      itp: A.Interp<seq<Byte>>, msg: E.Msg, p: L.Program, vals: seq<nat>, k: nat, s: seq<Word>, m: seq<Byte>)
    requires L.Valid(p) && |vals| == |p.items| && Carries(msg, p, vals) && Realised(itp, msg, p, vals)
    requires k <= |p.items| && (k < |p.items| ==> Offered(msg.mode, p.items[k])) && |s| <= E.STACK_LIMIT
    ensures StepAgrees(itp, msg, p, k, s, m)
  {
    match A.Step(itp, p.items, A.State(k, s, m))
    case Sticks =>
    case Ends(o) => var c := StepEnds(itp, msg, p, vals, k, s, m, o);
    case Goes(st) => var c := StepLeads(itp, msg, p, vals, k, s, m, st);
  }

  /** A run of the items is a run of the code, whatever the gas, at a fixed cost. */
  lemma {:induction false} ItemsRun(
      itp: A.Interp<seq<Byte>>, msg: E.Msg, p: L.Program, fuel: nat, k: nat, s: seq<Word>, m: seq<Byte>,
      o: A.Outcome<seq<Byte>>) returns (c: nat)
    requires L.Valid(p) && StepsAgree(itp, msg, p)
    requires k <= |p.items| && |s| <= E.STACK_LIMIT && A.Eval(itp, p.items, fuel, A.State(k, s, m)) == Some(o)
    ensures Ends(msg, L.Start(p, k), s, m, o, c)
    decreases fuel
  {
    assert StepAgrees(itp, msg, p, k, s, m);
    match A.Step(itp, p.items, A.State(k, s, m))
    case Ends(_) => c :| Ends(msg, L.Start(p, k), s, m, o, c);
    case Goes(st) =>
      var c1: nat :| Leads(msg, L.Start(p, k), s, m, L.Start(p, st.pc), st.stack, st.world, c1);
      var c2 := ItemsRun(itp, msg, p, fuel - 1, st.pc, st.stack, st.world, o);
      LeadsThenEnds(msg, L.Start(p, k), s, m, L.Start(p, st.pc), st.stack, st.world, c1, o, c2);
      c := c1 + c2;
  }
}
