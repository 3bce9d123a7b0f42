/**
 The parts together: items that are optimised, assembled, compiled and run do what the
 items mean.
 */
module Toolchain {
  import opened Words
  import O = Opcodes
  import E = Evm
  import I = Items
  import A = AsmMachine
  import L = Layout
  import Assembler
  import Peephole
  import Pieces
  import BlockProofs
  import Instructions
  import Scanner
  import Programs
  import opened AsmRuns

  // ----- the interpretation that assembled code stands for -----

  /** First position at or after k that holds an item, or the end. */
  function Find(items: seq<I.Item>, x: I.Item, k: nat): (i: nat)
    requires k <= |items|
    ensures k <= i <= |items| && (i < |items| ==> items[i] == x) && forall j :: k <= j < i ==> items[j] != x
    decreases |items| - k
  {
    if k == |items| || items[k] == x then k else Find(items, x, k + 1)
  }

  /** Where a tag is, or what a reference to a tag that is nowhere pushes. */
  function AddressOf(p: L.Program, vals: seq<nat>, t: nat): Word
    requires L.Valid(p) && |vals| == |p.items|
  {
    var j := Find(p.items, I.Tag(t), 0);
    var i := Find(p.items, I.PushTag(t), 0);
    if j < |p.items| then L.Start(p, j) % TWO_128
    else if i < |p.items| then L.Reading(p, vals, i).data % TWO_128
    else 0
  }

  function ValueOf(p: L.Program, vals: seq<nat>, item: I.Item): Wide
    requires L.Valid(p) && |vals| == |p.items|
  {
    var i := Find(p.items, item, 0);
    if i < |p.items| then L.Reading(p, vals, i).data % TWO_256 else 0
  }

  function Interpretation(msg: E.Msg, p: L.Program, vals: seq<nat>): A.Interp<seq<Byte>>
    requires L.Valid(p) && |vals| == |p.items|
  {
    A.Interp((b: Byte, args: seq<Word>, memory: seq<Byte>) => ExecOp(msg, b, args, memory),
             (t: nat) => AddressOf(p, vals, t),
             (item: I.Item) => ValueOf(p, vals, item))
  }

  ghost predicate UniqueTags(items: seq<I.Item>) {
    forall i, j :: 0 <= i < j < |items| && items[i].Tag? ==> items[i] != items[j]
  }

  /** The result of assembling. */
  ghost predicate IsAssembled(asm: Assembler.Assembly, p: L.Program, vals: seq<nat>, code: seq<Byte>) {
    && Assembler.WellFormed(asm) && L.Valid(p) && p.items == asm.items && |vals| == |asm.items|
    && Assembler.IsTagSize(asm, p.b) && p.d == Assembler.ReservedForData(asm, p.b)
    && Assembler.IsLinked(asm, p, vals, code) && Assembler.Resolvable(asm)
  }

  lemma {:induction false} TagReads(asm: Assembler.Assembly, p: L.Program, vals: seq<nat>, code: seq<Byte>, i: nat)
    requires IsAssembled(asm, p, vals, code) && i < |p.items| && p.items[i].PushTag?
    ensures p.b <= 4 && L.Reading(p, vals, i).data == vals[i] < Assembler.TWO_32
  {
    Assembler.SizesFit(asm, p.b);
    assert Assembler.TagLinked(p, i, vals[i]);
    DivModUnique(vals[i], 0, Pow256(p.b), vals[i]);
    Pow256Monotone(p.b, 4);
    assert Pow256(4) == Assembler.TWO_32 by {
      assert Pow256(1) == 256 && Pow256(2) == 0x1_0000 && Pow256(3) == 0x100_0000;
    }
  }

  lemma {:induction false} AddressAt(p: L.Program, vals: seq<nat>, t: nat, j: nat)
    requires L.Valid(p) && |vals| == |p.items| && UniqueTags(p.items)
    requires j < |p.items| && p.items[j] == I.Tag(t) && L.Start(p, j) < TWO_128
    ensures AddressOf(p, vals, t) == L.Start(p, j)
  {
    assert Find(p.items, I.Tag(t), 0) == j;
  }

  lemma {:induction false} AddressNowhere(p: L.Program, vals: seq<nat>, i: nat)
    requires L.Valid(p) && |vals| == |p.items| && i < |p.items| && p.items[i].PushTag?
    requires I.Tag(p.items[i].tag) !in p.items
    requires
      var k := Find(p.items, p.items[i], 0);
      k < |p.items| && L.Reading(p, vals, k).data == L.Reading(p, vals, i).data < TWO_128
    ensures AddressOf(p, vals, p.items[i].tag) == L.Reading(p, vals, i).data
  {
  }

  /** A reference to a tag pushes the tag's address. */
  lemma {:induction false} TagAddress(
      asm: Assembler.Assembly, p: L.Program, vals: seq<nat>, code: seq<Byte>, i: nat)
    requires IsAssembled(asm, p, vals, code) && UniqueTags(asm.items) && i < |p.items| && p.items[i].PushTag?
    ensures AddressOf(p, vals, p.items[i].tag) == L.Reading(p, vals, i).data
  {
    if I.Tag(p.items[i].tag) in p.items {
      PresentAddress(asm, p, vals, code, i);
    } else {
      AbsentAddress(asm, p, vals, code, i);
    }
  }

  lemma {:induction false} PresentAddress(
      asm: Assembler.Assembly, p: L.Program, vals: seq<nat>, code: seq<Byte>, i: nat)
    requires IsAssembled(asm, p, vals, code) && UniqueTags(asm.items) && i < |p.items| && p.items[i].PushTag?
    requires I.Tag(p.items[i].tag) in p.items
    ensures AddressOf(p, vals, p.items[i].tag) == L.Reading(p, vals, i).data
  {
    var j := PlacedTag(asm, p, vals, code, i);
    TagReads(asm, p, vals, code, i);
    AddressAt(p, vals, p.items[i].tag, j);
  }

  lemma {:induction false} AbsentAddress(
      asm: Assembler.Assembly, p: L.Program, vals: seq<nat>, code: seq<Byte>, i: nat)
    requires IsAssembled(asm, p, vals, code) && i < |p.items| && p.items[i].PushTag?
    requires I.Tag(p.items[i].tag) !in p.items
    ensures AddressOf(p, vals, p.items[i].tag) == L.Reading(p, vals, i).data
  {
    FirstReads(asm, p, vals, code, i);
    AddressNowhere(p, vals, i);
  }

  /** The first reference to a tag reads like any other. */
  lemma {:induction false} FirstReads(asm: Assembler.Assembly, p: L.Program, vals: seq<nat>, code: seq<Byte>, i: nat)
    requires IsAssembled(asm, p, vals, code) && i < |p.items| && p.items[i].PushTag?
    ensures
      var k := Find(p.items, p.items[i], 0);
      k < |p.items| && L.Reading(p, vals, k).data == L.Reading(p, vals, i).data < TWO_128
  {
    var k := Find(p.items, p.items[i], 0);
    TagReads(asm, p, vals, code, i);
    TagReads(asm, p, vals, code, k);
    SameValue(asm, p, vals, code, k, i);
  }

  lemma {:induction false} SameValue(
      asm: Assembler.Assembly, p: L.Program, vals: seq<nat>, code: seq<Byte>, k: nat, i: nat)
    requires IsAssembled(asm, p, vals, code) && k < |p.items| && i < |p.items| && p.items[k] == p.items[i]
    ensures vals[k] == vals[i]
  {
  }

  lemma {:induction false} PlacedTag(
      asm: Assembler.Assembly, p: L.Program, vals: seq<nat>, code: seq<Byte>, i: nat) returns (j: nat)
    requires IsAssembled(asm, p, vals, code) && i < |p.items| && p.items[i].PushTag?
    requires I.Tag(p.items[i].tag) in p.items
    ensures j < |p.items| && p.items[j] == I.Tag(p.items[i].tag) && vals[i] == L.Start(p, j)
  {
    var k :| 0 <= k < |p.items| && p.items[k] == I.Tag(p.items[i].tag);
    assert Assembler.ResolvableItem(asm, asm.items[k]);
    assert Assembler.TagLinked(p, i, vals[i]);
    j :| Assembler.Defines(p.items, p.items[i].tag, j) && vals[i] == L.Start(p, j);
  }

  lemma {:induction false} ReadingFits(p: L.Program, vals: seq<nat>, i: nat)
    requires L.Valid(p) && |vals| == |p.items| && i < |p.items|
    ensures L.Reading(p, vals, i).data < TWO_256
  {
    var item := p.items[i];
    var n := L.Width(item, p.b, p.d);
    Pow256IsPow2(32);
    Pow2At256();
    Pow256Monotone(n, 32);
    if item.PushString? {
      FromBigEndianBound(L.StringBytes(L.TextOf(p, item)));
    }
  }

  lemma {:induction false} ItemValue(
      asm: Assembler.Assembly, p: L.Program, vals: seq<nat>, code: seq<Byte>, i: nat)
    requires IsAssembled(asm, p, vals, code) && i < |p.items|
    ensures ValueOf(p, vals, p.items[i]) == L.Reading(p, vals, i).data
  {
    var k := Find(p.items, p.items[i], 0);
    ReadingFits(p, vals, i);
    SameValue(asm, p, vals, code, k, i);
    assert L.Reading(p, vals, k) == L.Reading(p, vals, i);
    SmallMod(L.Reading(p, vals, i).data);
  }

  lemma SmallMod(v: nat)
    requires v < TWO_256
    ensures v % TWO_256 == v
  {
  }

  lemma {:induction false} LowTag(asm: Assembler.Assembly, p: L.Program, vals: seq<nat>, code: seq<Byte>, i: nat)
    requires IsAssembled(asm, p, vals, code) && i < |p.items| && p.items[i].Tag?
    ensures L.Start(p, i) < Assembler.TWO_32
  {
  }

  lemma {:induction false} InterpretedItem(
      msg: E.Msg, asm: Assembler.Assembly, p: L.Program, vals: seq<nat>, i: nat)
    requires IsAssembled(asm, p, vals, msg.code) && UniqueTags(asm.items) && i < |p.items|
    ensures ItemRealised(Interpretation(msg, p, vals), p, vals, i)
  {
    var item := p.items[i];
    if item.Tag? {
      LowTag(asm, p, vals, msg.code, i);
      AddressAt(p, vals, item.tag, i);
    } else if item.PushTag? {
      TagAddress(asm, p, vals, msg.code, i);
    } else {
      ItemValue(asm, p, vals, msg.code, i);
    }
  }

  lemma {:induction false} CodeCarried(msg: E.Msg, asm: Assembler.Assembly, p: L.Program, vals: seq<nat>)
    requires IsAssembled(asm, p, vals, msg.code)
    ensures Carries(msg, p, vals)
  {
    Assembler.SizesFit(asm, p.b);
    Assembler.CodeLength(p, vals);
    if Assembler.Separator(asm) == 0 {
      assert |msg.code| == L.Start(p, |p.items|);
    }
  }

  /** Assembled code with unique tags realises this interpretation. */
  lemma {:induction false} InterpretationRealised(
      msg: E.Msg, asm: Assembler.Assembly, p: L.Program, vals: seq<nat>)
    requires IsAssembled(asm, p, vals, msg.code) && UniqueTags(asm.items)
    ensures Realised(Interpretation(msg, p, vals), msg, p, vals)
  {
    forall i | 0 <= i < |p.items| ensures ItemRealised(Interpretation(msg, p, vals), p, vals, i) {
      InterpretedItem(msg, asm, p, vals, i);
    }
  }

  /** The table of the assembler agrees with the instructions of the virtual machine. */
  lemma {:induction false} TableAgrees(mode: O.Mode, b: Byte)
    requires Executable(O.Decode(mode, b))
    ensures
      var op := O.Decode(mode, b);
      && I.InfoOf(b).args == E.Pops(op) && I.InfoOf(b).ret == E.Pushes(op)
      && (!I.InfoOf(b).sideEffects ==> !op.MLoad? && !op.MStore? && !op.MStore8? && !op.CallDataCopy?)
  {
    if b < 0x20 {
      ArithmeticAgrees(b);
    } else if b < 0x50 {
      EnvironmentAgrees(mode.rev, b);
    }
  }

  lemma {:induction false} ArithmeticAgrees(b: Byte)
    requires 0 < b < 0x20 && O.DecodeArith(b).Alu?
    ensures I.IsKnown(b) && I.ArithmeticInfo(b) == I.Pure(E.AluArity(O.DecodeArith(b).alu), 1)
  {
  }

  lemma {:induction false} EnvironmentAgrees(rev: O.Revision, b: Byte)
    requires 0x30 <= b < 0x40 && Executable(O.DecodeEnvironment(rev, b))
    ensures
      var op := O.DecodeEnvironment(rev, b);
      && I.IsKnown(b) && I.EnvironmentInfo(b).args == E.Pops(op) && I.EnvironmentInfo(b).ret == E.Pushes(op)
      && (!I.EnvironmentInfo(b).sideEffects ==> !op.CallDataCopy?)
  {
  }

  lemma {:induction false} ExecSound(msg: E.Msg, b: Byte, args: seq<Word>, m: seq<Byte>)
    requires ExecOp(msg, b, args, m).Some?
    ensures |ExecOp(msg, b, args, m).value.0| == I.InfoOf(b).ret
    ensures !I.InfoOf(b).sideEffects ==> ExecOp(msg, b, args, m).value.1 == m
  {
    var op := O.Decode(msg.mode, b);
    TableAgrees(msg.mode, b);
    Instructions.EffectSizes(msg, 0, op, E.Vm(args, 0, m), 0);
    NoGrowth(msg, m);
  }

  lemma {:induction false} AndCommutes(x: nat, y: nat)
    ensures BitAnd(x, y) == BitAnd(y, x) <= x
    decreases x
  {
    if x > 0 && y > 0 {
      AndCommutes(x / 2, y / 2);
    }
  }

  lemma {:induction false} ExecAnd(msg: E.Msg, x: Word, y: Word, m: seq<Byte>)
    ensures ExecOp(msg, I.AND, [x, y], m).Some?
    ensures ExecOp(msg, I.AND, [x, y], m).value.0 == [BitAnd(x, y)]
  {
    AndCommutes(x, y);
    assert O.Decode(msg.mode, I.AND) == O.Alu(O.And);
    assert [x, y][..0] + [BitAnd(y, x) % TWO_128] == [BitAnd(x, y)];
  }

  lemma {:induction false} InterpretationSound(msg: E.Msg, p: L.Program, vals: seq<nat>)
    requires L.Valid(p) && |vals| == |p.items|
    ensures A.Sound(Interpretation(msg, p, vals))
  {
    var itp := Interpretation(msg, p, vals);
    forall b: Byte, args, m | itp.exec(b, args, m).Some?
      ensures |itp.exec(b, args, m).value.0| == I.InfoOf(b).ret
      ensures !I.InfoOf(b).sideEffects ==> itp.exec(b, args, m).value.1 == m
    {
      ExecSound(msg, b, args, m);
    }
    forall x: Word, y: Word, m | itp.exec(I.AND, [x, y], m).Some?
      ensures itp.exec(I.AND, [x, y], m).value.0[0] == BitAnd(x, y)
    {
      ExecAnd(msg, x, y, m);
    }
  }

  // ----- labels -----

  lemma {:induction false} StartsIncrease(p: L.Program, i: nat, j: nat)
    requires L.Valid(p) && i < j <= |p.items|
    ensures L.Start(p, i) < L.Start(p, j)
    decreases j
  {
    Assembler.StartsOrdered(p, j - 1);
    if i < j - 1 {
      StartsIncrease(p, i, j - 1);
    }
  }

  lemma {:induction false} CountNone<W>(itp: A.Interp<W>, prog: seq<I.Item>, v: Word)
    requires forall i :: 0 <= i < |prog| ==> !A.IsTagAt(itp, prog[i], v)
    ensures A.TagCount(itp, prog, v) == 0
    decreases |prog|
  {
    if prog != [] {
      CountNone(itp, prog[1..], v);
    }
  }

  lemma {:induction false} CountOne<W>(itp: A.Interp<W>, prog: seq<I.Item>, v: Word)
    requires forall i, j :: 0 <= i < j < |prog| ==> !(A.IsTagAt(itp, prog[i], v) && A.IsTagAt(itp, prog[j], v))
    ensures A.TagCount(itp, prog, v) <= 1
    decreases |prog|
  {
    if prog != [] {
      if A.IsTagAt(itp, prog[0], v) {
        forall i | 0 <= i < |prog[1..]| ensures !A.IsTagAt(itp, prog[1..][i], v) {
          assert prog[1..][i] == prog[i + 1];
        }
        CountNone(itp, prog[1..], v);
      } else {
        CountOne(itp, prog[1..], v);
      }
    }
  }

  /** No two tags of assembled code share an address. */
  lemma {:induction false} TagsApart(msg: E.Msg, asm: Assembler.Assembly, p: L.Program, vals: seq<nat>, v: Word)
    requires IsAssembled(asm, p, vals, msg.code) && UniqueTags(asm.items)
    ensures A.TagCount(Interpretation(msg, p, vals), p.items, v) <= 1
  {
    var itp := Interpretation(msg, p, vals);
    forall i, j | 0 <= i < j < |p.items|
      ensures !(A.IsTagAt(itp, p.items[i], v) && A.IsTagAt(itp, p.items[j], v))
    {
      InterpretedItem(msg, asm, p, vals, i);
      InterpretedItem(msg, asm, p, vals, j);
      StartsIncrease(p, i, j);
    }
    CountOne(itp, p.items, v);
  }

  /** All addresses are below 2^32. */
  lemma {:induction false} AddressLow(asm: Assembler.Assembly, p: L.Program, vals: seq<nat>, code: seq<Byte>, t: nat)
    requires IsAssembled(asm, p, vals, code) && UniqueTags(asm.items)
    ensures AddressOf(p, vals, t) < Assembler.TWO_32
  {
    var j := Find(p.items, I.Tag(t), 0);
    var i := Find(p.items, I.PushTag(t), 0);
    if j < |p.items| {
      LowTag(asm, p, vals, code, j);
      AddressAt(p, vals, t, j);
    } else if i < |p.items| {
      TagReads(asm, p, vals, code, i);
      TagAddress(asm, p, vals, code, i);
    }
  }

  // ----- the theorems -----

  ghost predicate AllOffered(mode: O.Mode, items: seq<I.Item>) {
    forall i :: 0 <= i < |items| ==> Offered(mode, items[i])
  }

  /** For every amount of gas, executing the message ends as the items do, at a fixed cost. */
  ghost predicate ExecutesAs(msg: E.Msg, o: A.Outcome<seq<Byte>>, c: nat) {
    forall gas: nat :: E.Execute(msg, gas) == if gas < c then E.Exceptional else FinalFor(msg, o, gas - c)
  }

  /** Assembled code does what its items mean. */
  lemma {:induction false} AssembledRuns(
      msg: E.Msg, asm: Assembler.Assembly, p: L.Program, vals: seq<nat>, o: A.Outcome<seq<Byte>>) returns (c: nat)
    requires IsAssembled(asm, p, vals, msg.code) && UniqueTags(asm.items) && AllOffered(msg.mode, asm.items)
    requires A.Runs(Interpretation(msg, p, vals), asm.items, [], [], o)
    ensures ExecutesAs(msg, o, c)
  {
    var itp := Interpretation(msg, p, vals);
    InterpretationRealised(msg, asm, p, vals);
    CodeCarried(msg, asm, p, vals);
    var fuel: nat :| A.Eval(itp, asm.items, fuel, A.State(0, [], [])) == Some(o);
    AllStepsAgree(itp, msg, p, vals);
    c := ItemsRun(itp, msg, p, fuel, 0, [], [], o);
    L.FirstStart(p);
    forall gas: nat
      ensures E.Execute(msg, gas) == if gas < c then E.Exceptional else FinalFor(msg, o, gas - c)
    {
      assert EndsLike(msg, 0, [], [], gas, o, c);
    }
  }

  /**
   Code assembled from optimised items does what the items meant before they were
   optimised, with every label where it is in the optimised code.
   */
  lemma {:induction false} OptimisedRuns(
      msg: E.Msg, items: seq<I.Item>, n: nat, asm: Assembler.Assembly, p: L.Program, vals: seq<nat>,
      o: A.Outcome<seq<Byte>>) returns (c: nat)
    requires IsAssembled(asm, p, vals, msg.code) && UniqueTags(asm.items) && AllOffered(msg.mode, asm.items)
    requires asm.items == Peephole.Passes(items, n) && Peephole.AllOneWord(items)
    requires A.Runs(Interpretation(msg, p, vals), items, [], [], o)
    ensures ExecutesAs(msg, o, c)
  {
    var itp := Interpretation(msg, p, vals);
    InterpretationSound(msg, p, vals);
    forall v: Word ensures A.TagCount(itp, items, v) <= 1 {
      Peephole.PassesCount(itp, items, n, v);
      TagsApart(msg, asm, p, vals, v);
    }
    forall i | 0 <= i < |items| && items[i].PushTag? ensures itp.address(items[i].tag) < 0x1_0000_0000 {
      AddressLow(asm, p, vals, msg.code, items[i].tag);
    }
    Peephole.PassesPreserve(itp, items, n, [], [], o);
    c := AssembledRuns(msg, asm, p, vals, o);
  }

  /**
   From items to machine code: optimised, assembled, compiled and run with an amount of gas
   with which the reference machine stays calm, items end as they should, or with an
   exceptional halt if the gas is not enough.
   */
  lemma {:induction false} CompiledItemsRun(
      msg: E.Msg, items: seq<I.Item>, n: nat, asm: Assembler.Assembly, p: L.Program, vals: seq<nat>,
      o: A.Outcome<seq<Byte>>, spans: seq<Scanner.Span>, prog: Programs.Program) returns (c: nat)
    requires IsAssembled(asm, p, vals, msg.code) && UniqueTags(asm.items) && AllOffered(msg.mode, asm.items)
    requires asm.items == Peephole.Passes(items, n) && Peephole.AllOneWord(items)
    requires A.Runs(Interpretation(msg, p, vals), items, [], [], o)
    requires Programs.IsCompiled(msg.mode, msg.code, spans, prog)
    ensures forall gas: nat, slots: seq<nat> ::
      gas <= GAS_MAX && |slots| == E.STACK_LIMIT && BlockProofs.Calm(msg, 0, E.Vm([], gas, [])) ==>
        Programs.RunProgram(msg, prog, gas, slots)
        == Programs.FinalOf(if gas < c then E.Exceptional else FinalFor(msg, o, gas - c))
  {
    c := OptimisedRuns(msg, items, n, asm, p, vals, o);
    forall gas: nat, slots: seq<nat> |
      gas <= GAS_MAX && |slots| == E.STACK_LIMIT && BlockProofs.Calm(msg, 0, E.Vm([], gas, []))
      ensures Programs.RunProgram(msg, prog, gas, slots)
              == Programs.FinalOf(if gas < c then E.Exceptional else FinalFor(msg, o, gas - c))
    {
      Programs.CompilerCorrect(msg, spans, prog, gas, slots);
    }
  }
}
