/**
 The evaluator of the constant optimiser works on 256-bit numbers, the virtual machine on
 words of 128 bits: what routines for constants do there.
 */
module ConstantRuns {
  import opened Words
  import opened Items
  import opened ConstantOptimiser
  import O = Opcodes
  import E = Evm
  import A = AsmMachine
  import AsmRuns
  import Peephole

  /** The word the machine has where the evaluator has a number. */
  function Low(v: Wide): Word {
    v % TWO_128
  }

  function Lows(s: seq<Wide>): (r: seq<Word>)
    ensures |r| == |s| && forall i :: 0 <= i < |s| ==> r[i] == Low(s[i])
  {
    seq(|s|, i requires 0 <= i < |s| => Low(s[i]))
  }

  // ----- arithmetic modulo 2^128 -----

  lemma {:induction false} SameLow(x: int, y: int, k: int)
    requires x == y + k * TWO_128
    ensures x % TWO_128 == y % TWO_128
  {
    assert y == (y / TWO_128) * TWO_128 + y % TWO_128;
    assert x == (y / TWO_128 + k) * TWO_128 + y % TWO_128;
    DivModUnique(x, y / TWO_128 + k, TWO_128, y % TWO_128);
  }

  lemma {:induction false} WrapLow(x: int)
    ensures Low(WrapWide(x)) == x % TWO_128
  {
    var q := x / TWO_256;
    assert x == q * TWO_256 + WrapWide(x);
    assert TWO_256 == TWO_128 * TWO_128;
    assert q * TWO_256 == (q * TWO_128) * TWO_128;
    SameLow(x, WrapWide(x), q * TWO_128);
  }

  lemma {:induction false} MulLow(a: nat, b: nat)
    ensures (a * b) % TWO_128 == ((a % TWO_128) * (b % TWO_128)) % TWO_128
  {
    var q, r, q', r' := a / TWO_128, a % TWO_128, b / TWO_128, b % TWO_128;
    assert a == q * TWO_128 + r && b == q' * TWO_128 + r';
    Expanded(q, r, b);
    Expanded(q', r', r);
    assert r' * r == r * r' && b * r == r * b;
    SameLow(a * b, r * b, q * b);
    SameLow(r * b, r * r', q' * r);
  }

  lemma Expanded(q: int, r: int, b: int)
    ensures (q * TWO_128 + r) * b == r * b + (q * b) * TWO_128
  {
  }

  lemma {:induction false} PowerLow(a: nat, e: nat)
    ensures E.Power(a, e) % TWO_128 == E.Power(a % TWO_128, e) % TWO_128
    decreases e
  {
    if e > 0 {
      var p, p' := E.Power(a, e - 1), E.Power(a % TWO_128, e - 1);
      PowerLow(a, e - 1);
      MulLow(a, p);
      MulLow(a % TWO_128, p');
      ModTwice(a);
    }
  }

  lemma ModTwice(a: nat)
    ensures (a % TWO_128) % TWO_128 == a % TWO_128
  {
  }

  // ----- operations -----

  /** Which operator of the machine an operation of the evaluator is. */
  function OperatorOf(op: Byte): Option<O.AluOp> {
    if op == MUL then Some(O.Mul)
    else if op == EXP then Some(O.Exp)
    else if op == ADD then Some(O.Add)
    else if op == SUB then Some(O.Sub)
    else if op == NOT then Some(O.Not)
    else None
  }

  /** The evaluator's operations are the machine's, modulo 2^128, on the same operands in the same places. */
  lemma {:induction false} CombineLow(op: Byte, top: Wide, below: Wide, c: Word)
    requires op != NOT && Combine(op, top, below).Some?
    ensures OperatorOf(op).Some?
    ensures E.AluResult(OperatorOf(op).value, Low(top), Low(below), c) == Low(Combine(op, top, below).value)
  {
    var q, q' := top / TWO_128, below / TWO_128;
    assert top == q * TWO_128 + Low(top) && below == q' * TWO_128 + Low(below);
    if op == MUL {
      WrapLow(top * below);
      MulLow(top, below);
    } else if op == EXP {
      WrapLow(E.Power(top, below));
      PowerLow(top, below);
      DivModUnique(below, 0, TWO_128, below);
    } else if op == ADD {
      WrapLow(top + below);
      SameLow(top + below, Low(top) + Low(below), q + q');
    } else {
      WrapLow(top - below);
      SameLow(top - below, Low(top) - Low(below), q - q');
      WrapIsMod(Low(top) - Low(below));
    }
  }

  lemma {:induction false} WrapIsMod(i: int)
    ensures Wrap(i) == i % TWO_128
  {
  }

  lemma {:induction false} ComplementLow(v: Wide)
    ensures E.AluResult(O.Not, Low(v), 0, 0) == Low(Complement(v))
  {
    var q := v / TWO_128;
    assert v == q * TWO_128 + Low(v);
    assert TWO_256 == TWO_128 * TWO_128;
    SameLow(Complement(v), TWO_128 - 1 - Low(v), TWO_128 - 1 - q);
    DivModUnique(TWO_128 - 1 - Low(v), 0, TWO_128, TWO_128 - 1 - Low(v));
  }

  /** An operator applied on the machine. */
  lemma {:induction false} OperatorApplied(
      itp: A.Interp<seq<Byte>>, msg: E.Msg, op: Byte, s: seq<Word>, m: seq<Byte>)
    requires AsmRuns.Executes(itp, msg) && OperatorOf(op).Some?
    ensures
      var alu := OperatorOf(op).value;
      var n := E.AluArity(alu);
      var r := A.Local(itp, Operation(op), s, m);
      && (r.Some? ==> |s| >= n)
      && (r.Some? ==> r.value == (s[..|s| - n] + [E.AluResult(alu, E.Top(s, 0), E.Top(s, 1), E.Top(s, 2))], m))
  {
    var alu := OperatorOf(op).value;
    var n := E.AluArity(alu);
    OperatorNumber(msg.mode, op);
    if |s| >= n {
      AsmRuns.EffectOnOperands(msg, 0, O.Alu(alu), s, m);
      AsmRuns.NoGrowth(msg, m);
      assert itp.exec(op, s[|s| - n..], m) == AsmRuns.ExecOp(msg, op, s[|s| - n..], m);
    }
  }

  lemma {:induction false} OperatorNumber(mode: O.Mode, op: Byte)
    requires OperatorOf(op).Some?
    ensures
      var alu := OperatorOf(op).value;
      O.Decode(mode, op) == O.Alu(alu) && IsKnown(op) && InfoOf(op).args == E.AluArity(alu)
  {
  }

  // ----- routines -----

  /** One item does on the machine what it does in the evaluator. */
  lemma {:induction false} ItemRefined(
      itp: A.Interp<seq<Byte>>, msg: E.Msg, item: Item, s: seq<Wide>, m: seq<Byte>)
    requires AsmRuns.Executes(itp, msg) && Peephole.OneWord(item) && RunItem(item, s).Some?
    ensures
      var r := A.Local(itp, item, Lows(s), m);
      r.Some? ==> r.value == (Lows(RunItem(item, s).value), m)
  {
    if item.Push? {
      DivModUnique(item.data, 0, TWO_128, item.data);
      assert Lows(s) + [item.data] == Lows(s + [item.data]);
    } else if item.op == NOT {
      NotRefined(itp, msg, s, m);
    } else {
      CombineRefined(itp, msg, item.op, s, m);
    }
  }

  lemma {:induction false} NotRefined(itp: A.Interp<seq<Byte>>, msg: E.Msg, s: seq<Wide>, m: seq<Byte>)
    requires AsmRuns.Executes(itp, msg) && s != []
    ensures
      var r := A.Local(itp, Operation(NOT), Lows(s), m);
      r.Some? ==> r.value == (Lows(s[..|s| - 1] + [Complement(s[|s| - 1])]), m)
  {
    var n := |s|;
    OperatorApplied(itp, msg, NOT, Lows(s), m);
    ComplementLow(s[n - 1]);
    assert Lows(s)[..n - 1] + [Low(Complement(s[n - 1]))] == Lows(s[..n - 1] + [Complement(s[n - 1])]);
  }

  lemma {:induction false} CombineRefined(itp: A.Interp<seq<Byte>>, msg: E.Msg, op: Byte, s: seq<Wide>, m: seq<Byte>)
    requires AsmRuns.Executes(itp, msg) && |s| >= 2 && op != NOT && Combine(op, s[|s| - 1], s[|s| - 2]).Some?
    ensures
      var r := A.Local(itp, Operation(op), Lows(s), m);
      r.Some? ==> r.value == (Lows(s[..|s| - 2] + [Combine(op, s[|s| - 1], s[|s| - 2]).value]), m)
  {
    var n := |s|;
    var v := Combine(op, s[n - 1], s[n - 2]).value;
    CombineLow(op, s[n - 1], s[n - 2], E.Top(Lows(s), 2));
    OperatorApplied(itp, msg, op, Lows(s), m);
    assert Lows(s)[..n - 2] + [Low(v)] == Lows(s[..n - 2] + [v]);
  }

  /** So does a whole routine, on any stack. */
  lemma {:induction false} RoutineRefined(
      itp: A.Interp<seq<Byte>>, msg: E.Msg, r: seq<Item>, s: seq<Wide>, m: seq<Byte>)
    requires AsmRuns.Executes(itp, msg) && Peephole.AllOneWord(r) && RunItems(r, s).Some?
    ensures
      var got := A.Straight(itp, r, Lows(s), m);
      got.Some? ==> got.value == (Lows(RunItems(r, s).value), m)
    decreases |r|
  {
    if r != [] {
      assert r == [r[0]] + r[1..];
      RunConcat([r[0]], r[1..], s);
      RunSingle(r[0], s);
      ItemRefined(itp, msg, r[0], s, m);
      RoutineRefined(itp, msg, r[1..], RunItem(r[0], s).value, m);
    }
  }

  /** A routine of single-word pushes leaves the low word of what it computes. */
  lemma {:induction false} RoutineOnMachine(
      itp: A.Interp<seq<Byte>>, msg: E.Msg, r: seq<Item>, v: Wide, s: seq<Word>, m: seq<Byte>)
    requires AsmRuns.Executes(itp, msg) && Peephole.AllOneWord(r) && Computes(r, v)
    requires A.Straight(itp, r, s, m).Some?
    ensures A.Straight(itp, r, s, m) == Some((s + [Low(v)], m))
  {
    var wide: seq<Wide> := s;
    assert forall i :: 0 <= i < |s| ==> Low(wide[i]) == s[i];
    assert Lows(wide) == s;
    assert RunItems(r, wide) == Some(wide + [v]);
    RoutineRefined(itp, msg, r, wide, m);
    assert Lows(wide + [v]) == s + [Low(v)];
  }

  /**
   Replacing a constant by a routine of single-word pushes that computes it is right on the
   machine if and only if the constant is a single word itself.
   */
  lemma {:induction false} ReplacingExact(
      itp: A.Interp<seq<Byte>>, msg: E.Msg, r: seq<Item>, v: Wide, s: seq<Word>, m: seq<Byte>)
    requires AsmRuns.Executes(itp, msg) && Peephole.AllOneWord(r) && Computes(r, v)
    requires A.Straight(itp, r, s, m).Some? && A.Straight(itp, [Push(v)], s, m).Some?
    ensures A.Straight(itp, r, s, m) == A.Straight(itp, [Push(v)], s, m) <==> v < TWO_128
  {
    RoutineOnMachine(itp, msg, r, v, s, m);
    A.Straight1(itp, Push(v), s, m);
    if v < TWO_128 {
      DivModUnique(v, 0, TWO_128, v);
    } else {
      assert |A.Straight(itp, [Push(v)], s, m).value.0| == |s| + 2;
    }
  }

  // ----- routines that are found -----

  lemma {:induction false} OneWordConcat(a: seq<Item>, b: seq<Item>)
    requires Peephole.AllOneWord(a) && Peephole.AllOneWord(b)
    ensures Peephole.AllOneWord(a + b)
  {
  }

  /** Routines for single-word constants push single words. */
  lemma {:induction false} FindOneWord(gas: GasEstimate, v: Wide, steps: nat)
    requires v < TWO_128
    ensures Peephole.AllOneWord(Find(gas, v, steps).0)
    decreases v, 2, 0
  {
    if v >= 0x10000 {
      if IsShorterNegated(v) {
        FewerBytesSmaller(Complement(v), v);
        assert false;
      }
      ScanOneWord(gas, v, 255, [Push(v)], steps);
    }
  }

  lemma {:induction false} ScanOneWord(gas: GasEstimate, v: Wide, bits: nat, best: seq<Item>, steps: nat)
    requires 0x10000 <= v < TWO_128 && bits < 256 && Peephole.AllOneWord(best)
    ensures Peephole.AllOneWord(Scan(gas, v, bits, best, steps).0)
    decreases v, 1, bits
  {
    if bits > 8 && steps > 0 {
      if Splits(v, bits) {
        var c := Candidate(gas, v, bits, steps);
        CandidateOneWord(gas, v, bits, steps);
        ScanOneWord(gas, v, bits - 1, if gas(c.0) < gas(best) then c.0 else best, if c.1 > 0 then c.1 - 1 else 0);
      } else {
        ScanOneWord(gas, v, bits - 1, best, steps);
      }
    }
  }

  lemma {:induction false} CandidateOneWord(gas: GasEstimate, v: Wide, bits: nat, steps: nat)
    requires 0x10000 <= v < TWO_128 && 8 < bits < 256 && Splits(v, bits)
    ensures Peephole.AllOneWord(Candidate(gas, v, bits, steps).0)
    decreases v, 0, 0
  {
    PartsSmaller(v, bits);
    var parts := Decompose(v, bits);
    var lower := if parts.lower == 0 then ([], steps) else Find(gas, E.Abs(parts.lower), steps);
    var upper := if parts.upper == 1 then ([], lower.1) else Find(gas, parts.upper, lower.1);
    if parts.lower != 0 {
      FindOneWord(gas, E.Abs(parts.lower), steps);
    }
    if parts.upper != 1 {
      FindOneWord(gas, parts.upper, lower.1);
    }
  }

  /** Whatever the search finds for a single-word constant, the machine pushes the constant when it runs it. */
  lemma {:induction false} ConstantOnMachine(
      itp: A.Interp<seq<Byte>>, msg: E.Msg, gas: GasEstimate, v: Word, steps: nat, s: seq<Word>, m: seq<Byte>)
    requires AsmRuns.Executes(itp, msg) && A.Straight(itp, Find(gas, v, steps).0, s, m).Some?
    ensures A.Straight(itp, Find(gas, v, steps).0, s, m) == Some((s + [v], m))
  {
    FindOneWord(gas, v, steps);
    FindComputes(gas, v, steps);
    RoutineOnMachine(itp, msg, Find(gas, v, steps).0, v, s, m);
    DivModUnique(v, 0, TWO_128, v);
  }

  /** A power of two splits at no higher position. */
  lemma {:induction false} NoSplitAbove(v: Wide, n: nat, bits: nat)
    requires v == Pow2(n) && n < bits && 8 < bits
    ensures !Splits(v, bits)
  {
    SplitsExact(v, bits);
    if Splits(v, bits) {
      var a: nat, b: int :| IsSum(v, bits, a, b);
      Pow2Monotone(n, bits - 1);
      Pow2Monotone(bits - 8, bits - 1);
      MulMonotone(1, a, Pow2(bits));
      assert false;
    }
  }

  lemma {:induction false} SplitAtItself(v: Wide, bits: nat)
    requires v == Pow2(bits) && 8 < bits
    ensures Splits(v, bits) && Decompose(v, bits) == Parts(1, 0)
  {
    DivModUnique(v, 1, Pow2(bits), 0);
    SplitsExact(v, bits);
    assert IsSum(v, bits, 1, 0);
  }

  lemma {:induction false} ScanPower(gas: GasEstimate, v: Wide, n: nat, bits: nat)
    requires 0x10000 <= v == Pow2(n) && 8 < n <= bits < 256 && gas(ShiftRoutine(n)) < gas([Push(v)])
    ensures Scan(gas, v, bits, [Push(v)], 1) == (ShiftRoutine(n), 0)
    decreases bits
  {
    if bits > n {
      NoSplitAbove(v, n, bits);
      ScanPower(gas, v, n, bits - 1);
    } else {
      SplitAtItself(v, n);
      assert Candidate(gas, v, n, 1) == (ShiftRoutine(n), 1);
    }
  }

  lemma {:induction false} LowOfPower(v: Wide, n: nat)
    requires v == Pow2(n) && n >= 128
    ensures Low(v) == 0 && v >= TWO_128
  {
    Pow2At128();
    Pow2Add(n - 128, 128);
    MulMonotone(1, Pow2(n - 128), TWO_128);
    DivModUnique(v, Pow2(n - 128), TWO_128, 0);
  }

  lemma {:induction false} FindPower(gas: GasEstimate, v: Wide, n: nat)
    requires v == Pow2(n) && 128 <= n < 255 && gas(ShiftRoutine(n)) < gas([Push(v)])
    ensures Find(gas, v, 1) == (ShiftRoutine(n), 0)
  {
    LowOfPower(v, n);
    ScanPower(gas, v, n, 255);
    Pow2At256();
    Pow2Monotone(n, 254);
    if IsShorterNegated(v) {
      FewerBytesSmaller(Complement(v), v);
      assert false;
    }
  }

  /**
   A power of two beyond a single word is lost: where shifting is estimated cheaper, a single
   step finds a routine that pushes one word, zero, for a constant that takes two.
   */
  lemma {:induction false} PowerLost(
      gas: GasEstimate, v: Wide, n: nat, itp: A.Interp<seq<Byte>>, msg: E.Msg, s: seq<Word>, m: seq<Byte>)
    requires AsmRuns.Executes(itp, msg) && v == Pow2(n) && 128 <= n < 255
    requires gas(ShiftRoutine(n)) < gas([Push(v)])
    requires A.Straight(itp, ShiftRoutine(n), s, m).Some? && A.Straight(itp, [Push(v)], s, m).Some?
    ensures Find(gas, v, 1).0 == ShiftRoutine(n)
    ensures A.Straight(itp, ShiftRoutine(n), s, m) == Some((s + [0], m))
    ensures A.Straight(itp, [Push(v)], s, m) == Some((s + [0, v / TWO_128], m))
  {
    FindPower(gas, v, n);
    LowOfPower(v, n);
    ShiftComputes(n);
    RoutineOnMachine(itp, msg, ShiftRoutine(n), v, s, m);
    A.Straight1(itp, Push(v), s, m);
  }
}
