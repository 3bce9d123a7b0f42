/**
 The code emitted for each operator computes what Appendix H of the Yellow Paper says,
 for all operands, and never divides by zero.
 */
module Operators {
  import opened Words
  import O = Opcodes
  import opened Evm
  import opened Ir
  import opened Templates
  import Arith128

  function Operands(alu: O.AluOp, a: Word, b: Word, c: Word): (s: seq<nat>)
    ensures |s| == AluArity(alu)
  {
    match AluArity(alu)
    case 1 => [a]
    case 2 => [a, b]
    case _ => [a, b, c]
  }

  /** The body is defined on these operands and its last value is the operator's result. */
  predicate Computes(alu: O.AluOp, a: Word, b: Word, c: Word) {
    var r := EvalBody(AluBody(alu), Operands(alu, a, b, c));
    && r.Some? && |r.value| == AluArity(alu) + |AluBody(alu)|
    && r.value[|r.value| - 1] == AluResult(alu, a, b, c)
  }

  lemma OpAdd(a: Word, b: Word, c: Word)
    ensures Computes(O.Add, a, b, c)
  {
  }

  lemma OpMul(a: Word, b: Word, c: Word)
    ensures Computes(O.Mul, a, b, c)
  {
  }

  lemma OpSub(a: Word, b: Word, c: Word)
    ensures Computes(O.Sub, a, b, c)
  {
  }

  lemma OpExp(a: Word, b: Word, c: Word)
    ensures Computes(O.Exp, a, b, c)
  {
  }

  lemma OpLt(a: Word, b: Word, c: Word)
    ensures Computes(O.Lt, a, b, c)
  {
  }

  lemma OpGt(a: Word, b: Word, c: Word)
    ensures Computes(O.Gt, a, b, c)
  {
  }

  lemma OpEq(a: Word, b: Word, c: Word)
    ensures Computes(O.Eq, a, b, c)
  {
  }

  lemma OpIsZero(a: Word, b: Word, c: Word)
    ensures Computes(O.IsZero, a, b, c)
  {
  }

  lemma OpSlt(a: Word, b: Word, c: Word)
    ensures Computes(O.Slt, a, b, c)
  {
    assert AsWord(a) == a && AsWord(b) == b;
  }

  lemma OpSgt(a: Word, b: Word, c: Word)
    ensures Computes(O.Sgt, a, b, c)
  {
    assert AsWord(a) == a && AsWord(b) == b;
  }

  lemma OpDiv(a: Word, b: Word, c: Word)
    ensures Computes(O.Div, a, b, c)
  {
  }

  lemma OpMod(a: Word, b: Word, c: Word)
    ensures Computes(O.Mod, a, b, c)
  {
  }

  /** Values of the signed-division code; q is the helper's answer for the protected divisor. */
  lemma SignedDivLines(a: Word, b: Word, q: nat)
    requires q == EvalBin(SDiv, a, if b == 0 then 1 else b)
    ensures
      var guarded := if b == 0 then 0 else q;
      EvalBody(AluBody(O.SDiv), [a, b])
      == Some([a, b, Flag(b == 0), Flag(b == MINUS_ONE), if b == 0 then 1 else b, q, guarded, Wrap(0 - a),
               if b == MINUS_ONE then Wrap(0 - a) else guarded])
  {
    var guarded := if b == 0 then 0 else q;
    var values := [a, b, Flag(b == 0), Flag(b == MINUS_ONE), if b == 0 then 1 else b, q, guarded, Wrap(0 - a),
                   if b == MINUS_ONE then Wrap(0 - a) else guarded];
    var body := AluBody(O.SDiv);
    forall k | 0 <= k < |body| ensures Line(body, 2, values, k) {
      if k == 0 {
      } else if k == 1 {
      } else if k == 2 {
      } else if k == 3 {
      } else if k == 4 {
      } else if k == 5 {
      } else {
      }
    }
    LinesEvaluate(body, [a, b], values);
  }

  lemma SignedDivHelper(a: Word, b: Word, c: Word)
    requires b != 0
    ensures EvalBin(SDiv, a, b) == AluResult(O.SDiv, a, b, c)
  {
    Arith128.SDivRemCorrect(a, b);
  }

  lemma SignedDivMinusOne(a: Word, c: Word)
    ensures AluResult(O.SDiv, a, MINUS_ONE, c) == Wrap(0 - a)
  {
    assert Signed(MINUS_ONE) == -1;
    Arith128.DivideByMinusOne(a);
  }

  lemma SignedDivValue(a: Word, b: Word, c: Word, q: nat)
    requires q == EvalBin(SDiv, a, if b == 0 then 1 else b)
    ensures AluResult(O.SDiv, a, b, c) == if b == MINUS_ONE then Wrap(0 - a) else if b == 0 then 0 else q
  {
    if b == MINUS_ONE {
      SignedDivMinusOne(a, c);
    } else if b != 0 {
      SignedDivHelper(a, b, c);
    }
  }

  lemma SignedDiv(a: Word, b: Word, c: Word)
    ensures Computes(O.SDiv, a, b, c)
  {
    var q := EvalBin(SDiv, a, if b == 0 then 1 else b);
    SignedDivValue(a, b, c, q);
    SignedDivLines(a, b, q);
  }

  lemma SignedModLines(a: Word, b: Word, r: nat)
    requires r == EvalBin(SRem, a, if b == 0 then 1 else b)
    ensures
      var guarded := if b == 0 then 0 else r;
      EvalBody(AluBody(O.SMod), [a, b])
      == Some([a, b, Flag(b == 0), Flag(b == MINUS_ONE), if b == 0 then 1 else b, r, guarded,
               if b == MINUS_ONE then 0 else guarded])
  {
    var guarded := if b == 0 then 0 else r;
    var values := [a, b, Flag(b == 0), Flag(b == MINUS_ONE), if b == 0 then 1 else b, r, guarded,
                   if b == MINUS_ONE then 0 else guarded];
    var body := AluBody(O.SMod);
    forall k | 0 <= k < |body| ensures Line(body, 2, values, k) {
      if k == 0 {
      } else if k == 1 {
      } else if k == 2 {
      } else if k == 3 {
      } else if k == 4 {
      } else {
      }
    }
    LinesEvaluate(body, [a, b], values);
  }

  lemma SignedModHelper(a: Word, b: Word, c: Word)
    requires b != 0
    ensures EvalBin(SRem, a, b) == AluResult(O.SMod, a, b, c)
  {
    Arith128.SDivRemCorrect(a, b);
  }

  lemma SignedModMinusOne(a: Word, c: Word)
    ensures AluResult(O.SMod, a, MINUS_ONE, c) == 0
  {
    assert Signed(MINUS_ONE) == -1;
    Arith128.DivideByMinusOne(a);
    Arith128.WrapSmall(0);
  }

  lemma SignedModValue(a: Word, b: Word, c: Word, q: nat)
    requires q == EvalBin(SRem, a, if b == 0 then 1 else b)
    ensures AluResult(O.SMod, a, b, c) == if b == MINUS_ONE then 0 else if b == 0 then 0 else q
  {
    if b == MINUS_ONE {
      SignedModMinusOne(a, c);
    } else if b != 0 {
      SignedModHelper(a, b, c);
    }
  }

  lemma SignedMod(a: Word, b: Word, c: Word)
    ensures Computes(O.SMod, a, b, c)
  {
    var q := EvalBin(SRem, a, if b == 0 then 1 else b);
    SignedModValue(a, b, c, q);
    SignedModLines(a, b, q);
  }

  /** Both modular operators end alike; x is the full-width sum or product. */
  lemma ModularLines(alu: O.AluOp, a: Word, b: Word, m: Word, x: nat, r: Word)
    requires alu == O.AddMod ==> x == a + b
    requires alu == O.MulMod ==> x == Product(a, b)
    requires (alu == O.AddMod || alu == O.MulMod) && x < TWO_256 && r == Remainder(x, m)
    ensures EvalBody(AluBody(alu), [a, b, m])
            == Some([a, b, m, Flag(m == 0), x, r, r, if m == 0 then 0 else r])
  {
    var values := [a, b, m, Flag(m == 0), x, r, r, if m == 0 then 0 else r];
    var body := AluBody(alu);
    forall k | 0 <= k < |body| ensures Line(body, 3, values, k) {
      if k == 0 {
      } else if k == 1 {
      } else if k == 2 {
      } else if k == 3 {
        assert AsWord(r) == r;
      } else {
      }
    }
    LinesEvaluate(body, [a, b, m], values);
  }

  lemma ModularAdd(a: Word, b: Word, m: Word)
    ensures Computes(O.AddMod, a, b, m)
  {
    var r := AluResult(O.AddMod, a, b, m);
    RemainderIs(a + b, m);
    ModularLines(O.AddMod, a, b, m, a + b, r);
  }

  lemma RemainderIs(x: nat, m: Word)
    ensures Remainder(x, m) == if m == 0 then 0 else WordMod(x, m)
  {
  }

  lemma FullProductFits(a: Word, b: Word)
    ensures a * b < TWO_256
  {
    MulMonotone(a, TWO_128 - 1, b);
    MulMonotone(b, TWO_128 - 1, TWO_128 - 1);
    assert (TWO_128 - 1) * b == b * (TWO_128 - 1);
  }

  lemma ModularMul(a: Word, b: Word, m: Word)
    ensures Computes(O.MulMod, a, b, m)
  {
    FullProductFits(a, b);
    var r := if m == 0 then 0 else WordMod(a * b, m);
    ModularLines(O.MulMod, a, b, m, a * b, r);
  }

  lemma {:induction false} BitsBounded(x: nat, y: nat, k: nat)
    requires x < Pow2(k) && y < Pow2(k)
    ensures BitAnd(x, y) < Pow2(k) && BitOr(x, y) < Pow2(k) && BitXor(x, y) < Pow2(k)
  {
    if k > 0 && x > 0 && y > 0 {
      BitsBounded(x / 2, y / 2, k - 1);
    }
  }

  /** AND, OR and XOR of words, bit by bit. */
  lemma BitwiseExact(a: Word, b: Word, c: Word, k: nat)
    ensures Bit(AluResult(O.And, a, b, c), k) == (if Bit(a, k) == 1 && Bit(b, k) == 1 then 1 else 0)
    ensures Bit(AluResult(O.Or, a, b, c), k) == (if Bit(a, k) == 1 || Bit(b, k) == 1 then 1 else 0)
    ensures Bit(AluResult(O.Xor, a, b, c), k) == (if Bit(a, k) != Bit(b, k) then 1 else 0)
  {
    BitsFit(a, b);
    BitByBit(a, b, k);
  }

  lemma BitsFit(a: Word, b: Word)
    ensures AsWord(BitAnd(a, b)) == BitAnd(a, b)
    ensures AsWord(BitOr(a, b)) == BitOr(a, b)
    ensures AsWord(BitXor(a, b)) == BitXor(a, b)
  {
    Pow2At128();
    BitsBounded(a, b, 128);
  }

  lemma OpAnd(a: Word, b: Word, c: Word)
    ensures Computes(O.And, a, b, c)
  {
    BitsFit(a, b);
  }

  lemma OpOr(a: Word, b: Word, c: Word)
    ensures Computes(O.Or, a, b, c)
  {
    BitsFit(a, b);
  }

  lemma OpXor(a: Word, b: Word, c: Word)
    ensures Computes(O.Xor, a, b, c)
  {
    BitsFit(a, b);
  }

  lemma Complement(a: Word, b: Word, c: Word)
    ensures Computes(O.Not, a, b, c)
  {
    XorOnes(a);
  }

  lemma XorOnes(a: Word)
    ensures BitXor(a, MINUS_ONE) == TWO_128 - 1 - a
  {
    Pow2At128();
    XorLowMask(a, 128);
  }

  lemma ByteLines(a: Word, b: Word, v: nat)
    requires v == EvalBin(ByteExtract, b, a % 16)
    ensures EvalBody(AluBody(O.ByteOf), [a, b])
            == Some([a, b, Flag(a < 16), a % 16, v, if a < 16 then v else 0])
  {
    var values := [a, b, Flag(a < 16), a % 16, v, if a < 16 then v else 0];
    var body := AluBody(O.ByteOf);
    forall k | 0 <= k < |body| ensures Line(body, 2, values, k) {
      if k == 0 {
      } else if k == 1 {
      } else if k == 2 {
      } else {
      }
    }
    LinesEvaluate(body, [a, b], values);
  }

  lemma ByteAt(n: nat, a: Word, b: Word)
    requires n == 16 && a < n
    ensures BigEndian(n, b)[a] == ByteSpec(a, b)
  {
    BigEndianAt(n, b, a);
  }

  lemma ExtractedByte(a: Word, b: Word)
    requires a < 16
    ensures EvalBin(ByteExtract, b, a % 16) == ByteSpec(a, b)
  {
    ByteAt(16, a, b);
  }

  lemma ByteSelect(a: Word, b: Word, c: Word)
    ensures Computes(O.ByteOf, a, b, c)
  {
    ByteLines(a, b, EvalBin(ByteExtract, b, a % 16));
    if a < 16 {
      ExtractedByte(a, b);
    }
  }

  // ----- sign extension -----

  /** The residue modulo 2q is the residue modulo q plus q if the next bit is set. */
  lemma ModDouble(b: nat, q: nat)
    requires q > 0
    ensures b % (2 * q) == q * ((b / q) % 2) + b % q
  {
    var d := b / q;
    assert b == d * q + b % q;
    assert d == 2 * (d / 2) + d % 2;
    assert d * q == (d / 2) * (2 * q) + (d % 2) * q by {
      assert (2 * (d / 2)) * q == (d / 2) * (2 * q);
      assert (2 * (d / 2) + d % 2) * q == (2 * (d / 2)) * q + (d % 2) * q;
    }
    var r := (d % 2) * q + b % q;
    assert d % 2 == 0 || d % 2 == 1;
    assert 0 <= r < 2 * q;
    DivModUnique(b, d / 2, 2 * q, r);
  }

  lemma SignBitFits(p: nat)
    requires p < 128
    ensures Pow2(p) < TWO_128
    ensures AsWord(Product(1, Pow2(p))) == Pow2(p)
  {
    Pow2At128();
    Pow2Monotone(p, 127);
    DivModUnique(Pow2(p), 0, TWO_128, Pow2(p));
  }

  lemma LowMask(p: nat)
    requires p < 128
    ensures Wrap(Pow2(p) - 1) == Pow2(p) - 1
  {
    SignBitFits(p);
    Arith128.WrapSmall(Pow2(p) - 1);
  }

  lemma HighMask(p: nat)
    requires p < 128
    ensures BitXor(Pow2(p) - 1, MINUS_ONE) == TWO_128 - Pow2(p)
  {
    SignBitFits(p);
    Pow2At128();
    XorLowMask(Pow2(p) - 1, 128);
  }

  lemma SetHighBits(p: nat, b: Word)
    requires p < 128
    ensures Pow2(p) < TWO_128
    ensures BitOr(b, TWO_128 - Pow2(p)) == TWO_128 - Pow2(p) + b % Pow2(p)
  {
    SignBitFits(p);
    Pow2At128();
    OrHighMask(b, p, 128);
  }

  /** All values of the sign-extension code. */
  function SignValues(a: Word, b: Word): seq<nat> {
    var k := a % 16;
    var p := 8 * k + 7;
    Pow2At128();
    Pow2Monotone(p, 127);
    var q := Pow2(p);
    var t := Quotient(b, q) % 2;
    var hi := TWO_128 - q + b % q;
    var lo := b % q;
    var ext := if t != 0 then hi else lo;
    [a, b, k, 8 * k, p, Quotient(b, q), t, q, q - 1, TWO_128 - q, hi, lo, Flag(a <= 14), ext,
     if a <= 14 then ext else b]
  }

  lemma SignLinesPosition(a: Word, b: Word, k: nat)
    requires k < 3
    ensures Line(AluBody(O.SignExtend), 2, SignValues(a, b), k)
  {
    if k == 0 {
    } else if k == 1 {
    } else {
    }
  }

  lemma SignLinesBit(a: Word, b: Word, k: nat)
    requires 3 <= k < 5
    ensures Line(AluBody(O.SignExtend), 2, SignValues(a, b), k)
  {
    if k == 3 {
    } else {
    }
  }

  lemma SignLinesMasks(a: Word, b: Word, k: nat)
    requires 5 <= k < 8
    ensures Line(AluBody(O.SignExtend), 2, SignValues(a, b), k)
  {
    if k == 5 {
      SignLineBit(a, b);
    } else {
      SignLineMask(a, b, k);
    }
  }

  lemma SignLineBit(a: Word, b: Word)
    ensures Line(AluBody(O.SignExtend), 2, SignValues(a, b), 5)
  {
    SignBitFits(8 * (a % 16) + 7);
  }

  lemma SignLineMask(a: Word, b: Word, k: nat)
    requires 6 <= k < 8
    ensures Line(AluBody(O.SignExtend), 2, SignValues(a, b), k)
  {
    var p := 8 * (a % 16) + 7;
    if k == 6 {
      LowMask(p);
    } else {
      HighMask(p);
    }
  }

  lemma SignLinesWords(a: Word, b: Word, k: nat)
    requires 8 <= k < 10
    ensures Line(AluBody(O.SignExtend), 2, SignValues(a, b), k)
  {
    var p := 8 * (a % 16) + 7;
    if k == 8 {
      SetHighBits(p, b);
    } else {
      AndLowMask(b, p);
    }
  }

  lemma SignLinesSelect(a: Word, b: Word, k: nat)
    requires 10 <= k < 13
    ensures Line(AluBody(O.SignExtend), 2, SignValues(a, b), k)
  {
    if k == 10 {
    } else if k == 11 {
    } else {
    }
  }

  lemma SignResult(a: Word, b: Word)
    ensures SignValues(a, b)[14] == SignExtendSpec(a, b)
  {
    if a <= 14 {
      var q := Pow2(8 * a + 7);
      assert Pow2(8 * a + 8) == 2 * q;
      ModDouble(b, q);
    }
  }

  lemma SignExtension(a: Word, b: Word, c: Word)
    ensures Computes(O.SignExtend, a, b, c)
  {
    var body := AluBody(O.SignExtend);
    forall k | 0 <= k < |body| ensures Line(body, 2, SignValues(a, b), k) {
      if k < 3 {
        SignLinesPosition(a, b, k);
      } else if k < 5 {
        SignLinesBit(a, b, k);
      } else if k < 8 {
        SignLinesMasks(a, b, k);
      } else if k < 10 {
        SignLinesWords(a, b, k);
      } else {
        SignLinesSelect(a, b, k);
      }
    }
    LinesEvaluate(body, [a, b], SignValues(a, b));
    SignResult(a, b);
  }

  /** Every operator's code computes its result, for all operands. */
  lemma OperatorCorrect(alu: O.AluOp, a: Word, b: Word, c: Word)
    ensures Computes(alu, a, b, c)
  {
    match alu
    case Add => OpAdd(a, b, c);
    case Mul => OpMul(a, b, c);
    case Sub => OpSub(a, b, c);
    case Div => OpDiv(a, b, c);
    case SDiv => SignedDiv(a, b, c);
    case Mod => OpMod(a, b, c);
    case SMod => SignedMod(a, b, c);
    case AddMod => ModularAdd(a, b, c);
    case MulMod => ModularMul(a, b, c);
    case Exp => OpExp(a, b, c);
    case SignExtend => SignExtension(a, b, c);
    case Lt => OpLt(a, b, c);
    case Gt => OpGt(a, b, c);
    case Slt => OpSlt(a, b, c);
    case Sgt => OpSgt(a, b, c);
    case Eq => OpEq(a, b, c);
    case IsZero => OpIsZero(a, b, c);
    case And => OpAnd(a, b, c);
    case Or => OpOr(a, b, c);
    case Xor => OpXor(a, b, c);
    case Not => Complement(a, b, c);
    case ByteOf => ByteSelect(a, b, c);
  }
}
