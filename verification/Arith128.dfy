/**
 The arithmetic helpers the compiler generates: shift-subtract division at any width,
 signed division on top of it, and exponentiation by squaring.
 */
module Arith128 {
  import opened Words
  import opened Evm

  /** Number of significant bits. */
  function BitLength(x: nat): nat {
    if x == 0 then 0 else 1 + BitLength(x / 2)
  }

  function LeadingZeros(bits: nat, x: nat): nat {
    if BitLength(x) <= bits then bits - BitLength(x) else 0
  }

  function Negate(x: Word): Word {
    Wrap(0 - x)
  }

  /** Signed quotient and remainder from the unsigned helper on absolute values. */
  function SDivRem(x: Word, y: Word): (r: (Word, Word))
    requires y != 0
  {
    var xIsNeg := Signed(x) < 0;
    var yIsNeg := Signed(y) < 0;
    var xAbs := if xIsNeg then Negate(x) else x;
    var yAbs := if yIsNeg then Negate(y) else y;
    NegateNonZero(y);
    var qAbs := WordDiv(xAbs, yAbs);
    var rAbs := WordMod(xAbs, yAbs);
    (if xIsNeg != yIsNeg then Negate(qAbs) else qAbs, if xIsNeg then Negate(rAbs) else rAbs)
  }

  lemma NegateNonZero(y: Word)
    requires y != 0
    ensures Negate(y) == TWO_128 - y
  {
    DivModUnique(0 - y, -1, TWO_128, TWO_128 - y);
  }

  /** Negation of a word that is a small enough natural number. */
  lemma WrapNegative(n: nat)
    requires n < TWO_128
    ensures Wrap(0 - n) == Negate(n)
  {
  }

  lemma WrapSmall(n: nat)
    requires n < TWO_128
    ensures Wrap(n) == n
  {
    DivModUnique(n, 0, TWO_128, n);
  }

  lemma AbsOfSigned(x: Word)
    ensures Abs(Signed(x)) == if Signed(x) < 0 then Negate(x) else x
  {
    if x != 0 {
      NegateNonZero(x);
    }
  }

  /** Signed division is division of the signed values rounding toward zero, for all operands. */
  lemma SDivRemCorrect(x: Word, y: Word)
    requires y != 0
    ensures SDivRem(x, y).0 == Wrap(TruncDiv(Signed(x), SignedNonZero(y)))
    ensures SDivRem(x, y).1 == Wrap(TruncRem(Signed(x), SignedNonZero(y)))
  {
    AbsOfSigned(x);
    AbsOfSigned(y);
    var xAbs, yAbs := Abs(Signed(x)), Abs(Signed(y));
    var q := WordDiv(xAbs, yAbs);
    var r := WordMod(xAbs, yAbs);
    WrapSmall(q);
    WrapSmall(r);
    WrapNegative(q);
    WrapNegative(r);
  }

  /** Dividing by -1 is negation, also of the smallest number. */
  lemma DivideByMinusOne(x: Word)
    ensures Wrap(TruncDiv(Signed(x), -1)) == Negate(x)
    ensures TruncRem(Signed(x), -1) == 0
  {
    AbsOfSigned(x);
    var a := Abs(Signed(x));
    assert a / 1 == a && a % 1 == 0;
    if Signed(x) < 0 {
      NegateNonZero(x);
      WrapSmall(a);
    } else {
      WrapNegative(a);
    }
  }

  // ----- significant bits -----

  lemma {:induction false} BitLengthBounds(x: nat)
    ensures x < Pow2(BitLength(x))
    ensures x > 0 ==> BitLength(x) > 0 && Pow2(BitLength(x) - 1) <= x
  {
    if x > 0 {
      BitLengthBounds(x / 2);
    }
  }

  lemma BitLengthAtMost(x: nat, n: nat)
    requires x < Pow2(n)
    ensures BitLength(x) <= n
  {
    if BitLength(x) > n {
      BitLengthBounds(x);
      Pow2Monotone(n, BitLength(x) - 1);
      assert false;
    }
  }

  /** Rounding significant bits up to bytes counts the significant bytes. */
  lemma {:induction false} SignificantBytesFromBits(x: nat)
    ensures SignificantBytes(x) == (BitLength(x) + 7) / 8
  {
    if x >= 256 {
      SignificantBytesFromBits(x / 256);
      BitLengthShift8(x);
    } else if x > 0 {
      assert SignificantBytes(x / 256) == 0;
      Pow2At8();
      BitLengthAtMost(x, 8);
      BitLengthBounds(x);
    }
  }

  lemma {:induction false} BitLengthShift(x: nat, k: nat)
    requires x >= Pow2(k)
    ensures BitLength(x) == k + BitLength(x / Pow2(k))
  {
    if k > 0 {
      assert x / 2 >= Pow2(k - 1);
      BitLengthShift(x / 2, k - 1);
      DivDiv(x, 2, Pow2(k - 1));
    }
  }

  lemma BitLengthShift8(x: nat)
    requires x >= 256
    ensures BitLength(x) == 8 + BitLength(x / 256)
  {
    Pow2At8();
    BitLengthShift(x, 8);
  }

  // ----- shift-subtract division -----

  /** The divisor can be aligned with the dividend without losing bits. */
  lemma AlignedDivisor(bits: nat, x: nat, y: nat)
    requires 0 < y <= x < Pow2(bits)
    ensures LeadingZeros(bits, x) <= LeadingZeros(bits, y)
    ensures
      var i := LeadingZeros(bits, y) - LeadingZeros(bits, x);
      y * Pow2(i) < Pow2(bits) && x < 2 * (y * Pow2(i))
  {
    BitLengthAtMost(x, bits);
    BitLengthBounds(x);
    BitLengthAtMost(y, BitLength(x));
    Pow2Monotone(BitLength(x), bits);
    AlignedBits(x, y);
  }

  lemma AlignedBits(x: nat, y: nat)
    requires 0 < y <= x && BitLength(y) <= BitLength(x)
    ensures
      var i := BitLength(x) - BitLength(y);
      y * Pow2(i) < Pow2(BitLength(x)) && x < 2 * (y * Pow2(i))
  {
    BitLengthBounds(x);
    BitLengthBounds(y);
    var n := BitLength(y);
    var i := BitLength(x) - n;
    Pow2Add(n, i);
    Pow2Add(n - 1, i);
    Between(Pow2(n - 1), y, Pow2(n), Pow2(i));
  }

  lemma Between(a: nat, y: nat, b: nat, p: nat)
    requires a <= y < b && p > 0
    ensures a * p <= y * p < b * p
  {
    MulMonotone(a, y, p);
    MulMonotone(y + 1, b, p);
  }

  function ShiftLeft(bits: nat, v: nat, n: nat): nat {
    (v * Pow2(n)) % Pow2(bits)
  }

  /** State of the division loop: d is the divisor shifted left by i, q and r divide x by d. */
  predicate Dividing(bits: nat, x: nat, y: nat, i: nat, d: nat, q: nat, r: nat) {
    d == y * Pow2(i) && x == q * d + r && x < Pow2(bits) && y > 0
  }

  lemma StartDividing(bits: nat, x: nat, y: nat)
    requires 0 < y <= x < Pow2(bits)
    ensures LeadingZeros(bits, x) <= LeadingZeros(bits, y)
    ensures
      var i := LeadingZeros(bits, y) - LeadingZeros(bits, x);
      var d := ShiftLeft(bits, y, i);
      Looping(bits, x, y, i, d, 0, x)
  {
    AlignedDivisor(bits, x, y);
    var i := LeadingZeros(bits, y) - LeadingZeros(bits, x);
    DivModUnique(y * Pow2(i), 0, Pow2(bits), y * Pow2(i));
  }

  /** The divisor is subtracted where it fits; the subtraction does not wrap. */
  lemma SubtractStep(bits: nat, x: nat, y: nat, i: nat, d: nat, q: nat, r: nat)
    requires Dividing(bits, x, y, i, d, q, r) && q % 2 == 0 && r < 2 * d
    ensures
      if r >= d then Dividing(bits, x, y, i, d, BitOr(q, 1), r - d) && r - d < d
      else Dividing(bits, x, y, i, d, q, r)
  {
    OrOne(q);
    assert (q + 1) * d == q * d + d;
  }

  /** Halving the divisor and doubling the quotient keeps the division equation. */
  lemma ShiftStep(bits: nat, x: nat, y: nat, i: nat, d: nat, q: nat, r: nat)
    requires i > 0 && Dividing(bits, x, y, i, d, q, r)
    ensures Dividing(bits, x, y, i - 1, d / 2, ShiftLeft(bits, q, 1), r) && ShiftLeft(bits, q, 1) == q * 2
    ensures d == 2 * (d / 2)
  {
    var h := y * Pow2(i - 1);
    assert d == 2 * h by {
      MulAssoc(2, y, Pow2(i - 1));
    }
    MulMonotone(1, y, Pow2(i - 1));
    MulMonotone(1, h, q * 2);
    assert q * (2 * h) == (q * 2) * h;
    assert h * (q * 2) == (q * 2) * h;
    DivModUnique(q * 2, 0, Pow2(bits), q * 2);
  }

  lemma DoneDividing(bits: nat, x: nat, y: nat, d: nat, q: nat, r: nat)
    requires Dividing(bits, x, y, 0, d, q, r) && r < d
    ensures x == q * y + r && r < y && q == x / y && r == x % y
  {
    DivModUnique(x, q, y, r);
  }

  /** The loop invariant of the division. */
  predicate Looping(bits: nat, x: nat, y: nat, i: nat, d: nat, q: nat, r: nat) {
    Dividing(bits, x, y, i, d, q, r) && r < 2 * d && q % 2 == 0
  }

  function NextRemainder(d: nat, r: nat): nat {
    if r >= d then r - d else r
  }

  function NextQuotient(d: nat, q: nat, r: nat): nat {
    if r >= d then BitOr(q, 1) else q
  }

  /** One round ends the division or keeps the invariant. */
  lemma Round(bits: nat, x: nat, y: nat, i: nat, d: nat, q: nat, r: nat)
    requires Looping(bits, x, y, i, d, q, r)
    ensures
      var q1, r1 := NextQuotient(d, q, r), NextRemainder(d, r);
      if i == 0 then y > 0 && q1 == x / y && r1 == x % y
      else Looping(bits, x, y, i - 1, d / 2, ShiftLeft(bits, q1, 1), r1)
  {
    SubtractStep(bits, x, y, i, d, q, r);
    var q1, r1 := NextQuotient(d, q, r), NextRemainder(d, r);
    if i == 0 {
      DoneDividing(bits, x, y, d, q1, r1);
    } else {
      ShiftStep(bits, x, y, i, d, q1, r1);
    }
  }

  /** Unsigned division at any width; the divisor must not be zero. */
  method UDivRem(bits: nat, x: nat, y: nat) returns (q: nat, r: nat)
    requires x < Pow2(bits) && 0 < y < Pow2(bits)
    ensures q == x / y && r == x % y
  {
    if y > x {
      DivModUnique(x, 0, y, x);
      return 0, x;
    }
    StartDividing(bits, x, y);
    var i: nat := LeadingZeros(bits, y) - LeadingZeros(bits, x);
    var d := ShiftLeft(bits, y, i);
    q, r := 0, x;
    while true
      invariant Looping(bits, x, y, i, d, q, r)
      decreases i
    {
      Round(bits, x, y, i, d, q, r);
      q, r := NextQuotient(d, q, r), NextRemainder(d, r);
      if i == 0 {
        return;
      }
      i, q, d := i - 1, ShiftLeft(bits, q, 1), d / 2;
    }
  }

  /** Signed division as generated, on top of the unsigned helper. */
  method SDivRem128(x: Word, y: Word) returns (q: Word, r: Word)
    requires y != 0
    ensures q == Wrap(TruncDiv(Signed(x), SignedNonZero(y)))
    ensures r == Wrap(TruncRem(Signed(x), SignedNonZero(y)))
  {
    var xIsNeg := Signed(x) < 0;
    var yIsNeg := Signed(y) < 0;
    var xAbs := if xIsNeg then Negate(x) else x;
    var yAbs := if yIsNeg then Negate(y) else y;
    NegateNonZero(y);
    Pow2At128();
    var qAbs, rAbs := UDivRem(128, xAbs, yAbs);
    r := if xIsNeg then Negate(rAbs) else rAbs;
    q := if xIsNeg != yIsNeg then Negate(qAbs) else qAbs;
    SDivRemCorrect(x, y);
  }

  // ----- exponentiation by squaring -----

  lemma {:induction false} PowerSquare(b: nat, n: nat)
    ensures Power(b * b, n) == Power(b, 2 * n)
  {
    if n > 0 {
      PowerSquare(b, n - 1);
      assert Power(b, 2 * n) == b * (b * Power(b, 2 * n - 2));
      MulAssoc(b, b, Power(b, 2 * n - 2));
    }
  }

  lemma {:induction false} PowerMod(b: nat, n: nat, m: nat)
    requires m > 0
    ensures Power(b % m, n) % m == Power(b, n) % m
  {
    if n > 0 {
      PowerMod(b, n - 1, m);
      ModMulLeft(b, Power(b % m, n - 1), m);
      ModMulRight(b, Power(b % m, n - 1), m);
      ModMulRight(b, Power(b, n - 1), m);
    }
  }

  /** One round: an odd exponent gives one factor to the result, then the base is squared. */
  lemma SquareStep(r: nat, b: nat, e: nat, m: nat)
    requires e > 0 && m > 0
    ensures
      var r' := if e % 2 == 1 then (r * b) % m else r;
      (r' * Power((b * b) % m, e / 2)) % m == (r * Power(b, e)) % m
  {
    var h := e / 2;
    var p := Power(b, 2 * h);
    var r' := if e % 2 == 1 then (r * b) % m else r;
    PowerSquare(b, h);
    PowerMod(b * b, h, m);
    ModMulRight(r', Power((b * b) % m, h), m);
    ModMulRight(r', p, m);
    if e % 2 == 1 {
      ModMulLeft(r * b, p, m);
      MulAssoc(r, b, p);
      assert Power(b, e) == b * p;
    }
  }

  /** The generated loop. */
  method Exp(base: Word, exponent: Word) returns (r: Word)
    ensures r == Power(base, exponent) % TWO_128
  {
    r := 1;
    var b: Word := base;
    var e: Word := exponent;
    while e != 0
      invariant (r * Power(b, e)) % TWO_128 == Power(base, exponent) % TWO_128
      decreases e
    {
      SquareStep(r, b, e, TWO_128);
      AndOne(e);
      if BitAnd(e, 1) != 0 {
        r := (r * b) % TWO_128;
      }
      b, e := (b * b) % TWO_128, e / 2;
    }
    DivModUnique(r, 0, TWO_128, r);
  }

  lemma AndOne(e: nat)
    ensures BitAnd(e, 1) == e % 2
  {
    if e > 0 {
      assert BitAnd(e / 2, 0) == 0;
    }
  }

  function Bit(e: nat, i: nat): bool {
    (e / Pow2(i)) % 2 == 1
  }

  /** The loop that folds constants while compiling. */
  method FoldExp(base: Word, exponent: Word) returns (r: Word)
    ensures r == Power(base, exponent) % TWO_128
  {
    var b: Word := base;
    var e: Word := exponent;
    r := 1;
    while e != 0
      invariant (r * Power(b, e)) % TWO_128 == Power(base, exponent) % TWO_128
      decreases e
    {
      SquareStep(r, b, e, TWO_128);
      if Bit(e, 0) {
        r := (r * b) % TWO_128;
      }
      b := (b * b) % TWO_128;
      e := e / 2;
    }
    DivModUnique(r, 0, TWO_128, r);
  }
}
