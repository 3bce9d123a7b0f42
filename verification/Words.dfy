/**
 Machine words: 128-bit stack words, 64-bit sizes and gas values, bytes, bit-wise
 operators on naturals, two's complement and big-endian encodings.
 */
module Words {

  const TWO_63 := 0x8000_0000_0000_0000
  const TWO_64 := 0x1_0000_0000_0000_0000
  const TWO_127 := 0x8000_0000_0000_0000_0000_0000_0000_0000
  const TWO_128 := 0x1_0000_0000_0000_0000_0000_0000_0000_0000
  const TWO_256 := 0x1_0000_0000_0000_0000_0000_0000_0000_0000_0000_0000_0000_0000_0000_0000_0000_0000

  /** Largest value of the signed 64-bit gas type. */
  const GAS_MAX := TWO_63 - 1

  type Word = w: nat | w < TWO_128
  type Wide = w: nat | w < TWO_256
  type Byte = b: nat | b < 256

  datatype Option<+T> = None | Some(value: T)

  // ----- powers of two -----

  function Pow2(n: nat): (p: nat)
    ensures p >= 1
  {
    if n == 0 then 1 else 2 * Pow2(n - 1)
  }

  lemma {:induction false} Pow2Add(m: nat, n: nat)
    ensures Pow2(m + n) == Pow2(m) * Pow2(n)
  {
    if m > 0 {
      Pow2Add(m - 1, n);
      assert m + n - 1 == (m - 1) + n;
      MulAssoc(2, Pow2(m - 1), Pow2(n));
    }
  }

  lemma {:induction false} Pow2Monotone(m: nat, n: nat)
    requires m <= n
    ensures Pow2(m) <= Pow2(n)
  {
    if m < n {
      Pow2Monotone(m, n - 1);
    }
  }

  lemma Pow2Square(n: nat, p: nat)
    requires Pow2(n) == p
    ensures Pow2(n + n) == p * p
  {
    Pow2Add(n, n);
  }

  lemma Pow2At8()
    ensures Pow2(8) == 256
  {
    assert Pow2(4) == 16;
    Pow2Square(4, 16);
  }

  lemma Pow2At64()
    ensures Pow2(63) == TWO_63 && Pow2(64) == TWO_64
  {
    Pow2At8();
    Pow2Square(8, 256);
    Pow2Square(16, 0x1_0000);
    Pow2Square(32, 0x1_0000_0000);
  }

  lemma Pow2At128()
    ensures Pow2(127) == TWO_127 && Pow2(128) == TWO_128
  {
    Pow2At64();
    Pow2Square(64, TWO_64);
  }

  lemma Pow2At256()
    ensures Pow2(256) == TWO_256
  {
    Pow2At128();
    Pow2Square(128, TWO_128);
  }

  // ----- integer arithmetic -----

  lemma MulAssoc(a: int, b: int, c: int)
    ensures (a * b) * c == a * (b * c)
  {
  }

  lemma MulMonotone(a: int, b: int, c: int)
    requires a <= b && 0 <= c
    ensures a * c <= b * c
  {
  }

  /** Uniqueness of Euclidean division. */
  lemma DivModUnique(x: int, q: int, y: int, r: int)
    requires 0 < y && x == q * y + r && 0 <= r < y
    ensures x / y == q && x % y == r
  {
    var d := x / y - q;
    assert x == (x / y) * y + x % y;
    assert d * y == r - x % y by {
      assert d * y == (x / y) * y - q * y;
    }
    if d >= 1 {
      MulMonotone(1, d, y);
      assert false;
    } else if d <= -1 {
      MulMonotone(d, -1, y);
      assert false;
    }
  }

  /** Adding a multiple of the modulus changes nothing. */
  lemma ModAddMultiple(x: int, k: int, m: int)
    requires 0 < m
    ensures (x + k * m) % m == x % m
  {
    assert x == (x / m) * m + x % m;
    assert x + k * m == (x / m + k) * m + x % m;
    DivModUnique(x + k * m, x / m + k, m, x % m);
  }

  /** Reducing a factor first does not change the reduced product. */
  lemma ModMulLeft(a: int, b: int, m: int)
    requires 0 < m
    ensures ((a % m) * b) % m == (a * b) % m
  {
    var k := a / m;
    assert a == a % m + k * m;
    assert a * b == (a % m) * b + (k * b) * m by {
      assert (k * m) * b == (k * b) * m;
      assert (a % m + k * m) * b == (a % m) * b + (k * m) * b;
    }
    ModAddMultiple((a % m) * b, k * b, m);
  }

  lemma ModMulRight(a: int, b: int, m: int)
    requires 0 < m
    ensures (a * (b % m)) % m == (a * b) % m
  {
    ModMulLeft(b, a, m);
    assert a * (b % m) == (b % m) * a && a * b == b * a;
  }

  // ----- two's complement -----

  function Signed(w: Word): (s: int)
    ensures -TWO_127 <= s < TWO_127
  {
    if w < TWO_127 then w else w - TWO_128
  }

  /** The word congruent to an integer. */
  function Wrap(i: int): (w: Word)
    ensures (i - w) % TWO_128 == 0
  {
    var r := i % TWO_128;
    assert (i - r) % TWO_128 == 0 by {
      ModAddMultiple(0, i / TWO_128, TWO_128);
    }
    r
  }

  // ----- bit-wise operators -----

  function BitAnd(x: nat, y: nat): nat {
    if x == 0 || y == 0 then 0 else 2 * BitAnd(x / 2, y / 2) + (x % 2) * (y % 2)
  }

  function BitOr(x: nat, y: nat): nat {
    if x == 0 then y else if y == 0 then x
    else 2 * BitOr(x / 2, y / 2) + (if x % 2 == 1 || y % 2 == 1 then 1 else 0)
  }

  function BitXor(x: nat, y: nat): nat {
    if x == 0 then y else if y == 0 then x
    else 2 * BitXor(x / 2, y / 2) + (x + y) % 2
  }

  /** Bit k of a number. */
  function Bit(x: nat, k: nat): nat {
    (x / Pow2(k)) % 2
  }

  lemma {:induction false} BitShift(x: nat, k: nat)
    requires k > 0
    ensures Bit(x, k) == Bit(x / 2, k - 1)
  {
    DivDiv(x, 2, Pow2(k - 1));
  }

  /** The last bit of each operator, and what remains. */
  lemma {:induction false} LastBits(x: nat, y: nat)
    ensures BitAnd(x, y) % 2 == (x % 2) * (y % 2) && BitAnd(x, y) / 2 == BitAnd(x / 2, y / 2)
    ensures BitOr(x, y) % 2 == (if x % 2 + y % 2 > 0 then 1 else 0) && BitOr(x, y) / 2 == BitOr(x / 2, y / 2)
    ensures BitXor(x, y) % 2 == (if x % 2 == y % 2 then 0 else 1) && BitXor(x, y) / 2 == BitXor(x / 2, y / 2)
  {
    if x > 0 && y > 0 {
      DivModUnique(BitAnd(x, y), BitAnd(x / 2, y / 2), 2, (x % 2) * (y % 2));
      DivModUnique(BitOr(x, y), BitOr(x / 2, y / 2), 2, if x % 2 + y % 2 > 0 then 1 else 0);
      LastSum(x, y);
      DivModUnique(BitXor(x, y), BitXor(x / 2, y / 2), 2, if x % 2 == y % 2 then 0 else 1);
    }
  }

  lemma LastSum(x: nat, y: nat)
    ensures (x + y) % 2 == if x % 2 == y % 2 then 0 else 1
  {
  }

  /** The operators work bit by bit. */
  lemma {:induction false} BitByBit(x: nat, y: nat, k: nat)
    ensures Bit(BitAnd(x, y), k) == (if Bit(x, k) == 1 && Bit(y, k) == 1 then 1 else 0)
    ensures Bit(BitOr(x, y), k) == (if Bit(x, k) == 1 || Bit(y, k) == 1 then 1 else 0)
    ensures Bit(BitXor(x, y), k) == (if Bit(x, k) != Bit(y, k) then 1 else 0)
    decreases k
  {
    LastBits(x, y);
    if k > 0 {
      BitByBit(x / 2, y / 2, k - 1);
      BitShift(x, k);
      BitShift(y, k);
      BitShift(BitAnd(x, y), k);
      BitShift(BitOr(x, y), k);
      BitShift(BitXor(x, y), k);
    }
  }

  /** Setting the lowest bit of an even number adds one. */
  lemma OrOne(x: nat)
    requires x % 2 == 0
    ensures BitOr(x, 1) == x + 1
  {
    if x > 0 {
      assert BitOr(x / 2, 0) == x / 2;
    }
  }

  /** Masking with k low ones keeps the residue modulo 2^k. */
  lemma {:induction false} AndLowMask(x: nat, k: nat)
    ensures BitAnd(x, Pow2(k) - 1) == x % Pow2(k)
  {
    if k == 0 {
      assert x % 1 == 0;
    } else if x == 0 {
      DivModUnique(0, 0, Pow2(k), 0);
    } else {
      AndOddMask(x, Pow2(k - 1));
      AndLowMask(x / 2, k - 1);
      HalfMod(x, k);
    }
  }

  lemma {:induction false} AndOddMask(x: nat, p: nat)
    requires x > 0 && p > 0
    ensures BitAnd(x, 2 * p - 1) == 2 * BitAnd(x / 2, p - 1) + x % 2
  {
    OddMask(x, p);
  }

  lemma HalfMod(x: nat, k: nat)
    requires k > 0
    ensures x % Pow2(k) == 2 * ((x / 2) % Pow2(k - 1)) + x % 2
  {
    var p := Pow2(k - 1);
    var h := x / 2;
    assert h == (h / p) * p + h % p;
    assert x == 2 * h + x % 2;
    assert 2 * ((h / p) * p) == (h / p) * (2 * p);
    DivModUnique(x, h / p, 2 * p, 2 * (h % p) + x % 2);
  }

  /** Exclusive or with k ones is the complement within k bits. */
  lemma {:induction false} XorLowMask(x: nat, k: nat)
    requires x < Pow2(k)
    ensures BitXor(x, Pow2(k) - 1) == Pow2(k) - 1 - x
  {
    if k == 0 || x == 0 {
    } else {
      OddMask(x, Pow2(k - 1));
      XorLowMask(x / 2, k - 1);
    }
  }

  /** Halving a mask of ones, and the last bit of its exclusive or. */
  lemma OddMask(x: nat, p: nat)
    requires p > 0
    ensures (2 * p - 1) / 2 == p - 1 && (2 * p - 1) % 2 == 1 && (x + (2 * p - 1)) % 2 == 1 - x % 2
  {
    DivModUnique(2 * p - 1, p - 1, 2, 1);
    assert x == 2 * (x / 2) + x % 2;
    DivModUnique(x + (2 * p - 1), x / 2 + p - 1 + x % 2, 2, 1 - x % 2);
  }

  /** The low k bits, one at a time. */
  function LowBits(x: nat, k: nat): nat {
    if k == 0 then 0 else 2 * LowBits(x / 2, k - 1) + x % 2
  }

  lemma {:induction false} LowBitsIsMod(x: nat, k: nat)
    ensures LowBits(x, k) == x % Pow2(k)
  {
    if k > 0 {
      LowBitsIsMod(x / 2, k - 1);
      HalfMod(x, k);
    }
  }

  lemma {:induction false} AllLowBits(x: nat, n: nat)
    requires x < Pow2(n)
    ensures LowBits(x, n) == x
  {
    if n > 0 {
      AllLowBits(x / 2, n - 1);
    }
  }

  /** Setting bits k..n-1 replaces everything above the low k bits by ones. */
  lemma {:induction false} OrHighMask(x: nat, k: nat, n: nat)
    requires k <= n && x < Pow2(n)
    ensures Pow2(k) <= Pow2(n)
    ensures BitOr(x, Pow2(n) - Pow2(k)) == Pow2(n) - Pow2(k) + x % Pow2(k)
  {
    OrHighBits(x, k, n);
    LowBitsIsMod(x, k);
  }

  lemma {:induction false} OrHighBits(x: nat, k: nat, n: nat)
    requires k <= n && x < Pow2(n)
    ensures Pow2(k) <= Pow2(n)
    ensures BitOr(x, Pow2(n) - Pow2(k)) == Pow2(n) - Pow2(k) + LowBits(x, k)
  {
    if k == n {
      AllLowBits(x, n);
    } else if k == 0 {
      OrAllOnes(x, n);
    } else {
      OrHighBits(x / 2, k - 1, n - 1);
      var m := Pow2(n - 1) - Pow2(k - 1);
      assert Pow2(n) - Pow2(k) == 2 * m;
      OrHighStep(x, k, m);
    }
  }

  lemma {:induction false} OrHighStep(x: nat, k: nat, m: nat)
    requires k > 0 && BitOr(x / 2, m) == m + LowBits(x / 2, k - 1)
    ensures BitOr(x, 2 * m) == 2 * m + LowBits(x, k)
  {
    OrEven(x, m);
  }

  lemma {:induction false} OrEven(x: nat, m: nat)
    ensures BitOr(x, 2 * m) == 2 * BitOr(x / 2, m) + x % 2
  {
    DivModUnique(2 * m, m, 2, 0);
    if x > 0 && m > 0 {
      assert x % 2 == 1 || x % 2 == 0;
    }
  }

  /** Or of a number with bits that are all above it is their sum. */
  lemma {:induction false} OrShifted(x: nat, y: nat, n: nat)
    requires x < Pow2(n)
    ensures BitOr(y * Pow2(n), x) == y * Pow2(n) + x
    decreases n
  {
    if n > 0 && x > 0 && y > 0 {
      var h := y * Pow2(n - 1);
      assert y * Pow2(n) == 2 * h by {
        MulAssoc(2, y, Pow2(n - 1));
      }
      DivModUnique(2 * h, h, 2, 0);
      OrShifted(x / 2, y, n - 1);
      assert h > 0;
    }
  }

  lemma {:induction false} OrAllOnes(x: nat, n: nat)
    requires x < Pow2(n)
    ensures BitOr(x, Pow2(n) - 1) == Pow2(n) - 1
  {
    if n == 0 || x == 0 {
    } else {
      var m := Pow2(n) - 1;
      assert m / 2 == Pow2(n - 1) - 1 && m % 2 == 1;
      OrAllOnes(x / 2, n - 1);
    }
  }

  // ----- big-endian bytes -----

  function Pow256(k: nat): (p: nat)
    ensures p >= 1
  {
    if k == 0 then 1 else 256 * Pow256(k - 1)
  }

  lemma {:induction false} Pow256IsPow2(k: nat)
    ensures Pow256(k) == Pow2(8 * k)
  {
    if k > 0 {
      Pow256IsPow2(k - 1);
      Pow2At8();
      Pow2Add(8, 8 * (k - 1));
    }
  }

  lemma {:induction false} Pow256Monotone(m: nat, n: nat)
    requires m <= n
    ensures Pow256(m) <= Pow256(n)
  {
    if m < n {
      Pow256Monotone(m, n - 1);
    }
  }

  /** The n low-order bytes of v, most significant first. */
  function BigEndian(n: nat, v: nat): (bs: seq<Byte>)
    ensures |bs| == n
  {
    if n == 0 then [] else BigEndian(n - 1, v / 256) + [v % 256]
  }

  function FromBigEndian(bs: seq<Byte>): nat {
    if bs == [] then 0 else 256 * FromBigEndian(bs[..|bs| - 1]) + bs[|bs| - 1]
  }

  /** Decoding an encoding gives the value back, reduced to the width. */
  lemma {:induction false} BigEndianRoundTrip(n: nat, v: nat)
    ensures FromBigEndian(BigEndian(n, v)) == v % Pow256(n)
  {
    if n > 0 {
      assert BigEndian(n, v)[..n - 1] == BigEndian(n - 1, v / 256);
      BigEndianRoundTrip(n - 1, v / 256);
      ModByParts(v, Pow256(n - 1));
    }
  }

  lemma ModByParts(v: nat, p: nat)
    requires p > 0
    ensures v % (256 * p) == 256 * ((v / 256) % p) + v % 256
  {
    var h := v / 256;
    var q, r := h / p, h % p;
    assert h == q * p + r;
    MulAssoc(256, q, p);
    assert q * (256 * p) == 256 * (q * p);
    DivModUnique(v, q, 256 * p, 256 * r + v % 256);
  }

  lemma {:induction false} FromBigEndianBound(bs: seq<Byte>)
    ensures FromBigEndian(bs) < Pow256(|bs|)
  {
    if bs != [] {
      FromBigEndianBound(bs[..|bs| - 1]);
    }
  }

  /** Encoding a decoding gives the bytes back. */
  lemma {:induction false} FromBigEndianRoundTrip(bs: seq<Byte>)
    ensures BigEndian(|bs|, FromBigEndian(bs)) == bs
  {
    if bs != [] {
      FromBigEndianRoundTrip(bs[..|bs| - 1]);
      var f := FromBigEndian(bs[..|bs| - 1]);
      DivModUnique(256 * f + bs[|bs| - 1], f, 256, bs[|bs| - 1]);
      assert bs == bs[..|bs| - 1] + [bs[|bs| - 1]];
    }
  }

  /** Byte i of an encoding, counted from the most significant end. */
  lemma {:induction false} BigEndianAt(n: nat, v: nat, i: nat)
    requires i < n
    ensures BigEndian(n, v)[i] == (v / Pow256(n - 1 - i)) % 256
  {
    if i < n - 1 {
      BigEndianAt(n - 1, v / 256, i);
      DivDiv(v, 256, Pow256(n - 2 - i));
    }
  }

  lemma DivDiv(v: nat, a: nat, b: nat)
    requires a > 0 && b > 0
    ensures a * b > 0
    ensures (v / a) / b == v / (a * b)
  {
    assert a * b > 0;
    var q := v / a;
    assert v == q * a + v % a;
    assert q == (q / b) * b + q % b;
    assert q * a == (q / b) * (b * a) + (q % b) * a by {
      assert ((q / b) * b) * a == (q / b) * (b * a);
      assert ((q / b) * b + q % b) * a == ((q / b) * b) * a + (q % b) * a;
    }
    var r := (q % b) * a + v % a;
    MulMonotone(q % b, b - 1, a);
    assert (b - 1) * a == b * a - a;
    assert 0 <= r < a * b;
    assert v == (q / b) * (a * b) + r;
    DivModUnique(v, q / b, a * b, r);
  }

  // ----- sequences -----

  function Zeros(n: nat): (s: seq<Byte>)
    ensures |s| == n
    ensures forall i :: 0 <= i < n ==> s[i] == 0
  {
    seq(n, _ => 0)
  }
}
