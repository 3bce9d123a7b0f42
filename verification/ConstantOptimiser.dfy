/**
 Decomposition of constants into short arithmetic routines, and the tiny evaluator that
 checks a routine against the constant it is to compute.
 */
module ConstantOptimiser {
  import opened Words
  import opened Evm
  import opened Items

  const EXP: Byte := 0x0a
  const ADD: Byte := 0x01
  const MUL: Byte := 0x02
  const SUB: Byte := 0x03
  const NOT: Byte := 0x19

  function WrapWide(i: int): Wide {
    i % TWO_256
  }

  function Complement(v: Wide): Wide {
    TWO_256 - 1 - v
  }

  /** Result of a binary operation on the top and the item below it; None if not supported. */
  function Combine(op: Byte, top: Wide, below: Wide): Option<Wide> {
    if op == MUL then Some(WrapWide(top * below))
    else if op == EXP then (if below > 0xff then None else Some(WrapWide(Power(top, below))))
    else if op == ADD then Some(WrapWide(top + below))
    else if op == SUB then Some(WrapWide(top - below))
    else None
  }

  /** One item on the evaluator's stack. */
  function RunItem(item: Item, s: seq<Wide>): Option<seq<Wide>> {
    var n := |s|;
    match item
    case Push(data) => Some(s + [data])
    case Operation(op) =>
      if op == NOT then (if n >= 1 then Some(s[..n - 1] + [Complement(s[n - 1])]) else None)
      else if n < 2 then None
      else
        var r := Combine(op, s[n - 1], s[n - 2]);
        if r.Some? then Some(s[..n - 2] + [r.value]) else None
    case _ => None
  }

  function RunItems(routine: seq<Item>, s: seq<Wide>): Option<seq<Wide>> {
    if routine == [] then Some(s)
    else match RunItems(routine[..|routine| - 1], s)
      case None => None
      case Some(s') => RunItem(routine[|routine| - 1], s')
  }

  /** On any stack, the routine pushes the value. */
  ghost predicate Computes(routine: seq<Item>, value: Wide) {
    forall s :: RunItems(routine, s) == Some(s + [value])
  }

  lemma {:induction false} RunConcat(a: seq<Item>, b: seq<Item>, s: seq<Wide>)
    ensures RunItems(a + b, s) ==
            match RunItems(a, s) { case None => None case Some(s') => RunItems(b, s') }
    decreases |b|
  {
    if b == [] {
      assert a + b == a;
    } else {
      assert (a + b)[..|a + b| - 1] == a + b[..|b| - 1];
      RunConcat(a, b[..|b| - 1], s);
    }
  }

  lemma {:induction false} RunSingle(item: Item, s: seq<Wide>)
    ensures RunItems([item], s) == RunItem(item, s)
  {
    assert [item][..0] == [];
  }

  // ----- building routines -----

  lemma {:induction false} PushComputes(value: Wide)
    ensures Computes([Push(value)], value)
  {
    forall s ensures RunItems([Push(value)], s) == Some(s + [value]) {
      RunSingle(Push(value), s);
    }
  }

  lemma {:induction false} NotComputes(routine: seq<Item>, value: Wide)
    requires Computes(routine, Complement(value))
    ensures Computes(routine + [Operation(NOT)], value)
  {
    forall s ensures RunItems(routine + [Operation(NOT)], s) == Some(s + [value]) {
      RunConcat(routine, [Operation(NOT)], s);
      var s' := s + [Complement(value)];
      RunSingle(Operation(NOT), s');
      assert s'[..|s'| - 1] == s;
    }
  }

  /** Two routines and an operation on their results, the second's being on top. */
  lemma {:induction false} CombineComputes(below: seq<Item>, top: seq<Item>, op: Byte, x: Wide, y: Wide, value: Wide)
    requires Computes(below, x) && Computes(top, y) && op != NOT && Combine(op, y, x) == Some(value)
    ensures Computes((below + top) + [Operation(op)], value)
  {
    forall s ensures RunItems((below + top) + [Operation(op)], s) == Some(s + [value]) {
      RunConcat(below + top, [Operation(op)], s);
      RunConcat(below, top, s);
      var s' := s + [x] + [y];
      RunSingle(Operation(op), s');
      assert s'[..|s'| - 2] == s && s'[|s'| - 1] == y && s'[|s'| - 2] == x;
    }
  }

  lemma {:induction false} PowerOfTwo(bits: nat)
    ensures Power(2, bits) == Pow2(bits)
  {
    if bits > 0 {
      PowerOfTwo(bits - 1);
    }
  }

  function ShiftRoutine(bits: nat): seq<Item>
    requires bits < 256
  {
    [Push(bits), Push(2), Operation(EXP)]
  }

  lemma {:induction false} Pow2Wide(bits: nat)
    requires bits < 256
    ensures Pow2(bits) < TWO_256
  {
    Pow2At256();
    Pow2Monotone(bits, 255);
  }

  lemma {:induction false} ShiftComputes(bits: nat)
    requires bits < 256
    ensures Pow2(bits) < TWO_256 && Computes(ShiftRoutine(bits), Pow2(bits))
  {
    PushComputes(bits);
    PushComputes(2);
    PowerOfTwo(bits);
    Pow2Wide(bits);
    DivModUnique(Pow2(bits), 0, TWO_256, Pow2(bits));
    CombineComputes([Push(bits)], [Push(2)], EXP, bits, 2, Pow2(bits));
    assert ([Push(bits)] + [Push(2)]) + [Operation(EXP)] == ShiftRoutine(bits);
  }

  // ----- decomposition -----

  /** value == upper * 2^bits + lower, with a lower part that may be negative. */
  datatype Parts = Parts(upper: nat, lower: int)

  function Decompose(value: Wide, bits: nat): Parts {
    var p := Pow2(bits);
    var upper, lower := value / p, value % p;
    if p - lower < lower then Parts(upper + 1, lower - p) else Parts(upper, lower)
  }

  lemma {:induction false} DecomposeExact(value: Wide, bits: nat)
    ensures value == Decompose(value, bits).upper * Pow2(bits) + Decompose(value, bits).lower
  {
    var p := Pow2(bits);
    var upper := value / p;
    assert value == upper * p + value % p;
    assert (upper + 1) * p == upper * p + p;
  }

  /** Both parts are smaller than the value, so decomposition comes to an end. */
  lemma {:induction false} PartsSmaller(value: Wide, bits: nat)
    requires value >= 0x10000 && 8 < bits < 256
    requires Decompose(value, bits).upper != 0 && Abs(Decompose(value, bits).lower) < Pow2(bits - 8)
    ensures Abs(Decompose(value, bits).lower) < value
    ensures Decompose(value, bits).upper < value
  {
    var p := Pow2(bits);
    Pow2Monotone(9, bits);
    Pow2At8();
    Pow2Monotone(bits - 8, bits - 1);
    SmallerParts(value, p, Pow2(bits - 8));
  }

  lemma {:induction false} SmallerParts(value: nat, p: nat, m: nat)
    requires value >= 0x10000 && p >= 512 && 2 * m <= p
    ensures value / p + 1 < value
    ensures value / p >= 1 || 2 * (value % p) > p ==> m <= value
  {
    var upper, lower := value / p, value % p;
    assert value == upper * p + lower;
    MulMonotone(512, p, upper);
    assert p * upper == upper * p;
    if upper >= 1 {
      MulMonotone(1, upper, p);
    }
  }

  /** The negation of a value is smaller if it takes fewer bytes. */
  lemma {:induction false} FewerBytesSmaller(v: nat, w: nat)
    requires SignificantBytes(v) < SignificantBytes(w)
    ensures v < w
    decreases w
  {
    if v > 0 && w > 0 {
      FewerBytesSmaller(v / 256, w / 256);
    }
  }

  lemma {:induction false} RecombineUpper(upper: Wide, bits: nat)
    requires bits < 256
    ensures Pow2(bits) < TWO_256
    ensures Combine(MUL, upper, Pow2(bits)) == Some(WrapWide(upper * Pow2(bits)))
  {
    Pow2Wide(bits);
  }

  /** Adding or subtracting the lower part gives the value, whatever wraps on the way. */
  lemma {:induction false} RecombineLower(value: Wide, product: int, lower: int)
    requires value == product + lower
    ensures lower > 0 && lower < TWO_256 ==> Combine(ADD, WrapWide(product), lower) == Some(value)
    ensures lower < 0 && -lower < TWO_256 ==> Combine(SUB, WrapWide(product), -lower) == Some(value)
    ensures lower == 0 ==> WrapWide(product) == value
  {
    var q := product / TWO_256;
    assert product == q * TWO_256 + WrapWide(product);
    DivModUnique(WrapWide(product) + lower, -q, TWO_256, value);
  }

  /** The routine for upper * 2^bits. */
  lemma {:induction false} UpperComputes(bits: nat, upper: Wide, routine: seq<Item>)
    requires bits < 256 && Computes(routine, upper)
    ensures Computes((ShiftRoutine(bits) + routine) + [Operation(MUL)], WrapWide(upper * Pow2(bits)))
  {
    ShiftComputes(bits);
    RecombineUpper(upper, bits);
    CombineComputes(ShiftRoutine(bits), routine, MUL, Pow2(bits), upper, WrapWide(upper * Pow2(bits)));
  }

  /** With upper part 1 no multiplication is needed. */
  lemma {:induction false} UnitUpperComputes(bits: nat)
    requires bits < 256
    ensures Computes(ShiftRoutine(bits), WrapWide(1 * Pow2(bits)))
  {
    ShiftComputes(bits);
    DivModUnique(Pow2(bits), 0, TWO_256, Pow2(bits));
  }

  // ----- the search -----

  predicate IsShorterNegated(v: Wide) {
    SignificantBytes(Complement(v)) < SignificantBytes(v)
  }

  /** The bits above and below a position look like those of a multiple of a power of two, or just below one. */
  predicate HasGap(v: Wide, bits: nat)
    requires bits >= 8
  {
    var gapDetector := (v / Pow2(bits - 8)) % 512;
    gapDetector == 0xff || gapDetector == 0x100
  }

  predicate Splits(v: Wide, bits: nat)
    requires bits >= 8
  {
    && HasGap(v, bits) && Decompose(v, bits).upper != 0
    && Abs(Decompose(v, bits).lower) < Pow2(bits - 8)
  }

  /** Routines for the parts put together. */
  function Joined(parts: Parts, bits: nat, lower: seq<Item>, upper: seq<Item>): seq<Item>
    requires bits < 256
  {
    var rest := if parts.upper == 1 then ShiftRoutine(bits) else (ShiftRoutine(bits) + upper) + [Operation(MUL)];
    if parts.lower > 0 then (lower + rest) + [Operation(ADD)]
    else if parts.lower < 0 then (lower + rest) + [Operation(SUB)]
    else rest
  }

  type GasEstimate = seq<Item> -> int

  /** The routine found for a value within a number of steps, and the steps that are left. */
  function Find(gas: GasEstimate, v: Wide, steps: nat): (r: (seq<Item>, nat))
    ensures r.1 <= steps
    decreases v, 2, 0
  {
    if v < 0x10000 then ([Push(v)], steps)
    else if IsShorterNegated(v) then
      FewerBytesSmaller(Complement(v), v);
      var r := Find(gas, Complement(v), steps);
      (r.0 + [Operation(NOT)], r.1)
    else Scan(gas, v, 255, [Push(v)], steps)
  }

  /** The best of a routine and those for splitting at the given position or below. */
  function Scan(gas: GasEstimate, v: Wide, bits: nat, best: seq<Item>, steps: nat): (r: (seq<Item>, nat))
    requires v >= 0x10000 && bits < 256
    ensures r.1 <= steps
    decreases v, 1, bits
  {
    if bits <= 8 || steps == 0 then (best, steps)
    else if !Splits(v, bits) then Scan(gas, v, bits - 1, best, steps)
    else
      var c := Candidate(gas, v, bits, steps);
      Scan(gas, v, bits - 1, if gas(c.0) < gas(best) then c.0 else best, if c.1 > 0 then c.1 - 1 else 0)
  }

  function Candidate(gas: GasEstimate, v: Wide, bits: nat, steps: nat): (r: (seq<Item>, nat))
    requires v >= 0x10000 && 8 < bits < 256 && Splits(v, bits)
    ensures r.1 <= steps
    decreases v, 0, 0
  {
    PartsSmaller(v, bits);
    var parts := Decompose(v, bits);
    var lower := if parts.lower == 0 then ([], steps) else Find(gas, Abs(parts.lower), steps);
    var upper := if parts.upper == 1 then ([], lower.1) else Find(gas, parts.upper, lower.1);
    (Joined(parts, bits, lower.0, upper.0), upper.1)
  }

  lemma {:induction false} JoinedComputes(v: Wide, bits: nat, lower: seq<Item>, upper: seq<Item>)
    requires v >= 0x10000 && 8 < bits < 256 && Splits(v, bits)
    requires
      var parts := Decompose(v, bits);
      && Abs(parts.lower) < v && parts.upper < v
      && (parts.lower != 0 ==> Computes(lower, Abs(parts.lower)))
      && (parts.upper != 1 ==> Computes(upper, parts.upper))
    ensures Computes(Joined(Decompose(v, bits), bits, lower, upper), v)
  {
    var parts := Decompose(v, bits);
    DecomposeExact(v, bits);
    var product := parts.upper * Pow2(bits);
    RecombineLower(v, product, parts.lower);
    var rest := if parts.upper == 1 then ShiftRoutine(bits) else (ShiftRoutine(bits) + upper) + [Operation(MUL)];
    if parts.upper == 1 {
      UnitUpperComputes(bits);
    } else {
      UpperComputes(bits, parts.upper, upper);
    }
    if parts.lower > 0 {
      CombineComputes(lower, rest, ADD, parts.lower, WrapWide(product), v);
    } else if parts.lower < 0 {
      CombineComputes(lower, rest, SUB, -parts.lower, WrapWide(product), v);
    }
  }

  /** Whatever the step budget and the gas estimate, the routine found computes the value. */
  lemma {:induction false} FindComputes(gas: GasEstimate, v: Wide, steps: nat)
    ensures Computes(Find(gas, v, steps).0, v)
    decreases v, 2, 0
  {
    PushComputes(v);
    if v >= 0x10000 {
      if IsShorterNegated(v) {
        FewerBytesSmaller(Complement(v), v);
        FindComputes(gas, Complement(v), steps);
        NotComputes(Find(gas, Complement(v), steps).0, v);
      } else {
        ScanComputes(gas, v, 255, [Push(v)], steps);
      }
    }
  }

  lemma {:induction false} ScanComputes(gas: GasEstimate, v: Wide, bits: nat, best: seq<Item>, steps: nat)
    requires v >= 0x10000 && bits < 256 && Computes(best, v)
    ensures Computes(Scan(gas, v, bits, best, steps).0, v)
    decreases v, 1, bits
  {
    if bits > 8 && steps > 0 {
      if Splits(v, bits) {
        var c := Candidate(gas, v, bits, steps);
        CandidateComputes(gas, v, bits, steps);
        ScanComputes(gas, v, bits - 1, if gas(c.0) < gas(best) then c.0 else best, if c.1 > 0 then c.1 - 1 else 0);
      } else {
        ScanComputes(gas, v, bits - 1, best, steps);
      }
    }
  }

  lemma {:induction false} CandidateComputes(gas: GasEstimate, v: Wide, bits: nat, steps: nat)
    requires v >= 0x10000 && 8 < bits < 256 && Splits(v, bits)
    ensures Computes(Candidate(gas, v, bits, steps).0, v)
    decreases v, 0, 0
  {
    PartsSmaller(v, bits);
    var parts := Decompose(v, bits);
    var lower := if parts.lower == 0 then ([], steps) else Find(gas, Abs(parts.lower), steps);
    var upper := if parts.upper == 1 then ([], lower.1) else Find(gas, parts.upper, lower.1);
    if parts.lower != 0 {
      FindComputes(gas, Abs(parts.lower), steps);
    }
    if parts.upper != 1 {
      FindComputes(gas, parts.upper, lower.1);
    }
    JoinedComputes(v, bits, lower.0, upper.0);
  }

  // ----- what is searched, and what is found -----

  /** A sum of an odd multiple of a power of two and a part that is small in comparison. */
  ghost predicate IsSum(v: Wide, bits: nat, a: nat, b: int)
    requires bits >= 8
  {
    a % 2 == 1 && v == a * Pow2(bits) + b && Abs(b) < Pow2(bits - 8)
  }

  /** The position at which a value splits are exactly those at which it is such a sum; the parts are its terms. */
  lemma {:induction false} SplitsExact(v: Wide, bits: nat)
    requires bits >= 8
    ensures Splits(v, bits) <==> exists a: nat, b: int :: IsSum(v, bits, a, b)
    ensures Splits(v, bits) ==> IsSum(v, bits, Decompose(v, bits).upper, Decompose(v, bits).lower)
  {
    if Splits(v, bits) {
      SplitIsSum(v, bits);
      assert IsSum(v, bits, Decompose(v, bits).upper, Decompose(v, bits).lower);
    }
    if exists a: nat, b: int :: IsSum(v, bits, a, b) {
      var a: nat, b: int :| IsSum(v, bits, a, b);
      EightMore(bits - 8);
      if b >= 0 {
        SplitsAbove(v, bits, a, b, Pow2(bits), Pow2(bits - 8));
      } else {
        SplitsBelow(v, bits, a, b, Pow2(bits), Pow2(bits - 8));
      }
    }
  }

  lemma {:induction false} EightMore(n: nat)
    ensures Pow2(n + 8) == 256 * Pow2(n)
  {
    Pow2Add(n, 8);
    Pow2At8();
  }

  /** Dividing by 256 q in two steps. */
  lemma {:induction false} Quotient(v: nat, h: nat, q: nat, l: nat, m: nat, rest: nat)
    requires q > 0 && l < 256 && rest < q && m == l * q && v == (256 * h + l) * q + rest
    ensures v / (256 * q) == h && v % (256 * q) == m + rest
    ensures v / q == 256 * h + l && v % q == rest
  {
    assert (256 * h + l) * q == h * (256 * q) + l * q;
    MulMonotone(l, 255, q);
    DivModUnique(v, h, 256 * q, m + rest);
    DivModUnique(v, 256 * h + l, q, rest);
  }

  lemma {:induction false} DecomposeIs(v: Wide, bits: nat, p: nat, h: nat, low: nat)
    requires p == Pow2(bits) && v / p == h && v % p == low
    ensures Decompose(v, bits) == if p - low < low then Parts(h + 1, low - p) else Parts(h, low)
  {
  }

  lemma {:induction false} GapIs(v: Wide, bits: nat, q: nat, t: nat)
    requires bits >= 8 && q == Pow2(bits - 8) && v / q == t
    ensures HasGap(v, bits) <==> t % 512 == 0xff || t % 512 == 0x100
  {
  }

  lemma {:induction false} SplitIsSum(v: Wide, bits: nat)
    requires bits >= 8 && Splits(v, bits)
    ensures IsSum(v, bits, Decompose(v, bits).upper, Decompose(v, bits).lower)
  {
    var t, rest := Divided(v, Pow2(bits - 8));
    GapIs(v, bits, Pow2(bits - 8), t);
    DecomposeExact(v, bits);
    EightMore(bits - 8);
    SplitIsOdd(v, Pow2(bits - 8), t, rest, bits);
  }

  lemma Divided(v: nat, q: nat) returns (t: nat, rest: nat)
    requires q > 0
    ensures v / q == t && v % q == rest < q && v == t * q + rest
  {
    t, rest := v / q, v % q;
  }

  lemma {:induction false} SplitIsOdd(v: Wide, q: nat, t: nat, rest: nat, bits: nat)
    requires q > 0 && Pow2(bits) == 256 * q && v == t * q + rest && rest < q
    requires t % 512 == 0xff || t % 512 == 0x100
    ensures Decompose(v, bits).upper % 2 == 1
  {
    var k := t / 512;
    if t % 512 == 0x100 {
      Quotient(v, 2 * k + 1, q, 0, 0, rest);
      DecomposeIs(v, bits, 256 * q, 2 * k + 1, rest);
    } else {
      Quotient(v, 2 * k, q, 255, 255 * q, rest);
      DecomposeIs(v, bits, 256 * q, 2 * k, 255 * q + rest);
    }
  }

  lemma {:induction false} SplitsAbove(v: Wide, bits: nat, a: nat, b: nat, p: nat, q: nat)
    requires bits >= 8 && q == Pow2(bits - 8) && p == Pow2(bits) == 256 * q
    requires a % 2 == 1 && v == a * p + b && b < q
    ensures Splits(v, bits)
  {
    AboveMultiple(v, a, b, p, q);
    SplitsWith(v, bits, p, q, a, b, 512 * (a / 2) + 256);
  }

  lemma {:induction false} AboveMultiple(v: nat, a: nat, b: nat, p: nat, q: nat)
    requires a % 2 == 1 && p == 256 * q && v == a * p + b && b < q
    ensures v / p == a && v % p == b && v / q == 512 * (a / 2) + 256
  {
    assert a * (256 * q) == (256 * a + 0) * q;
    Quotient(v, a, q, 0, 0, b);
  }

  lemma {:induction false} SplitsBelow(v: Wide, bits: nat, a: nat, b: int, p: nat, q: nat)
    requires bits >= 8 && q == Pow2(bits - 8) && p == Pow2(bits) == 256 * q
    requires a % 2 == 1 && v == a * p + b && b < 0 < q + b
    ensures Splits(v, bits)
  {
    BelowMultiple(v, a, b, p, q);
    SplitsJustBelow(v, bits, p, q, a - 1, b, 512 * (a / 2) + 255);
  }

  lemma {:induction false} SplitsJustBelow(v: Wide, bits: nat, p: nat, q: nat, h: nat, b: int, t: nat)
    requires bits >= 8 && q == Pow2(bits - 8) && p == Pow2(bits) == 256 * q
    requires v / p == h && v % p == p + b && v / q == t && t % 512 == 0xff && b < 0 < q + b
    ensures Splits(v, bits)
  {
    SplitsWith(v, bits, p, q, h, p + b, t);
  }

  lemma {:induction false} BelowMultiple(v: nat, a: nat, b: int, p: nat, q: nat)
    requires a % 2 == 1 && p == 256 * q && v == a * p + b && b < 0 < q + b
    ensures v / p == a - 1 && v % p == p + b && v / q == 512 * (a / 2) + 255
  {
    OneLess(a, q);
    Quotient(v, a - 1, q, 255, 255 * q, q + b);
  }

  lemma OneLess(a: nat, q: nat)
    ensures a * (256 * q) == (256 * (a - 1) + 255) * q + q
  {
  }

  lemma {:induction false} SplitsWith(v: Wide, bits: nat, p: nat, q: nat, h: nat, low: nat, t: nat)
    requires bits >= 8 && p == Pow2(bits) && q == Pow2(bits - 8)
    requires v / p == h && v % p == low && v / q == t && (t % 512 == 0xff || t % 512 == 0x100)
    requires if p - low < low then p - low < q else h != 0 && low < q
    ensures Splits(v, bits)
  {
    DecomposeIs(v, bits, p, h, low);
    GapIs(v, bits, q, t);
  }

  /** What a scan returns is its best routine or a strictly cheaper candidate. */
  ghost predicate IsCandidate(gas: GasEstimate, v: Wide, bits: nat, steps: nat, routine: seq<Item>) {
    v >= 0x10000 && 8 < bits < 256 && Splits(v, bits) && routine == Candidate(gas, v, bits, steps).0
  }

  /** No dearer than the routine for splitting at the position, within some number of steps. */
  ghost predicate Beats(gas: GasEstimate, v: Wide, bits: nat, most: nat, routine: seq<Item>)
    requires v >= 0x10000 && 8 < bits < 256 && Splits(v, bits)
  {
    exists steps: nat :: 0 < steps <= most && gas(routine) <= gas(Candidate(gas, v, bits, steps).0)
  }

  lemma {:induction false} ScanCheapest(gas: GasEstimate, v: Wide, bits: nat, best: seq<Item>, steps: nat)
    requires v >= 0x10000 && bits < 256
    ensures
      var r := Scan(gas, v, bits, best, steps);
      && gas(r.0) <= gas(best)
      && (r.0 == best || exists k: nat, n: nat :: IsCandidate(gas, v, k, n, r.0) && gas(r.0) < gas(best))
      && (r.1 > 0 ==> forall k :: 8 < k <= bits && Splits(v, k) ==> Beats(gas, v, k, steps, r.0))
    decreases bits
  {
    var r := Scan(gas, v, bits, best, steps);
    if bits > 8 && steps > 0 {
      if Splits(v, bits) {
        var c := Candidate(gas, v, bits, steps);
        var better := if gas(c.0) < gas(best) then c.0 else best;
        ScanCheapest(gas, v, bits - 1, better, if c.1 > 0 then c.1 - 1 else 0);
        assert IsCandidate(gas, v, bits, steps, c.0);
        assert gas(r.0) <= gas(c.0);
        assert Beats(gas, v, bits, steps, r.0);
      } else {
        ScanCheapest(gas, v, bits - 1, best, steps);
      }
    }
  }

  /**
   The routine found for a value that is not shorter negated is the literal or comes from a
   split and is cheaper; and if steps are left, no split at any position would have been.
   */
  lemma {:induction false} FindCheapest(gas: GasEstimate, v: Wide, steps: nat)
    requires v >= 0x10000 && !IsShorterNegated(v)
    ensures
      var r := Find(gas, v, steps);
      && gas(r.0) <= gas([Push(v)])
      && (r.0 == [Push(v)] || exists k: nat, n: nat :: IsCandidate(gas, v, k, n, r.0) && gas(r.0) < gas([Push(v)]))
      && (r.1 > 0 ==> forall k :: 8 < k < 256 && Splits(v, k) ==> Beats(gas, v, k, steps, r.0))
  {
    ScanCheapest(gas, v, 255, [Push(v)], steps);
  }

  class ComputeMethod {
    const gasNeeded: GasEstimate  // estimated gas of a routine
    const value: Wide
    var maxSteps: nat
    var routine: seq<Item>

    /** The check of the routine found always passes. */
    constructor (gasNeeded: GasEstimate, value: Wide, maxSteps: nat)
      ensures this.value == value && routine == Find(gasNeeded, value, maxSteps).0 && Computes(routine, value)
    {
      this.gasNeeded, this.value, this.maxSteps, this.routine := gasNeeded, value, maxSteps, [];
      new;
      var r := FindRepresentation(value);
      routine := r;
      var ok := CheckRepresentation(value, routine);
      assert RunItems(routine, []) == Some([] + [value]) && [] + [value] == [value];
      assert ok;
    }

    /** Finds a routine that computes the value; whatever the step budget and the gas estimate, it does. */
    method FindRepresentation(v: Wide) returns (found: seq<Item>)
      modifies this`maxSteps
      ensures (found, maxSteps) == Find(gasNeeded, v, old(maxSteps))
      ensures Computes(found, v)
      decreases v, 1
    {
      FindComputes(gasNeeded, v, maxSteps);
      if v < 0x10000 {
        return [Push(v)];
      }
      if SignificantBytes(Complement(v)) < SignificantBytes(v) {
        FewerBytesSmaller(Complement(v), v);
        var negated := FindRepresentation(Complement(v));
        return negated + [Operation(NOT)];
      }
      found := [Push(v)];
      var bestGas := gasNeeded(found);
      var bits := 255;
      while bits > 8 && maxSteps > 0
        invariant 8 <= bits <= 255 && bestGas == gasNeeded(found)
        invariant Scan(gasNeeded, v, bits, found, maxSteps) == Find(gasNeeded, v, old(maxSteps))
        decreases bits
      {
        if HasGap(v, bits) {
          var parts := Decompose(v, bits);
          if parts.upper != 0 && Abs(parts.lower) < Pow2(bits - 8) {
            var candidate := TryParts(v, bits);
            if maxSteps > 0 {
              maxSteps := maxSteps - 1;
            }
            var newGas := gasNeeded(candidate);
            if newGas < bestGas {
              bestGas, found := newGas, candidate;
            }
          }
        }
        bits := bits - 1;
      }
    }

    /** The routine for a decomposition into upper * 2^bits + lower. */
    method TryParts(v: Wide, bits: nat) returns (candidate: seq<Item>)
      requires v >= 0x10000 && 8 < bits < 256 && Splits(v, bits)
      modifies this`maxSteps
      ensures (candidate, maxSteps) == Candidate(gasNeeded, v, bits, old(maxSteps))
      decreases v, 0
    {
      var parts := Decompose(v, bits);
      PartsSmaller(v, bits);
      var lower := [];
      if parts.lower != 0 {
        lower := FindRepresentation(Abs(parts.lower));
      }
      candidate := ShiftRoutine(bits);
      if parts.upper != 1 {
        var upper := FindRepresentation(parts.upper);
        candidate := (candidate + upper) + [Operation(MUL)];
      }
      if parts.lower > 0 {
        candidate := (lower + candidate) + [Operation(ADD)];
      } else if parts.lower < 0 {
        candidate := (lower + candidate) + [Operation(SUB)];
      }
    }

    /** Evaluates a routine on an empty stack and compares the only item left with the value. */
    method CheckRepresentation(v: Wide, r: seq<Item>) returns (ok: bool)
      ensures ok <==> RunItems(r, []) == Some([v])
    {
      var stack: seq<Wide> := [];
      var i := 0;
      while i < |r|
        invariant 0 <= i <= |r| && RunFirst(r, i) == Some(stack)
      {
        var next := RunItem(r[i], stack);
        if next.None? {
          FailsEarly(r, i + 1);
          return false;
        }
        stack := next.value;
        i := i + 1;
      }
      RunFirstIs(r, |r|);
      ok := |stack| == 1 && stack[0] == v;
      assert ok ==> stack == [v];
    }
  }

  /** The first i items run on an empty stack. */
  function RunFirst(r: seq<Item>, i: nat): Option<seq<Wide>>
    requires i <= |r|
  {
    if i == 0 then Some([])
    else match RunFirst(r, i - 1)
      case None => None
      case Some(s) => RunItem(r[i - 1], s)
  }

  lemma {:induction false} RunFirstIs(r: seq<Item>, i: nat)
    requires i <= |r|
    ensures RunFirst(r, i) == RunItems(r[..i], [])
    ensures i == |r| ==> RunFirst(r, i) == RunItems(r, [])
  {
    if i > 0 {
      RunFirstIs(r, i - 1);
      assert r[..i][..i - 1] == r[..i - 1];
    }
    assert i == |r| ==> r[..i] == r;
  }

  lemma {:induction false} FailsEarly(r: seq<Item>, n: nat)
    requires n <= |r| && RunFirst(r, n).None?
    ensures RunItems(r, []).None?
    decreases |r| - n
  {
    if n == |r| {
      RunFirstIs(r, n);
    } else {
      FailsEarly(r, n + 1);
    }
  }
}
