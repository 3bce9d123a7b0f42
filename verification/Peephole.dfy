/**
 The peephole optimiser: local rewriting of assembly items, and a proof that a rewritten
 program does what the original does, across all jumps.
 */
module Peephole {
  import opened Words
  import opened Items
  import opened AsmMachine
  import opened Pieces

  // ----- the rules -----

  predicate IsOp(item: Item, b: Byte) {
    item == Operation(b)
  }

  predicate IsPushPop(push: Item, pop: Item) {
    IsOp(pop, POP) && !push.Tag? && (push.Operation? ==> IsDupCode(push.op))
  }

  predicate IsOpPop(op: Item, pop: Item) {
    IsOp(pop, POP) && op.Operation? && InfoOf(op.op).ret == 1 && !InfoOf(op.op).sideEffects
  }

  predicate IsDoublePush(a: Item, b: Item) {
    a.Push? && a == b
  }

  predicate IsDoubleSwap(a: Item, b: Item) {
    a == b && a.Operation? && IsSwapCode(a.op)
  }

  predicate IsJumpToNext(push: Item, jump: Item, tag: Item) {
    push.PushTag? && (IsOp(jump, JUMP) || IsOp(jump, JUMPI)) && tag == Tag(push.tag)
  }

  predicate IsTagConjunction(push: Item, constant: Item, and: Item) {
    push.PushTag? && IsOp(and, AND) && constant.Push? && constant.data % 0x1_0000_0000 == 0xFFFF_FFFF
  }

  /** Instructions that control never falls out of. */
  predicate IsDeadEnd(item: Item) {
    item.Operation? && (item.op == JUMP || IsEnding(item.op))
  }

  /** First position at or after j that holds a tag, or the end. */
  function NextTag(items: seq<Item>, j: nat): (k: nat)
    requires j <= |items|
    ensures j <= k <= |items| && (forall m :: j <= m < k ==> !items[m].Tag?) && (k < |items| ==> items[k].Tag?)
    decreases |items| - j
  {
    if j == |items| || items[j].Tag? then j else NextTag(items, j + 1)
  }

  function Pops(n: nat): (r: seq<Item>)
    ensures |r| == n && forall k :: 0 <= k < n ==> r[k] == Operation(POP)
  {
    seq(n, _ => Operation(POP))
  }

  /** What happens at a position: how many items are consumed, and what is put out. */
  datatype Rewrite = Rewrite(len: nat, out: seq<Item>)

  function Window(items: seq<Item>, i: nat): (r: Rewrite)
    requires i < |items|
    ensures 0 < r.len <= |items| - i
  {
    var n := |items| - i;
    if n >= 2 && IsPushPop(items[i], items[i + 1]) then Rewrite(2, [])
    else if n >= 2 && IsOpPop(items[i], items[i + 1]) then Rewrite(2, Pops(InfoOf(items[i].op).args))
    else if n >= 2 && IsDoublePush(items[i], items[i + 1]) then Rewrite(2, [items[i], Operation(DUP1)])
    else if n >= 2 && IsDoubleSwap(items[i], items[i + 1]) then Rewrite(2, [])
    else if n >= 3 && IsJumpToNext(items[i], items[i + 1], items[i + 2]) then
      Rewrite(3, if IsOp(items[i + 1], JUMPI) then [Operation(POP), items[i + 2]] else [items[i + 2]])
    else if IsDeadEnd(items[i]) && NextTag(items, i + 1) > i + 1 then
      Rewrite(NextTag(items, i + 1) - i, [items[i]])
    else if n >= 3 && IsTagConjunction(items[i], items[i + 1], items[i + 2]) then Rewrite(3, [items[i]])
    else Rewrite(1, [items[i]])
  }

  function PieceOf(items: seq<Item>, i: nat): Piece
    requires i < |items|
  {
    Piece(items[i..i + Window(items, i).len], Window(items, i).out)
  }

  /** The pieces a pass cuts the items from a position on into. */
  function Plan(items: seq<Item>, i: nat): seq<Piece>
    requires i <= |items|
    decreases |items| - i
  {
    if i == |items| then [] else [PieceOf(items, i)] + Plan(items, i + Window(items, i).len)
  }

  /** The result of a pass. */
  function Pass(items: seq<Item>): seq<Item> {
    After(Plan(items, 0))
  }

  // ----- the straight-line rules -----

  /** Items that push a single word; larger constants and library addresses push two. */
  predicate OneWord(item: Item) {
    !item.PushLibraryAddress? && (item.Push? ==> item.data < TWO_128)
  }

  lemma {:induction false} PushPopSame<W>(itp: Interp<W>, push: Item, pop: Item, s: seq<Word>, w: W)
    requires IsPushPop(push, pop) && OneWord(push) && Straight(itp, [push, pop], s, w).Some?
    ensures Straight(itp, [push, pop], s, w) == Some((s, w))
  {
    Straight2(itp, push, pop, s, w);
    var r := Local(itp, push, s, w).value;
    assert r.0[..|r.0| - 1] == s;
  }

  /** Dropping a push that is popped at once is right exactly for single words. */
  lemma {:induction false} PushPopExact<W>(itp: Interp<W>, push: Item, pop: Item, s: seq<Word>, w: W)
    requires IsPushPop(push, pop) && Straight(itp, [push, pop], s, w).Some?
    ensures Straight(itp, [push, pop], s, w) == Straight(itp, [], s, w) <==> OneWord(push)
  {
    if OneWord(push) {
      PushPopSame(itp, push, pop, s, w);
    } else {
      Straight2(itp, push, pop, s, w);
      assert |Straight(itp, [push, pop], s, w).value.0| == |s| + 1;
    }
  }

  lemma {:induction false} PopsRun<W>(itp: Interp<W>, n: nat, s: seq<Word>, w: W)
    requires n <= |s|
    ensures Straight(itp, Pops(n), s, w) == Some((s[..|s| - n], w))
    decreases n
  {
    if n == 0 {
      assert s[..|s|] == s;
    } else {
      assert Pops(n)[1..] == Pops(n - 1);
      PopsRun(itp, n - 1, s[..|s| - 1], w);
      assert s[..|s| - 1][..|s| - n] == s[..|s| - n];
    }
  }

  lemma {:induction false} OpPopSame<W(!new)>(itp: Interp<W>, op: Item, pop: Item, s: seq<Word>, w: W)
    requires Sound(itp) && IsOpPop(op, pop) && Straight(itp, [op, pop], s, w).Some?
    ensures Straight(itp, Pops(InfoOf(op.op).args), s, w) == Straight(itp, [op, pop], s, w)
  {
    Straight2(itp, op, pop, s, w);
    var n := InfoOf(op.op).args;
    assert Local(itp, op, s, w) == Apply(itp, op.op, s, w);
    var r := itp.exec(op.op, s[|s| - n..], w).value;
    assert (s[..|s| - n] + r.0)[..|s| - n] == s[..|s| - n];
    PopsRun(itp, n, s, w);
  }

  lemma {:induction false} DoublePushSame<W>(itp: Interp<W>, push: Item, s: seq<Word>, w: W)
    requires push.Push? && OneWord(push)
    ensures Straight(itp, [push, Operation(DUP1)], s, w) == Straight(itp, [push, push], s, w)
  {
    Straight2(itp, push, push, s, w);
    Straight2(itp, push, Operation(DUP1), s, w);
  }

  /** Copying the top instead of pushing again is right exactly for single words. */
  lemma {:induction false} DoublePushExact<W>(itp: Interp<W>, push: Item, s: seq<Word>, w: W)
    requires push.Push? && Straight(itp, [push, push], s, w).Some?
    ensures Straight(itp, [push, Operation(DUP1)], s, w) == Straight(itp, [push, push], s, w) <==> OneWord(push)
  {
    if OneWord(push) {
      DoublePushSame(itp, push, s, w);
    } else {
      Straight2(itp, push, push, s, w);
      Straight2(itp, push, Operation(DUP1), s, w);
      assert |Straight(itp, [push, push], s, w).value.0| == |s| + 4;
      assert |Straight(itp, [push, Operation(DUP1)], s, w).value.0| == |s| + 3;
    }
  }

  lemma {:induction false} DoubleSwapSame<W>(itp: Interp<W>, swap: Item, s: seq<Word>, w: W)
    requires IsDoubleSwap(swap, swap) && Straight(itp, [swap, swap], s, w).Some?
    ensures Straight(itp, [swap, swap], s, w) == Some((s, w))
  {
    Straight2(itp, swap, swap, s, w);
    var n := SwapDepth(swap.op);
    var r := Local(itp, swap, s, w).value.0;
    assert r[|s| - 1 := r[|s| - 1 - n]][|s| - 1 - n := r[|s| - 1]] == s;
  }

  /** Masking with ones in the low positions keeps a number that fits there. */
  lemma {:induction false} AndOnes(a: nat, d: nat, n: nat)
    requires a < Pow2(n) && d % Pow2(n) == Pow2(n) - 1
    ensures BitAnd(a, d) == a
  {
    if n > 0 && a > 0 {
      var p := Pow2(n - 1);
      var q := d / (2 * p);
      assert d == q * (2 * p) + (2 * p - 1);
      assert d == 2 * (q * p + (p - 1)) + 1;
      DivModUnique(d, q * p + (p - 1), 2, 1);
      DivModUnique(d / 2, q, p, p - 1);
      AndOnes(a / 2, d / 2, n - 1);
    }
  }

  lemma {:induction false} Pow2At32()
    ensures Pow2(32) == 0x1_0000_0000
  {
    Pow2At8();
    Pow2Square(8, 256);
    Pow2Square(16, 0x1_0000);
  }

  lemma {:induction false} TagConjunctionSame<W(!new)>(
      itp: Interp<W>, push: Item, constant: Item, and: Item, s: seq<Word>, w: W)
    requires Sound(itp) && IsTagConjunction(push, constant, and) && OneWord(constant)
    requires itp.address(push.tag) < 0x1_0000_0000
    requires Straight(itp, [push, constant, and], s, w).Some?
    ensures Straight(itp, [push], s, w) == Straight(itp, [push, constant, and], s, w)
  {
    var a := itp.address(push.tag);
    var d: Word := constant.data;
    Straight3(itp, push, constant, and, s, w);
    Straight2(itp, constant, and, s + [a], w);
    Straight1(itp, push, s, w);
    assert (s + [a]) + [d] == s + [a, d];
    assert (s + [a, d])[|s|..] == [a, d] && (s + [a, d])[..|s|] == s;
    Pow2At32();
    AndOnes(a, d, 32);
    assert Local(itp, and, s + [a, d], w) == Apply(itp, AND, s + [a, d], w);
    assert itp.exec(AND, [a, d], w).value.0 == [a];
    assert itp.exec(AND, [a, d], w).value.1 == w;
  }

  /** Dropping the mask of a tag is right exactly for masks of a single word. */
  lemma {:induction false} TagConjunctionExact<W(!new)>(
      itp: Interp<W>, push: Item, constant: Item, and: Item, s: seq<Word>, w: W)
    requires Sound(itp) && IsTagConjunction(push, constant, and) && itp.address(push.tag) < 0x1_0000_0000
    requires Straight(itp, [push, constant, and], s, w).Some?
    ensures Straight(itp, [push], s, w) == Straight(itp, [push, constant, and], s, w) <==> OneWord(constant)
  {
    if OneWord(constant) {
      TagConjunctionSame(itp, push, constant, and, s, w);
    } else {
      var s1 := s + [itp.address(push.tag)];
      Straight3(itp, push, constant, and, s, w);
      Straight2(itp, constant, and, s1, w);
      Straight1(itp, push, s, w);
      var s2 := s1 + SplitWords(constant.data);
      assert Local(itp, and, s2, w) == Apply(itp, AND, s2, w);
      assert |itp.exec(AND, s2[|s2| - 2..], w).value.0| == 1;
    }
  }

  // ----- windows -----

  /** The rules only rewrite pushes of a single word at this position. */
  predicate NarrowAt(items: seq<Item>, i: nat)
    requires i < |items|
  {
    var n := |items| - i;
    if n >= 2 && IsPushPop(items[i], items[i + 1]) then OneWord(items[i])
    else if n >= 2 && IsOpPop(items[i], items[i + 1]) then true
    else if n >= 2 && IsDoublePush(items[i], items[i + 1]) then OneWord(items[i])
    else n >= 3 && IsTagConjunction(items[i], items[i + 1], items[i + 2]) ==> OneWord(items[i + 1])
  }

  predicate JumpsToNext(items: seq<Item>, i: nat)
    requires i < |items|
  {
    |items| - i >= 3 && IsJumpToNext(items[i], items[i + 1], items[i + 2])
  }

  /** A straight-line window and its replacement do the same. */
  lemma {:induction false} WindowSame<W(!new)>(itp: Interp<W>, items: seq<Item>, i: nat, s: seq<Word>, w: W)
    requires Sound(itp) && i < |items| && NarrowAt(items, i)
    requires items[i].PushTag? ==> itp.address(items[i].tag) < 0x1_0000_0000
    requires !JumpsToNext(items, i) && !IsControl(items[i])
    ensures
      var p := PieceOf(items, i);
      Straight(itp, p.win, s, w).Some? ==> Straight(itp, p.out, s, w) == Straight(itp, p.win, s, w)
  {
    var win := PieceOf(items, i).win;
    var n := |items| - i;
    if n >= 2 && IsPushPop(items[i], items[i + 1]) {
      assert win == [items[i], items[i + 1]];
      if Straight(itp, win, s, w).Some? {
        PushPopSame(itp, items[i], items[i + 1], s, w);
      }
    } else if n >= 2 && IsOpPop(items[i], items[i + 1]) {
      assert win == [items[i], items[i + 1]];
      if Straight(itp, win, s, w).Some? {
        OpPopSame(itp, items[i], items[i + 1], s, w);
      }
    } else if n >= 2 && IsDoublePush(items[i], items[i + 1]) {
      assert win == [items[i], items[i]];
      DoublePushSame(itp, items[i], s, w);
    } else if n >= 2 && IsDoubleSwap(items[i], items[i + 1]) {
      assert win == [items[i], items[i]];
      if Straight(itp, win, s, w).Some? {
        DoubleSwapSame(itp, items[i], s, w);
      }
    } else if n >= 3 && IsTagConjunction(items[i], items[i + 1], items[i + 2]) {
      assert win == [items[i], items[i + 1], items[i + 2]];
      if Straight(itp, win, s, w).Some? {
        TagConjunctionSame(itp, items[i], items[i + 1], items[i + 2], s, w);
      }
    } else {
      assert win == [items[i]];
    }
  }

  lemma {:induction false} WindowStraight(items: seq<Item>, i: nat)
    requires i < |items| && !JumpsToNext(items, i) && !IsControl(items[i])
    ensures PieceOf(items, i).win != [] && IsStraight(PieceOf(items, i).win) && IsStraight(PieceOf(items, i).out)
  {
    var n := |items| - i;
    if n >= 3 && IsTagConjunction(items[i], items[i + 1], items[i + 2]) {
      assert PieceOf(items, i).win == [items[i], items[i + 1], items[i + 2]][..Window(items, i).len];
    } else if n >= 2 {
      assert PieceOf(items, i).win == [items[i], items[i + 1]][..Window(items, i).len];
    }
  }

  lemma {:induction false} WindowTags(items: seq<Item>, i: nat)
    requires i < |items|
    ensures SameTags(PieceOf(items, i).win, PieceOf(items, i).out)
  {
    var win := PieceOf(items, i).win;
    var n := |items| - i;
    if n >= 2 && IsPushPop(items[i], items[i + 1]) {
      assert win == [items[i], items[i + 1]];
    } else if n >= 2 && IsOpPop(items[i], items[i + 1]) {
      assert win == [items[i], items[i + 1]];
    } else if n >= 2 && IsDoublePush(items[i], items[i + 1]) {
      assert win == [items[i], items[i + 1]];
    } else if n >= 2 && IsDoubleSwap(items[i], items[i + 1]) {
      assert win == [items[i], items[i + 1]];
    } else if JumpsToNext(items, i) {
      assert win == [items[i], items[i + 1], items[i + 2]];
      assert win[2] == items[i + 2] && win[..2] == [items[i], items[i + 1]];
    } else if IsDeadEnd(items[i]) && NextTag(items, i + 1) > i + 1 {
      assert forall k :: 0 <= k < |win| ==> win[k] == items[i + k];
    } else if n >= 3 && IsTagConjunction(items[i], items[i + 1], items[i + 2]) {
      assert win == [items[i], items[i + 1], items[i + 2]];
    } else {
      assert win == [items[i]];
    }
  }

  lemma {:induction false} WindowFaithful<W(!new)>(itp: Interp<W>, items: seq<Item>, i: nat)
    requires Sound(itp) && i < |items| && NarrowAt(items, i)
    requires items[i].PushTag? ==> itp.address(items[i].tag) < 0x1_0000_0000
    ensures IsFaithful(itp, PieceOf(items, i))
  {
    WindowTags(items, i);
    var p := PieceOf(items, i);
    if JumpsToNext(items, i) {
      assert p.win == [items[i], items[i + 1], items[i + 2]];
      assert JumpNext(p);
    } else if IsControl(items[i]) {
      assert InfoOf(items[i].op).ret == 0;
      assert p.win[0] == items[i];
      assert KeptControl(p);
    } else {
      forall s, w
        ensures Straight(itp, p.win, s, w).Some? ==> Straight(itp, p.out, s, w) == Straight(itp, p.win, s, w)
      {
        WindowSame(itp, items, i, s, w);
      }
      WindowStraight(items, i);
    }
  }

  // ----- a pass -----

  /** All windows a pass rewrites are narrow. */
  predicate Narrow(items: seq<Item>, i: nat)
    requires i <= |items|
    decreases |items| - i
  {
    i < |items| ==> NarrowAt(items, i) && Narrow(items, i + Window(items, i).len)
  }

  lemma {:induction false} PlanStep(items: seq<Item>, i: nat)
    requires i < |items|
    ensures
      var next := i + Window(items, i).len;
      && Before(Plan(items, i)) == items[i..next] + Before(Plan(items, next))
      && After(Plan(items, i)) == Window(items, i).out + After(Plan(items, next))
  {
    var next := i + Window(items, i).len;
    Concat([PieceOf(items, i)], Plan(items, next));
    Single(PieceOf(items, i));
  }

  lemma {:induction false} PlanBefore(items: seq<Item>, i: nat)
    requires i <= |items|
    ensures Before(Plan(items, i)) == items[i..]
    decreases |items| - i
  {
    if i < |items| {
      var next := i + Window(items, i).len;
      PlanBefore(items, next);
      PlanStep(items, i);
      SplitAt(items, i, next);
      assert Before(Plan(items, i)) == items[i..next] + items[next..];
    }
  }

  lemma {:induction false} SplitAt(items: seq<Item>, i: nat, next: nat)
    requires i <= next <= |items|
    ensures items[i..] == items[i..next] + items[next..]
  {
  }

  /** What is put out so far, and what the rest of the pass will put out, is the result. */
  ghost predicate Doing(items: seq<Item>, i: nat, done: seq<Item>)
    requires i <= |items|
  {
    done + After(Plan(items, i)) == Pass(items)
  }

  lemma {:induction false} StartPass(items: seq<Item>)
    ensures Doing(items, 0, [])
  {
  }

  lemma {:induction false} PassStep(items: seq<Item>, i: nat, done: seq<Item>)
    requires i < |items| && Doing(items, i, done)
    ensures Doing(items, i + Window(items, i).len, done + Window(items, i).out)
  {
    PlanStep(items, i);
    Reassociate(done, Window(items, i).out, After(Plan(items, i + Window(items, i).len)));
  }

  lemma {:induction false} EndPass(items: seq<Item>, done: seq<Item>)
    requires Doing(items, |items|, done)
    ensures done == Pass(items)
  {
    assert done + [] == done;
  }

  lemma {:induction false} Reassociate(a: seq<Item>, b: seq<Item>, c: seq<Item>)
    ensures (a + b) + c == a + (b + c)
  {
  }

  ghost predicate IsFaithful<W(!new)>(itp: Interp<W>, p: Piece) {
    SameTags(p.win, p.out) && (SameEffect(itp, p) || JumpNext(p) || KeptControl(p))
  }

  ghost predicate AllFaithful<W(!new)>(itp: Interp<W>, ps: seq<Piece>) {
    forall k :: 0 <= k < |ps| ==> IsFaithful(itp, ps[k])
  }

  lemma {:induction false} ConsFaithful<W(!new)>(itp: Interp<W>, p: Piece, ps: seq<Piece>)
    requires IsFaithful(itp, p) && AllFaithful(itp, ps)
    ensures AllFaithful(itp, [p] + ps)
  {
    forall k | 0 <= k < |[p] + ps| ensures IsFaithful(itp, ([p] + ps)[k]) {
      if k > 0 {
        assert ([p] + ps)[k] == ps[k - 1];
      }
    }
  }

  lemma {:induction false} PlanFaithful<W(!new)>(itp: Interp<W>, items: seq<Item>, i: nat)
    requires Sound(itp) && i <= |items| && Narrow(items, i) && TagsLow(itp, items)
    ensures AllFaithful(itp, Plan(items, i))
    decreases |items| - i
  {
    if i < |items| {
      var next := i + Window(items, i).len;
      WindowFaithful(itp, items, i);
      PlanFaithful(itp, items, next);
      ConsFaithful(itp, PieceOf(items, i), Plan(items, next));
    }
  }

  /**
   One pass preserves meaning: whatever the instructions do and wherever tags are placed
   below 2^32, each successful run of the original program, across all jumps, has a run of
   the rewritten program from the same stack and world to the same outcome, provided only
   single-word pushes are rewritten.
   */
  lemma {:induction false} PassPreserves<W(!new)>(
      itp: Interp<W>, items: seq<Item>, s: seq<Word>, w: W, o: Outcome<W>)
    requires Sound(itp) && Placed(itp, items) && Narrow(items, 0)
    requires Runs(itp, items, s, w, o)
    ensures Runs(itp, Pass(items), s, w, o)
  {
    var fuel: nat :| Eval(itp, items, fuel, State(0, s, w)) == Some(o);
    var ps := Plan(items, 0);
    PlanBefore(items, 0);
    assert items[0..] == items;
    PlanFaithful(itp, items, 0);
    assert ps[..0] == [] && To(ps, 0) == 0;
    Simulates(itp, ps, 0, fuel, s, w, o);
    var m: nat :| Eval(itp, After(ps), m, State(To(ps, 0), s, w)) == Some(o);
    assert Eval(itp, Pass(items), m, State(0, s, w)) == Some(o);
  }

  // ----- repeated passes -----

  ghost predicate AllOneWord(items: seq<Item>) {
    forall i :: 0 <= i < |items| ==> OneWord(items[i])
  }

  lemma {:induction false} OneWordNarrow(items: seq<Item>, i: nat)
    requires i <= |items| && AllOneWord(items)
    ensures Narrow(items, i)
    decreases |items| - i
  {
    if i < |items| {
      OneWordNarrow(items, i + Window(items, i).len);
    }
  }

  /** Items put out are items taken in, or POP and DUP1. */
  predicate Stems(item: Item, items: seq<Item>) {
    item in items || item == Operation(POP) || item == Operation(DUP1)
  }

  lemma {:induction false} WindowStems(items: seq<Item>, i: nat, x: Item)
    requires i < |items| && x in Window(items, i).out
    ensures Stems(x, items)
  {
  }

  lemma {:induction false} PlanStems(items: seq<Item>, i: nat, x: Item)
    requires i <= |items| && x in After(Plan(items, i))
    ensures Stems(x, items)
    decreases |items| - i
  {
    if i < |items| {
      var next := i + Window(items, i).len;
      PlanStep(items, i);
      if x in Window(items, i).out {
        WindowStems(items, i, x);
      } else {
        PlanStems(items, next, x);
      }
    }
  }

  /** The conditions for a pass still hold after it. */
  lemma {:induction false} PassKeeps<W(!new)>(itp: Interp<W>, items: seq<Item>)
    requires Sound(itp) && Placed(itp, items) && AllOneWord(items)
    ensures Placed(itp, Pass(items)) && AllOneWord(Pass(items))
  {
    var ps := Plan(items, 0);
    OneWordNarrow(items, 0);
    PlanFaithful(itp, items, 0);
    PlanBefore(items, 0);
    assert items[0..] == items;
    forall v: Word ensures TagCount(itp, Pass(items), v) <= 1 {
      CountsKept(itp, ps, v);
    }
    forall i | 0 <= i < |Pass(items)| ensures Stems(Pass(items)[i], items) {
      PlanStems(items, 0, Pass(items)[i]);
    }
  }

  function Passes(items: seq<Item>, n: nat): seq<Item>
    decreases n
  {
    if n == 0 then items else Passes(Pass(items), n - 1)
  }

  lemma {:induction false} PlanTags(items: seq<Item>, i: nat)
    requires i <= |items|
    ensures TagsKept(Plan(items, i))
    decreases |items| - i
  {
    if i < |items| {
      WindowTags(items, i);
      PlanTags(items, i + Window(items, i).len);
    }
  }

  /** Passes keep every tag, whatever it stands for. */
  lemma {:induction false} PassesCount<W>(itp: Interp<W>, items: seq<Item>, n: nat, v: Word)
    ensures TagCount(itp, Passes(items, n), v) == TagCount(itp, items, v)
    decreases n
  {
    if n > 0 {
      PlanTags(items, 0);
      PlanBefore(items, 0);
      assert items[0..] == items;
      CountsKept(itp, Plan(items, 0), v);
      PassesCount(itp, Pass(items), n - 1, v);
    }
  }

  /** Any number of passes preserves meaning. */
  lemma {:induction false} PassesPreserve<W(!new)>(
      itp: Interp<W>, items: seq<Item>, n: nat, s: seq<Word>, w: W, o: Outcome<W>)
    requires Sound(itp) && Placed(itp, items) && AllOneWord(items)
    requires Runs(itp, items, s, w, o)
    ensures Runs(itp, Passes(items, n), s, w, o)
    decreases n
  {
    if n > 0 {
      OneWordNarrow(items, 0);
      PassPreserves(itp, items, s, w, o);
      PassKeeps(itp, items);
      PassesPreserve(itp, Pass(items), n - 1, s, w, o);
    }
  }

  /** Length of address assumed when sizes are compared. */
  const ADDRESS_LENGTH := 3

  /** Shorter, or as long with fewer bytes. */
  predicate Smaller(a: seq<Item>, b: seq<Item>) {
    |a| < |b| || (|a| == |b| && ItemsBytes(a, ADDRESS_LENGTH) < ItemsBytes(b, ADDRESS_LENGTH))
  }

  /** Applies the first rule that matches at each position. */
  method ApplyRules(items: seq<Item>) returns (out: seq<Item>)
    ensures out == Pass(items)
  {
    out := [];
    var i := 0;
    StartPass(items);
    while i < |items|
      invariant i <= |items| && Doing(items, i, out)
      decreases |items| - i
    {
      var r := Window(items, i);
      PassStep(items, i, out);
      out := out + r.out;
      i := i + r.len;
    }
    EndPass(items, out);
  }

  class PeepholeOptimiser {
    var items: seq<Item>
    var optimisedItems: seq<Item>

    constructor (items: seq<Item>)
      ensures this.items == items && optimisedItems == []
    {
      this.items := items;
      optimisedItems := [];
    }

    /** One pass; the result is taken over only if it is smaller. */
    method Optimise() returns (changed: bool)
      requires optimisedItems == []
      modifies this
      ensures changed <==> Smaller(Pass(old(items)), old(items))
      ensures items == if changed then Pass(old(items)) else old(items)
      ensures changed ==> optimisedItems == []
    {
      optimisedItems := ApplyRules(items);
      changed := |optimisedItems| < |items|
        || (|optimisedItems| == |items|
            && ItemsBytes(optimisedItems, ADDRESS_LENGTH) < ItemsBytes(items, ADDRESS_LENGTH));
      if changed {
        items, optimisedItems := optimisedItems, [];
      }
    }

    /** Passes are repeated until none is an improvement, which comes to an end. */
    method OptimiseAll()
      requires optimisedItems == []
      modifies this
      ensures exists n: nat :: items == Passes(old(items), n)
      ensures !Smaller(Pass(items), items)
    {
      var changed := true;
      assert items == Passes(items, 0);
      while changed
        invariant changed ==> optimisedItems == []
        invariant !changed ==> !Smaller(Pass(items), items)
        invariant exists k: nat :: items == Passes(old(items), k)
        decreases |items|, ItemsBytes(items, ADDRESS_LENGTH), changed
      {
        ghost var k: nat :| items == Passes(old(items), k);
        changed := Optimise();
        if changed {
          PassesSnoc(old(items), k);
        }
      }
    }
  }

  lemma {:induction false} PassesSnoc(items: seq<Item>, n: nat)
    ensures Passes(items, n + 1) == Pass(Passes(items, n))
    decreases n
  {
    if n > 0 {
      PassesSnoc(Pass(items), n - 1);
    }
  }
}
