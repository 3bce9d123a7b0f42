/**
 What the peephole optimiser may drop: instructions that act on anything but the stack stay,
 in their order, unless control cannot reach them; and when it comes to rest.
 */
module OptimiserEffects {
  import opened Words
  import opened Items
  import opened Pieces
  import opened Peephole
  import O = Opcodes
  import Tables

  // ----- instructions that act -----

  /** MSTORE, MSTORE8 and the instructions that copy to memory. */
  predicate WritesMemory(b: Byte) {
    b == 0x52 || b == 0x53 || b == 0x37 || b == 0x39 || b == 0x3c || b == 0x3e
  }

  /** An item that changes state, sends a message or writes memory. */
  predicate Acts(item: Item) {
    item.Operation? && (O.ChangesState(item.op) || O.SendsMessage(item.op) || WritesMemory(item.op))
  }

  function Actions(items: seq<Item>): seq<Item> {
    if items == [] then []
    else (if Acts(items[0]) then [items[0]] else []) + Actions(items[1..])
  }

  /** The items that are not behind an instruction control never falls out of; the first one may be. */
  function Live(items: seq<Item>, live: bool): seq<Item> {
    if items == [] then []
    else if !live && !items[0].Tag? then Live(items[1..], false)
    else [items[0]] + Live(items[1..], !IsDeadEnd(items[0]))
  }

  predicate NoDeadEnds(items: seq<Item>) {
    forall k :: 0 <= k < |items| ==> !IsDeadEnd(items[k])
  }

  lemma {:induction false} ActionsConcat(a: seq<Item>, b: seq<Item>)
    ensures Actions(a + b) == Actions(a) + Actions(b)
    decreases |a|
  {
    if a == [] {
      assert a + b == b;
    } else {
      assert (a + b)[1..] == a[1..] + b;
      ActionsConcat(a[1..], b);
      Reassociate(if Acts(a[0]) then [a[0]] else [], Actions(a[1..]), Actions(b));
    }
  }

  lemma {:induction false} LiveConcat(a: seq<Item>, b: seq<Item>)
    requires NoDeadEnds(a)
    ensures Live(a + b, true) == a + Live(b, true)
    decreases |a|
  {
    if a == [] {
      assert a + b == b;
    } else {
      assert (a + b)[1..] == a[1..] + b;
      LiveConcat(a[1..], b);
      assert a == [a[0]] + a[1..];
    }
  }

  /** Behind a dead end everything is dropped up to the next tag. */
  lemma {:induction false} LiveAfter(items: seq<Item>, j: nat)
    requires j <= |items|
    ensures
      var k := NextTag(items, j);
      Live(items[j..], false) == Live(items[k..], false) == Live(items[k..], true)
    decreases |items| - j
  {
    if j < |items| && !items[j].Tag? {
      assert items[j..][1..] == items[j + 1..];
      LiveAfter(items, j + 1);
    }
  }

  lemma {:induction false} ActionsNone(items: seq<Item>)
    requires forall k :: 0 <= k < |items| ==> !Acts(items[k])
    ensures Actions(items) == []
    decreases |items|
  {
    if items != [] {
      ActionsNone(items[1..]);
    }
  }

  /** A window that is not at a dead end and not a jump holds none, and keeps what acts. */
  lemma {:induction false} WindowKeeps(items: seq<Item>, i: nat)
    requires i < |items| && !IsDeadEnd(items[i]) && !JumpsToNext(items, i)
    ensures
      var win := items[i..i + Window(items, i).len];
      NoDeadEnds(win) && NoDeadEnds(Window(items, i).out) && Actions(win) == Actions(Window(items, i).out)
  {
    var r := Window(items, i);
    var win := items[i..i + r.len];
    if r.len == 1 {
      assert win == [items[i]] == r.out;
    } else {
      Harmless(items, i);
      assert forall k :: 0 <= k < r.len ==> win[k] == items[i + k];
      ActionsNone(win);
      ActionsNone(r.out);
    }
  }

  /** Neither acting nor a dead end. */
  predicate IsHarmless(item: Item) {
    !Acts(item) && !IsDeadEnd(item)
  }

  lemma {:induction false} Harmless(items: seq<Item>, i: nat)
    requires i < |items| && !IsDeadEnd(items[i]) && !JumpsToNext(items, i) && Window(items, i).len > 1
    ensures forall k :: i <= k < i + Window(items, i).len ==> IsHarmless(items[k])
    ensures forall k :: 0 <= k < |Window(items, i).out| ==> IsHarmless(Window(items, i).out[k])
  {
    if Acts(items[i]) {
      ActingStays(items[i].op);
    }
  }

  /** No rule but the one for dead ends applies to an instruction that acts. */
  lemma {:induction false} ActingStays(b: Byte)
    requires Acts(Operation(b))
    ensures InfoOf(b).sideEffects && !IsDupCode(b) && !IsSwapCode(b)
  {
    if O.ChangesState(b) || O.SendsMessage(b) {
      Tables.ActingMarked(b);
    }
  }

  /** What a window leaves of what acts; the rest of the pass goes on behind it. */
  lemma {:induction false} WindowActions(items: seq<Item>, i: nat)
    requires i < |items|
    ensures
      var r := Window(items, i);
      Actions(Live(items[i..], true)) == Actions(r.out) + Actions(Live(items[i + r.len..], true))
  {
    var r := Window(items, i);
    if JumpsToNext(items, i) {
      JumpActions(items, i);
    } else if IsDeadEnd(items[i]) {
      DeadEndWindow(items, i);
      DeadEndActions(items, i);
    } else {
      var win := items[i..i + r.len];
      WindowKeeps(items, i);
      SplitAt(items, i, i + r.len);
      LiveConcat(win, items[i + r.len..]);
      ActionsConcat(win, Live(items[i + r.len..], true));
    }
  }

  lemma {:induction false} DeadEndWindow(items: seq<Item>, i: nat)
    requires i < |items| && IsDeadEnd(items[i])
    ensures Window(items, i) == Rewrite(NextTag(items, i + 1) - i, [items[i]])
  {
  }

  lemma {:induction false} DeadEndActions(items: seq<Item>, i: nat)
    requires i < |items| && IsDeadEnd(items[i])
    ensures Actions(Live(items[i..], true))
            == Actions([items[i]]) + Actions(Live(items[NextTag(items, i + 1)..], true))
  {
    var rest := Live(items[NextTag(items, i + 1)..], true);
    assert items[i..][1..] == items[i + 1..];
    LiveAfter(items, i + 1);
    assert Live(items[i..], true) == [items[i]] + rest;
    ActionsConcat([items[i]], rest);
  }

  lemma {:induction false} JumpActions(items: seq<Item>, i: nat)
    requires i < |items| && JumpsToNext(items, i)
    ensures
      var r := Window(items, i);
      && r.len == 3 && NoDeadEnds(r.out) && Actions(r.out) == []
      && Actions(Live(items[i..], true)) == Actions(r.out) + Actions(Live(items[i + 3..], true))
  {
    var r := Window(items, i);
    var rest := Live(items[i + 3..], true);
    assert r.len == 3;
    LiveJump(items[i..], items[i + 3..]);
    ActionsConcat([items[i], items[i + 1], items[i + 2]], rest);
    ActionsNone([items[i], items[i + 1], items[i + 2]]);
    ActionsNone(r.out);
  }

  lemma {:induction false} LiveJump(items: seq<Item>, rest: seq<Item>)
    requires |items| >= 3 && IsJumpToNext(items[0], items[1], items[2]) && rest == items[3..]
    ensures Live(items, true) == [items[0], items[1], items[2]] + Live(rest, true)
  {
    assert items[1..][1..] == items[2..] && items[2..][1..] == rest;
    assert Live(items[2..], false) == Live(items[2..], true) == [items[2]] + Live(rest, true);
    assert Live(items[1..], true) == [items[1]] + Live(items[2..], true);
  }

  lemma {:induction false} PlanActions(items: seq<Item>, i: nat)
    requires i <= |items|
    ensures Actions(After(Plan(items, i))) == Actions(Live(items[i..], true))
    decreases |items| - i
  {
    if i < |items| {
      PlanActions(items, i + Window(items, i).len);
      StepActions(items, i);
    } else {
      assert items[i..] == [];
    }
  }

  lemma {:induction false} StepActions(items: seq<Item>, i: nat)
    requires i < |items|
    requires
      var next := i + Window(items, i).len;
      Actions(After(Plan(items, next))) == Actions(Live(items[next..], true))
    ensures Actions(After(Plan(items, i))) == Actions(Live(items[i..], true))
  {
    var next := i + Window(items, i).len;
    PlanStep(items, i);
    ActionsBefore(items, i, next, After(Plan(items, i)), After(Plan(items, next)));
  }

  lemma {:induction false} ActionsBefore(items: seq<Item>, i: nat, next: nat, whole: seq<Item>, rest: seq<Item>)
    requires i < |items| && next == i + Window(items, i).len && whole == Window(items, i).out + rest
    requires Actions(rest) == Actions(Live(items[next..], true))
    ensures Actions(whole) == Actions(Live(items[i..], true))
  {
    WindowActions(items, i);
    ActionsConcat(Window(items, i).out, rest);
  }

  /**
   One pass keeps every instruction that changes state, sends a message or writes memory, in
   order, except those behind a dead end and before the next tag; and it drops all of these.
   */
  lemma {:induction false} PassActions(items: seq<Item>)
    ensures Actions(Pass(items)) == Actions(Live(items, true))
  {
    PlanActions(items, 0);
    assert items[0..] == items;
  }

  /** Nothing unreachable is left behind by a pass. */
  lemma {:induction false} PlanLive(items: seq<Item>, i: nat)
    requires i <= |items|
    ensures Live(After(Plan(items, i)), true) == After(Plan(items, i))
    decreases |items| - i
  {
    if i < |items| {
      var next := i + Window(items, i).len;
      PlanStep(items, i);
      PlanLive(items, next);
      WindowLive(items, i, After(Plan(items, next)));
    }
  }

  lemma {:induction false} WindowLive(items: seq<Item>, i: nat, rest: seq<Item>)
    requires i < |items| && rest == After(Plan(items, i + Window(items, i).len)) && Live(rest, true) == rest
    ensures Live(Window(items, i).out + rest, true) == Window(items, i).out + rest
  {
    if JumpsToNext(items, i) {
      JumpActions(items, i);
      LiveConcat(Window(items, i).out, rest);
    } else if IsDeadEnd(items[i]) {
      DeadEndWindow(items, i);
      FirstTagKept(items, NextTag(items, i + 1));
      LiveBehind(items[i], rest);
    } else {
      WindowKeeps(items, i);
      LiveConcat(Window(items, i).out, rest);
    }
  }

  lemma {:induction false} LiveBehind(x: Item, rest: seq<Item>)
    requires Live(rest, true) == rest && (rest == [] || rest[0].Tag?)
    ensures Live([x] + rest, true) == [x] + rest
  {
    assert ([x] + rest)[1..] == rest;
  }

  lemma {:induction false} FirstTagKept(items: seq<Item>, k: nat)
    requires k <= |items| && (k < |items| ==> items[k].Tag?)
    ensures
      var rest := After(Plan(items, k));
      rest == [] || rest[0].Tag?
  {
    if k < |items| {
      PlanStep(items, k);
    }
  }

  /** However many passes there are, the same instructions that act are left. */
  lemma {:induction false} PassesActions(items: seq<Item>, n: nat)
    requires n > 0
    ensures Actions(Passes(items, n)) == Actions(Live(items, true))
    decreases n
  {
    PassActions(items);
    if n > 1 {
      PassesActions(Pass(items), n - 1);
      PlanLive(items, 0);
    }
  }

  // ----- coming to rest -----

  /** An unused result with more than two operands takes more instructions to pop than to compute. */
  predicate WidePopAt(items: seq<Item>, i: nat) {
    i + 1 < |items| && IsOpPop(items[i], items[i + 1]) && InfoOf(items[i].op).args > 2
  }

  ghost predicate NoWidePops(items: seq<Item>) {
    forall i :: 0 <= i < |items| ==> !WidePopAt(items, i)
  }

  /** One of the rules improves on what is at a position. */
  predicate Reducible(items: seq<Item>, i: nat)
    requires i < |items|
  {
    var n := |items| - i;
    || (n >= 2 && IsPushPop(items[i], items[i + 1]))
    || (n >= 2 && IsOpPop(items[i], items[i + 1]) && InfoOf(items[i].op).args != 2)
    || (n >= 2 && IsDoublePush(items[i], items[i + 1]))
    || (n >= 2 && IsDoubleSwap(items[i], items[i + 1]))
    || (n >= 2 && IsDeadEnd(items[i]) && !items[i + 1].Tag?)
    || JumpsToNext(items, i)
    || (n >= 3 && IsTagConjunction(items[i], items[i + 1], items[i + 2]))
  }

  /** Neither longer nor, if as long, with more bytes. */
  predicate NoLarger(a: seq<Item>, b: seq<Item>) {
    |a| < |b| || (|a| == |b| && ItemsBytes(a, ADDRESS_LENGTH) <= ItemsBytes(b, ADDRESS_LENGTH))
  }

  lemma {:induction false} BytesConcat(a: seq<Item>, b: seq<Item>)
    ensures ItemsBytes(a + b, ADDRESS_LENGTH) == ItemsBytes(a, ADDRESS_LENGTH) + ItemsBytes(b, ADDRESS_LENGTH)
    decreases |b|
  {
    if b == [] {
      assert a + b == a;
    } else {
      assert (a + b)[..|a + b| - 1] == a + b[..|b| - 1];
      BytesConcat(a, b[..|b| - 1]);
    }
  }

  lemma {:induction false} Bytes2(a: Item, b: Item)
    ensures ItemsBytes([a, b], ADDRESS_LENGTH) == ItemBytes(a, ADDRESS_LENGTH) + ItemBytes(b, ADDRESS_LENGTH)
  {
    assert [a, b] == [a] + [b] && [a][..0] == [] && [b][..0] == [];
    BytesConcat([a], [b]);
  }

  /** A window is made smaller exactly if it is reducible; otherwise it is one item, or two of which one is a POP. */
  lemma {:induction false} WindowGain(items: seq<Item>, i: nat)
    requires i < |items| && !WidePopAt(items, i)
    ensures
      var win, out := items[i..i + Window(items, i).len], Window(items, i).out;
      && NoLarger(out, win) && (Smaller(out, win) <==> Reducible(items, i))
      && (!Reducible(items, i) && |win| > 1 ==> |win| == 2 && items[i + 1] == Operation(POP))
  {
    var n := |items| - i;
    var r := Window(items, i);
    var win := items[i..i + r.len];
    if n >= 2 && (IsOpPop(items[i], items[i + 1]) || IsDoublePush(items[i], items[i + 1])) {
      assert win == [items[i], items[i + 1]];
      Bytes2(items[i], items[i + 1]);
      if |r.out| == 2 {
        assert r.out == [r.out[0], r.out[1]];
        Bytes2(r.out[0], r.out[1]);
      }
    } else if r.len == 1 {
      assert win == [items[i]] == r.out;
    }
  }

  /** Some window of the rest of a pass is reducible. */
  predicate Improves(items: seq<Item>, i: nat)
    requires i <= |items|
    decreases |items| - i
  {
    i < |items| && (Reducible(items, i) || Improves(items, i + Window(items, i).len))
  }

  lemma {:induction false} GainsAdd(out: seq<Item>, win: seq<Item>, a: seq<Item>, b: seq<Item>)
    requires NoLarger(out, win) && NoLarger(a, b)
    ensures NoLarger(out + a, win + b) && (Smaller(out + a, win + b) <==> Smaller(out, win) || Smaller(a, b))
  {
    BytesConcat(out, a);
    BytesConcat(win, b);
  }

  lemma {:induction false} PlanGain(items: seq<Item>, i: nat)
    requires i <= |items| && NoWidePops(items)
    ensures
      var out := After(Plan(items, i));
      NoLarger(out, items[i..]) && (Smaller(out, items[i..]) <==> Improves(items, i))
    decreases |items| - i
  {
    if i < |items| {
      var next := i + Window(items, i).len;
      PlanGain(items, next);
      PlanStep(items, i);
      SplitAt(items, i, next);
      WindowGain(items, i);
      GainsAdd(Window(items, i).out, items[i..next], After(Plan(items, next)), items[next..]);
    } else {
      assert items[i..] == [];
    }
  }

  /** A pass looks at every position at which a rule could improve anything. */
  lemma {:induction false} NothingMissed(items: seq<Item>, i: nat, k: nat)
    requires i <= k < |items| && NoWidePops(items) && !Improves(items, i)
    ensures !Reducible(items, k)
    decreases |items| - i
  {
    WindowGain(items, i);
    if k >= i + Window(items, i).len {
      NothingMissed(items, i + Window(items, i).len, k);
    }
  }

  lemma {:induction false} FoundSomewhere(items: seq<Item>, i: nat) returns (k: nat)
    requires i <= |items| && Improves(items, i)
    ensures k < |items| && Reducible(items, k)
    decreases |items| - i
  {
    if Reducible(items, i) {
      k := i;
    } else {
      k := FoundSomewhere(items, i + Window(items, i).len);
    }
  }

  /**
   A pass is taken over if and only if some rule improves something somewhere: without wide
   pops, what repeated passes come to rest at is free of anything the rules could remove.
   */
  lemma {:induction false} RestExact(items: seq<Item>)
    requires NoWidePops(items)
    ensures Smaller(Pass(items), items) <==> exists i :: 0 <= i < |items| && Reducible(items, i)
  {
    PlanGain(items, 0);
    assert items[0..] == items;
    if Improves(items, 0) {
      var k := FoundSomewhere(items, 0);
    } else {
      forall k | 0 <= k < |items| ensures !Reducible(items, k) {
        NothingMissed(items, 0, k);
      }
    }
  }

  /** With a wide pop the gain of another rule is used up: an unused NOT stays behind an unused ADDMOD. */
  lemma {:induction false} WidePopStuck(items: seq<Item>)
    requires items == [Operation(0x08), Operation(POP), Operation(0x19), Operation(POP)]
    ensures Reducible(items, 2) && !Smaller(Pass(items), items)
  {
    var p := Operation(POP);
    WidePopPass(items);
    OneByteEach(p, p, p, p);
    OneByteEach(items[0], p, items[2], p);
  }

  lemma {:induction false} WidePopPass(items: seq<Item>)
    requires items == [Operation(0x08), Operation(POP), Operation(0x19), Operation(POP)]
    ensures Pass(items) == [Operation(POP), Operation(POP), Operation(POP), Operation(POP)]
  {
    var p := Operation(POP);
    PlanStep(items, 0);
    PlanStep(items, 2);
    assert Window(items, 0) == Rewrite(2, [p, p, p]) && Window(items, 2) == Rewrite(2, [p]);
    assert Plan(items, 4) == [];
  }

  lemma {:induction false} OneByteEach(a: Item, b: Item, c: Item, d: Item)
    requires a.Operation? && b.Operation? && c.Operation? && d.Operation?
    ensures ItemsBytes([a, b, c, d], ADDRESS_LENGTH) == 4
  {
    assert [a, b, c, d] == [a, b] + [c, d];
    BytesConcat([a, b], [c, d]);
    Bytes2(a, b);
    Bytes2(c, d);
  }
}
