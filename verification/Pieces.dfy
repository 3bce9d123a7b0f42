/**
 Rewriting a program piece by piece: if every piece is replaced by one that does the same,
 a run of the original carries over to the result, across all jumps.
 */
module Pieces {
  import opened Words
  import opened Items
  import opened AsmMachine

  /** A stretch of the original and what it is replaced by. */
  datatype Piece = Piece(win: seq<Item>, out: seq<Item>)

  function Before(ps: seq<Piece>): seq<Item> {
    if ps == [] then [] else ps[0].win + Before(ps[1..])
  }

  function After(ps: seq<Piece>): seq<Item> {
    if ps == [] then [] else ps[0].out + After(ps[1..])
  }

  /** Where piece k starts in the original, and in the result. */
  function From(ps: seq<Piece>, k: nat): nat
    requires k <= |ps|
  {
    |Before(ps[..k])|
  }

  function To(ps: seq<Piece>, k: nat): nat
    requires k <= |ps|
  {
    |After(ps[..k])|
  }

  lemma {:induction false} Concat(a: seq<Piece>, b: seq<Piece>)
    ensures Before(a + b) == Before(a) + Before(b) && After(a + b) == After(a) + After(b)
    decreases |a|
  {
    if a == [] {
      assert a + b == b;
    } else {
      assert (a + b)[1..] == a[1..] + b;
      Concat(a[1..], b);
    }
  }

  lemma {:induction false} Single(p: Piece)
    ensures Before([p]) == p.win && After([p]) == p.out
  {
    assert [p][1..] == [];
  }

  lemma {:induction false} Slices(n: seq<Item>, a: seq<Item>, b: seq<Item>, c: seq<Item>)
    requires n == a + b + c
    ensures n[|a|..|a| + |b|] == b
  {
  }

  /** Piece k and its replacement, found in the two programs. */
  lemma {:induction false} PieceAt(ps: seq<Piece>, k: nat)
    requires k < |ps|
    ensures From(ps, k + 1) == From(ps, k) + |ps[k].win| <= |Before(ps)|
    ensures Before(ps)[From(ps, k)..From(ps, k + 1)] == ps[k].win
    ensures To(ps, k + 1) == To(ps, k) + |ps[k].out| <= |After(ps)|
    ensures After(ps)[To(ps, k)..To(ps, k + 1)] == ps[k].out
  {
    var a, b, c := ps[..k], [ps[k]], ps[k + 1..];
    assert ps[..k + 1] == a + b && ps == (a + b) + c;
    Concat(a, b);
    Concat(a + b, c);
    Single(ps[k]);
    Slices(Before(ps), Before(a), ps[k].win, Before(c));
    Slices(After(ps), After(a), ps[k].out, After(c));
  }

  lemma {:induction false} WholePlan(ps: seq<Piece>)
    ensures From(ps, |ps|) == |Before(ps)| && To(ps, |ps|) == |After(ps)|
  {
    assert ps[..|ps|] == ps;
  }

  // ----- jump targets -----

  predicate NoTags(items: seq<Item>) {
    forall k :: 0 <= k < |items| ==> !items[k].Tag?
  }

  /** Tags only as the last item, and the same in both. */
  predicate SameTags(win: seq<Item>, out: seq<Item>) {
    || (NoTags(win) && NoTags(out))
    || (win != [] && out != [] && win[|win| - 1] == out[|out| - 1]
        && NoTags(win[..|win| - 1]) && NoTags(out[..|out| - 1]))
  }

  lemma {:induction false} NoTargets<W>(itp: Interp<W>, items: seq<Item>, v: Word)
    requires NoTags(items)
    ensures Target(itp, items, v) == None && TagCount(itp, items, v) == 0
    decreases |items|
  {
    if items != [] {
      NoTargets(itp, items[1..], v);
    }
  }

  lemma {:induction false} TargetConcat<W>(itp: Interp<W>, a: seq<Item>, b: seq<Item>, v: Word)
    ensures TagCount(itp, a + b, v) == TagCount(itp, a, v) + TagCount(itp, b, v)
    ensures Target(itp, a + b, v) ==
            if Target(itp, a, v).Some? then Target(itp, a, v)
            else if Target(itp, b, v).Some? then Some(|a| + Target(itp, b, v).value) else None
    decreases |a|
  {
    if a == [] {
      assert a + b == b;
    } else {
      assert (a + b)[1..] == a[1..] + b;
      TargetConcat(itp, a[1..], b, v);
    }
  }

  lemma {:induction false} LastTarget<W>(itp: Interp<W>, items: seq<Item>, v: Word)
    requires items != [] && NoTags(items[..|items| - 1])
    ensures Target(itp, items, v) == if IsTagAt(itp, items[|items| - 1], v) then Some(|items|) else None
    ensures TagCount(itp, items, v) == if IsTagAt(itp, items[|items| - 1], v) then 1 else 0
  {
    var init, last := items[..|items| - 1], [items[|items| - 1]];
    assert items == init + last && last[1..] == [];
    TargetConcat(itp, init, last, v);
    NoTargets(itp, init, v);
  }

  /** A window and its replacement offer the same jump targets, at their ends. */
  lemma {:induction false} SameTargets<W>(itp: Interp<W>, win: seq<Item>, out: seq<Item>, v: Word)
    requires SameTags(win, out)
    ensures TagCount(itp, win, v) == TagCount(itp, out, v)
    ensures Target(itp, win, v) == None ==> Target(itp, out, v) == None
    ensures Target(itp, win, v).Some? ==> Target(itp, win, v) == Some(|win|) && Target(itp, out, v) == Some(|out|)
  {
    if NoTags(win) && NoTags(out) {
      NoTargets(itp, win, v);
      NoTargets(itp, out, v);
    } else {
      LastTarget(itp, win, v);
      LastTarget(itp, out, v);
    }
  }

  ghost predicate TagsKept(ps: seq<Piece>) {
    forall k :: 0 <= k < |ps| ==> SameTags(ps[k].win, ps[k].out)
  }

  lemma {:induction false} CountsKept<W>(itp: Interp<W>, ps: seq<Piece>, v: Word)
    requires TagsKept(ps)
    ensures TagCount(itp, After(ps), v) == TagCount(itp, Before(ps), v)
    decreases |ps|
  {
    if ps != [] {
      SameTargets(itp, ps[0].win, ps[0].out, v);
      TargetConcat(itp, ps[0].win, Before(ps[1..]), v);
      TargetConcat(itp, ps[0].out, After(ps[1..]), v);
      CountsKept(itp, ps[1..], v);
    }
  }

  lemma {:induction false} Shifted(ps: seq<Piece>, k: nat)
    requires ps != [] && k <= |ps| - 1
    ensures From(ps, k + 1) == |ps[0].win| + From(ps[1..], k)
    ensures To(ps, k + 1) == |ps[0].out| + To(ps[1..], k)
  {
    assert ps[..k + 1] == [ps[0]] + ps[1..][..k];
    Concat([ps[0]], ps[1..][..k]);
    Single(ps[0]);
  }

  /** Every jump target of the original is the start of a piece, and has moved with it. */
  lemma {:induction false} TargetsMove<W>(itp: Interp<W>, ps: seq<Piece>, v: Word) returns (k: nat)
    requires TagsKept(ps) && Target(itp, Before(ps), v).Some?
    ensures k <= |ps| && Target(itp, Before(ps), v) == Some(From(ps, k)) && Target(itp, After(ps), v) == Some(To(ps, k))
    decreases |ps|
  {
    var p, rest := ps[0], ps[1..];
    SameTargets(itp, p.win, p.out, v);
    TargetConcat(itp, p.win, Before(rest), v);
    TargetConcat(itp, p.out, After(rest), v);
    if Target(itp, p.win, v).Some? {
      k := 1;
      Shifted(ps, 0);
    } else {
      var k' := TargetsMove(itp, rest, v);
      k := k' + 1;
      Shifted(ps, k');
    }
  }

  lemma {:induction false} UniqueTarget<W>(itp: Interp<W>, prog: seq<Item>, k: nat, v: Word)
    requires k < |prog| && IsTagAt(itp, prog[k], v) && TagCount(itp, prog, v) <= 1
    ensures Target(itp, prog, v) == Some(k + 1)
    decreases k
  {
    if k > 0 {
      assert prog[1..][k - 1] == prog[k];
      if IsTagAt(itp, prog[0], v) {
        TagCounted(itp, prog[1..], k - 1, v);
        assert false;
      }
      UniqueTarget(itp, prog[1..], k - 1, v);
    }
  }

  lemma {:induction false} TagCounted<W>(itp: Interp<W>, prog: seq<Item>, k: nat, v: Word)
    requires k < |prog| && IsTagAt(itp, prog[k], v)
    ensures TagCount(itp, prog, v) >= 1
    decreases k
  {
    if k > 0 {
      assert prog[1..][k - 1] == prog[k];
      TagCounted(itp, prog[1..], k - 1, v);
    }
  }

  // ----- pieces that do the same -----

  /** Straight-line code replaced by straight-line code with the same effect. */
  ghost predicate SameEffect<W(!new)>(itp: Interp<W>, p: Piece) {
    && p.win != [] && IsStraight(p.win) && IsStraight(p.out)
    && forall s, w :: Straight(itp, p.win, s, w).Some? ==> Straight(itp, p.out, s, w) == Straight(itp, p.win, s, w)
  }

  /** A jump to the tag right behind it, replaced by the tag; a condition is dropped. */
  predicate JumpNext(p: Piece) {
    && |p.win| == 3 && p.win[0].PushTag? && p.win[2] == Tag(p.win[0].tag)
    && ((p.win[1] == Operation(JUMP) && p.out == [p.win[2]])
        || (p.win[1] == Operation(JUMPI) && p.out == [Operation(POP), p.win[2]]))
  }

  /** A control item that is kept; what follows one that never falls through may be dropped. */
  predicate KeptControl(p: Piece) {
    && p.win != [] && IsControl(p.win[0]) && p.out == [p.win[0]]
    && (p.win[0].op == JUMPI ==> |p.win| == 1)
  }

  ghost predicate Faithful<W(!new)>(itp: Interp<W>, ps: seq<Piece>) {
    && TagsKept(ps)
    && (forall v: Word :: TagCount(itp, Before(ps), v) <= 1)
    && forall k :: 0 <= k < |ps| ==> SameEffect(itp, ps[k]) || JumpNext(ps[k]) || KeptControl(ps[k])
  }

  /** The result reaches the same outcome from the start of piece k. */
  ghost predicate Reproduces<W>(itp: Interp<W>, ps: seq<Piece>, k: nat, s: seq<Word>, w: W, o: Outcome<W>)
    requires k <= |ps|
  {
    exists m: nat :: Eval(itp, After(ps), m, State(To(ps, k), s, w)) == Some(o)
  }

  /** Progress of both: the original's run goes on at piece j, and k is reproduced if j is. */
  ghost predicate Advances<W>(
      itp: Interp<W>, ps: seq<Piece>, k: nat, fuel: nat, s: seq<Word>, w: W, o: Outcome<W>,
      j: nat, fuel': nat, s': seq<Word>, w': W)
    requires k <= |ps|
  {
    && fuel' < fuel && j <= |ps|
    && Eval(itp, Before(ps), fuel', State(From(ps, j), s', w')) == Some(o)
    && (Reproduces(itp, ps, j, s', w', o) ==> Reproduces(itp, ps, k, s, w, o))
  }

  /** The replacement of piece k can be run before what follows it. */
  lemma {:induction false} RunsBefore<W>(
      itp: Interp<W>, ps: seq<Piece>, k: nat, s: seq<Word>, w: W, s': seq<Word>, w': W, o: Outcome<W>)
    requires k < |ps| && IsStraight(ps[k].out) && Straight(itp, ps[k].out, s, w) == Some((s', w'))
    requires Reproduces(itp, ps, k + 1, s', w', o)
    ensures Reproduces(itp, ps, k, s, w, o)
  {
    PieceAt(ps, k);
    var m: nat :| Eval(itp, After(ps), m, State(To(ps, k + 1), s', w')) == Some(o);
    RunsFrom(itp, After(ps), To(ps, k), |ps[k].out|, m, s, w, o);
  }

  lemma {:induction false} StepBefore<W>(
      itp: Interp<W>, ps: seq<Piece>, k: nat, s: seq<Word>, w: W, j: nat, s': seq<Word>, w': W, o: Outcome<W>)
    requires k <= |ps| && j <= |ps|
    requires Step(itp, After(ps), State(To(ps, k), s, w)) == Goes(State(To(ps, j), s', w'))
    requires Reproduces(itp, ps, j, s', w', o)
    ensures Reproduces(itp, ps, k, s, w, o)
  {
    var m: nat :| Eval(itp, After(ps), m, State(To(ps, j), s', w')) == Some(o);
    assert Eval(itp, After(ps), m + 1, State(To(ps, k), s, w)) == Some(o);
  }

  /** The original runs through a straight-line piece; its replacement has the same effect. */
  lemma {:induction false} StraightSteps<W(!new)>(
      itp: Interp<W>, ps: seq<Piece>, k: nat, fuel: nat, s: seq<Word>, w: W, o: Outcome<W>)
      returns (fuel': nat, s': seq<Word>, w': W)
    requires k < |ps| && SameEffect(itp, ps[k])
    requires Eval(itp, Before(ps), fuel, State(From(ps, k), s, w)) == Some(o)
    ensures fuel' < fuel && Eval(itp, Before(ps), fuel', State(From(ps, k + 1), s', w')) == Some(o)
    ensures Straight(itp, ps[k].out, s, w) == Some((s', w'))
  {
    PieceAt(ps, k);
    var n := |ps[k].win|;
    RunsThrough(itp, Before(ps), From(ps, k), n, fuel, s, w, o);
    var r := Straight(itp, ps[k].win, s, w);
    fuel', s', w' := fuel - n, r.value.0, r.value.1;
  }

  lemma {:induction false} StraightCase<W(!new)>(
      itp: Interp<W>, ps: seq<Piece>, k: nat, fuel: nat, s: seq<Word>, w: W, o: Outcome<W>)
      returns (fuel': nat, s': seq<Word>, w': W)
    requires k < |ps| && SameEffect(itp, ps[k])
    requires Eval(itp, Before(ps), fuel, State(From(ps, k), s, w)) == Some(o)
    ensures Advances(itp, ps, k, fuel, s, w, o, k + 1, fuel', s', w')
  {
    fuel', s', w' := StraightSteps(itp, ps, k, fuel, s, w, o);
    if Reproduces(itp, ps, k + 1, s', w', o) {
      RunsBefore(itp, ps, k, s, w, s', w', o);
    }
  }

  /** The items of a piece, by position in the original. */
  lemma {:induction false} ItemAt(ps: seq<Piece>, k: nat, i: nat)
    requires k < |ps| && i < |ps[k].win|
    ensures From(ps, k) + i < |Before(ps)| && Before(ps)[From(ps, k) + i] == ps[k].win[i]
  {
    PieceAt(ps, k);
    assert Before(ps)[From(ps, k)..From(ps, k + 1)][i] == ps[k].win[i];
  }

  /** Pushing a tag and jumping to it, right behind, changes nothing. */
  lemma {:induction false} JumpSteps<W>(
      itp: Interp<W>, prog: seq<Item>, i: nat, fuel: nat, s: seq<Word>, w: W, o: Outcome<W>)
    requires i + 2 < |prog| && prog[i].PushTag? && prog[i + 1] == Operation(JUMP) && prog[i + 2] == Tag(prog[i].tag)
    requires TagCount(itp, prog, itp.address(prog[i].tag)) <= 1
    requires Eval(itp, prog, fuel, State(i, s, w)) == Some(o)
    ensures fuel >= 2 && Eval(itp, prog, fuel - 2, State(i + 3, s, w)) == Some(o)
  {
    var v := itp.address(prog[i].tag);
    UniqueTarget(itp, prog, i + 2, v);
    var s1 := s + [v];
    EvalStep(itp, prog, fuel, State(i, s, w), State(i + 1, s1, w), o);
    assert s1[|s1| - 1] == v && s1[..|s1| - 1] == s;
    EvalStep(itp, prog, fuel - 1, State(i + 1, s1, w), State(i + 3, s, w), o);
  }

  /** Doing so under a condition only consumes the condition, whatever it is. */
  lemma {:induction false} JumpISteps<W>(
      itp: Interp<W>, prog: seq<Item>, i: nat, fuel: nat, s: seq<Word>, w: W, o: Outcome<W>)
      returns (fuel': nat)
    requires i + 2 < |prog| && prog[i].PushTag? && prog[i + 1] == Operation(JUMPI) && prog[i + 2] == Tag(prog[i].tag)
    requires TagCount(itp, prog, itp.address(prog[i].tag)) <= 1
    requires Eval(itp, prog, fuel, State(i, s, w)) == Some(o)
    ensures fuel' < fuel && |s| >= 1 && Eval(itp, prog, fuel', State(i + 3, s[..|s| - 1], w)) == Some(o)
  {
    var v := itp.address(prog[i].tag);
    UniqueTarget(itp, prog, i + 2, v);
    var s1 := s + [v];
    EvalStep(itp, prog, fuel, State(i, s, w), State(i + 1, s1, w), o);
    assert s1[|s1| - 1] == v;
    var s2 := s1[..|s1| - 2];
    assert s2 == s[..|s| - 1];
    if s1[|s1| - 2] == 0 {
      EvalStep(itp, prog, fuel - 1, State(i + 1, s1, w), State(i + 2, s2, w), o);
      EvalStep(itp, prog, fuel - 2, State(i + 2, s2, w), State(i + 3, s2, w), o);
      fuel' := fuel - 3;
    } else {
      EvalStep(itp, prog, fuel - 1, State(i + 1, s1, w), State(i + 3, s2, w), o);
      fuel' := fuel - 2;
    }
  }

  lemma {:induction false} JumpNextCase<W(!new)>(
      itp: Interp<W>, ps: seq<Piece>, k: nat, fuel: nat, s: seq<Word>, w: W, o: Outcome<W>)
      returns (fuel': nat, s': seq<Word>)
    requires k < |ps| && JumpNext(ps[k]) && Faithful(itp, ps)
    requires Eval(itp, Before(ps), fuel, State(From(ps, k), s, w)) == Some(o)
    ensures Advances(itp, ps, k, fuel, s, w, o, k + 1, fuel', s', w)
  {
    PieceAt(ps, k);
    fuel', s' := JumpNextSteps(itp, ps, k, fuel, s, w, o);
    if Reproduces(itp, ps, k + 1, s', w, o) {
      RunsBefore(itp, ps, k, s, w, s', w, o);
    }
  }

  /** What the replacement does: a condition, if there is one, is dropped. */
  lemma {:induction false} JumpNextOut<W>(itp: Interp<W>, p: Piece, s: seq<Word>, w: W)
    requires JumpNext(p) && (p.win[1] == Operation(JUMPI) ==> |s| >= 1)
    ensures IsStraight(p.out)
    ensures Straight(itp, p.out, s, w) == Some((if p.win[1] == Operation(JUMPI) then s[..|s| - 1] else s, w))
  {
    if p.win[1] == Operation(JUMPI) {
      Straight2(itp, Operation(POP), p.win[2], s, w);
    } else {
      Straight1(itp, p.win[2], s, w);
    }
  }

  /** The original runs to the end of the piece, with the same effect. */
  lemma {:induction false} JumpNextOn<W>(
      itp: Interp<W>, prog: seq<Item>, i: nat, p: Piece, fuel: nat, s: seq<Word>, w: W, o: Outcome<W>)
      returns (fuel': nat, s': seq<Word>)
    requires JumpNext(p) && i + 2 < |prog| && prog[i] == p.win[0] && prog[i + 1] == p.win[1] && prog[i + 2] == p.win[2]
    requires TagCount(itp, prog, itp.address(prog[i].tag)) <= 1
    requires Eval(itp, prog, fuel, State(i, s, w)) == Some(o)
    ensures fuel' < fuel && Eval(itp, prog, fuel', State(i + 3, s', w)) == Some(o)
    ensures IsStraight(p.out) && Straight(itp, p.out, s, w) == Some((s', w))
  {
    if p.win[1] == Operation(JUMPI) {
      fuel' := JumpISteps(itp, prog, i, fuel, s, w, o);
      s' := s[..|s| - 1];
    } else {
      JumpSteps(itp, prog, i, fuel, s, w, o);
      fuel', s' := fuel - 2, s;
    }
    JumpNextOut(itp, p, s, w);
  }

  lemma {:induction false} JumpNextSteps<W(!new)>(
      itp: Interp<W>, ps: seq<Piece>, k: nat, fuel: nat, s: seq<Word>, w: W, o: Outcome<W>)
      returns (fuel': nat, s': seq<Word>)
    requires k < |ps| && JumpNext(ps[k]) && Faithful(itp, ps)
    requires Eval(itp, Before(ps), fuel, State(From(ps, k), s, w)) == Some(o)
    ensures fuel' < fuel && Eval(itp, Before(ps), fuel', State(From(ps, k) + 3, s', w)) == Some(o)
    ensures IsStraight(ps[k].out) && Straight(itp, ps[k].out, s, w) == Some((s', w))
  {
    ItemAt(ps, k, 0);
    ItemAt(ps, k, 1);
    ItemAt(ps, k, 2);
    fuel', s' := JumpNextOn(itp, Before(ps), From(ps, k), ps[k], fuel, s, w, o);
  }

  /** A control item that is kept is found at the start of its piece in both programs. */
  lemma {:induction false} ControlAt(ps: seq<Piece>, k: nat)
    requires k < |ps| && KeptControl(ps[k])
    ensures From(ps, k) < |Before(ps)| && Before(ps)[From(ps, k)] == ps[k].win[0]
    ensures To(ps, k) < |After(ps)| && After(ps)[To(ps, k)] == ps[k].win[0]
  {
    ItemAt(ps, k, 0);
    PieceAt(ps, k);
    assert After(ps)[To(ps, k)..To(ps, k + 1)][0] == ps[k].out[0];
  }

  /** An ending instruction ends both programs alike. */
  lemma {:induction false} EndCase<W>(
      itp: Interp<W>, ps: seq<Piece>, k: nat, fuel: nat, s: seq<Word>, w: W, o: Outcome<W>)
    requires k < |ps| && KeptControl(ps[k]) && IsEnding(ps[k].win[0].op)
    requires Eval(itp, Before(ps), fuel, State(From(ps, k), s, w)) == Some(o)
    ensures Reproduces(itp, ps, k, s, w, o)
  {
    ControlAt(ps, k);
    assert Eval(itp, After(ps), 1, State(To(ps, k), s, w)) == Some(o);
  }

  /** A conditional jump not taken goes on behind itself in both programs. */
  lemma {:induction false} FallCase<W>(
      itp: Interp<W>, ps: seq<Piece>, k: nat, fuel: nat, s: seq<Word>, w: W, o: Outcome<W>)
    requires k < |ps| && KeptControl(ps[k]) && ps[k].win[0].op == JUMPI && |s| >= 2 && s[|s| - 2] == 0
    requires Eval(itp, Before(ps), fuel, State(From(ps, k), s, w)) == Some(o)
    ensures fuel >= 1 && Advances(itp, ps, k, fuel, s, w, o, k + 1, fuel - 1, s[..|s| - 2], w)
  {
    ControlAt(ps, k);
    PieceAt(ps, k);
    var s' := s[..|s| - 2];
    EvalStep(itp, Before(ps), fuel, State(From(ps, k), s, w), State(From(ps, k + 1), s', w), o);
    if Reproduces(itp, ps, k + 1, s', w, o) {
      StepBefore(itp, ps, k, s, w, k + 1, s', w, o);
    }
  }

  predicate IsTaken(b: Byte, s: seq<Word>) {
    b == JUMP || (b == JUMPI && (|s| >= 2 ==> s[|s| - 2] != 0))
  }

  /** A jump that is taken leads to its target. */
  lemma {:induction false} JumpStep<W>(itp: Interp<W>, prog: seq<Item>, pc: nat, b: Byte, s: seq<Word>, w: W, t: nat)
    requires pc < |prog| && prog[pc] == Operation(b) && IsTaken(b, s) && |s| >= InfoOf(b).args
    requires |s| >= 1 && Target(itp, prog, s[|s| - 1]) == Some(t)
    ensures Step(itp, prog, State(pc, s, w)) == Goes(State(t, s[..|s| - InfoOf(b).args], w))
  {
  }

  /** A run that goes on at a jump has its operands and a target. */
  lemma {:induction false} JumpNeeds<W>(
      itp: Interp<W>, prog: seq<Item>, pc: nat, b: Byte, fuel: nat, s: seq<Word>, w: W, o: Outcome<W>)
    requires pc < |prog| && prog[pc] == Operation(b) && IsTaken(b, s)
    requires Eval(itp, prog, fuel, State(pc, s, w)) == Some(o)
    ensures fuel >= 1 && |s| >= InfoOf(b).args >= 1 && Target(itp, prog, s[|s| - 1]).Some?
  {
  }

  /** A jump leads to places that correspond. */
  lemma {:induction false} JumpCase<W(!new)>(
      itp: Interp<W>, ps: seq<Piece>, k: nat, fuel: nat, s: seq<Word>, w: W, o: Outcome<W>)
      returns (j: nat, s': seq<Word>)
    requires Faithful(itp, ps) && k < |ps| && KeptControl(ps[k]) && IsTaken(ps[k].win[0].op, s)
    requires Eval(itp, Before(ps), fuel, State(From(ps, k), s, w)) == Some(o)
    ensures fuel >= 1 && Advances(itp, ps, k, fuel, s, w, o, j, fuel - 1, s', w)
  {
    var b := ps[k].win[0].op;
    ControlAt(ps, k);
    JumpNeeds(itp, Before(ps), From(ps, k), b, fuel, s, w, o);
    j := TargetsMove(itp, ps, s[|s| - 1]);
    s' := s[..|s| - InfoOf(b).args];
    JumpStep(itp, Before(ps), From(ps, k), b, s, w, From(ps, j));
    JumpStep(itp, After(ps), To(ps, k), b, s, w, To(ps, j));
    EvalStep(itp, Before(ps), fuel, State(From(ps, k), s, w), State(From(ps, j), s', w), o);
    if Reproduces(itp, ps, j, s', w, o) {
      StepBefore(itp, ps, k, s, w, j, s', w, o);
    }
  }

  lemma {:induction false} Advance<W(!new)>(
      itp: Interp<W>, ps: seq<Piece>, k: nat, fuel: nat, s: seq<Word>, w: W, o: Outcome<W>)
      returns (j: nat, fuel': nat, s': seq<Word>, w': W)
    requires Faithful(itp, ps) && k < |ps| && !(KeptControl(ps[k]) && IsEnding(ps[k].win[0].op))
    requires Eval(itp, Before(ps), fuel, State(From(ps, k), s, w)) == Some(o)
    ensures Advances(itp, ps, k, fuel, s, w, o, j, fuel', s', w')
  {
    if KeptControl(ps[k]) {
      w' := w;
      if ps[k].win[0].op == JUMPI && |s| >= 2 && s[|s| - 2] == 0 {
        FallCase(itp, ps, k, fuel, s, w, o);
        j, fuel', s' := k + 1, fuel - 1, s[..|s| - 2];
      } else {
        j, s' := JumpCase(itp, ps, k, fuel, s, w, o);
        fuel' := fuel - 1;
      }
    } else if JumpNext(ps[k]) {
      fuel', s' := JumpNextCase(itp, ps, k, fuel, s, w, o);
      j, w' := k + 1, w;
    } else {
      fuel', s', w' := StraightCase(itp, ps, k, fuel, s, w, o);
      j := k + 1;
    }
  }

  lemma {:induction false} AtEnd<W>(itp: Interp<W>, ps: seq<Piece>, s: seq<Word>, w: W)
    ensures From(ps, |ps|) == |Before(ps)|
    ensures Reproduces(itp, ps, |ps|, s, w, Outcome(STOP, s, w))
  {
    WholePlan(ps);
    assert Eval(itp, After(ps), 1, State(To(ps, |ps|), s, w)) == Some(Outcome(STOP, s, w));
  }

  /** From the start of any piece, a successful run of the original is reproduced. */
  lemma {:induction false} Simulates<W(!new)>(
      itp: Interp<W>, ps: seq<Piece>, k: nat, fuel: nat, s: seq<Word>, w: W, o: Outcome<W>)
    requires Faithful(itp, ps) && k <= |ps| && Eval(itp, Before(ps), fuel, State(From(ps, k), s, w)) == Some(o)
    ensures Reproduces(itp, ps, k, s, w, o)
    decreases fuel
  {
    if k == |ps| {
      AtEnd(itp, ps, s, w);
    } else if KeptControl(ps[k]) && IsEnding(ps[k].win[0].op) {
      EndCase(itp, ps, k, fuel, s, w, o);
    } else {
      var j, fuel', s', w' := Advance(itp, ps, k, fuel, s, w, o);
      Simulates(itp, ps, j, fuel', s', w', o);
    }
  }
}
