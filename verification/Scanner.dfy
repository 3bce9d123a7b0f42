/**
 Splitting bytecode into basic blocks. Code after an instruction that control never falls
 out of is dropped up to the next JUMPDEST.
 */
module Scanner {
  import opened Words
  import opened Opcodes
  import opened Evm
  import opened Positions

  datatype Span = Span(begin: nat, end: nat)

  /** Control falls out of the end of a block exactly into the next one, or the end of the code. */
  predicate FallsIntoNext(code: seq<Byte>, spans: seq<Span>, i: nat, rest: nat)
    requires i < |spans|
  {
    !EndsDead(code, spans[i].begin, spans[i].end) ==>
      spans[i].end == if i + 1 < |spans| then spans[i + 1].begin else rest
  }

  predicate IsBlock(code: seq<Byte>, s: Span) {
    s.begin < s.end && s.begin in Starts(code, 0) && Segment(code, s.begin, s.end)
  }

  /** Instruction x comes after a dead end and before the next JUMPDEST. */
  predicate DeadAfter(code: seq<Byte>, s: Span, x: nat) {
    && EndsDead(code, s.begin, s.end) && s.end <= x
    && forall y :: y in Starts(code, 0) && s.end <= y <= x && y < |code| ==> code[y] != JUMPDEST
  }

  predicate InSome(spans: seq<Span>, x: nat) {
    exists i :: 0 <= i < |spans| && spans[i].begin <= x < spans[i].end
  }

  predicate DeadSome(code: seq<Byte>, spans: seq<Span>, x: nat) {
    exists i :: 0 <= i < |spans| && DeadAfter(code, spans[i], x)
  }

  predicate BeginsSome(spans: seq<Span>, x: nat) {
    exists i :: 0 <= i < |spans| && spans[i].begin == x
  }

  /**
   Blocks are well formed, in order and disjoint; the first is at the start of the code;
   control falls from each into the next; every JUMPDEST begins one; and every instruction
   is in one or dead.
   */
  predicate Partition(code: seq<Byte>, spans: seq<Span>) {
    && (forall i :: 0 <= i < |spans| ==> IsBlock(code, spans[i]))
    && (forall i, j :: 0 <= i < j < |spans| ==> spans[i].end <= spans[j].begin)
    && (forall i :: 0 <= i < |spans| ==> FallsIntoNext(code, spans, i, |code|))
    && (code != [] ==> spans != [] && spans[0].begin == 0)
    && (forall d :: d in JumpDests(code, 0) ==> BeginsSome(spans, d))
    && (forall x :: x in Starts(code, 0) ==> InSome(spans, x) || DeadSome(code, spans, x))
  }

  /** Skips push data; the result can be the end of the code. */
  method SkipPushDataAndGetNext(code: seq<Byte>, curr: nat) returns (next: nat)
    requires curr < |code|
    ensures next == Next(code, curr)
  {
    var offset := 1;
    if code[curr] >= PUSH1 && code[curr] <= PUSH32 {
      var n := code[curr] - PUSH1 + 1;
      var left := |code| - curr - 1;
      offset := offset + (if n < left then n else left);
    }
    next := curr + offset;
  }

  // ----- the scan -----

  predicate BlocksSoFar(code: seq<Byte>, spans: seq<Span>, upTo: nat, rest: nat) {
    && (forall i :: 0 <= i < |spans| ==> IsBlock(code, spans[i]) && spans[i].end <= upTo)
    && (forall i, j :: 0 <= i < j < |spans| ==> spans[i].end <= spans[j].begin)
    && (forall i :: 0 <= i < |spans| ==> FallsIntoNext(code, spans, i, rest))
    && (spans != [] ==> spans[0].begin == 0)
  }

  predicate SeenSoFar(code: seq<Byte>, spans: seq<Span>, curr: nat, begin: nat, isDead: bool) {
    forall x :: x in Starts(code, 0) && x < curr && x < |code| ==>
      && (code[x] == JUMPDEST ==> BeginsSome(spans, x) || (!isDead && x == begin))
      && (InSome(spans, x) || DeadSome(code, spans, x) || (!isDead && begin <= x))
  }

  /** State of the scan at instruction curr. */
  predicate Scanned(code: seq<Byte>, curr: nat, begin: nat, isDead: bool, spans: seq<Span>) {
    && curr <= |code| && (curr < |code| ==> curr in Starts(code, 0))
    && SeenSoFar(code, spans, curr, begin, isDead)
    && if isDead then
         && spans != [] && BlocksSoFar(code, spans, curr, begin)
         && EndsDead(code, spans[|spans| - 1].begin, spans[|spans| - 1].end)
         && forall y :: y in Starts(code, 0) && spans[|spans| - 1].end <= y < curr && y < |code| ==> code[y] != JUMPDEST
       else
         && BlocksSoFar(code, spans, begin, begin)
         && Open(code, begin, curr) && begin <= curr
         && (begin < |code| ==> begin in Starts(code, 0))
         && (spans == [] ==> begin == 0)
         && (begin < curr < |code| ==> code[curr] != JUMPDEST)
         && (curr == |code| ==> begin == curr)
  }

  lemma SkipDead(code: seq<Byte>, curr: nat, begin: nat, spans: seq<Span>)
    requires curr < |code| && Scanned(code, curr, begin, true, spans) && code[curr] != JUMPDEST
    ensures Scanned(code, Next(code, curr), begin, true, spans)
  {
    var next := Next(code, curr);
    StartsClosed(code, 0, curr);
    var last := spans[|spans| - 1];
    forall x | x in Starts(code, 0) && curr < x < next && x < |code| ensures false {
      StartsGap(code, 0, curr, x);
    }
    assert DeadAfter(code, last, curr);
    assert DeadSome(code, spans, curr);
  }

  lemma Revive(code: seq<Byte>, curr: nat, begin: nat, spans: seq<Span>)
    requires curr < |code| && Scanned(code, curr, begin, true, spans)
    ensures Scanned(code, curr, curr, false, spans)
  {
    forall i | 0 <= i < |spans| ensures FallsIntoNext(code, spans, i, curr) {
      assert FallsIntoNext(code, spans, i, begin);
    }
  }

  lemma KeepOpen(code: seq<Byte>, curr: nat, begin: nat, spans: seq<Span>)
    requires curr < |code| && Scanned(code, curr, begin, false, spans)
    requires !IsEnder(code[curr]) && Next(code, curr) < |code| && code[Next(code, curr)] != JUMPDEST
    ensures Scanned(code, Next(code, curr), begin, false, spans)
  {
    var next := Next(code, curr);
    StartsClosed(code, 0, curr);
    OpenGrows(code, begin, curr);
    forall x | x in Starts(code, 0) && curr < x < next ensures false {
      StartsGap(code, 0, curr, x);
    }
  }

  lemma MoreSpans(code: seq<Byte>, spans: seq<Span>, s: Span, x: nat)
    ensures BeginsSome(spans, x) ==> BeginsSome(spans + [s], x)
    ensures InSome(spans, x) ==> InSome(spans + [s], x)
    ensures DeadSome(code, spans, x) ==> DeadSome(code, spans + [s], x)
    ensures s.begin == x ==> BeginsSome(spans + [s], x)
    ensures s.begin <= x < s.end ==> InSome(spans + [s], x)
  {
    var all := spans + [s];
    if BeginsSome(spans, x) {
      var i :| 0 <= i < |spans| && spans[i].begin == x;
      assert all[i].begin == x;
    }
    if InSome(spans, x) {
      var i :| 0 <= i < |spans| && spans[i].begin <= x < spans[i].end;
      assert all[i].begin <= x < all[i].end;
    }
    if DeadSome(code, spans, x) {
      var i :| 0 <= i < |spans| && DeadAfter(code, spans[i], x);
      assert DeadAfter(code, all[i], x);
    }
    assert all[|spans|] == s;
  }

  lemma ClosedBlocks(code: seq<Byte>, spans: seq<Span>, begin: nat, next: nat)
    requires BlocksSoFar(code, spans, begin, begin) && IsBlock(code, Span(begin, next))
    requires spans == [] ==> begin == 0
    ensures BlocksSoFar(code, spans + [Span(begin, next)], next, next)
  {
    var all := spans + [Span(begin, next)];
    forall i | 0 <= i < |all| ensures FallsIntoNext(code, all, i, next) {
      if i < |spans| {
        assert FallsIntoNext(code, spans, i, begin);
      }
    }
  }

  lemma CloseBlock(code: seq<Byte>, curr: nat, begin: nat, spans: seq<Span>)
    requires curr < |code| && Scanned(code, curr, begin, false, spans)
    ensures
      var next := Next(code, curr);
      Scanned(code, next, next, DeadEnd(code[curr]), spans + [Span(begin, next)])
  {
    var next := Next(code, curr);
    var s := Span(begin, next);
    StartsClosed(code, 0, curr);
    OpenGrows(code, begin, curr);
    ClosedBlocks(code, spans, begin, next);
    forall x | x in Starts(code, 0) && x < next && x < |code|
      ensures (code[x] == JUMPDEST ==> BeginsSome(spans + [s], x))
           && (InSome(spans + [s], x) || DeadSome(code, spans + [s], x))
    {
      if x > curr {
        StartsGap(code, 0, curr, x);
      }
      MoreSpans(code, spans, s, x);
    }
  }

  lemma ScanDone(code: seq<Byte>, begin: nat, isDead: bool, spans: seq<Span>)
    requires Scanned(code, |code|, begin, isDead, spans)
    ensures Partition(code, spans)
  {
    forall i | 0 <= i < |spans| ensures FallsIntoNext(code, spans, i, |code|) {
      assert FallsIntoNext(code, spans, i, begin);
    }
    forall d | d in JumpDests(code, 0) ensures BeginsSome(spans, d) {
      JumpDestsAreStarts(code, 0, d);
    }
    forall x | x in Starts(code, 0) ensures InSome(spans, x) || DeadSome(code, spans, x) {
      StartsClosed(code, 0, x);
    }
  }

  method CreateBasicBlocks(code: seq<Byte>) returns (spans: seq<Span>)
    ensures Partition(code, spans)
  {
    spans := [];
    var isDead := false;
    var begin: nat := 0;
    var curr: nat := 0;
    while curr != |code|
      invariant Scanned(code, curr, begin, isDead, spans)
      decreases |code| - curr
    {
      var next := SkipPushDataAndGetNext(code, curr);
      if isDead {
        if code[curr] == JUMPDEST {
          Revive(code, curr, begin, spans);
          isDead := false;
          begin := curr;
        } else {
          SkipDead(code, curr, begin, spans);
          curr := next;
          continue;
        }
      }
      var isEnd := false;
      if DeadEnd(code[curr]) {
        isDead := true;
        isEnd := true;
      } else if code[curr] == JUMPI {
        isEnd := true;
      }
      if next == |code| || code[next] == JUMPDEST {
        isEnd := true;
      }
      if isEnd {
        CloseBlock(code, curr, begin, spans);
        spans := spans + [Span(begin, next)];
        begin := next;
      } else {
        KeepOpen(code, curr, begin, spans);
      }
      curr := next;
    }
    ScanDone(code, begin, isDead, spans);
  }
}
