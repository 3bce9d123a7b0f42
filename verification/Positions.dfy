/**
 Instruction positions in bytecode, and how a run of instructions forms a block.
 */
module Positions {
  import opened Words
  import opened Opcodes
  import opened Evm

  /** Position after the instruction at pc, at most the end of the code. */
  function Next(code: seq<Byte>, pc: nat): (n: nat)
    requires pc < |code|
    ensures pc < n <= |code|
  {
    if NextPos(code, pc) <= |code| then NextPos(code, pc) else |code|
  }

  /** Positions of the instructions from pc on. */
  function Starts(code: seq<Byte>, pc: nat): set<nat>
    decreases |code| - pc
  {
    if pc >= |code| then {} else {pc} + Starts(code, Next(code, pc))
  }

  lemma {:induction false} StartsClosed(code: seq<Byte>, from: nat, pc: nat)
    requires pc in Starts(code, from)
    ensures from <= pc < |code| && (Next(code, pc) < |code| ==> Next(code, pc) in Starts(code, from))
    decreases |code| - from
  {
    if pc != from {
      StartsClosed(code, Next(code, from), pc);
    }
  }

  /** No instruction starts between an instruction and its successor. */
  lemma {:induction false} StartsGap(code: seq<Byte>, from: nat, pc: nat, x: nat)
    requires pc in Starts(code, from) && x in Starts(code, from) && x > pc
    ensures pc < |code| && x >= Next(code, pc)
    decreases |code| - from
  {
    if pc == from {
      StartsClosed(code, Next(code, from), x);
    } else if x == from {
      StartsClosed(code, Next(code, from), pc);
    } else {
      StartsGap(code, Next(code, from), pc, x);
    }
  }

  /** The valid jump destinations are the JUMPDEST instructions. */
  lemma {:induction false} JumpDestsAreStarts(code: seq<Byte>, from: nat, d: nat)
    ensures d in JumpDests(code, from) <==> d in Starts(code, from) && d < |code| && code[d] == JUMPDEST
    decreases |code| - from
  {
    if from < |code| {
      JumpDestsAreStarts(code, Next(code, from), d);
      JumpDestsClipped(code, from);
      if d in Starts(code, Next(code, from)) {
        StartsClosed(code, Next(code, from), d);
      }
    }
  }

  lemma JumpDestsClipped(code: seq<Byte>, pc: nat)
    requires pc < |code|
    ensures JumpDests(code, NextPos(code, pc)) == JumpDests(code, Next(code, pc))
  {
  }

  // ----- blocks of instructions -----

  /** Instructions control never falls out of. */
  predicate DeadEnd(b: Byte) {
    b == JUMP || b == RETURN || b == REVERT || b == STOP || b == SELFDESTRUCT
  }

  predicate IsEnder(b: Byte) {
    DeadEnd(b) || b == JUMPI
  }

  /** Instructions from b up to c, none of which ends a block, with no JUMPDEST after the first. */
  predicate Open(code: seq<Byte>, b: nat, c: nat)
    decreases |code| - b
  {
    c <= |code| &&
    (b == c ||
     (b < c && !IsEnder(code[b])
      && (Next(code, b) < c ==> code[Next(code, b)] != JUMPDEST) && Open(code, Next(code, b), c)))
  }

  /** A block: only its last instruction may end it, only its first may be a JUMPDEST. */
  predicate Segment(code: seq<Byte>, b: nat, e: nat)
    decreases |code| - b
  {
    e <= |code| &&
    (b == e ||
     (b < e && (IsEnder(code[b]) ==> Next(code, b) == e)
      && (Next(code, b) < e ==> code[Next(code, b)] != JUMPDEST) && Segment(code, Next(code, b), e)))
  }

  /** The last instruction of a block is one that control never falls out of. */
  predicate EndsDead(code: seq<Byte>, b: nat, e: nat)
    decreases |code| - b
  {
    b < |code| && b < e && (if Next(code, b) == e then DeadEnd(code[b]) else EndsDead(code, Next(code, b), e))
  }

  lemma {:induction false} OpenGrows(code: seq<Byte>, b: nat, c: nat)
    requires Open(code, b, c) && c < |code| && (b < c ==> code[c] != JUMPDEST)
    ensures Segment(code, b, Next(code, c))
    ensures !IsEnder(code[c]) ==> Open(code, b, Next(code, c))
    ensures EndsDead(code, b, Next(code, c)) <==> DeadEnd(code[c])
    decreases |code| - b
  {
    if b < c {
      OpenGrows(code, Next(code, b), c);
      OpenOrdered(code, Next(code, b), c);
    }
  }

  lemma OpenOrdered(code: seq<Byte>, b: nat, c: nat)
    requires Open(code, b, c)
    ensures b <= c
  {
  }
}
