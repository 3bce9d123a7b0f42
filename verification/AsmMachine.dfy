/**
 The meaning of assembly programs: a machine that runs a list of items directly, with
 jumps to tags, on an arbitrary interpretation of the instructions.
 */
module AsmMachine {
  import opened Words
  import opened Items
  import opened Evm

  // ----- meaning of a program -----

  /**
   Meaning of what the items leave open, on an arbitrary world W. `exec` gives the results
   and the new world of an instruction from its operands, lowest first, or None if it
   fails; `address` is where a tag will be, and `value` what the remaining push items push.
   The world does not include gas or the size of memory.
   */
  datatype Interp<!W> = Interp(
    exec: (Byte, seq<Word>, W) -> Option<(seq<Word>, W)>,
    address: nat -> Word,
    value: Item -> Wide)

  /** Instructions whose result depends on gas, memory size or the code itself. */
  predicate IsPositional(b: Byte) {
    b == GAS || b == PC || b == MSIZE || b == CODESIZE || b == CODECOPY
  }

  predicate IsEnding(b: Byte) {
    b == STOP || b == RETURN || b == REVERT || b == INVALID || b == SELFDESTRUCT
  }

  predicate IsControl(item: Item) {
    item.Operation? && (item.op == JUMP || item.op == JUMPI || IsEnding(item.op))
  }

  function SplitWords(v: Wide): seq<Word> {
    if v < TWO_128 then [v] else [v % TWO_128, v / TWO_128]
  }

  /** What a push item pushes, lowest first. */
  function Pushed<W>(itp: Interp<W>, item: Item): seq<Word>
    requires !item.Operation? && !item.Tag?
  {
    match item
    case Push(data) => SplitWords(data)
    case PushTag(t) => [itp.address(t)]
    case PushLibraryAddress(_) => [itp.value(item) % TWO_128, itp.value(item) / TWO_128]
    case _ => [itp.value(item) % TWO_128]
  }

  function Limited<W>(s: seq<Word>, w: W): Option<(seq<Word>, W)> {
    if |s| <= STACK_LIMIT then Some((s, w)) else None
  }

  function Apply<W>(itp: Interp<W>, b: Byte, s: seq<Word>, w: W): Option<(seq<Word>, W)> {
    var n := InfoOf(b).args;
    if |s| < n || !IsKnown(b) || IsPositional(b) || b == JUMPDEST || PUSH1 <= b <= PUSH32 then None
    else match itp.exec(b, s[|s| - n..], w)
      case None => None
      case Some(r) => Limited(s[..|s| - n] + r.0, r.1)
  }

  /** An item that does not transfer control. */
  function Local<W>(itp: Interp<W>, item: Item, s: seq<Word>, w: W): Option<(seq<Word>, W)> {
    if item.Tag? then Some((s, w))
    else if !item.Operation? then Limited(s + Pushed(itp, item), w)
    else if item.op == POP then (if |s| >= 1 then Some((s[..|s| - 1], w)) else None)
    else if IsDupCode(item.op) then
      var n := DupDepth(item.op);
      if |s| >= n then Limited(s + [s[|s| - n]], w) else None
    else if IsSwapCode(item.op) then
      var n := SwapDepth(item.op);
      if |s| >= n + 1 then Some((s[|s| - 1 := s[|s| - 1 - n]][|s| - 1 - n := s[|s| - 1]], w)) else None
    else Apply(itp, item.op, s, w)
  }

  predicate IsTagAt<W>(itp: Interp<W>, item: Item, v: Word) {
    item.Tag? && itp.address(item.tag) == v
  }

  /** Position after the first tag whose address is v. */
  function Target<W>(itp: Interp<W>, prog: seq<Item>, v: Word): Option<nat>
    decreases |prog|
  {
    if prog == [] then None
    else if IsTagAt(itp, prog[0], v) then Some(1)
    else match Target(itp, prog[1..], v)
      case None => None
      case Some(k) => Some(k + 1)
  }

  function TagCount<W>(itp: Interp<W>, prog: seq<Item>, v: Word): nat
    decreases |prog|
  {
    if prog == [] then 0
    else (if IsTagAt(itp, prog[0], v) then 1 else 0) + TagCount(itp, prog[1..], v)
  }

  datatype State<W> = State(pc: nat, stack: seq<Word>, world: W)

  /** How a run ends: the ending instruction with the stack and world it found. */
  datatype Outcome<W> = Outcome(op: Byte, stack: seq<Word>, world: W)

  datatype StepResult<W> = Goes(st: State<W>) | Ends(o: Outcome<W>) | Sticks

  function Step<W>(itp: Interp<W>, prog: seq<Item>, st: State<W>): StepResult<W> {
    var s := st.stack;
    if st.pc >= |prog| then Ends(Outcome(STOP, s, st.world))
    else
      var item := prog[st.pc];
      if !IsControl(item) then
        match Local(itp, item, s, st.world)
        case None => Sticks
        case Some(r) => Goes(State(st.pc + 1, r.0, r.1))
      else if |s| < InfoOf(item.op).args then Sticks
      else if IsEnding(item.op) then Ends(Outcome(item.op, s, st.world))
      else if item.op == JUMPI && s[|s| - 2] == 0 then Goes(State(st.pc + 1, s[..|s| - 2], st.world))
      else
        match Target(itp, prog, s[|s| - 1])
        case None => Sticks
        case Some(p) => Goes(State(p, s[..|s| - InfoOf(item.op).args], st.world))
  }

  /** The outcome of running for at most `fuel` steps; None if there is none or the run fails. */
  function Eval<W>(itp: Interp<W>, prog: seq<Item>, fuel: nat, st: State<W>): Option<Outcome<W>> {
    if fuel == 0 then None
    else match Step(itp, prog, st)
      case Sticks => None
      case Ends(o) => Some(o)
      case Goes(st') => Eval(itp, prog, fuel - 1, st')
  }

  /** Run from the start, the program ends with the outcome. */
  ghost predicate Runs<W>(itp: Interp<W>, prog: seq<Item>, s: seq<Word>, w: W, o: Outcome<W>) {
    exists fuel: nat :: Eval(itp, prog, fuel, State(0, s, w)) == Some(o)
  }

  /** Results as the table says, no change to the world without side effects, AND as bit-wise and. */
  ghost predicate Sound<W(!new)>(itp: Interp<W>) {
    && (forall b: Byte, args, w :: itp.exec(b, args, w).Some? ==>
          && |itp.exec(b, args, w).value.0| == InfoOf(b).ret
          && (!InfoOf(b).sideEffects ==> itp.exec(b, args, w).value.1 == w))
    && (forall x: Word, y: Word, w :: itp.exec(AND, [x, y], w).Some? ==>
          itp.exec(AND, [x, y], w).value.0[0] == BitAnd(x, y))
  }

  /** The tags pushed have addresses below 2^32. */
  ghost predicate TagsLow<W>(itp: Interp<W>, prog: seq<Item>) {
    forall i :: 0 <= i < |prog| && prog[i].PushTag? ==> itp.address(prog[i].tag) < 0x1_0000_0000
  }

  /** No two tags share an address, and pushed tags are placed low enough. */
  ghost predicate Placed<W>(itp: Interp<W>, prog: seq<Item>) {
    (forall v: Word :: TagCount(itp, prog, v) <= 1) && TagsLow(itp, prog)
  }

  // ----- straight-line code -----

  predicate IsStraight(items: seq<Item>) {
    forall k :: 0 <= k < |items| ==> !IsControl(items[k])
  }

  function Straight<W>(itp: Interp<W>, items: seq<Item>, s: seq<Word>, w: W): Option<(seq<Word>, W)>
    decreases |items|
  {
    if items == [] then Some((s, w))
    else match Local(itp, items[0], s, w)
      case None => None
      case Some(r) => Straight(itp, items[1..], r.0, r.1)
  }

  /** A successful run of straight-line code passes through it. */
  lemma {:induction false} RunsThrough<W>(
      itp: Interp<W>, prog: seq<Item>, pc: nat, n: nat, fuel: nat, s: seq<Word>, w: W, o: Outcome<W>)
    requires pc + n <= |prog| && IsStraight(prog[pc..pc + n])
    requires Eval(itp, prog, fuel, State(pc, s, w)) == Some(o)
    ensures fuel >= n && Straight(itp, prog[pc..pc + n], s, w).Some?
    ensures
      var r := Straight(itp, prog[pc..pc + n], s, w).value;
      Eval(itp, prog, fuel - n, State(pc + n, r.0, r.1)) == Some(o)
    decreases n
  {
    if n > 0 {
      var items := prog[pc..pc + n];
      assert items[0] == prog[pc] && items[1..] == prog[pc + 1..pc + n];
      var r := Local(itp, prog[pc], s, w).value;
      RunsThrough(itp, prog, pc + 1, n - 1, fuel - 1, r.0, r.1, o);
    }
  }

  lemma {:induction false} RunsFrom<W>(
      itp: Interp<W>, prog: seq<Item>, pc: nat, n: nat, fuel: nat, s: seq<Word>, w: W, o: Outcome<W>)
    requires pc + n <= |prog| && IsStraight(prog[pc..pc + n]) && Straight(itp, prog[pc..pc + n], s, w).Some?
    requires
      var r := Straight(itp, prog[pc..pc + n], s, w).value;
      Eval(itp, prog, fuel, State(pc + n, r.0, r.1)) == Some(o)
    ensures Eval(itp, prog, fuel + n, State(pc, s, w)) == Some(o)
    decreases n
  {
    if n > 0 {
      var items := prog[pc..pc + n];
      assert items[0] == prog[pc] && items[1..] == prog[pc + 1..pc + n];
      var r := Local(itp, prog[pc], s, w).value;
      RunsFrom(itp, prog, pc + 1, n - 1, fuel, r.0, r.1, o);
    }
  }

  lemma {:induction false} EvalStep<W>(
      itp: Interp<W>, prog: seq<Item>, fuel: nat, st: State<W>, st': State<W>, o: Outcome<W>)
    requires Eval(itp, prog, fuel, st) == Some(o) && Step(itp, prog, st) == Goes(st')
    ensures fuel >= 1 && Eval(itp, prog, fuel - 1, st') == Some(o)
  {
  }

  lemma {:induction false} Straight1<W>(itp: Interp<W>, a: Item, s: seq<Word>, w: W)
    ensures Straight(itp, [a], s, w) == Local(itp, a, s, w)
  {
    assert [a][1..] == [];
  }

  lemma {:induction false} Straight2<W>(itp: Interp<W>, a: Item, b: Item, s: seq<Word>, w: W)
    ensures Straight(itp, [a, b], s, w) ==
            match Local(itp, a, s, w) { case None => None case Some(r) => Local(itp, b, r.0, r.1) }
  {
    assert [a, b][1..] == [b];
    if Local(itp, a, s, w).Some? {
      Straight1(itp, b, Local(itp, a, s, w).value.0, Local(itp, a, s, w).value.1);
    }
  }

  lemma {:induction false} Straight3<W>(itp: Interp<W>, a: Item, b: Item, c: Item, s: seq<Word>, w: W)
    ensures Straight(itp, [a, b, c], s, w) ==
            match Local(itp, a, s, w) { case None => None case Some(r) => Straight(itp, [b, c], r.0, r.1) }
  {
    assert [a, b, c][1..] == [b, c];
  }
}
