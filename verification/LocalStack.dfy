/**
 The compile-time stack of one basic block. It fetches items from the global stack
 lazily, keeps new items to itself, and records how far below and above its starting
 size the block reaches.
 */
module LocalStacks {
  import opened Words
  import opened Evm
  import opened Ir

  /** Smallest and largest stack size a block reaches, relative to its start. */
  datatype Reach = Reach(min: int, max: int)

  /**
   `input` and `depth` are a vector of `depth` entries, some of them empty: `input[k]` is
   the item fetched from, or last assigned to, the k-th slot below the global top. `local`
   are the items above the global stack; `globalPops` is the number of global items
   consumed.
   */
  datatype LStack = LStack(
    input: map<nat, Val>,
    depth: nat,
    local: seq<Val>,
    globalPops: nat,
    reach: Reach)
  {
    function Size(): int {
      |local| - globalPops
    }

    /** Index into `input` of the item at a given depth that is not local. */
    function GlobalIndex(index: nat): nat
      requires index >= |local|
    {
      index - |local| + globalPops
    }
  }

  /** Nothing looked up, nothing pushed. */
  const EMPTY := LStack(map k: nat | k in {} :: Imm(k), 0, [], 0, Reach(0, 0))

  function Min(a: int, b: int): int {
    if a <= b then a else b
  }

  function Max(a: int, b: int): (m: int)
    ensures m >= a && m >= b
  {
    if a >= b then a else b
  }

  // ----- operations -----

  /** Looks an item up, fetching it into register `regs` if it is not known yet. */
  function Get(ls: LStack, index: nat, regs: nat): (LStack, Val, seq<Instr>) {
    if index < |ls.local| then (ls, ls.local[|ls.local| - 1 - index], [])
    else
      var idx := ls.GlobalIndex(index);
      if idx in ls.input then (ls, ls.input[idx], [])
      else
        var slot: int := -1 - idx;
        var ls' := ls.(input := ls.input[idx := Reg(regs)],
                       depth := Max(ls.depth, idx + 1),
                       reach := ls.reach.(min := Min(ls.reach.min, slot)));
        (ls', Reg(regs), [Load(slot)])
  }

  function Set(ls: LStack, index: nat, v: Val): LStack {
    if index < |ls.local| then ls.(local := ls.local[|ls.local| - 1 - index := v])
    else
      var idx := ls.GlobalIndex(index);
      if idx < ls.depth then ls.(input := ls.input[idx := v]) else ls
  }

  function Push(ls: LStack, v: Val): LStack {
    ls.(local := ls.local + [v], reach := ls.reach.(max := Max(ls.reach.max, ls.Size() + 1)))
  }

  /** Removes the top item, which `Get` has made known. */
  function Drop(ls: LStack): LStack {
    if |ls.local| > 0 then
      ls.(local := ls.local[..|ls.local| - 1], reach := ls.reach.(min := Min(ls.reach.min, ls.Size() - 1)))
    else
      ls.(globalPops := ls.globalPops + 1, reach := ls.reach.(min := Min(ls.reach.min, ls.Size() - 1)))
  }

  function Pop(ls: LStack, regs: nat): (LStack, Val, seq<Instr>) {
    var (ls1, v, code) := Get(ls, 0, regs);
    (Drop(ls1), v, code)
  }

  function Dup(ls: LStack, index: nat, regs: nat): (LStack, seq<Instr>) {
    var (ls1, v, code) := Get(ls, index, regs);
    (Push(ls1, v), code)
  }

  function Swap(ls: LStack, index: nat, regs: nat): (LStack, seq<Instr>) {
    var (ls1, v, code1) := Get(ls, index, regs);
    var (ls2, tos, code2) := Get(ls1, 0, regs + |code1|);
    (Set(Set(ls2, index, tos), 0, v), code1 + code2)
  }

  // ----- what a local stack stands for -----

  predicate Valid(ls: LStack, regs: nat) {
    && ls.globalPops <= ls.depth
    && (forall k :: k in ls.input ==> k < ls.depth && ValidVal(ls.input[k], regs))
    && (forall k :: 0 <= k < |ls.local| ==> ValidVal(ls.local[k], regs))
    && ls.reach.min == 0 - ls.depth
    && ls.reach.max >= 0 && ls.reach.max >= ls.Size()
  }

  /** The block may run on a global stack of n items. */
  predicate Fits(ls: LStack, n: nat) {
    n + ls.reach.min >= 0 && n + ls.reach.max <= STACK_LIMIT
  }

  /** Global item k below the top, as the block sees it. */
  function Below(ls: LStack, k: nat, env: seq<nat>, s0: seq<nat>): nat
    requires k < |s0|
  {
    if k in ls.input then Eval(ls.input[k], env) else s0[|s0| - 1 - k]
  }

  /** The global items that are not consumed, bottom first. */
  function Kept(ls: LStack, env: seq<nat>, s0: seq<nat>): (r: seq<nat>)
    requires ls.globalPops <= |s0|
    ensures |r| == |s0| - ls.globalPops
    ensures forall j :: 0 <= j < |r| ==> r[j] == Below(ls, |s0| - 1 - j, env, s0)
  {
    seq(|s0| - ls.globalPops, j requires 0 <= j < |s0| - ls.globalPops => Below(ls, |s0| - 1 - j, env, s0))
  }

  function Values(vs: seq<Val>, env: seq<nat>): (r: seq<nat>)
    ensures |r| == |vs|
    ensures forall i :: 0 <= i < |r| ==> r[i] == Eval(vs[i], env)
  {
    seq(|vs|, i requires 0 <= i < |vs| => Eval(vs[i], env))
  }

  /** The plain stack this local stack stands for, over the global stack s0. */
  function View(ls: LStack, env: seq<nat>, s0: seq<nat>): (r: seq<nat>)
    requires ls.globalPops <= |s0|
    ensures |r| == |s0| + ls.Size()
  {
    Kept(ls, env, s0) + Values(ls.local, env)
  }

  /** Values the fetching code defines, given the global stack. */
  function Fetched(code: seq<Instr>, s0: seq<nat>): (r: seq<nat>)
    ensures |r| == |code|
  {
    seq(|code|, i requires 0 <= i < |code| =>
      if code[i].Load? && 0 <= |s0| + code[i].slot < |s0| then s0[|s0| + code[i].slot] else 0)
  }

  lemma EvalExtended(v: Val, env: seq<nat>, more: seq<nat>)
    requires ValidVal(v, |env|)
    ensures Eval(v, env + more) == Eval(v, env)
  {
  }

  /** Registers defined later do not change what the stack stands for. */
  lemma ViewExtended(ls: LStack, env: seq<nat>, more: seq<nat>, s0: seq<nat>)
    requires Valid(ls, |env|) && ls.globalPops <= |s0|
    ensures View(ls, env + more, s0) == View(ls, env, s0)
  {
    var a, b := View(ls, env + more, s0), View(ls, env, s0);
    forall j | 0 <= j < |a| ensures a[j] == b[j] {
      if j < |s0| - ls.globalPops {
        var k := |s0| - 1 - j;
        if k in ls.input {
          EvalExtended(ls.input[k], env, more);
        }
      }
    }
  }

  // ----- each operation does to the plain stack what its name says -----

  /** Looking up keeps the structure, never relaxes the demand, and makes the item known. */
  lemma GetStructure(ls: LStack, index: nat, regs: nat)
    requires Valid(ls, regs)
    ensures
      var (ls', v, code) := Get(ls, index, regs);
      && Valid(ls', regs + |code|) && ValidVal(v, regs + |code|)
      && ls'.depth >= ls.depth
      && ls'.reach.max == ls.reach.max && ls'.local == ls.local && ls'.globalPops == ls.globalPops
      && (index >= |ls.local| ==> ls'.GlobalIndex(index) < ls'.depth && ls'.GlobalIndex(index) in ls'.input)
      && (index < |ls.local| ==> ls' == ls)
  {
  }

  /** The recorded demand grows exactly when a plain stack of that size has no such item. */
  lemma GetDemand(ls: LStack, index: nat, regs: nat, n: nat)
    requires Valid(ls, regs) && ls.depth <= n
    ensures Get(ls, index, regs).0.depth <= n <==> index < n + ls.Size()
  {
  }

  /** Only the slot that was fetched differs, and it holds the fetched value. */
  lemma GetBelow(ls: LStack, index: nat, env: seq<nat>, s0: seq<nat>, k: nat)
    requires Valid(ls, |env|) && Get(ls, index, |env|).0.depth <= |s0| && k < |s0|
    ensures
      var (ls', v, code) := Get(ls, index, |env|);
      Below(ls', k, env + Fetched(code, s0), s0) == Below(ls, k, env, s0)
  {
    var (ls', v, code) := Get(ls, index, |env|);
    if k in ls.input {
      EvalExtended(ls.input[k], env, Fetched(code, s0));
    }
  }

  /** Looking up does not change the plain stack, and yields its item at that depth. */
  lemma GetCorrect(ls: LStack, index: nat, env: seq<nat>, s0: seq<nat>)
    requires Valid(ls, |env|) && Get(ls, index, |env|).0.depth <= |s0|
    ensures ls.depth <= |s0| && index < |View(ls, env, s0)|
    ensures
      var (ls', v, code) := Get(ls, index, |env|);
      var env' := env + Fetched(code, s0);
      View(ls', env', s0) == View(ls, env, s0)
      && Eval(v, env') == View(ls, env, s0)[|View(ls, env, s0)| - 1 - index]
  {
    var (ls', v, code) := Get(ls, index, |env|);
    GetStructure(ls, index, |env|);
    GetDemand(ls, index, |env|, |s0|);
    var env' := env + Fetched(code, s0);
    var view, view' := View(ls, env, s0), View(ls', env', s0);
    forall j | 0 <= j < |view| ensures view'[j] == view[j] {
      if j < |s0| - ls.globalPops {
        GetBelow(ls, index, env, s0, |s0| - 1 - j);
      } else {
        EvalExtended(ls.local[j - (|s0| - ls.globalPops)], env, Fetched(code, s0));
      }
    }
    if index < |ls.local| {
      EvalExtended(v, env, Fetched(code, s0));
    } else {
      assert view'[|view| - 1 - index] == Below(ls', ls.GlobalIndex(index), env', s0);
    }
  }

  lemma PushCorrect(ls: LStack, v: Val, env: seq<nat>, s0: seq<nat>)
    requires Valid(ls, |env|) && ValidVal(v, |env|) && ls.depth <= |s0|
    ensures Valid(Push(ls, v), |env|)
    ensures View(Push(ls, v), env, s0) == View(ls, env, s0) + [Eval(v, env)]
    ensures |s0| + Push(ls, v).reach.max <= STACK_LIMIT <==>
            |s0| + ls.reach.max <= STACK_LIMIT && |View(ls, env, s0)| + 1 <= STACK_LIMIT
  {
    assert Values(ls.local + [v], env) == Values(ls.local, env) + [Eval(v, env)];
    assert Kept(Push(ls, v), env, s0) == Kept(ls, env, s0);
  }

  /** Dropping a known top item. */
  lemma DropCorrect(ls: LStack, env: seq<nat>, s0: seq<nat>)
    requires Valid(ls, |env|) && ls.depth <= |s0|
    requires |ls.local| == 0 ==> ls.globalPops < ls.depth
    ensures Valid(Drop(ls), |env|)
    ensures View(ls, env, s0) != []
    ensures View(Drop(ls), env, s0) == View(ls, env, s0)[..|View(ls, env, s0)| - 1]
  {
    var a := View(Drop(ls), env, s0);
    var b := View(ls, env, s0);
    forall j | 0 <= j < |a| ensures a[j] == b[j] {
    }
  }

  /** Assigning a known item. */
  lemma SetCorrect(ls: LStack, index: nat, v: Val, env: seq<nat>, s0: seq<nat>)
    requires Valid(ls, |env|) && ValidVal(v, |env|) && ls.depth <= |s0|
    requires index >= |ls.local| ==> ls.GlobalIndex(index) < ls.depth
    ensures Valid(Set(ls, index, v), |env|)
    ensures Set(ls, index, v).Size() == ls.Size() && Set(ls, index, v).depth == ls.depth
    ensures Set(ls, index, v).reach.max == ls.reach.max
    ensures index < |View(ls, env, s0)|
    ensures
      var view := View(ls, env, s0);
      View(Set(ls, index, v), env, s0) == view[|view| - 1 - index := Eval(v, env)]
  {
    var view := View(ls, env, s0);
    var a := View(Set(ls, index, v), env, s0);
    forall j | 0 <= j < |a| ensures a[j] == view[|view| - 1 - index := Eval(v, env)][j] {
    }
  }

  /** Popping fails exactly when the plain stack is empty. */
  lemma PopDemand(ls: LStack, regs: nat, n: nat)
    requires Valid(ls, regs)
    ensures
      var (ls', v, code) := Pop(ls, regs);
      && Valid(ls', regs + |code|) && ValidVal(v, regs + |code|)
      && ls'.depth >= ls.depth && ls'.reach.max == ls.reach.max && ls'.Size() == ls.Size() - 1
    ensures ls.depth <= n ==> (Pop(ls, regs).0.depth <= n <==> n + ls.Size() > 0)
  {
    GetStructure(ls, 0, regs);
    if ls.depth <= n {
      GetDemand(ls, 0, regs, n);
    }
  }

  /** Popping refines removing the top of the plain stack. */
  lemma PopCorrect(ls: LStack, env: seq<nat>, s0: seq<nat>)
    requires Valid(ls, |env|) && Pop(ls, |env|).0.depth <= |s0|
    ensures ls.depth <= |s0| && View(ls, env, s0) != []
    ensures
      var (ls', v, code) := Pop(ls, |env|);
      var view := View(ls, env, s0);
      var env' := env + Fetched(code, s0);
      ls'.globalPops <= |s0| && View(ls', env', s0) == view[..|view| - 1] && Eval(v, env') == view[|view| - 1]
  {
    var (ls1, v, code) := Get(ls, 0, |env|);
    GetStructure(ls, 0, |env|);
    GetCorrect(ls, 0, env, s0);
    DropCorrect(ls1, env + Fetched(code, s0), s0);
  }

  // ----- write-back -----

  /** Item that belongs into the slot at offset g from the old top when the block ends. */
  function FinalItem(ls: LStack, g: int): Option<Val>
    requires ls.globalPops <= ls.depth && 0 - ls.depth <= g < ls.Size()
  {
    if g < 0 - ls.globalPops then
      if -g - 1 in ls.input then Some(ls.input[-g - 1]) else None
    else Some(ls.local[g + ls.globalPops])
  }

  /** The stores for the slots below offset hi. */
  function FinalStores(ls: LStack, hi: int): seq<Instr>
    requires ls.globalPops <= ls.depth && 0 - ls.depth <= hi <= ls.Size()
    decreases hi + ls.depth
  {
    if hi == 0 - ls.depth then []
    else
      var before := FinalStores(ls, hi - 1);
      match FinalItem(ls, hi - 1)
      case None => before
      case Some(v) => before + [Store(hi - 1, v)]
  }

  /** An item to be written back is the plain stack's item at that position. */
  lemma FinalItemView(ls: LStack, g: int, env: seq<nat>, s0: seq<nat>)
    requires ls.globalPops <= ls.depth <= |s0| && 0 - ls.depth <= g < ls.Size()
    ensures View(ls, env, s0)[|s0| + g] ==
            match FinalItem(ls, g) { case Some(v) => Eval(v, env) case None => s0[|s0| + g] }
  {
  }

  /** Below the fetched region the plain stack is the global stack. */
  lemma UntouchedView(ls: LStack, j: nat, env: seq<nat>, s0: seq<nat>)
    requires ls.globalPops <= ls.depth <= |s0| && j < |s0| - ls.depth
    requires forall k :: k in ls.input ==> k < ls.depth
    ensures View(ls, env, s0)[j] == s0[j]
  {
  }

  /** After the stores below offset hi, the slots up to there hold the plain stack. */
  ghost predicate WrittenUpTo(msg: Msg, ls: LStack, hi: int, rt: Rt, s0: seq<nat>)
    requires ls.globalPops <= ls.depth <= |s0| && 0 - ls.depth <= hi <= ls.Size()
    requires |s0| + ls.Size() <= |rt.slots| && |s0| <= |rt.slots|
  {
    var r := Exec(msg, |s0|, FinalStores(ls, hi), rt);
    && r.Ok? && r.rt == rt.(slots := r.rt.slots) && |r.rt.slots| == |rt.slots|
    && r.rt.slots[..|s0| + hi] == View(ls, rt.env, s0)[..|s0| + hi]
    && r.rt.slots[|s0| + hi..] == rt.slots[|s0| + hi..]
  }

  lemma {:induction false} StoresWriteView(msg: Msg, ls: LStack, hi: int, rt: Rt, s0: seq<nat>)
    requires ls.globalPops <= ls.depth <= |s0| && 0 - ls.depth <= hi <= ls.Size()
    requires forall k :: k in ls.input ==> k < ls.depth
    requires |s0| + ls.Size() <= |rt.slots| && |s0| <= |rt.slots| && rt.slots[..|s0|] == s0
    ensures WrittenUpTo(msg, ls, hi, rt, s0)
    decreases hi + ls.depth
  {
    if hi == 0 - ls.depth {
      NothingWritten(msg, ls, rt, s0);
    } else {
      StoresWriteView(msg, ls, hi - 1, rt, s0);
      WrittenOneMore(msg, ls, hi - 1, rt, s0);
    }
  }

  lemma {:induction false} NothingWritten(msg: Msg, ls: LStack, rt: Rt, s0: seq<nat>)
    requires ls.globalPops <= ls.depth <= |s0| && forall k :: k in ls.input ==> k < ls.depth
    requires |s0| + ls.Size() <= |rt.slots| && |s0| <= |rt.slots| && rt.slots[..|s0|] == s0
    ensures WrittenUpTo(msg, ls, 0 - ls.depth, rt, s0)
  {
    var view := View(ls, rt.env, s0);
    forall j | 0 <= j < |s0| - ls.depth ensures rt.slots[j] == view[j] {
      UntouchedView(ls, j, rt.env, s0);
      assert rt.slots[..|s0|][j] == s0[j];
    }
  }

  lemma {:induction false} WrittenOneMore(msg: Msg, ls: LStack, g: int, rt: Rt, s0: seq<nat>)
    requires ls.globalPops <= ls.depth <= |s0| && 0 - ls.depth <= g < ls.Size()
    requires |s0| + ls.Size() <= |rt.slots| && |s0| <= |rt.slots| && rt.slots[..|s0|] == s0
    requires WrittenUpTo(msg, ls, g, rt, s0)
    ensures WrittenUpTo(msg, ls, g + 1, rt, s0)
  {
    FinalItemView(ls, g, rt.env, s0);
    var before := Exec(msg, |s0|, FinalStores(ls, g), rt).rt;
    StoreExtends(before.slots, rt.slots, View(ls, rt.env, s0), |s0| + g);
    match FinalItem(ls, g)
    case Some(v) =>
      ExecSnoc(msg, |s0|, FinalStores(ls, g), Store(g, v), rt);
    case None =>
      SkippedSlot(before.slots, rt.slots, s0, |s0| + g);
  }

  lemma SkippedSlot(slots: seq<nat>, orig: seq<nat>, s0: seq<nat>, n: nat)
    requires n < |s0| <= |orig| == |slots| && orig[..|s0|] == s0 && slots[n..] == orig[n..]
    ensures slots[n := s0[n]] == slots
  {
    assert slots[n..][0] == orig[n..][0] && orig[..|s0|][n] == s0[n];
  }

  lemma StoreExtends(slots: seq<nat>, orig: seq<nat>, view: seq<nat>, n: nat)
    requires n < |view| && n < |slots| == |orig|
    requires slots[..n] == view[..n] && slots[n..] == orig[n..]
    ensures
      var slots' := slots[n := view[n]];
      slots'[..n + 1] == view[..n + 1] && slots'[n + 1..] == orig[n + 1..]
  {
    var slots' := slots[n := view[n]];
    forall j | 0 <= j <= n ensures slots'[j] == view[j] {
      if j < n {
        assert slots[..n][j] == view[..n][j];
      }
    }
    forall j | n < j < |slots| ensures slots'[j] == orig[j] {
      assert slots[n..][j - n] == orig[n..][j - n];
    }
  }

  /** Writing back leaves exactly the plain stack in the global stack, skipped slots included. */
  lemma WriteBackCorrect(msg: Msg, ls: LStack, rt: Rt, s0: seq<nat>)
    requires Valid(ls, |rt.env|) && Fits(ls, |s0|) && |rt.slots| == STACK_LIMIT && rt.slots[..|s0|] == s0
    ensures
      var r := Exec(msg, |s0|, FinalStores(ls, ls.Size()), rt);
      && r.Ok? && r.rt == rt.(slots := r.rt.slots) && |r.rt.slots| == STACK_LIMIT
      && 0 <= |s0| + ls.Size() <= STACK_LIMIT
      && r.rt.slots[..|s0| + ls.Size()] == View(ls, rt.env, s0)
  {
    StoresWriteView(msg, ls, ls.Size(), rt, s0);
    var view := View(ls, rt.env, s0);
    assert view[..|s0| + ls.Size()] == view;
  }
}
