/**
 Gas and flags across message calls: what a CALL or CREATE instruction charges, hands
 over and gets back, how the success flag travels inside the returned gas value, and the
 identifiers under which compiled code is kept.
 */
module Calls {
  import opened Words
  import O = Opcodes
  import Ir

  /** Call kinds, with the extra one the compiler uses for STATICCALL. */
  datatype Kind = Call | DelegateCall | CallCode | Create | StaticCall

  datatype Message = Message(
    kind: Kind,
    isStatic: bool,
    depth: nat,
    gas: nat,
    value: Word,
    address: nat,
    caller: nat)

  // ----- the failure bit -----

  const FAILURE_BIT := TWO_63

  /** The 64-bit value a call returns: gas left, with the top bit set on failure. */
  function Pack(gasLeft: nat, success: bool): nat {
    if success then gasLeft else BitOr(gasLeft, FAILURE_BIT)
  }

  /** As a signed number the value is negative exactly if the top bit is set. */
  function IsSuccess(r: nat): bool {
    r < TWO_63
  }

  /** Subtraction on 64 bits. */
  function Sub64(a: nat, b: nat): nat {
    (a - b) % TWO_64
  }

  function Unpack(r: nat): (nat, bool) {
    (Sub64(r, if IsSuccess(r) then 0 else FAILURE_BIT), IsSuccess(r))
  }

  lemma {:induction false} OrAbove(x: nat, n: nat)
    requires x < Pow2(n)
    ensures BitOr(x, Pow2(n)) == x + Pow2(n)
  {
    if x > 0 {
      OrAbove(x / 2, n - 1);
    }
  }

  /** Both the gas and the success flag arrive, for every amount of gas. */
  lemma UnpackPacked(gasLeft: nat, success: bool)
    requires gasLeft <= GAS_MAX
    ensures Pack(gasLeft, success) < TWO_64
    ensures Unpack(Pack(gasLeft, success)) == (gasLeft, success)
  {
    Pow2At64();
    OrAbove(gasLeft, 63);
    DivModUnique(gasLeft, 0, TWO_64, gasLeft);
  }

  // ----- CALL, CALLCODE, DELEGATECALL, STATICCALL -----

  function CallBaseCost(rev: O.Revision): nat {
    if rev >= O.AION then 1000 else if rev >= O.TANGERINE_WHISTLE then 700 else 40
  }

  /** Cost of transferring value; in static mode a CALL cannot pay it. */
  function TransferCost(rev: O.Revision, inst: Kind, isStatic: bool, value: Word): nat {
    if value == 0 then 0
    else if inst.Call? && isStatic then GAS_MAX
    else if rev >= O.AION then 15000
    else 9000
  }

  const NEW_ACCOUNT_COST := 25000
  const STIPEND := 2300

  function NewAccountCost(rev: O.Revision, inst: Kind, value: Word, exists_: bool): nat {
    if !inst.Call? || exists_ || (rev >= O.SPURIOUS_DRAGON && value == 0) then 0 else NEW_ACCOUNT_COST
  }

  function Stipend(value: Word): nat {
    if value == 0 then 0 else STIPEND
  }

  /** The most a call may be given: all but one 64th. */
  function Allowance(gas: nat): nat {
    gas - gas / 64
  }

  function GasForCallee(rev: O.Revision, gas: nat, requested: Word): nat {
    if rev >= O.TANGERINE_WHISTLE && requested > Allowance(gas) then Allowance(gas) else requested
  }

  /** Gas the caller keeps and gas the callee starts with. */
  datatype Plan = Plan(kept: nat, given: nat)

  function Charge(gas: nat, cost: nat): Option<nat> {
    if cost <= gas then Some(gas - cost) else None
  }

  function Then(gas: Option<nat>, cost: nat): Option<nat> {
    match gas
    case None => None
    case Some(g) => Charge(g, cost)
  }

  /** What a call costs before any gas is handed over. */
  function CallCosts(
      rev: O.Revision, inst: Kind, isStatic: bool, memoryCost: nat, value: Word, exists_: bool): nat
  {
    CallBaseCost(rev) + memoryCost + TransferCost(rev, inst, isStatic, value)
    + NewAccountCost(rev, inst, value, exists_)
  }

  /** The charges of a call-like instruction in order; None if one cannot be paid. */
  function PlanCall(
      rev: O.Revision, inst: Kind, isStatic: bool, gas: nat, memoryCost: nat,
      requested: Word, value: Word, exists_: bool): Option<Plan>
  {
    var left :=
      Then(Then(Then(Charge(gas, CallBaseCost(rev)), memoryCost), TransferCost(rev, inst, isStatic, value)),
           NewAccountCost(rev, inst, value, exists_));
    if left == None then None else HandOver(rev, left.value, requested, value)
  }

  /** Takes the callee's gas from what is left and adds the stipend. */
  function HandOver(rev: O.Revision, gas: nat, requested: Word, value: Word): Option<Plan> {
    var callGas := GasForCallee(rev, gas, requested);
    match Charge(gas, Ir.Saturate(callGas))
    case None => None
    case Some(kept) => Some(Plan(kept, callGas % TWO_64 + Stipend(value)))
  }

  /**
   From EIP-150 on a callee may be given anything that leaves the caller one 64th, before
   anything there is; it is given what it asked for, or else the greatest such amount.
   */
  predicate MostAllowed(rev: O.Revision, gas: nat, given: nat, requested: nat) {
    if rev >= O.TANGERINE_WHISTLE
    then given <= requested && given + gas / 64 <= gas && (given == requested || given + gas / 64 == gas)
    else given == requested <= gas
  }

  /** Below the maximum of the counter, gas handed over is taken from the caller in full. */
  lemma HandOverExact(rev: O.Revision, gas: nat, requested: Word, value: Word)
    requires gas < GAS_MAX
    ensures
      var p := HandOver(rev, gas, requested, value);
      && (p.Some? <==> rev >= O.TANGERINE_WHISTLE || requested <= gas)
      && (p.Some? ==>
            && p.value.given >= Stipend(value)
            && p.value.kept + (p.value.given - Stipend(value)) == gas
            && MostAllowed(rev, gas, p.value.given - Stipend(value), requested))
  {
    var callGas := GasForCallee(rev, gas, requested);
    if callGas <= gas {
      DivModUnique(callGas, 0, TWO_64, callGas);
    }
  }

  /**
   Conservation: what the caller keeps, what the callee gets beyond the stipend and the
   costs add up to what there was; the stipend is covered by the transfer cost, so both
   sides together never have more than before; and the callee gets the most allowed.
   */
  lemma PlanConserves(
      rev: O.Revision, inst: Kind, isStatic: bool, gas: nat, memoryCost: nat,
      requested: Word, value: Word, exists_: bool)
    requires gas <= GAS_MAX
    ensures
      var p := PlanCall(rev, inst, isStatic, gas, memoryCost, requested, value, exists_);
      var costs := CallCosts(rev, inst, isStatic, memoryCost, value, exists_);
      && (p.Some? <==> costs <= gas && (rev >= O.TANGERINE_WHISTLE || requested <= gas - costs))
      && (p.Some? ==>
            && p.value.given >= Stipend(value)
            && p.value.kept + (p.value.given - Stipend(value)) + costs == gas
            && p.value.kept + p.value.given + CallBaseCost(rev) <= gas
            && MostAllowed(rev, gas - costs, p.value.given - Stipend(value), requested))
  {
    ChargedInFull(gas, CallBaseCost(rev), memoryCost, TransferCost(rev, inst, isStatic, value),
                  NewAccountCost(rev, inst, value, exists_));
    var costs := CallCosts(rev, inst, isStatic, memoryCost, value, exists_);
    if costs <= gas {
      HandOverExact(rev, gas - costs, requested, value);
    }
  }

  lemma ChargedInFull(gas: nat, a: nat, b: nat, c: nat, d: nat)
    ensures Then(Then(Then(Charge(gas, a), b), c), d)
            == if a + b + c + d <= gas then Some(gas - (a + b + c + d)) else None
  {
  }

  /** In static mode a CALL that would transfer value is never made. */
  lemma StaticTransferRefused(
      rev: O.Revision, gas: nat, memoryCost: nat, requested: Word, value: Word, exists_: bool)
    requires gas <= GAS_MAX && value != 0
    ensures PlanCall(rev, Call, true, gas, memoryCost, requested, value, exists_) == None
  {
  }

  // ----- CREATE -----

  function CreateCost(rev: O.Revision): nat {
    if rev >= O.AION then 200000 else 32000
  }

  function PlanCreate(rev: O.Revision, gas: nat, memoryCost: nat): Option<Plan> {
    match Charge(gas, CreateCost(rev))
    case None => None
    case Some(g1) =>
      match Charge(g1, memoryCost)
      case None => None
      case Some(g2) =>
        var kept := if rev >= O.TANGERINE_WHISTLE then g2 / 64 else 0;
        Some(Plan(kept, g2 - kept))
  }

  /** All gas left after the costs goes to one side or the other; from EIP-150 on one 64th, rounded down, is kept. */
  lemma PlanCreateExact(rev: O.Revision, gas: nat, memoryCost: nat)
    ensures
      var p := PlanCreate(rev, gas, memoryCost);
      var costs := CreateCost(rev) + memoryCost;
      && (p.Some? <==> costs <= gas)
      && (p.Some? ==>
            && p.value.kept + p.value.given + costs == gas
            && (if rev >= O.TANGERINE_WHISTLE then 64 * p.value.kept <= gas - costs < 64 * (p.value.kept + 1)
                else p.value.kept == 0))
  {
  }

  /** Calls with no memory to pay for, in numbers. */
  lemma PlanExamples()
    ensures PlanCall(O.AION_V1, Call, false, 7400, 0, 1000000, 0, true) == Some(Plan(100, 6300))
    ensures PlanCall(O.AION_V1, Call, false, 20000, 0, 1000, 1, true) == Some(Plan(3000, 3300))
    ensures PlanCall(O.BYZANTIUM, Call, false, 40000, 0, 300, 1, false) == Some(Plan(5000, 2600))
    ensures PlanCall(O.HOMESTEAD, CallCode, false, 10040, 0, 600, 1, false) == Some(Plan(400, 2900))
    ensures PlanCall(O.FRONTIER, Call, false, 25050, 0, 10, 0, false) == Some(Plan(0, 10))
    ensures PlanCreate(O.AION_V1, 206400, 0) == Some(Plan(100, 6300))
    ensures PlanCreate(O.FRONTIER, 32005, 5) == Some(Plan(0, 0))
  {
  }

  /** Costs where revisions differ: of the call, a new account and a transfer. */
  lemma CostExamples()
    ensures CallCosts(O.HOMESTEAD, DelegateCall, false, 5, 0, false) == 45
    ensures CallCosts(O.TANGERINE_WHISTLE, Call, false, 0, 0, false) == 25700
    ensures CallCosts(O.SPURIOUS_DRAGON, Call, false, 0, 0, false) == 700
    ensures CallCosts(O.BYZANTIUM, Call, false, 0, 1, false) == 34700
    ensures CallCosts(O.AION, CallCode, true, 0, 1, false) == 16000
    ensures CallCosts(O.CONSTANTINOPLE, Call, false, 0, 1, false) == 41000
    ensures CreateCost(O.BYZANTIUM) == 32000 && CreateCost(O.AION) == 200000
  {
  }

  // ----- the call wrapper and nested messages -----

  const DEPTH_LIMIT := 1024

  /** Whether the call is made at all, or fails on the spot and returns all gas. */
  predicate Admitted(kind: Kind, depth: nat, value: Word, balance: Word) {
    depth < DEPTH_LIMIT && (kind.DelegateCall? || value == 0 || balance >= value)
  }

  /** The message built from the current one for a nested call. */
  function Nested(current: Message, kind: Kind, gas: nat, address: nat, value: Word): Message {
    Message(if kind.StaticCall? then Call else kind,
            current.isStatic || kind.StaticCall?,
            current.depth + 1,
            gas,
            if kind.DelegateCall? then current.value else value,
            address,
            if kind.DelegateCall? then current.caller else current.address)
  }

  /** What a nested message takes over from the message it is built from. */
  predicate SameOrigin(a: Message, b: Message) {
    && a.isStatic == b.isStatic && a.depth == b.depth && a.value == b.value
    && a.address == b.address && a.caller == b.caller
  }

  /** Nested messages built from two messages agree, whatever the call, exactly if these have the same origin. */
  lemma NestedDetermined(a: Message, b: Message, gas: nat, address: nat, value: Word)
    ensures (forall kind :: Nested(a, kind, gas, address, value) == Nested(b, kind, gas, address, value))
            <==> SameOrigin(a, b)
  {
    if forall kind :: Nested(a, kind, gas, address, value) == Nested(b, kind, gas, address, value) {
      assert Nested(a, DelegateCall, gas, address, value) == Nested(b, DelegateCall, gas, address, value);
      assert Nested(a, Call, gas, address, value) == Nested(b, Call, gas, address, value);
    }
  }

  /** One message of a chain. */
  datatype Link = Link(kind: Kind, gas: nat, address: nat, value: Word)

  /** The innermost of a chain of messages, each sent by the code of the one before. */
  function Descend(current: Message, chain: seq<Link>): Message {
    if chain == [] then current
    else
      var last := chain[|chain| - 1];
      Nested(Descend(current, chain[..|chain| - 1]), last.kind, last.gas, last.address, last.value)
  }

  /** Number of messages up to and including the last that is not a delegation; 0 if all are. */
  function LastOwn(chain: seq<Link>): (n: nat)
    ensures n <= |chain| && (n > 0 ==> !chain[n - 1].kind.DelegateCall?)
    ensures forall i :: n <= i < |chain| ==> chain[i].kind.DelegateCall?
  {
    if chain == [] then 0
    else if !chain[|chain| - 1].kind.DelegateCall? then |chain|
    else LastOwn(chain[..|chain| - 1])
  }

  /**
   Down any chain of messages: depth counts them, one static call makes all below it static,
   code runs at the address it was sent to, and delegations act for the last message that is
   none: with its value, and for the code that sent it.
   */
  lemma {:induction false} DescendExact(current: Message, chain: seq<Link>)
    ensures
      var m := Descend(current, chain);
      var n := LastOwn(chain);
      && m.depth == current.depth + |chain|
      && (m.isStatic <==> current.isStatic || exists i :: 0 <= i < |chain| && chain[i].kind.StaticCall?)
      && m.address == (if chain == [] then current.address else chain[|chain| - 1].address)
      && m.value == (if n == 0 then current.value else chain[n - 1].value)
      && m.caller == (if n == 0 then current.caller else if n == 1 then current.address else chain[n - 2].address)
      && (chain != [] ==>
            var last := chain[|chain| - 1];
            m.gas == last.gas && m.kind == if last.kind.StaticCall? then Call else last.kind)
    decreases |chain|
  {
    if chain != [] {
      var before := chain[..|chain| - 1];
      DescendExact(current, before);
      forall i | 0 <= i < |before| ensures before[i] == chain[i] {
      }
      StaticSomewhere(chain, before);
    }
  }

  lemma StaticSomewhere(chain: seq<Link>, before: seq<Link>)
    requires chain != [] && before == chain[..|chain| - 1]
    ensures (exists i :: 0 <= i < |chain| && chain[i].kind.StaticCall?)
            <==> chain[|chain| - 1].kind.StaticCall? || exists i :: 0 <= i < |before| && before[i].kind.StaticCall?
  {
    if exists i :: 0 <= i < |chain| && chain[i].kind.StaticCall? {
      var i :| 0 <= i < |chain| && chain[i].kind.StaticCall?;
      if i < |before| {
        assert before[i] == chain[i];
      }
    }
    if exists i :: 0 <= i < |before| && before[i].kind.StaticCall? {
      var i :| 0 <= i < |before| && before[i].kind.StaticCall?;
      assert chain[i] == before[i];
    }
  }

  // ----- identifiers of compiled code -----

  function HexDigit(n: nat): (c: char)
    requires n < 16
  {
    "0123456789abcdef"[n]
  }

  function Hex(bytes: seq<Byte>): (s: string)
    ensures |s| == 2 * |bytes|
  {
    if bytes == [] then []
    else [HexDigit(bytes[0] / 16), HexDigit(bytes[0] % 16)] + Hex(bytes[1..])
  }

  function RevisionChar(rev: O.Revision): char {
    "FHTSBACD"[rev]
  }

  function CodeId(hash: seq<Byte>, rev: O.Revision, isStatic: bool): string {
    Hex(hash) + [RevisionChar(rev)] + (if isStatic then "S" else "")
  }

  lemma DigitsDiffer(m: nat, n: nat)
    requires m < 16 && n < 16
    ensures HexDigit(m) == HexDigit(n) <==> m == n
  {
  }

  lemma {:induction false} HexInjective(a: seq<Byte>, b: seq<Byte>)
    requires |a| == |b|
    ensures Hex(a) == Hex(b) <==> a == b
  {
    if a != [] && Hex(a) == Hex(b) {
      assert Hex(a)[0] == Hex(b)[0] && Hex(a)[1] == Hex(b)[1];
      DigitsDiffer(a[0] / 16, b[0] / 16);
      DigitsDiffer(a[0] % 16, b[0] % 16);
      assert Hex(a)[2..] == Hex(a[1..]) && Hex(b)[2..] == Hex(b[1..]);
      HexInjective(a[1..], b[1..]);
      assert a == [a[0]] + a[1..] && b == [b[0]] + b[1..];
    }
  }

  lemma RevisionCharsDiffer(rev: O.Revision, rev': O.Revision)
    ensures RevisionChar(rev) == RevisionChar(rev') <==> rev == rev'
  {
  }

  /** Different code, revision or static mode never share an identifier. */
  lemma CodeIdInjective(
      hash: seq<Byte>, rev: O.Revision, isStatic: bool, hash': seq<Byte>, rev': O.Revision, isStatic': bool)
    requires |hash| == |hash'|
    ensures CodeId(hash, rev, isStatic) == CodeId(hash', rev', isStatic')
            <==> hash == hash' && rev == rev' && isStatic == isStatic'
  {
    var n := 2 * |hash|;
    var id, id' := CodeId(hash, rev, isStatic), CodeId(hash', rev', isStatic');
    if id == id' {
      assert id[..n] == Hex(hash) && id'[..n] == Hex(hash');
      HexInjective(hash, hash');
      assert id[n] == RevisionChar(rev) && id'[n] == RevisionChar(rev');
      RevisionCharsDiffer(rev, rev');
      assert |id| == n + 1 + if isStatic then 1 else 0;
    }
  }
}
