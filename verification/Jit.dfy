/**
 The virtual machine instance: the map of compiled code, and the current message that
 nested ones are built from, updated in place while messages are executed.
 */
module Jits {
  import opened Words
  import O = Opcodes
  import opened Calls
  import M = MessageRuns

  datatype Result = Result(status: M.Status, gasLeft: nat, output: seq<Byte>)

  class Jit {
    var currentMsg: Option<Message>
    var codeMap: M.CodeMap
    var returnBuffer: seq<Byte>
    var hitThreshold: nat

    constructor ()
      ensures Valid() && State() == M.Machine(None, map[], []) && hitThreshold == 0
    {
      currentMsg, codeMap, returnBuffer, hitThreshold := None, map[], [], 0;
    }

    ghost predicate Valid()
      reads this
    {
      M.Filed(codeMap)
    }

    ghost function State(): M.Machine
      reads this
    {
      M.Machine(currentMsg, codeMap, returnBuffer)
    }

    ghost function SetupFor(rev: O.Revision): M.Setup
      reads this
    {
      M.Setup(rev, hitThreshold)
    }

    /** Looks compiled code up, counting the request. */
    method GetExecFunc(id: string) returns (entry: M.CodeMapEntry)
      modifies this`codeMap
      ensures entry.hits == 1 + (if id in old(codeMap) then old(codeMap)[id].hits else 0)
      ensures entry.func == if id in old(codeMap) then old(codeMap)[id].func else None
      ensures codeMap == old(codeMap)[id := entry]
    {
      entry := if id in codeMap then codeMap[id] else M.CodeMapEntry(None, 0);
      entry := entry.(hits := entry.hits + 1);
      codeMap := codeMap[id := entry];
    }

    /** The code for a message, compiled in the message's own mode if it is not there yet. */
    method FindCode(wanted: M.Code, compiles: bool) returns (r: M.Status, code: M.Code)
      requires Valid()
      modifies this`codeMap
      ensures Valid() && code == wanted
      ensures r.Success? <==> M.Available(old(codeMap), hitThreshold, M.IdOf(wanted), compiles)
      ensures M.Found(r, code, codeMap) == M.FindCode(old(codeMap), hitThreshold, wanted, compiles)
    {
      M.FindCodeExact(codeMap, hitThreshold, wanted, compiles);
      var id := M.IdOf(wanted);
      var entry := GetExecFunc(id);
      if entry.func.Some? {
        return M.Success, entry.func.value;
      }
      code := wanted;
      if entry.hits <= hitThreshold {
        return M.Rejected, code;
      }
      if !compiles {
        return M.InternalError, code;
      }
      codeMap := codeMap[id := entry.(func := Some(code))];
      r := M.Success;
    }

    /**
     Executes a message. It is refused exactly if its code is not available, and then stays
     current; otherwise the current message is restored. What is left of the gas and what was
     charged or lost, here and in all messages below, add up to the gas of the message; a static
     message causes nothing but static messages without transfers, whatever the host does; and
     every nested message descends from the one whose code sent it exactly if no code sent one
     after one of its own had been refused.
     */
    method Execute(rev: O.Revision, hash: M.Hash, msg: Message, script: M.Script, ghost frame: seq<nat>)
        returns (result: Result, ghost spent: int, ghost trace: seq<M.Event>)
      requires Valid() && msg.gas <= GAS_MAX
      modifies this
      ensures Valid() && hitThreshold == old(hitThreshold)
      ensures M.Ran(result.status, result.gasLeft, spent, result.output, State(), trace)
              == M.Execute(old(SetupFor(rev)), old(State()), hash, msg, script, frame)
      ensures
        var id := M.IdOf(M.Code(hash, O.Mode(rev, msg.isStatic)));
        M.Refused(result.status) <==> !M.Available(old(codeMap), hitThreshold, id, script.compiles)
      ensures currentMsg == if M.Refused(result.status) then Some(msg) else old(currentMsg)
      ensures result.gasLeft + spent == msg.gas && result.gasLeft <= msg.gas && M.Funded(trace, msg.gas)
      ensures M.EndsAs(script.ending, result.status, result.gasLeft, result.output)
      ensures msg.isStatic ==> M.Quiet(trace)
      ensures M.Parented(trace) <==> !M.Misled(trace)
      ensures M.OwnData(trace)
      decreases script, 2
    {
      M.ExecuteOwnData(SetupFor(rev), State(), hash, msg, script, frame);
      M.ExecuteSound(SetupFor(rev), State(), hash, msg, script, frame);
      M.ParentedExactly(SetupFor(rev), State(), hash, msg, script, frame);
      spent, trace := msg.gas, [];
      var prevMsg := currentMsg;
      currentMsg := Some(msg);
      var wanted := M.Code(hash, O.Mode(rev, msg.isStatic));
      M.FindCodeExact(codeMap, hitThreshold, wanted, script.compiles);
      var r, code := FindCode(wanted, script.compiles);
      if r != M.Success {
        return Result(r, 0, []), spent, trace;
      }
      var status, gas, output;
      status, gas, output, spent, trace := Run(rev, code.mode, msg, script, frame);
      if status.OutOfGas? {
        spent := msg.gas;
      }
      result := Result(status, if status.OutOfGas? then 0 else gas, output);
      currentMsg := prevMsg;
    }

    /** Runs compiled code to its end. */
    method Run(rev: O.Revision, mode: O.Mode, msg: Message, script: M.Script, ghost frame: seq<nat>)
        returns (status: M.Status, gas: nat, output: seq<Byte>, ghost spent: int, ghost trace: seq<M.Event>)
      requires Valid() && msg.gas <= GAS_MAX && mode == O.Mode(rev, msg.isStatic) && currentMsg == Some(msg)
      modifies this
      ensures Valid() && hitThreshold == old(hitThreshold)
      ensures M.Ran(status, gas, spent, output, State(), trace)
              == M.RunFrom(old(SetupFor(rev)), mode, old(State()), msg, script, 0, msg.gas, M.NOTHING, frame)
      decreases script, 1
    {
      spent, trace := 0, [];
      gas := msg.gas;
      var returnDataSize := 0;
      ghost var own: seq<Byte> := [];
      var k := 0;
      ghost var whole := M.RunFrom(SetupFor(rev), mode, State(), msg, script, 0, msg.gas, M.NOTHING, frame);
      while k < |script.steps|
        invariant 0 <= k <= |script.steps| && gas + spent == msg.gas && spent >= 0
        invariant Valid() && hitThreshold == old(hitThreshold)
        invariant currentMsg.Some? && (msg.isStatic ==> currentMsg.value.isStatic)
        invariant
          var rest := M.RunFrom(SetupFor(rev), mode, State(), msg, script, k, gas, M.Cell(returnDataSize, own), frame);
          whole == rest.(spent := spent + rest.spent, trace := trace + rest.trace)
      {
        M.StepSound(SetupFor(rev), mode, State(), msg, script.steps[k], gas, M.Cell(returnDataSize, own), frame, k);
        var halts;
        ghost var used, more;
        halts, gas, returnDataSize, own, used, more :=
          TakeStep(rev, mode, msg, script.steps[k], gas, returnDataSize, own, frame, k);
        if halts {
          return M.OutOfGas, 0, [], msg.gas, trace;
        }
        used := M.Price(mode.rev, mode.staticCall, script.steps[k]) + used;
        Appended(spent, used, trace, more,
                 M.RunFrom(SetupFor(rev), mode, State(), msg, script, k + 1, gas, M.Cell(returnDataSize, own), frame));
        spent, trace := spent + used, trace + more;
        k := k + 1;
      }
      status, output := M.StatusOf(script.ending), M.OutputOf(script.ending);
    }

    /** One step of running code: it takes its own price and what the callee used if there was one. */
    method TakeStep(rev: O.Revision, mode: O.Mode, msg: Message, step: M.Step, gas: nat, size: nat,
                    ghost own: seq<Byte>, ghost frame: seq<nat>, k: nat)
        returns (halts: bool, left: nat, size': nat, ghost own': seq<Byte>, ghost used: int,
                 ghost trace: seq<M.Event>)
      requires Valid() && gas <= GAS_MAX && mode == O.Mode(rev, msg.isStatic)
      requires currentMsg.Some? && (msg.isStatic ==> currentMsg.value.isStatic)
      modifies this
      ensures Valid() && hitThreshold == old(hitThreshold) && currentMsg.Some?
      ensures (if halts then M.Halts else M.Goes(State(), left, used, M.Cell(size', own'), trace))
              == M.TakeStep(old(SetupFor(rev)), mode, old(State()), msg, step, gas, M.Cell(size, own), frame, k)
      ensures halts ==> State() == old(State())
      ensures halts <==> !M.Payable(mode, step, gas)
      ensures !halts ==> left == gas - M.Price(rev, msg.isStatic, step) - used
      ensures step.Messages? && trace != [] ==> trace[0].Sent? && M.GivenMost(mode, step, gas, trace[0].m.gas)
      decreases step, 4
    {
      M.StepSound(SetupFor(rev), mode, State(), msg, step, gas, M.Cell(size, own), frame, k);
      halts, left, size', own', used, trace := false, 0, size, own, 0, [];
      if step.Executes? {
        halts := O.Decode(mode, step.opcode).Invalid? || step.cost > gas;
        if !halts {
          left, trace := gas - step.cost, M.Written(step.opcode, msg);
        }
      } else if step.CopiesReturnData? {
        halts := O.Decode(mode, O.RETURNDATACOPY).Invalid? || step.cost > gas;
        if !halts {
          left, trace := gas - step.cost, [M.Copied(M.Prefix(returnBuffer, size), own)];
        }
      } else {
        var plan := M.PlanOf(mode, gas, step);
        halts := plan == None;
        if !halts {
          M.PlanExact(mode, gas, step);
          var r;
          r, size', own', used, trace := CallWrapper(rev, msg, step, plan.value.given, frame, k);
          left := plan.value.kept + Unpack(r).0;
        }
      }
    }

    /** Depth and balance checks, then the call itself. */
    method CallWrapper(rev: O.Revision, running: Message, step: M.Step, gas: nat, ghost frame: seq<nat>, k: nat)
        returns (r: nat, size: nat, ghost own: seq<Byte>, ghost used: int, ghost trace: seq<M.Event>)
      requires Valid() && currentMsg.Some? && gas <= GAS_MAX && step.Messages?
      requires running.isStatic ==>
        currentMsg.value.isStatic && !step.inst.Create? && (step.inst.Call? ==> step.value == 0)
      modifies this
      ensures Valid() && hitThreshold == old(hitThreshold) && currentMsg.Some?
      ensures M.Called(r, used, State(), M.Cell(size, own), trace)
              == M.CallOut(old(SetupFor(rev)), old(State()), running, step, gas, frame, k)
      ensures trace != [] <==> running.depth < 1024 && (step.inst.DelegateCall? || step.value <= step.balance)
      ensures trace == [] ==> Unpack(r) == (gas, false) && size == 0 && State() == old(State())
      ensures trace != [] ==> returnBuffer == own && size == |own|
      ensures Unpack(r).0 + used == gas && used >= 0
      decreases step, 3
    {
      M.CallSound(SetupFor(rev), State(), running, step, gas, frame, k);
      size, own, used, trace := 0, [], 0, [];
      if !Admitted(step.inst, running.depth, step.value, step.balance) {
        UnpackPacked(gas, false);
        return Pack(gas, false), size, own, used, trace;
      }
      var msg := Nested(currentMsg.value, step.inst, gas, step.address, step.value);
      var result;
      match step.reply {
        case Answers(success, spent, output) =>
          result := Result(if success then M.Success else M.Reverted, if spent <= gas then gas - spent else 0, output);
          used := gas - result.gasLeft;
        case RunsCode(hash, code) =>
          result, used, trace := Execute(rev, hash, msg, code, frame + [k]);
      }
      trace := [M.Sent(step.inst, step.value, msg, M.Refused(result.status), frame, running)] + trace;
      returnBuffer := result.output;
      r, size, own := Pack(result.gasLeft, result.status.Success?), |returnBuffer|, result.output;
    }
  }

  lemma Appended(m: int, n: int, a: seq<M.Event>, b: seq<M.Event>, rest: M.Ran)
    ensures rest.(spent := m + (n + rest.spent), trace := a + (b + rest.trace))
            == rest.(spent := (m + n) + rest.spent, trace := (a + b) + rest.trace)
  {
    assert a + (b + rest.trace) == (a + b) + rest.trace;
  }
}
