# FastVM and its assembler, in Dafny

This project models two parts of the Aion FastVM repository and proves that they keep
their promises.

The first part is the just-in-time compiler in `fastvm/libevmjit`. It turns EVM bytecode
with 128-bit words into a graph of basic blocks. Instead of working one instruction at a
time it keeps a symbolic stack at compile time, checks the stack bounds once per block,
sums up static gas costs and checks them once per segment, clamps memory requests to
2^33, and calls shift-and-subtract routines for division. The reference is a plain
one-instruction-at-a-time machine (`Evm`): sections 9.4.2 and 9.4.3 and Appendix H of the
Ethereum Yellow Paper, with words below 2^128 and the gas table of this repository. The
main theorem says that for every bytecode and every amount of gas with which the
reference machine calls no client and asks for memory within the limits of the 64-bit
rule, both give the same result.

The second part is the assembler in `solidity/libevmasm`: the layout of items, the
resolution of labels, the decomposition of constants, and the peephole optimiser. Both
parts meet in the last theorem: items that are optimised, assembled, compiled and run end
as the items say.

How the files build on each other:

- `Words`, `Opcodes`, `Evm`, `Positions`: words and bits, the instruction and gas tables,
  the reference machine, instruction boundaries.
- `Tables`: the tables of compiler and assembler, compared byte by byte.
- `Ir`, `LocalStack`, `Builder`, `Templates`, `Blocks`: the generated code with its
  machine, the symbolic stack, the gas meter, and what is generated for each instruction.
- `Simulation`, `Operators`, `Instructions`, `BlockProofs`, `Programs`: from single
  compile-time operations to whole programs.
- `Compiler`, `Scanner`, `Arith128`, `Memory`: the imperative compiler, scanner, arithmetic
  loops and memory.
- `Segments`: the stack and gas optimisations on their own, over arbitrary operations.
- `Calls`, `MessageRuns`, `Jit`: gas and flags across nested messages, whole trees of them,
  and the instance that runs them.
- `Items`, `AsmMachine`, `Pieces`, `Peephole`, `OptimiserEffects`, `Layout`, `Assembler`,
  `ConstantOptimiser`: the assembler.
- `AsmRuns`, `ConstantRuns`, `Toolchain`: assembled code and routines for constants on the
  reference machine, and all parts together.

The methods and classes follow the source step by step and are tied by their contracts to
functions; theorems are about those functions. The generated code's machine has an outcome
for undefined behaviour (a poison value, an access out of bounds, a division by zero);
the theorems show that it is never reached.

## Model

| member | source | states |
|---|---|---|
| `Compiler.Compile` | fastvm/libevmjit/Compiler.cpp:166-227 | for every message that carries the code, every initial gas and any garbage in the stack buffer, the compiled program ends like the reference machine (same kind of ending, stack, gas, memory and output; all exceptional halts count as one), provided the reference machine stays calm; which it does in code without client calls that touches no memory or has less than 2^47 gas |
| `Programs.CompilerCorrect` | fastvm/libevmjit/Compiler.cpp:166-227 | the same for anything that has the shape of a compiled program: blocks of a partition, links and jump table |
| `Programs.BoundedIsCalm` | fastvm/libevmjit/Memory.cpp:54-92 | the reference machine stays calm in every run of code without client calls that touches no memory or starts with less than 2^47 gas |
| `Programs.ProgramSimulates` | fastvm/libevmjit/Compiler.cpp:166-227 | running the blocks from any block, in any state in which the reference machine stays calm, is running the bytecode from that block's first instruction; the run ends because gas falls at every transfer between blocks |
| `Programs.FallsTo` | fastvm/libevmjit/Compiler.cpp:121-164 | a block that falls through has used gas, and control is where the reference machine is: at the next block, or past the end of the code, which stops |
| `Programs.JumpsTo` | fastvm/libevmjit/Compiler.cpp:121-164 | a block that jumps has used gas, and its destination is in the jump table exactly if the reference machine accepts it, and then it is the block that begins there |
| `Programs.DirectJumpsAgree` | fastvm/libevmjit/Compiler.cpp:121-164 | a branch resolved at compile time goes where the jump table would lead |
| `Programs.BlockMeets` | fastvm/libevmjit/Compiler.cpp:254-1083 | a whole compiled block, with its batched checks, meets the reference machine run from its first instruction |
| `Programs.TableIsJumpDests` | fastvm/libevmjit/Compiler.cpp:166-227 | the keys of the jump table are exactly the valid jump destinations of section 9.4.3 of the Yellow Paper |
| `Programs.DeadEndsDoNotFall` | fastvm/libevmjit/Compiler.cpp:254-1083 | code generated for a block whose last instruction never continues does not fall through |
| `Programs.StaticBlockAborts` | fastvm/libevmjit/Compiler.cpp:1073-1076 | in static mode a block that contains SSTORE, LOG, CREATE or SELFDESTRUCT is compiled to end in the abort, whatever precedes the instruction |
| `Programs.StaticWriteAborts` | fastvm/libevmjit/Compiler.cpp:1073-1076 | so such a block aborts in every state, as the reference machine does |
| `BlockProofs.BlockSimulates` | fastvm/libevmjit/Compiler.cpp:254-1083 | from any instruction in a block, code generated so far that agrees with the reference state leads to a finished block that agrees with the reference outcome |
| `BlockProofs.StraightStep` | fastvm/libevmjit/Compiler.cpp:254-1083 | compiling one straight-line instruction keeps generated code and reference machine in agreement and uses gas |
| `BlockProofs.TermStep` | fastvm/libevmjit/Compiler.cpp:651-1083 | compiling an instruction that ends a block, including invalid ones, makes the block end as the reference machine does |
| `Instructions.InstructionCorrect` | fastvm/libevmjit/Compiler.cpp:254-1083 | for each straight-line instruction, stack, gas, memory and halting of what is generated are those of one reference step |
| `Instructions.FieldCorrect` | fastvm/libevmjit/Compiler.cpp:690-743 | ADDRESS, CALLER and CALLVALUE push the fields of the message, addresses as two words |
| `Instructions.ExpPriceCorrect` | fastvm/libevmjit/GasMeter.cpp:81-95 | the price of EXP from leading zeros is the number of significant bytes of the exponent times the price of a byte |
| `Instructions.CopyIsPaddedSlice` | fastvm/libevmjit/Memory.cpp:210-246 | the bytes there are, followed by zeros, are the zero-padded slice |
| `Instructions.StepKeepsBounds` | fastvm/libevmjit/Memory.cpp:26-95 | a step of the reference machine keeps the stack limit and, once gas plus paid memory is below 2^47, keeps it there |
| `Operators.OperatorCorrect` | fastvm/libevmjit/Compiler.cpp:269-535 | what is generated for each arithmetic, comparison and bit operation gives the Appendix H value for all operands, with no undefined operation on the way |
| `Operators.BitwiseExact` | fastvm/libevmjit/Compiler.cpp:462-487 | every bit of AND, OR and XOR of two words is the and, or and exclusive or of their bits there |
| `Words.BitByBit` | fastvm/libevmjit/Compiler.cpp:462-487 | the same for numbers of any size |
| `Tables.DecodeExact` | fastvm/libevmjit/Instruction.h:16-198 | in every mode an instruction of the machine itself is decoded from its own byte and no other, from the first revision that has it |
| `Tables.ClientExact` | fastvm/libevmjit/Compiler.cpp:537-1071 | in every mode exactly the instructions with a client case call the client; state changes are the cases that store, log, create or destroy, messages the ones that create or call |
| `Tables.CostExact` | fastvm/libevmjit/GasMeter.cpp:166-291 | every instruction of the machine itself costs in every revision what its byte does |
| `Tables.MessageCostExact` | fastvm/libevmjit/GasMeter.cpp:275-282 | a message without transfer, new account or memory costs what its instruction does |
| `Operators.SignedDiv` | fastvm/libevmjit/Compiler.cpp:308-322 | SDIV truncates, gives 0 for divisor 0, and the least number divided by -1 is itself |
| `Operators.SignedMod` | fastvm/libevmjit/Compiler.cpp:335-348 | SMOD takes the sign of the dividend, is 0 for divisor 0 and for divisor -1 |
| `Operators.ModularAdd` | fastvm/libevmjit/Compiler.cpp:349-366 | ADDMOD reduces the full-width sum; modulus 0 gives 0 |
| `Operators.ModularMul` | fastvm/libevmjit/Compiler.cpp:367-383 | MULMOD reduces the full 256-bit product; modulus 0 gives 0 |
| `Operators.ByteSelect` | fastvm/libevmjit/Compiler.cpp:489-505 | BYTE selects the n-th byte from the top of 16, and 0 beyond |
| `Operators.SignExtension` | fastvm/libevmjit/Compiler.cpp:507-535 | SIGNEXTEND with its masks is the two's-complement extension of the low bytes, and the identity for large positions |
| `Arith128.UDivRem` | fastvm/libevmjit/Arith128.cpp:37-116 | at every width, for a non-zero divisor, the shift-and-subtract loop ends with quotient and remainder; no bit is shifted out and no subtraction wraps |
| `Arith128.SDivRem128` | fastvm/libevmjit/Arith128.cpp:206-252 | signed division on magnitudes truncates toward zero, for all operands with a non-zero divisor |
| `Arith128.SDivRemCorrect` | fastvm/libevmjit/Arith128.cpp:206-252 | the select-based sign handling equals truncated division and its remainder, wrapped to 128 bits |
| `Arith128.Exp` | fastvm/libevmjit/Arith128.cpp:308-376 | the generated square-and-multiply loop returns the power modulo 2^128 for all operands |
| `Arith128.FoldExp` | fastvm/libevmjit/Arith128.cpp:378-406 | the loop that folds constants returns the same power |
| `Scanner.CreateBasicBlocks` | fastvm/libevmjit/Compiler.cpp:56-119 | blocks are disjoint, begin and end on instruction boundaries, fall into each other where control continues, begin at every JUMPDEST, and cover everything but dead code |
| `Scanner.SkipPushDataAndGetNext` | fastvm/libevmjit/Compiler.cpp:59-67 | gives the next instruction boundary, clipped to the end for a truncated push |
| `Compiler.ReadPushData` | fastvm/libevmjit/Instruction.cpp:14-29 | reads the operand, with zeros for bytes beyond the end, and leaves the iterator on the last byte there is |
| `Compiler.SkipPushData` | fastvm/libevmjit/Instruction.cpp:31-38 | leaves the iterator where reading would |
| `Compiler.PushEndsAgree` | fastvm/libevmjit/Instruction.cpp:14-38 | scanner, reader and skipper agree on where every push ends, truncated ones included |
| `Compiler.PushedWordPopped` | fastvm/libevmjit/Compiler.cpp:232-252 | a 256-bit value pushed as two words is popped unchanged |
| `Positions.JumpDestsAreStarts` | fastvm/libevmjit/Compiler.cpp:667-674 | the recursive definition of valid destinations is: JUMPDEST bytes at instruction boundaries |
| `Compiler.CompileBasicBlock` | fastvm/libevmjit/Compiler.cpp:254-1083 | the loop over the instructions, updating gas meter and local stack in place, generates exactly the specified block |
| `Compiler.CompileInstruction` | fastvm/libevmjit/Compiler.cpp:254-1083 | one iteration: the rest of the block compiled from the new state is the block compiled from the old one |
| `Compiler.EmitTemplate` | fastvm/libevmjit/Compiler.cpp:549-598 | what is emitted for an instruction, by the local stack's own operations for DUP and SWAP, is its specified steps |
| `Compiler.DupSteps` | fastvm/libevmjit/Compiler.cpp:566-581 | the local stack's DUP leaves the whole builder state, code and registers included, that the specified steps do |
| `Compiler.SwapSteps` | fastvm/libevmjit/Compiler.cpp:583-598 | likewise for SWAP |
| `Compiler.CompileBlocks` | fastvm/libevmjit/Compiler.cpp:166-227 | all blocks are compiled, and the table leads from each JUMPDEST that begins a block to that block |
| `Compiler.ResolveJumps` | fastvm/libevmjit/Compiler.cpp:121-164 | each block gets its successor and, for a constant destination, its target or the abort block |
| `Compiler.LocalStack.Push` | fastvm/libevmjit/BasicBlock.cpp:43-48 | the updated fields are the specified stack with the value on top and the new maximum |
| `Compiler.LocalStack.Pop` | fastvm/libevmjit/BasicBlock.cpp:50-62 | the updated fields, the value and the loads generated are the specified ones |
| `Compiler.LocalStack.Dup` | fastvm/libevmjit/BasicBlock.cpp:65-69 | likewise for a duplicate |
| `Compiler.LocalStack.Swap` | fastvm/libevmjit/BasicBlock.cpp:72-79 | likewise for an exchange |
| `Compiler.LocalStack.Get` | fastvm/libevmjit/BasicBlock.cpp:81-101 | likewise for reading an item, loading it from the global stack if it is not known; items known before stay known |
| `Compiler.LocalStack.Set` | fastvm/libevmjit/BasicBlock.cpp:103-114 | likewise for replacing an item that is known |
| `Compiler.LocalStack.Finalize` | fastvm/libevmjit/BasicBlock.cpp:117-143 | generates exactly the stores of the specified write-back |
| `LocalStacks.GetCorrect` | fastvm/libevmjit/BasicBlock.cpp:81-101 | reading leaves the stack that is represented as it is and gives its item |
| `LocalStacks.PushCorrect` | fastvm/libevmjit/BasicBlock.cpp:43-48 | pushing appends to the stack represented, and the recorded maximum is within the limit exactly if it was and the new stack is |
| `LocalStacks.PopCorrect` | fastvm/libevmjit/BasicBlock.cpp:50-62 | popping removes and gives the top of the stack represented, wherever it is kept |
| `LocalStacks.SetCorrect` | fastvm/libevmjit/BasicBlock.cpp:103-114 | setting replaces one item of the stack represented |
| `LocalStacks.WriteBackCorrect` | fastvm/libevmjit/BasicBlock.cpp:117-143 | after the write-back the global stack is the stack represented, including slots it skips |
| `Compiler.GasMeter.Count` | fastvm/libevmjit/GasMeter.cpp:56-65 | opens a cost block if there is none and adds the cost |
| `Compiler.GasMeter.CommitCostBlock` | fastvm/libevmjit/GasMeter.cpp:135-152 | fills the sum into the check at the start of the cost block, or drops the check if the sum is zero |
| `Simulation.MicrosSimulate` | fastvm/libevmjit/GasMeter.cpp:40-152 | any sequence of compile-time operations keeps the generated code, with checks still open, in agreement with a machine that charges at once and has a plain stack |
| `Simulation.ObserveSimulates` | fastvm/libevmjit/Compiler.cpp:683-688 | GAS sees exactly the stepwise gas |
| `Simulation.GasNeverGrows` | fastvm/libevmjit/GasMeter.cpp:40-54 | generated code never increases gas |
| `Segments.SegmentRefines` | fastvm/libevmjit/GasMeter.cpp:56-152 | over any mix of stack operations, static and dynamic costs and observations, a segment aborts exactly if the stepwise machine does, and otherwise ends with the same gas and the same stack, values observed included |
| `Segments.StackCheckExact` | fastvm/libevmjit/BasicBlock.cpp:146-200 | the one check of recorded minimum and maximum passes exactly if no operation underflows or exceeds the limit when performed one by one |
| `Segments.CheckDecides` | fastvm/libevmjit/BasicBlock.cpp:146-200 | that check alone decides whether a block of stack operations aborts |
| `Segments.ChargeExact` | fastvm/libevmjit/GasMeter.cpp:67-79 | a saturated dynamic charge is exact if and only if the cost fits the counter or the counter is below its maximum |
| `MemoryUnit.RequireCorrect` | fastvm/libevmjit/Memory.cpp:26-95 | with gas below 2^47 the clamped 64-bit rule agrees with the unbounded quadratic one for all 128-bit arguments, and nothing wraps |
| `MemoryUnit.AgreesExactly` | fastvm/libevmjit/Memory.cpp:54-92 | whatever the gas, on up to 2^35 bytes of memory: the clamped 64-bit rule agrees with the unbounded one if and only if nothing is asked for, it is there, no argument is clamped, or both refuse |
| `Memories.Memory.Extend` | fastvm/libevmjit/Array.cpp:186-215 | old bytes are kept and new ones are zero |
| `Memories.Memory.Require` | fastvm/libevmjit/Memory.cpp:26-95 | wherever no multiplication wraps, does what the clamped 64-bit rule says; within the gas bound charges the difference of fees, fails exactly if it cannot be paid, and makes the range available |
| `Memories.Memory.StoreWord` | fastvm/libevmjit/Memory.cpp:169-173 | wherever the request is in reach, the word is at its address in big-endian order, nothing else changes but growth, and growth is charged; within the gas bound, by the unbounded rule, and the bound is kept |
| `Memories.Memory.StoreByte` | fastvm/libevmjit/Memory.cpp:175-180 | likewise for the low byte |
| `Memories.Memory.LoadWord` | fastvm/libevmjit/Memory.cpp:163-167 | likewise, giving the word at the address |
| `Memories.Memory.CopyBytes` | fastvm/libevmjit/Memory.cpp:210-246 | for every 128-bit source index and every request in reach the target range becomes the zero-padded slice, nothing else changes, and growth and copying are charged; within the gas bound, by the unbounded rule, and the bound is kept |
| `Memories.CopyPriceExact` | fastvm/libevmjit/GasMeter.cpp:160-164 | copying costs beyond memory what it costs the reference machine |
| `Memories.BoundedInReach` | fastvm/libevmjit/Memory.cpp:54-92 | within the gas bound every request is in reach: nothing wraps, and what is served is in memory |
| `Memories.CopyThenClear` | fastvm/libevmjit/Memory.cpp:210-246 | copying what there is and clearing the rest is writing the zero-padded slice |
| `Memories.ServeCorrect` | fastvm/libevmjit/Memory.cpp:54-92 | a request costs the difference of two fees and is refused exactly if that cannot be paid |
| `Memories.Telescopes` | fastvm/libevmjit/Memory.cpp:66-88 | over any sequence of requests the total charged is the fee for the final number of words less what was paid before, and all succeed exactly if that can be paid |
| `Memories.CoveredIsLeast` | fastvm/libevmjit/Memory.cpp:54-92 | the final number of words is the least that is enough for all requests |
| `Memories.OrderIrrelevant` | fastvm/libevmjit/Memory.cpp:54-92 | order and repetition of requests do not matter to success, charge or size |
| `Memories.ServedInBounds` | fastvm/libevmjit/Memory.cpp:54-92 | for any gas, a request that is served leaves its range in memory if and only if it was there or the size requested covers it; with the counter below its maximum, if and only if it was there or no argument was clamped |
| `Memories.ClampedRequestOutside` | fastvm/libevmjit/Memory.cpp:54-92 | the bound on gas is needed: from empty memory, two requests that are paid for and served, the second out of bounds |
| `Memories.AllServedInBounds` | fastvm/libevmjit/Memory.cpp:54-92 | with gas below 2^47, after any sequence of requests each served range is in memory and sizes fit 64 bits |
| `Memories.StoreThenLoad` | fastvm/libevmjit/Memory.cpp:97-136 | a stored word is read back |
| `Memories.StoreElsewhere` | fastvm/libevmjit/Memory.cpp:97-136 | words that do not overlap a stored one are unchanged |
| `Memories.DataLoadIsCopyThenLoad` | fastvm/libevmjit/Ext.cpp:361-381 | CALLDATALOAD reads what CALLDATACOPY followed by MLOAD would |
| `Calls.UnpackPacked` | fastvm/libevmjit/Compiler.cpp:982-992 | gas left and success flag packed into 64 bits are recovered, for every amount of gas |
| `Calls.PlanConserves` | fastvm/libevmjit/Compiler.cpp:897-994 | a call is made exactly if its costs, and before EIP-150 the gas requested, can be paid; kept, handed over and charged gas add up; the stipend is covered; the callee gets what is requested, or else, from EIP-150 on, all but exactly one 64th of what is left after the costs |
| `Calls.HandOverExact` | fastvm/libevmjit/Compiler.cpp:953-970 | below the maximum of the counter what the callee gets is taken from the caller in full, and is the most that is allowed |
| `Calls.StaticTransferRefused` | fastvm/libevmjit/Compiler.cpp:926-938 | in static mode a CALL that would transfer value is never made, whatever the gas |
| `Calls.PlanCreateExact` | fastvm/libevmjit/Compiler.cpp:859-877 | a creation is made exactly if its costs can be paid; all gas left after them is kept or given, and from EIP-150 on one 64th, rounded down, is kept |
| `Calls.PlanExamples` | fastvm/libevmjit/Compiler.cpp:897-994 | calls and creations in numbers, before and after EIP-150 |
| `Calls.CostExamples` | fastvm/libevmjit/Compiler.cpp:926-951 | costs of calls in the revisions where they change |
| `Calls.NestedDetermined` | fastvm/libevmjit/JIT.cpp:170-230 | the nested messages that two current messages give agree if and only if flags, depth, value, address and caller do |
| `Calls.DescendExact` | fastvm/libevmjit/JIT.cpp:170-205 | down any chain of nested messages the depth counts them, all is static from the first static call on, code runs at the address of its own message, and value and caller are those of the last message that is not a delegation |
| `Calls.HexInjective` | fastvm/libevmjit/JIT.cpp:74-88 | different hashes have different hexadecimal forms |
| `Calls.CodeIdInjective` | fastvm/libevmjit/JIT.cpp:74-88 | different code, revision or static mode never share an identifier |
| `Jits.Jit.GetExecFunc` | fastvm/libevmjit/JIT.cpp:307-313 | the entry has one more hit and the function it had, if any, and no other entry changes |
| `Jits.Jit.FindCode` | fastvm/libevmjit/JIT.cpp:446-470 | code that is found or compiled is the code that was wanted, in its own mode; it is refused if and only if it is not available: neither filed nor requested often enough and compilable |
| `Jits.Jit.Execute` | fastvm/libevmjit/JIT.cpp:410-513 | over the whole tree of messages, for any host: a message is refused if and only if its code is not available, and then stays current; the gas left and all that was charged or lost in the tree add up to the gas of the message, and no message carries more than there was; success and revert come with the output the code ends with, anything else with neither gas nor output; a static message causes no write, creation or transfer and only static messages; each message descends from the one whose code sent it if and only if no code sends one after one of its own was refused; return data that is copied is the sender's own |
| `Jits.Jit.Run` | fastvm/libevmjit/JIT.cpp:472-490 | the loop over the steps of compiled code, on the shared code map, current message and return buffer, is the specified run |
| `Jits.Jit.TakeStep` | fastvm/libevmjit/Compiler.cpp:859-994 | one step is the specified one; it halts if and only if the compiled mode does not know the instruction or it cannot be paid for; otherwise the gas left is what there was less the price of the step and what the callee used, and a callee gets the most that is allowed |
| `Jits.Jit.CallWrapper` | fastvm/libevmjit/Ext.cpp:180-281 | a message is sent if and only if the depth is below 1024 and the balance covers the value, which a delegation does not transfer; one that is not returns all gas with the failure flag, leaves no return data and changes nothing; otherwise the return buffer is the output; what comes back and what was used is what was given |
| `MessageRuns.FindCodeExact` | fastvm/libevmjit/JIT.cpp:446-470 | on a map where code is filed under its own identifier, refused exactly if not available, and found as wanted |
| `MessageRuns.CompiledPastThreshold` | fastvm/libevmjit/JIT.cpp:446-470 | of repeated requests for the same code exactly as many are refused as the threshold says; then it is compiled and stays, and all requests are counted |
| `MessageRuns.ExecuteSound` | fastvm/libevmjit/JIT.cpp:410-513 | over every tree of messages the gas left and all that was charged or lost add up to the gas of the message, no message has more than there was, static messages cause only static ones without writes, creations or transfers, and only code that comes to its end succeeds or reverts |
| `MessageRuns.StepSound` | fastvm/libevmjit/Compiler.cpp:859-994 | a step goes on if and only if it is allowed and can be paid for; it takes its price and what the callee used, records a write if and only if it changes state, and gives a callee the most that is allowed |
| `MessageRuns.CallSound` | fastvm/libevmjit/Ext.cpp:180-281 | a callee uses what the host says or what its code spent, never more than it was given; a message that is not sent uses nothing |
| `MessageRuns.CallExample` | fastvm/libevmjit/Compiler.cpp:897-994 | with 10000 gas, a call for 5000 of which the host spends 100 leaves 8900, and 9000 if the depth is exhausted |
| `MessageRuns.ParentedExactly` | fastvm/libevmjit/JIT.cpp:170-230 | messages descend from the code that sent them if and only if no code sends one after one of its own was refused |
| `MessageRuns.NothingRefused` | fastvm/libevmjit/JIT.cpp:449-470 | if all code of the tree is available beforehand, in the mode it will run in, nothing is refused and every message descends from its sender |
| `MessageRuns.CompilableAvailable` | fastvm/libevmjit/JIT.cpp:449-470 | without a hit threshold all code that compiles is available |
| `MessageRuns.MisledRun` | fastvm/libevmjit/JIT.cpp:449-470 | in every instance, given code that is available and code that is not, there is a run of two messages whose second is sent as if from one level further down |
| `MessageRuns.ExecuteOwnData` | fastvm/libevmjit/JIT.cpp:213-219 | although all code shares one buffer, return data is always the output of the last message the code itself sent |
| `Peephole.PassesPreserve` | solidity/libevmasm/PeepholeOptimiser.cpp:249-264 | every run of a program of one-word items that ends, across all its jumps, is a run of the program after any number of passes, with the same stack and effects |
| `Peephole.PassPreserves` | solidity/libevmasm/PeepholeOptimiser.cpp:249-264 | the same for one pass, requiring one word only where a rule relies on it |
| `Peephole.PassKeeps` | solidity/libevmasm/PeepholeOptimiser.cpp:249-264 | a pass keeps labels unique and items one word wide |
| `Peephole.PushPopExact` | solidity/libevmasm/PeepholeOptimiser.cpp:96-107 | removing a push and a pop preserves meaning if and only if the push is one word wide |
| `Peephole.OpPopSame` | solidity/libevmasm/PeepholeOptimiser.cpp:109-129 | replacing an operation that the table marks as free of side effects and a pop by pops of its arguments preserves meaning |
| `Peephole.DoubleSwapSame` | solidity/libevmasm/PeepholeOptimiser.cpp:131-137 | a double swap is nothing |
| `Peephole.DoublePushExact` | solidity/libevmasm/PeepholeOptimiser.cpp:139-152 | replacing a repeated push by DUP1 preserves meaning if and only if the push is one word wide |
| `Peephole.TagConjunctionExact` | solidity/libevmasm/PeepholeOptimiser.cpp:180-202 | dropping the mask of a tag below 2^32 preserves meaning if and only if the mask is one word wide |
| `Peephole.ApplyRules` | solidity/libevmasm/PeepholeOptimiser.cpp:249-264 | the loop over the items with the rules in order gives the specified pass |
| `Peephole.PeepholeOptimiser.Optimise` | solidity/libevmasm/PeepholeOptimiser.cpp:249-264 | the items are replaced exactly if a pass makes them fewer, or as many with fewer bytes |
| `Peephole.PeepholeOptimiser.OptimiseAll` | solidity/libevmasm/Assembly.cpp:399-404 | repeating the pass ends, after some number of passes, with items that no pass improves |
| `OptimiserEffects.PassActions` | solidity/libevmasm/PeepholeOptimiser.cpp:249-264 | a pass keeps every instruction that changes state, sends a message or writes memory, in order, but for those behind an instruction control never falls out of and before the next tag, and drops all of these |
| `OptimiserEffects.PassesActions` | solidity/libevmasm/Assembly.cpp:399-404 | any number of passes leaves the same of them as the first |
| `OptimiserEffects.RestExact` | solidity/libevmasm/PeepholeOptimiser.cpp:249-264 | unless an unused result has more than two operands, a pass improves the items if and only if some rule could improve something at some position |
| `OptimiserEffects.WidePopStuck` | solidity/libevmasm/PeepholeOptimiser.cpp:109-129 | with an unused ADDMOD an unused NOT stays, because together they gain nothing |
| `Pieces.Simulates` | solidity/libevmasm/PeepholeOptimiser.cpp:204-264 | a program cut into pieces, each replaced faithfully or unreachable, keeps all runs that end, jumps into the middle of replaced code included |
| `Pieces.TargetsMove` | solidity/libevmasm/PeepholeOptimiser.cpp:154-178 | a label that begins a piece before the rewriting begins the corresponding piece after it |
| `Assembler.Assemble` | solidity/libevmasm/Assembly.cpp:476-647 | code that is produced is its items in order, a STOP if anything follows, all referenced data in the order of its keys, and the auxiliary data at the end; every tag reference holds the position of the last such tag, of tag 0 that of the first item that is no tag, and fits; data references are given the exact position of their data, or zero without any, size references the size; otherwise the first fault is reported; code is produced only if all tags and strings resolve, and without data or size references always then |
| `Assembler.BytesRequired` | solidity/libevmasm/Assembly.cpp:69-82 | the search for the tag size ends, with the least size that is enough, which is also the number of bytes of the result |
| `Assembler.ReservedIsTagSize` | solidity/libevmasm/Assembly.cpp:491-498 | the width reserved for tags is the size found |
| `Assembler.FirstPass` | solidity/libevmasm/Assembly.cpp:508-591 | the loop lays the items out, notes every reference in order and the position of every tag, and fails with the error of the first item that has one |
| `Assembler.ResolveTags` | solidity/libevmasm/Assembly.cpp:609-625 | patching changes tag references and nothing else, each to the position of its tag, or fails with the error of the first that has one |
| `Assembler.AppendData` | solidity/libevmasm/Assembly.cpp:626-637 | referenced data is appended once, in order and nothing else, its references point at it, those without data stay zero, and nothing else changes |
| `Assembler.FillSizes` | solidity/libevmasm/Assembly.cpp:641-645 | size references hold the size of the whole code, and nothing else changes |
| `Assembler.PositionsFit` | solidity/libevmasm/Assembly.cpp:582-623 | without data or size references no label is too large, neither for the limit nor for the space reserved |
| `Assembler.LinkedReadsBack` | solidity/libevmasm/Assembly.cpp:476-647 | decoding the code gives back its items with their values |
| `Assembler.LabelsAreJumpDests` | solidity/libevmasm/Assembly.cpp:476-647 | every reference to a non-zero tag pushes a valid jump destination |
| `Assembler.LabelsInJumpTable` | fastvm/libevmjit/Compiler.cpp:667-674 | every such reference is in the jump table the compiler builds for the code |
| `Assembler.Link` | solidity/libevmasm/Assembly.cpp:593-646 | after the first pass, filling in and appending yields linked code, auxiliary data last, or the error of the first tag reference that has one |
| `Assembler.SizeReadsBack` | solidity/libevmasm/Assembly.cpp:641-645 | the size that is pushed is the size if and only if the final size, which is known beforehand, fits the bytes reserved |
| `Assembler.DataReadsBack` | solidity/libevmasm/Assembly.cpp:626-637 | the position that is pushed is that of the data, and the data is there, if and only if the position fits the bytes reserved |
| `Assembler.ReferencesFit` | solidity/libevmasm/Assembly.cpp:500-505 | all references fit if no fewer bytes were counted for them than they take |
| `Assembler.SizeTruncated` | solidity/libevmasm/Assembly.cpp:500-505 | they need not: an assembly of 2^16 bytes that reserves two bytes for its size |
| `Assembler.ToBigEndian` | solidity/libdevcore/CommonData.h:99-108 | the loop writes the big-endian form of the value modulo the buffer's range |
| `Assembler.FromBytes` | solidity/libdevcore/CommonData.h:113-120 | the loop reads the value of which the bytes are the big-endian form |
| `Assembler.BytesOf` | solidity/libdevcore/CommonData.h:154-161 | the loop counts significant bytes |
| `Layout.EachInstruction` | solidity/libevmasm/Instruction.cpp:362-382 | the loop gives the instructions with their operands, zero-filled where truncated |
| `Layout.CodeReadsBack` | solidity/libevmasm/Instruction.cpp:362-382 | decoding laid-out items from any of them on gives the items from there |
| `Layout.ItemsAreInstructions` | solidity/libevmasm/AssemblyItem.cpp:54-78 | every item begins at an instruction boundary |
| `Layout.TagsAreJumpDests` | solidity/libevmasm/Assembly.cpp:581-587 | every tag lies at a valid jump destination |
| `Layout.PatchIsUpdate` | solidity/libevmasm/Assembly.cpp:623-624 | overwriting a reserved space in place is laying the items out with another value |
| `AsmRuns.ItemsRun` | solidity/libevmasm/Assembly.cpp:508-625 | a run of items from any of them, with labels where they are placed, is a run of the assembled code on the reference machine, at a fixed cost, for every amount of gas |
| `Toolchain.InterpretationRealised` | solidity/libevmasm/Assembly.cpp:609-645 | assembled code with unique tags pushes exactly the addresses and values its items stand for |
| `Toolchain.TableAgrees` | solidity/libevmasm/Instruction.cpp:187-359 | the assembler's table has the operand and result counts of what the virtual machine executes by itself, and marks what touches memory |
| `Tables.KnownExact` | solidity/libevmasm/Instruction.cpp:187-359 | the assembler knows exactly what the machine executes in its last revision, CREATE2 and INVALID |
| `Tables.StackExact` | solidity/libevmasm/Instruction.cpp:187-359 | for every instruction of every mode, operand bytes and words taken and put are those of the compiled instruction, client cases included |
| `Tables.SideEffectsExact` | solidity/libevmasm/Instruction.cpp:187-359 | an instruction is marked as having side effects if and only if it uses memory or control, or has the client change state, execute a message or write memory |
| `Tables.ActingMarked` | solidity/libevmasm/Instruction.cpp:187-359 | whatever changes state or sends a message is marked |
| `Toolchain.AssembledRuns` | solidity/libevmasm/Assembly.cpp:476-647 | every run of the items that ends is an execution of the assembled message with the same stack, memory and output, for all gas from a fixed cost on, and below it an exceptional halt |
| `Toolchain.OptimisedRuns` | solidity/libevmasm/PeepholeOptimiser.cpp:249-264 | the same for code assembled from items after any number of peephole passes and the meaning of the items before |
| `Toolchain.CompiledItemsRun` | fastvm/libevmjit/Compiler.cpp:166-227 | the same for the compiled program: optimised, assembled, compiled and run, items end as they should |
| `ConstantOptimiser.ComputeMethod.constructor` | solidity/libevmasm/ConstantOptimiser.h:133-142 | for every value, step budget and gas estimate the routine is the specified one and computes the value, and the check in the constructor passes |
| `ConstantOptimiser.ComputeMethod.FindRepresentation` | solidity/libevmasm/ConstantOptimiser.cpp:180-235 | recursion and loop give the routine and the steps left of the specified search, and the routine evaluates to the value modulo 2^256, below anything on the stack |
| `ConstantOptimiser.ComputeMethod.TryParts` | solidity/libevmasm/ConstantOptimiser.cpp:200-225 | each decomposition that is tried is the specified candidate |
| `ConstantOptimiser.ComputeMethod.CheckRepresentation` | solidity/libevmasm/ConstantOptimiser.cpp:237-283 | the tiny machine accepts a routine exactly if it leaves just the value |
| `ConstantOptimiser.DecomposeExact` | solidity/libevmasm/ConstantOptimiser.cpp:200-207 | upper part times the power of two plus lower part is the value |
| `ConstantOptimiser.PartsSmaller` | solidity/libevmasm/ConstantOptimiser.cpp:194-218 | both parts are smaller than the value, so the recursion ends |
| `ConstantOptimiser.FindComputes` | solidity/libevmasm/ConstantOptimiser.cpp:180-235 | whatever the step budget and the gas estimate, the routine found computes the value |
| `ConstantOptimiser.SplitsExact` | solidity/libevmasm/ConstantOptimiser.cpp:194-213 | a split is tried at exactly the positions k at which the value is an odd multiple of 2^k plus or minus less than 2^(k-8), and these are its parts |
| `ConstantOptimiser.FindCheapest` | solidity/libevmasm/ConstantOptimiser.cpp:190-234 | for values not shorter negated the routine found is the literal, or a candidate estimated cheaper; and with steps left, none at any position is estimated cheaper than it |
| `ConstantRuns.CombineLow` | solidity/libevmasm/ConstantOptimiser.cpp:247-268 | the evaluator's operations on 256-bit numbers are the machine's on 128-bit words, modulo 2^128, operand by operand |
| `ConstantRuns.RoutineRefined` | solidity/libevmasm/ConstantOptimiser.cpp:237-283 | a routine of one-word pushes does on the machine, on any stack, what it does in the evaluator, modulo 2^128 |
| `ConstantRuns.ReplacingExact` | solidity/libevmasm/ConstantOptimiser.cpp:105-125 | replacing a constant by such a routine that computes it is right on the machine if and only if the constant is below 2^128 |
| `ConstantRuns.ConstantOnMachine` | solidity/libevmasm/ConstantOptimiser.cpp:180-235 | whatever is found for a constant below 2^128 pushes that constant on the machine |
| `ConstantRuns.PowerLost` | solidity/libevmasm/ConstantOptimiser.cpp:180-235 | for 2^n with n from 128 to 254 the search can find a routine that pushes zero for a constant of two words |

## Left out

- Compiler.Compile: says nothing about runs in which the reference machine calls the client (storage, balances, other code, transaction and block data, logs, Keccak, return data, CALL, CREATE, SELFDESTRUCT); their gas, flags and return data are in `Calls`, `MessageRuns` and `Jit`. Code that contains such instructions is covered in runs that do not reach them, and state-changing ones in static mode.
- Compiler.Compile: says nothing about runs in which a memory request is not tame. `MemoryUnit.AgreesExactly` says for each request exactly when the 64-bit rule is right, and `Memories.ClampedRequestOutside` shows what can happen otherwise, which takes more than 2^47 gas.
- Compiler.Compile: the sum of static costs of a cost block is not bounded to 64 bits; code would have to be some 2^47 bytes long for it to matter.
- Programs.CompilerCorrect: has the same restrictions as `Compiler.Compile`.
- Memories.Memory.StoreWord: requires the request to be in reach, as do loads and copies: otherwise the generated code multiplies with a wrap that is flagged as impossible, or accesses bytes outside memory.
- Segments.SegmentRefines: dynamic costs are those for which `Segments.ChargeExact` says that the saturated charge is exact.
- Arith128.UDivRem: requires a non-zero divisor. A comment in the source says that zero is handled, but leading zeros are counted with zero undefined. The generated code always selects the other branch for a zero divisor; for ADDMOD and MULMOD it does so after the remainder, which then stands for any value and is 0 in the model.
- Jits.Jit.Execute: running code is any list of steps (instructions with the gas they use, copies of return data, messages), not bytecode; the host answers each message or runs any code for it. Inputs of messages, the copying of output into memory, and RETURNDATACOPY beyond the data are not modelled.
- Peephole.PassesPreserve: about programs whose items push one word; two-word pushes exist in this assembler, and the exact conditions rule by rule are in `Peephole.PushPopExact`, `Peephole.DoublePushExact` and `Peephole.TagConjunctionExact`.
- Peephole.PassesPreserve: labels have the same addresses in both programs, in `Toolchain.OptimisedRuns` those of the optimised code, since a program may compute with its labels. A run does not use GAS, PC, MSIZE, CODESIZE or CODECOPY, since these observe the code itself. Runs that fail are not compared: the optimised program may succeed where the original overflows the stack.
- Peephole.PeepholeOptimiser.OptimiseAll: in the repository at present the loop is not reached, because `Assembly::optimise` returns without optimising.
- Assembler.Assemble: sub-assemblies and library addresses are not modelled, no operation is a bare PUSH instruction, local tags are below the number of tags in use, and sizes are below 2^32, so that `unsigned` does not wrap.
- Toolchain.AssembledRuns: an item run has no client calls, and one that ends with SELFDESTRUCT counts as an exceptional halt, as on the reference machine.
- ConstantOptimiser.ComputeMethod.FindRepresentation: the gas estimate is an arbitrary function; copying constants from code, and the choice between the three methods, are not modelled.
- ConstantOptimiser.FindCheapest: says nothing about values that are shorter negated, since these are not compared with their literal, nor about splits that are not tried once the steps are used up.
- ConstantRuns.ReplacingExact: about routines that push single words; by `ConstantRuns.ConstantOnMachine` that is all there are for constants below 2^128.
- OptimiserEffects.RestExact: requires that no unused result has more than two operands; `OptimiserEffects.WidePopStuck` shows why.
- LLVM: passes, code emission and value numbering; the meaning of the instructions used is modelled.
- The Java binding, the disk cache, engine reset, statistics and logging.
- Keccak, and the client's callbacks.
- The other optimisers of the assembler (common subexpressions, control flow, block deduplication), its own gas estimation, and the Solidity compiler.
