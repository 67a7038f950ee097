# Viua VM: a verified model of its runtime core

Viua is a register-based virtual machine with lightweight processes. This project models the parts of
its runtime in which most of the state, branching and arithmetic lives, and proves what they keep over
every input, every run and every reachable state:

- `Scheduling` — any number of process schedulers that run, spawn, steal and reap processes, as a state
  machine whose steps are the critical sections and atomic operations of the original, interleaved freely.
- `Unwinding` — the call stacks of one process: deferred calls, returns, tail calls, and two-phase unwinding.
- `Kernel`, `Pids` — mailboxes, result slots, the running-process counter, and process identifiers.
- `BitVectors`, `BitHelpers`, `Wrapping`, `Checked`, `Saturating`, `BitString` — fixed-width arithmetic on
  `std::vector<bool>`, related to the integers by two readings (`U` unsigned, `S` two's complement) and by
  `Encode`, reduction modulo 2^n.
- `Escapes`, `Lexer`, `EditDistance`, `Utf8Text` — escaping and quoting, the tokeniser, the edit distance
  and UTF-8 texts.

Code that works by changing things is modelled by classes and by methods with loops, proved against
specification functions; protocols are modelled by step functions, and the theorems are about all runs.
Exceptions of the original are an `Outcome`, or a flag, and not preconditions.

Several promises turned out not to hold of the code everywhere. The model follows the code, and the
exact condition under which the promise holds is proved instead:

- The sign that checked and saturating addition predict is always the sign of the right operand, because
  an operand is compared with itself on the way; so 5 + (-3) throws, or becomes the minimum. The comments
  on the opcodes (include/viua/bytecode/opcodes.h:206-301) promise otherwise.
- Wrapping division does not end on a minimum dividend narrower than the divisor when the divisor is a
  larger multiple of 2^n, and a narrower minimum operand on either side can get lost.
- Shifts by zero places clear the vector, and an arithmetic right shift by the whole width gives zero.
- The edit distance handed back for two non-empty strings leaves out the last character of each.
- A zero byte is accepted in a text, but its character is stored as empty; and overlong forms, which section 3
  of RFC 3629 forbids, are accepted as characters.
- A frame discarded by unwinding with an argument passed by move that nobody took raises an exception
  outside of the handler of the tick, so it leaves the tick instead of being raised in the process.
- A tail call from the last frame of a stack is not carried out if there is another stack to switch to; and
  if that stack waits at the address of the tail call, it is stopped with an exception it did not cause.

The comment on the fourth component of a process identifier (include/viua/pid.h:29-91) gives its modulus
another range than the code; the model has that of the code.

## Model

| member | source | states |
|---|---|---|
| `Scheduling.GivingUp` | src/scheduler/process.cpp:331-368 | giving up processes splits the queue into two parts that together hold exactly its processes, never empties a queue, and never parts with a pinned process |
| `Scheduling.GiveUpLimit` | src/scheduler/process.cpp:345-349 | how many processes of a queue are looked at: all but 100/141 of them, rounded down, which is at least one and never all |
| `Scheduling.GivingUpInOrder` | src/scheduler/process.cpp:331-368 | of the processes looked at those not pinned are given up, in their order, and the pinned ones stay, in theirs, behind those not looked at, which keep theirs |
| `Scheduling.ProcessScheduler.Push` | src/scheduler/process.cpp:243-247 | a process is added at the end of the queue |
| `Scheduling.ProcessScheduler.Pop` | src/scheduler/process.cpp:248-254 | the first process of a queue that has one is taken, and the order of the others kept |
| `Scheduling.ProcessScheduler.GiveUpProcesses` | src/scheduler/process.cpp:331-368 | the two loops compute the split of which GivingUp speaks: what is given up, and what is left with pinned processes moved to the end |
| `Scheduling.KeepsOwned` | src/scheduler/process.cpp:476-693 | no step of any scheduler duplicates or loses a process: queues, loops and stolen batches together hold each process with a mailbox once, and no other |
| `Scheduling.KeepsCounted` | src/kernel/kernel.cpp:463-508 | every step keeps the counter at two for each live process, less one for each spawn and plus one for each death not announced yet |
| `Scheduling.ZeroMeansOver` | src/kernel/kernel.cpp:473-480 | in every state with the invariant the counter is at least the number of live processes, and zero exactly when there are none and no death is unannounced |
| `Scheduling.EmptyStaysEmpty` | src/scheduler/process.cpp:296-330 | once no process is alive, no step of any scheduler creates one |
| `Scheduling.StepKeepsInv` | src/scheduler/process.cpp:476-693 | every step of every scheduler keeps ownership, counting, work for those about to pop, the place of the main process, and the meaning of having shut down |
| `Scheduling.LaunchedInv` | src/kernel/kernel.cpp:749-834 | all of this holds when the schedulers are launched, whatever their number |
| `Scheduling.RunKeepsInv` | src/scheduler/process.cpp:476-693 | all of this holds after every run |
| `Scheduling.CounterIsZeroIffAllIsOver` | src/kernel/kernel.cpp:463-508 | after every run of any number of schedulers the counter has not underflowed, and it is zero exactly when no queue, loop or stolen batch holds a process and no death is still to be counted |
| `Scheduling.ExactlyOneOwner` | src/kernel/kernel.cpp:429-462 | after every run a live process is in exactly one queue, loop or stolen batch and a dead one in none; two schedulers never hold the same process |
| `Scheduling.NeverPopsEmpty` | src/scheduler/process.cpp:485-522 | a scheduler that has found its queue not empty never pops an empty one, although others steal from it in between |
| `Scheduling.MainNeverLeaves` | src/scheduler/process.cpp:278-294 | after every run no other scheduler has the main process, in its queue or in its hands |
| `Scheduling.FirstInFirstOut` | src/scheduler/process.cpp:243-254 | whatever step is made, a queue is added to at its end only, run from its front, or asked to give some up |
| `Scheduling.OnlyFirstIsStolenFrom` | src/scheduler/process.cpp:296-330 | after every run a spawn adds to the queue of the first scheduler, whoever runs the spawner, and stealing takes from no other queue |
| `Scheduling.ShutdownSafety` | src/scheduler/process.cpp:485-520 | once any scheduler has shut down no process is alive anywhere, then and after every continuation of the run |
| `Scheduling.ShutdownIsReached` | src/scheduler/process.cpp:485-520 | once the counter is zero it stays zero, every continuation has at most three steps a scheduler, and nothing more can happen only when all schedulers have shut down |
| `Unwinding.DeferredAt` | src/process/stack.cpp:100-117 | each deferred call of a frame gets exactly one new stack, at a position fixed by its frame and its place in it: with the prepared frame alone, running, nothing thrown or caught, at the entry of the function |
| `Unwinding.Target` | src/process/stack.cpp:195-203 | the frame unwound to is the topmost with the identity asked for, or the bottom one if there is none above it |
| `Unwinding.TargetIsUnique` | src/process/stack.cpp:195-203 | a frame that is live, or the bottom one, with no such frame above it is the one unwound to |
| `Unwinding.Handler` | src/process/stack.cpp:246-273 | the block chosen has a catcher for the tag and is the innermost that has; none is chosen only if there is none |
| `Unwinding.TickKeepsInv` | src/process.cpp:418-536 | every tick, of any instruction, keeps all stacks of a process in a good state, so that unwinding always has an exception to look at and never meets an invalid state; the one exception that can leave a tick is that of an unused argument |
| `Unwinding.AlwaysGood` | src/process.cpp:418-536 | the same after every run of a process from its entry function, foreign calls and the new life a watchdog gives it included |
| `Unwinding.ReturnsToWaiting` | src/process/stack.cpp:195-229 | whatever code runs above it, a stack that waits is not touched until the run first comes back to it; it is then found just as it was left, but for the clash of a tail call |
| `Unwinding.FoundAsLeftIff` | src/process.cpp:480-512 | a waiting stack with nothing to unwind is found as it was left if and only if the last instruction was not a tail call at the very address it waits at; otherwise it is stopped with InstructionUnchanged |
| `Unwinding.TailCallClash` | src/process/instr/calls.cpp:150-163 | the input on which that happens: a function that begins with a tail call, deferred twice |
| `Unwinding.LocalThrowsIff` | src/process.cpp:480-512 | an instruction ends with an exception exactly if it throws one or leads to itself without being one that waits |
| `Unwinding.FinishesIff` | src/process.cpp:467-470 | a tick ends the process exactly if it halts, or returns from its last frame with no deferred call and no stack left in line |
| `Unwinding.FirstPhase` | src/process/stack.cpp:275-315 | the first unwinding leaves the frames in place, moves the exception to the caught slot, and puts the stack and then the deferred calls of the frames above the target in line |
| `Unwinding.SecondPhase` | src/process/stack.cpp:215-244 | the resumed unwinding catches the exception if and only if no discarded frame has an unused argument passed by move |
| `Unwinding.CaughtExactly` | src/process/stack.cpp:195-315 | from any tick that ends with an exception, through any run of the deferred calls, to the resumption: exactly the frames up to the target and the blocks up to the chosen one are left, with their deferred calls, the exception caught, nothing thrown, and execution at the catcher block |
| `Unwinding.DeferredRunInTurn` | src/process/stack.cpp:100-117 | the calls deferred by discarded frames come to their turn once each, in reverse: topmost frame first, last deferred first, each when those after it have finished, and it starts unless the clash stops it |
| `Unwinding.UncaughtStops` | src/process/stack.cpp:299-315 | an exception nobody catches stops the process with that very exception, at the same address and with its frames and blocks, after all deferred calls of all frames have run, once |
| `Unwinding.LeavesExactly` | src/process/instr/calls.cpp:244-263 | a return or tail call from a frame other than the last first runs the calls deferred by the frame, whatever they do, and then finds the stack as it was left, with no deferred calls in that frame |
| `Unwinding.LeavesFrame` | src/process/instr/calls.cpp:264-292 | after that a return takes off that frame and no other, goes to the return address of the frame, keeps blocks, caught slot and prepared frame, and throws exactly for an unused argument; a tail call keeps all frames, gives the last one its new arguments and goes to the function called |
| `Unwinding.ReturnsToCaller` | src/process/instr/calls.cpp:244-292 | over the whole run from a return, through any run of the deferred calls, to the tick that carries it out: the caller goes on at the return address with its frames, blocks and slots, and the same stacks in line |
| `Unwinding.TailCallsExactly` | src/process/instr/calls.cpp:150-203 | the same for a tail call, which goes to the entry of the function called, in the same frame with its new arguments; from that very entry it is taken for an instruction that leads to itself |
| `Unwinding.LeavingRunsInTurn` | src/process/instr/calls.cpp:244-263 | the calls deferred by a frame that is left come to their turn once each, the last one first, from the entries of their functions, and start if and only if the clash of a tail call does not stop them |
| `Unwinding.LastFrameTailCallIff` | src/process/instr/calls.cpp:150-203 | a tail call from the last frame of a stack is carried out if and only if there is no deferred call and no other stack to switch to; otherwise the function is never called |
| `Unwinding.CallStack.FindCatchFrame` | src/process/stack.cpp:246-273 | the search from the innermost block outwards finds the block Handler specifies |
| `Unwinding.CallStack.DistanceTo` | src/process/stack.cpp:195-203 | the counted distance is the number of frames above the target |
| `Unwinding.CallStack.Pop` | src/process/stack.cpp:131-151 | the last frame is taken off, and an exception thrown after that exactly for an unused argument |
| `Unwinding.CallStack.UnwindTryStackTo` | src/process/stack.cpp:230-235 | exactly the blocks up to the chosen one are left |
| `Unwinding.CallStack.PushDeferred` | src/process.cpp:398-412 | the prepared frame, under the name of the function, becomes the last deferred call of the topmost frame, which is otherwise unchanged; without a prepared frame nothing changes and an exception is thrown |
| `Unwinding.Process.RegisterDeferredCallsFrom` | src/process/stack.cpp:100-117 | one new stack for each deferred call is put in line, in order, and the frame has none left |
| `Unwinding.Process.UnwindCallStackTo` | src/process/stack.cpp:195-229 | what each of the two phases, and an invalid state, do to frames, state and the stacks in line |
| `Unwinding.Process.Unwind` | src/process/stack.cpp:275-315 | the objects are changed as the specification of unwinding says, with no stack waiting twice or waiting while active |
| `Unwinding.Process.OpReturn` | src/process/instr/calls.cpp:244-292 | the objects are changed as the specification of returning says, in both of its passes |
| `Unwinding.Process.OpTailCall` | src/process/instr/calls.cpp:150-203 | the objects are changed as the specification of a tail call says, in both of its passes |
| `Unwinding.Process.Become` | src/process.cpp:665-685 | a stopped process goes on with another function on the same stack, which keeps its blocks, and the stacks in line |
| `Unwinding.StartsAfresh` | src/process.cpp:665-685 | the new life starts at the entry of the watchdog function, with one frame and both slots for exceptions empty, and all stacks are in a good state |
| `Unwinding.Process.Tick` | src/process.cpp:418-536 | one tick on the objects is one tick of the specification, including the check for an instruction that leads to itself |
| `Kernel.DeliveryStep` | src/kernel/kernel.cpp:579-612 | one operation moves messages from sender to mailbox to process and neither drops, repeats nor reorders one, except that deleting a mailbox drops what is in it; taking empties the mailbox, and an operation on one process leaves the messages of all others alone |
| `Kernel.Delivery` | src/kernel/kernel.cpp:488-612 | over every interleaving what a process has got, then what it has fetched, then its mailbox is what was there and what was sent since, in order |
| `Kernel.BoxExistsIff` | src/kernel/kernel.cpp:488-508 | after every run there is a mailbox exactly if one was created, or was there at first, and not deleted since |
| `Kernel.SendToNobody` | src/kernel/kernel.cpp:579-593 | a message changes nothing exactly when its address has no mailbox |
| `Kernel.MailLife` | src/kernel/kernel.cpp:488-612 | over its whole life a process gets a beginning of what is sent to it while its mailbox exists, and nothing sent before |
| `Kernel.WrittenOnceReadOnce` | src/kernel/kernel.cpp:509-577 | over every run a result slot is filled at most once, the first outcome recorded is the one handed out, at most once, and afterwards the slot is gone |
| `Kernel.ResultIsHandedOut` | src/kernel/kernel.cpp:509-577 | over every run that leaves a slot alone, the first outcome recorded is what the next transfer hands out, if it asks for the right one of value and exception |
| `Kernel.DisownedHasNoSlot` | src/scheduler/process.cpp:296-330 | a process without a slot never has one, and nothing is ever handed out for it |
| `Kernel.VmKernel.CreateMailbox` | src/kernel/kernel.cpp:488-497 | an empty mailbox appears unless there is one already; the counter goes up either way |
| `Kernel.VmKernel.DeleteMailbox` | src/kernel/kernel.cpp:498-508 | that mailbox and no other disappears; the counter goes down |
| `Kernel.VmKernel.NotifyAboutProcessSpawned` | src/kernel/kernel.cpp:463-472 | the scheduler is listed last for others to steal from; the counter goes up |
| `Kernel.VmKernel.NotifyAboutProcessDeath` | src/kernel/kernel.cpp:473-476 | the counter goes down and nothing else changes |
| `Kernel.VmKernel.Send` | src/kernel/kernel.cpp:579-593 | the message goes to the end of that mailbox, or nowhere |
| `Kernel.VmKernel.Receive` | src/kernel/kernel.cpp:594-612 | all messages move to the end of the queue of the process, in order; an unknown process throws and changes nothing |
| `Kernel.VmKernel.OpReceive` | src/process/instr/concurrency.cpp:146-190 | the instruction is one take of the mail machine: fetch everything, then use the oldest message; without one it is repeated, or throws once its time has expired; an unknown process throws |
| `Kernel.VmKernel.CreateResultSlotFor` | src/kernel/kernel.cpp:509-514 | one step of the machine of results |
| `Kernel.VmKernel.RecordProcessResult` | src/kernel/kernel.cpp:520-543 | one step of the machine of results: a slot that does not exist is not made |
| `Kernel.VmKernel.TransferExceptionOf` | src/kernel/kernel.cpp:562-569 | the exception is handed out and the slot removed; a missing slot throws |
| `Kernel.VmKernel.TransferResultOf` | src/kernel/kernel.cpp:570-577 | the value is handed out and the slot removed; a missing slot throws |
| `Pids.PidEmitter.constructor` | src/pid.cpp:90-130 | an emitter starts before the first identifier, with any constants in the ranges the original draws them from |
| `Pids.PidEmitter.Emit` | src/pid.cpp:132-152 | with all five counters wrapping at their widths, the k-th call gives the k-th identifier of the closed form |
| `Pids.PidsAreDistinct` | src/pid.cpp:132-152 | equal identifiers are a multiple of 2^64 calls apart |
| `Pids.NStepsIsQuotient` | src/pid.cpp:132-152 | the fourth counter counts the multiples of its modulus that the second one goes through, for any number of calls |
| `Pids.MStepsCountsPairs` | src/pid.cpp:132-152 | the fifth counter steps twice for each multiple of its modulus that the third one goes through, for any number of calls |
| `Pids.StrInjective` | src/pid.cpp:62-88 | two identifiers with the same printed form are the same, with and without separators |
| `Pids.FieldReadsBack` | src/pid.cpp:62-88 | a printed field of any width consists of digits and reads, by character codes, as the number printed |
| `Pids.StrReadsBack` | src/pid.cpp:62-88 | where each component is in the printed form, with and without separators, what it reads as, and where the colons are |
| `BitHelpers.BinaryExpand` | src/types/bits.cpp:55-64 | sign extension keeps the signed value |
| `BitHelpers.BinaryClip` | src/types/bits.cpp:65-78 | clipping is reduction modulo 2^width |
| `BitVectors.UEncodeMod` | src/types/bits.cpp:65-78 | what Encode, in which all operations are stated, means: the number that a clipped vector reads as is the remainder modulo 2^n |
| `BitHelpers.BinaryInversion` | src/types/bits.cpp:79-89 | inversion reflects both readings of a vector |
| `BitHelpers.BinaryToBool` | src/types/bits.cpp:90-98 | true exactly for a value other than zero |
| `BitHelpers.BinaryIsNegative` | src/types/bits.cpp:106-109 | true exactly for a negative signed value |
| `BitHelpers.BinaryLastBitSet` | src/types/bits.cpp:110-124 | the position found brackets the value between two powers of two; none exactly for zero |
| `BitHelpers.BinaryEq` | src/types/bits.cpp:125-138 | equality of the signed values at any widths |
| `Wrapping.RippleCarry` | src/types/bits.cpp:302-379 | result and carry together are the exact unsigned sum, at any widths |
| `Wrapping.BinaryAddition` | src/types/bits.cpp:302-379 | addition is exact, and one bit wider exactly when it carries |
| `Wrapping.WrapAdd` | src/types/bits.cpp:1477-1483 | the sum modulo 2^n |
| `Wrapping.BinaryIncrement` | src/types/bits.cpp:221-238 | the successor modulo 2^n, with a carry exactly on wrap-around |
| `Wrapping.BinaryDecrement` | src/types/bits.cpp:239-257 | the predecessor modulo 2^n, with a borrow exactly on wrap-around |
| `Wrapping.TakeTwosComplement` | src/types/bits.cpp:258-262 | negation modulo 2^n |
| `Wrapping.BinaryLte` | src/types/bits.cpp:265-281 | unsigned order of the sign-extended operands |
| `Wrapping.BinarySubtraction` | src/types/bits.cpp:380-389 | the signed difference modulo 2^n, at any widths |
| `Wrapping.WrapSub` | src/types/bits.cpp:1484-1490 | the signed difference modulo 2^n, at any widths |
| `Wrapping.Intermediates` | src/types/bits.cpp:390-423 | the shifted copies add up to the exact product |
| `Wrapping.ShiftAndAdd` | src/types/bits.cpp:390-433 | shift-and-add gives the exact product, and no partial sum carries out of the joint width |
| `Wrapping.BinaryMultiplication` | src/types/bits.cpp:390-433 | the exact product at the joint width |
| `Wrapping.WrapMul` | src/types/bits.cpp:1491-1497 | the product modulo 2^n |
| `Wrapping.RepeatedSubtraction` | src/types/bits.cpp:465-468 | the loop ends and counts how often the divisor goes into the dividend; for a minimum dividend smaller than a wider divisor, how often it can be subtracted modulo 2^n before the sign bit is gone |
| `Wrapping.BinaryDivision` | src/types/bits.cpp:434-475 | throws exactly for a zero divisor; truncated division modulo 2^n unless a narrower minimum operand is lost; zero for a lost divisor, and the signed number of rounds around for a lost dividend |
| `Wrapping.WrapDiv` | src/types/bits.cpp:1498-1504 | truncated division modulo 2^n if and only if no narrower minimum operand is lost |
| `Wrapping.LostDivisorIsWrong` | src/types/bits.cpp:434-475 | where a minimum divisor is lost the true quotient is never zero |
| `Wrapping.LostDividendIsWrong` | src/types/bits.cpp:434-475 | where a minimum dividend is lost the true quotient is always zero |
| `Wrapping.DivergingLoop` | src/types/bits.cpp:465-468 | where division is said not to end, the loop starts in a state that its guard admits and its body leaves unchanged |
| `Wrapping.WrapAddIsSignedIff` | src/types/bits.cpp:302-379 | the wrapped sum is the signed one exactly if a narrower right operand is not negative |
| `Wrapping.WrapSubUndoesWrapAddIff` | src/types/bits.cpp:380-389 | subtraction undoes addition on exactly the same operands |
| `Wrapping.WrapMulIsSignedIff` | src/types/bits.cpp:390-433 | the wrapped product is the signed one exactly if a narrower right operand is not negative, or the bits it would disturb are clear |
| `Checked.SignedIncrement` | src/types/bits.cpp:478-499 | the exact successor, or an exception exactly if it is not representable |
| `Checked.SignedDecrement` | src/types/bits.cpp:500-519 | the exact predecessor, or an exception exactly if it is not representable |
| `Checked.TakeTwosComplement` | src/types/bits.cpp:520-524 | the exact negation, or an exception exactly for the minimum |
| `Checked.Absolute` | src/types/bits.cpp:525-532 | the exact magnitude, or an exception exactly for the minimum |
| `Checked.SignedLt` | src/types/bits.cpp:534-564 | what the comparison decides for each pair of signs, and when it throws |
| `Checked.PredictedSign` | src/types/bits.cpp:567-655 | the predicted sign of a sum is always that of the right operand |
| `Checked.SignedAdd` | src/types/bits.cpp:567-655 | at any widths, the raw sum exactly if it has the predicted sign, and the overflow exception otherwise |
| `Checked.CheckedAdd` | src/types/bits.cpp:1517-1524 | at any widths, exactly when the promised sum or exception comes out, in terms of the values and widths of the operands; at equal widths what is returned is always exact |
| `Checked.CheckedAddRefusesRepresentableSum` | src/types/bits.cpp:567-655 | 5 + (-3) at eight bits is refused although 2 is representable |
| `Checked.SignedSub` | src/types/bits.cpp:656-684 | at any widths, the difference modulo 2^n where the sign test on the wider width passes, and the overflow exception otherwise |
| `Checked.CheckedSub` | src/types/bits.cpp:1525-1532 | at any widths, exactly when the promised difference or exception comes out; for a right operand no wider what is returned is always exact |
| `Checked.SubReturnsIff` | src/types/bits.cpp:656-684 | the sign test of the code agrees with representability of the difference exactly under the stated bounds on the operands and the difference |
| `Checked.SignedMul` | src/types/bits.cpp:685-840 | at any widths, the clipped product exactly under the sign and width tests of the code, recursion on magnitudes included, and the overflow exception otherwise |
| `Checked.CheckedMul` | src/types/bits.cpp:1533-1538 | what is returned is the product of the bits modulo 2^n; at any widths, for each pair of signs, when something is returned, and exactly when the promised product or exception comes out |
| `Checked.BothNegativeReturns` | src/types/bits.cpp:685-840 | for two negative operands, the tests of the code against representability of the product |
| `Checked.MixedReturns` | src/types/bits.cpp:685-840 | for operands of different sign, the tests of the code against representability of the product, also where a narrower operand was zero-extended |
| `Checked.SignedDiv` | src/types/bits.cpp:841-882 | at all widths, when each exception is thrown, that what is returned is truncated division, and exactly when the promise holds |
| `Saturating.SignedMakeMax` | src/types/bits.cpp:885-892 | the largest number of its width |
| `Saturating.SignedMakeMin` | src/types/bits.cpp:893-900 | the smallest number of its width |
| `Saturating.SignedIsMin` | src/types/bits.cpp:901-921 | true exactly for the smallest number of its width |
| `Saturating.SignedIncrement` | src/types/bits.cpp:945-965 | the clamped successor |
| `Saturating.SignedDecrement` | src/types/bits.cpp:966-984 | the clamped predecessor |
| `Saturating.TakeTwosComplement` | src/types/bits.cpp:986-990 | the clamped negation |
| `Saturating.SignedLt` | src/types/bits.cpp:991-1021 | what the comparison decides for each pair of signs |
| `Saturating.Absolute` | src/types/bits.cpp:1022-1029 | the clamped magnitude |
| `Saturating.SignedAdd` | src/types/bits.cpp:1031-1117 | at any widths, the raw sum if it has the sign of the right operand, and that end of the range otherwise |
| `Saturating.SaturatingAdd` | src/types/bits.cpp:1557-1564 | at any widths, exactly when the clamped sum comes out, in terms of the values and widths of the operands; at equal widths an end of the range comes out otherwise |
| `Saturating.SignedSub` | src/types/bits.cpp:1118-1150 | at any widths, the sum with a clamped negation, corrected by one for a minimum right operand |
| `Saturating.SaturatingSub` | src/types/bits.cpp:1565-1572 | at any widths, exactly when the clamped difference comes out, and the value that comes out instead |
| `Saturating.SaturatingSubClampsIff` | src/types/bits.cpp:1118-1150 | the same of the specification of the subtraction |
| `Saturating.SignedMul` | src/types/bits.cpp:1151-1313 | at any widths, the outcome of the product by sign, recursion on magnitudes included |
| `Saturating.SaturatingMul` | src/types/bits.cpp:1573-1578 | at any widths, exactly when the clamped product comes out, and the value that comes out instead |
| `Saturating.SaturatingMulClampsIff` | src/types/bits.cpp:1151-1313 | the same of the specification of the multiplication |
| `Saturating.NeverMatches` | src/types/bits.cpp:1151-1313 | for a minimum right operand the clipped product of two negative operands is never that of the magnitudes, because an odd factor supplies no power of two |
| `Saturating.NonNegativeSaturates` | src/types/bits.cpp:1151-1313 | at any widths the product of operands that are not negative is clamped |
| `Saturating.SaturatingDiv` | src/types/bits.cpp:1314-1358 | at all widths, throws for a zero divisor, exactly when the quotient is the clamped truncated one, and the value that comes out instead |
| `BitString.BinaryShl` | src/types/bits.cpp:180-216 | what a left shift leaves and what it pushes out, at any distance |
| `BitString.BinaryShr` | src/types/bits.cpp:141-179 | what a right shift leaves and what it pushes out, at any distance |
| `BitString.ShlConservesIff` | src/types/bits.cpp:180-216 | what is left and what is pushed out together are the value times 2^n, exactly unless the distance is zero |
| `BitString.ShrConservesIff` | src/types/bits.cpp:141-179 | the same for shifting right |
| `BitString.AshrIsFloorDivisionIff` | src/types/bits.cpp:1435-1438 | an arithmetic right shift is floor division by 2^n exactly while a bit remains or the number is not negative, and by zero only for 0 and -1 |
| `BitString.AshlMultipliesIff` | src/types/bits.cpp:1427-1433 | an arithmetic left shift is multiplication by 2^n exactly when that is representable, and by zero only for zero and the minimum |
| `BitString.AshlKeepsSign` | src/types/bits.cpp:1427-1433 | at any distance an arithmetic left shift keeps the sign, and below the sign bit it is multiplication by 2^n modulo 2^(width - 1), or all clear by zero places |
| `BitString.AshrBeyond` | src/types/bits.cpp:1435-1438 | an arithmetic right shift by zero places leaves 0 or -1 by the sign, and by the width or more it leaves 0 |
| `BitString.ShiftEdges` | src/types/bits.cpp:141-216 | shifts by zero places clear the vector, and padding with ones adds exactly the ones shifted in |
| `BitString.RotationsAreInverse` | src/types/bits.cpp:1440-1458 | the two rotations undo each other, and move each bit by the distance around the end |
| `BitString.RotationsCompose` | src/types/bits.cpp:1440-1447 | rotations add up modulo the width |
| `BitString.Bits.Shl` | src/types/bits.cpp:1407-1412 | the object keeps what is left, and a new one holds what is pushed out |
| `BitString.Bits.Shr` | src/types/bits.cpp:1414-1425 | the object keeps what is left, and a new one holds what is pushed out |
| `BitString.Bits.Ashl` | src/types/bits.cpp:1427-1433 | the object is multiplied by 2^n exactly when that is representable; it always keeps its sign, and below the sign bit is that product modulo 2^(width - 1), or clear by zero places |
| `BitString.Bits.Ashr` | src/types/bits.cpp:1435-1438 | the object is divided by 2^n, rounding down, exactly while a bit remains or it is not negative; otherwise it becomes 0, or by zero places 0 or -1 by its sign |
| `BitString.Bits.Rol` | src/types/bits.cpp:1440-1447 | a rotation for distances from one to the width; cleared by zero; for more it throws, after overwriting |
| `BitString.Bits.Ror` | src/types/bits.cpp:1449-1458 | a rotation for distances from one to the width; cleared by zero; for more it throws, after overwriting |
| `BitString.Bits.Increment` | src/types/bits.cpp:1465-1469 | the successor modulo 2^n, in place |
| `BitString.Bits.Decrement` | src/types/bits.cpp:1471-1475 | the predecessor modulo 2^n, in place |
| `Escapes.StrEncode` | src/support/string.cpp:523-583 | encoding: decoding the result gives the input again, it holds none of the characters 7 to 13, and is longer by one for each of these and each backslash |
| `Escapes.StrDecode` | src/support/string.cpp:458-522 | decoding: a backslash takes the next character along, and stands for itself at the very end |
| `Escapes.EncodedIsPlain` | src/support/string.cpp:523-583 | an encoded string holds none of the characters 7 to 13, and is longer by one for each of these and each backslash |
| `Escapes.DecodesByLetter` | src/support/string.cpp:458-522 | which letter after a backslash stands for which of the characters 7 to 13, and that all else stands for itself |
| `Escapes.DecodeUndoesEncode` | src/support/string.cpp:458-583 | decoding undoes encoding, for every string |
| `Escapes.Enquote` | src/support/string.cpp:440-456 | quotes around, and a backslash before every closing character inside |
| `Escapes.EnquotedAt` | src/support/string.cpp:440-456 | where each character is in the enquoted string, with the backslash before each closing character, and the length of the whole |
| `Escapes.Extract` | src/support/string.cpp:270-318 | the chunk ends with the first repetition of the quote that no odd run of backslashes escapes, or is everything |
| `Escapes.ChunkIsUnique` | src/support/string.cpp:270-318 | there is one such chunk, the one a single pass over the characters finds |
| `Escapes.PrintLexDecodeRoundTrip` | src/support/string.cpp:270-583 | encoded, enquoted and followed by anything, a string is extracted exactly and decodes to itself |
| `Escapes.EnquoteAloneExtractsIff` | src/support/string.cpp:270-456 | without encoding, extraction finds the enquoted string exactly if its quotes are not escaped already and, if anything follows, its end is not either; and for a backslash as the quote, exactly if there is none inside |
| `Lexer.Tokenise` | src/cg/lex.cpp:299-399 | every token is the next word, quoted chunk or separator outside a comment; only a quoted chunk of more than one character has separators inside, after a word comes one, and nothing is lost but a last word with none after it; lines and columns are right |
| `Lexer.BreaksByCode` | src/cg/lex.cpp:317-355 | a character separates words exactly if it is a newline, a tab, or printable in ASCII and no letter, digit, underscore or backslash, by its code |
| `Lexer.InCommentIff` | src/cg/lex.cpp:357-394 | quotes are not looked at exactly if a semicolon, or a second hyphen in a row, came with no newline since |
| `Lexer.TokenisationIsUnique` | src/cg/lex.cpp:299-399 | a source has one tokenisation only |
| `Lexer.NeighboursAreAdjacent` | src/cg/lex.cpp:56-60 | the first token is at the start of the first line, and each other starts where the one before it ends, except across the end of a line |
| `Lexer.JoinTokens` | src/cg/lex.cpp:2010-2021 | the contents of the tokens in a range, joined |
| `Lexer.JoiningGivesTheSource` | src/cg/lex.cpp:2010-2021 | the tokens joined in two parts give the source again |
| `EditDistance.NoCheaperScript` | src/support/string.cpp:363-407 | no edit script is cheaper than the recurrence of the table |
| `EditDistance.BestScript` | src/support/string.cpp:363-407 | some edit script costs exactly that |
| `EditDistance.DistanceIsLeastCost` | src/support/string.cpp:363-407 | the recurrence is the least cost over all edit scripts between two strings |
| `EditDistance.FillTable` | src/support/string.cpp:373-403 | every cell of the table is the distance of its prefixes |
| `EditDistance.Levenshtein` | src/support/string.cpp:363-407 | the value handed back is that of the prefixes without their last characters, at most one short, and exactly when it is the distance |
| `EditDistance.ReturnedValueCanBeShort` | src/support/string.cpp:405-406 | two different strings of one character are at distance zero |
| `Utf8Text.SegmentationIsUnique` | src/types/text.cpp:49-101 | a byte string splits into characters in one way only |
| `Utf8Text.AcceptedIffSegmented` | src/types/text.cpp:28-101 | a byte string is accepted exactly when a split into characters exists |
| `Utf8Text.ByteRanges` | src/types/text.cpp:28-48 | the ranges of bytes, as numbers, that lead one to four bytes, that continue, and that do neither |
| `Utf8Text.EncodingIsCharacter` | src/types/text.cpp:28-101 | the UTF-8 encoding of a code point, by division by 64, is one character of one to four bytes |
| `Utf8Text.CharacterIsEncodingIff` | src/types/text.cpp:28-101 | a character is the encoding of its value exactly if that value needs all its bytes |
| `Utf8Text.EncodedTextParses` | src/types/text.cpp:49-101 | the encoding of any sequence of code points is accepted and splits into the encodings of each |
| `Utf8Text.FaultIsOutOfRangeIff` | src/types/text.cpp:49-101 | reading past the end is the exception exactly if, after some characters, a lead byte announces more bytes than are left; otherwise the whole string is refused |
| `Utf8Text.SegmentsDistribute` | src/types/text.cpp:49-101 | after an accepted string, acceptance and the split start afresh |
| `Utf8Text.Parse` | src/types/text.cpp:49-101 | accepted strings give the characters of their split, through a zero-terminated buffer; others throw, and which exception comes first |
| `Utf8Text.StoredConcatIff` | src/types/text.cpp:49-101 | the parsed characters give the input without its zero bytes, so all of it exactly if it holds none |
| `Utf8Text.Str` | src/types/text.cpp:117-124 | all characters joined |
| `Utf8Text.FromBytes` | src/types/text.cpp:103-104 | a text of bytes caches them, and cache and characters agree exactly if there is no zero byte |
| `Utf8Text.FromCharacters` | src/types/text.cpp:105-107 | a text of characters always agrees with its cache |
| `Utf8Text.Copy` | src/types/text.cpp:136-139 | a copy has the same characters, and is equal exactly if the original agreed with its cache |
| `Utf8Text.Plus` | src/types/text.cpp:146-156 | characters are joined, and the cached bytes too if both sides agree with theirs |
| `Utf8Text.Sub` | src/types/text.cpp:173-185 | the characters of the range as far as they exist |
| `Utf8Text.ConcatenationParses` | src/types/text.cpp:146-156 | parsing joined bytes is joining what is parsed |
| `Utf8Text.PartParses` | src/types/text.cpp:173-185 | any part of a text of zero-free bytes parses to exactly its characters |

## Left out

- Wrapping.BinaryDivision: excludes a minimum dividend narrower than a larger divisor that is a multiple of 2^n, because the loop does not end there; DivergingLoop shows that it does not.
- Wrapping.WrapDiv: excludes the same operands for the same reason.
- Wrapping.RepeatedSubtraction: excludes the same operands, and is stated for the dividends that magnitudes can be.
- Scheduling: memory ordering, condition variables, waiting times and the number of instructions a process gets at once are not modelled; a critical section or an atomic operation is one step.
- Scheduling: the watchdog of a process, its exit code and its priority are not modelled; a process that goes on, for whichever reason, is put back in the queue.
- Scheduling: which process ends, sends or spawns, and when, is left open, so the theorems hold for every program.
- Unwinding: what instructions other than the return and the tail call do to the active stack is left open, so the theorems hold for all code; a return that fails because no value was set is one of those instructions.
- Unwinding: registers, return values, jump bases, and the limit on the depth of a stack are not modelled; identities stand for pointers to frames, and each address has one form.
- Unwinding.Process.Tick: does not model the tick that a foreign call cuts short, because the process then waits for another thread; as events of a run that tick, and the exceptions of foreign calls, are covered by AlwaysGood and ReturnsToWaiting.
- Unwinding.Process.OpTailCall: excludes carrying out a tail call without a prepared frame, because the original then follows a null pointer.
- Kernel.VmKernel.OpReceive: does not model how the time of a receive is kept, because it is the clock; whether it has expired is a parameter.
- Kernel: foreign calls, modules, I/O workers and detaching of processes are not modelled.
- Random numbers that seed process identifiers are parameters in the ranges the original draws them from.
- Sizes are unbounded integers where the original has 64 bits, except for the counters of process identifiers; differences that wrap around in the shifts are negative numbers instead, and fail the same comparisons.
- The width-changing bit operations, bit access, and the textual forms of bit strings are easy and left out.
- The token reductions of the assembler, the bytecode format, the code generator and the static analyser are not modelled.
- Common prefixes and suffixes of texts, and the filters built on the edit distance, are not modelled.
