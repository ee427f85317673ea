# Verified models of the QNICE tool chain

The QNICE project holds an emulator and assembler for a 16-bit processor and the C compiler vbcc and
assembler vasm that were ported to it. This directory models the parts of these programs whose correctness
is not obvious from reading them, and proves it. One module stands for one component:

- **vbcc.** `Minicomp` is the small front end: expression trees, short-circuit conditions, `if` and `while`
  become labelled three-address code, and the code means what the program means. `IntermediateCode` gives that
  code and its flow graphs a meaning; `Liveness`, `Copies` and `Cse` are the analyses and transformations of
  the optimiser, `Expressions` the analysis of available expressions, `Available` the fixpoint iteration that copies
  and expressions share, `Numbering` the numbering by sorting that they share, `BitSets` the bit vectors, and
  `Reachability` the marking of reachable blocks.
- **vasm.** `HugeInt` is the 128-bit division (algorithm D of section 4.3.1 of Knuth, The Art of Computer
  Programming, volume 2) on arrays of 32-bit digits, `HugeSums` the other 128-bit arithmetic, and `Literals` the
  reader of numbers on top of it. `Relaxation` is the layout of a section by repeated sizing. `Vobj` is the object
  format with `VobjWriter` and `VobjReader`, and `SRecords` the Motorola record format with `SrecWriter`.
  `SymbolTable` keeps the list of symbols and its hash index. `Alignment`, `Bytes`, `CIntegers`, `Options` and
  `Arithmetic` are shared.
- **The QNICE machine.** `IdeDrive` is the simulated disk drive, `Qnice` the processor and its interrupts,
  `QniceEmulator` the emulator that runs it in place, `Assembler` the two-pass assembler, and `QniceProgram`
  shows that assembler and processor agree.

Code that changes its data in place is modelled by classes and methods with the source's loops; each method is
proved against a function or a property of its input, and the lemmas say what that means.

## How the models are set up

- The optimiser works on scalar variables: an instruction computes, copies, compares, branches or is a label;
  its use list is its operands and its change list its target. Operators have an arbitrary total meaning, the
  same before and after (only folding and the exchange of operands need more, and say so). Variables that were
  never set hold 0. Bit vectors are finite sets. Runs are sequences of whole blocks; the lemmas with `Inside` or
  `EveryPoint` in their names go into the blocks.
- A structured program has a meaning with fuel: one unit is one loop iteration. The compiled program has no
  fuel, it makes steps.
- Folding in `Simplify` computes with 32-bit wrap-around and truncating division; `FoldsAlike` says that the
  target computes the same.
- 128-bit numbers are pairs of 64-bit words, digits are below 2^32, and every cut to 32 or 64 bits is
  written out. The digit sums at c/vasm/hugeint.c:474 are cut to 32 bits, so that carries are missed and the
  leading digit keeps its borrow. `HugeInt.Lost` is what the carries missed before the last round are worth, and
  `HugeInt.AddsBackLast` says whether the last round adds back; both are functions of dividend and divisor.
- A vobj number that is longer than 7 bytes, or that goes past the end of the file, has no reading.
- The sizes of instructions come from processor modules; in `Relaxation` they are an arbitrary function of the
  labels, the address and the flags.
- Addresses, counters and file positions are unbounded where the source gives them 64 bits.
- Timers write the interrupt address and request at any time between two accesses of the processor to them;
  reads from devices return arbitrary words.
- The assembler starts from parsed lines: label, mnemonic, operands.

The models follow the code where its behaviour is surprising. A transfer that was aborted at the end of the disk
leaves its progress flag set, so that a further data access stops the emulator: `IdeDrive.Drive.ReadDataRegister`
and `IdeDrive.Drive.WriteDataRegister` return this as "not ok". A verify command starts at the counter that the last
command left behind (`IdeDrive.Drive.VerifiesWhatIsAsked`). RORG with the address 0 is taken for "no RORG" at
its end (`Relaxation.RorgToZeroStaysOpen`, and `Relaxation.AbsoluteIffZeroOrigin` and `Relaxation.BlockEnds` for
exactly when this matters). A shift by nothing does not use up an immediate destination
(`QniceProgram.InstructionEnds`). Quotient and remainder of a long divisor can be wrong
(`HugeInt.QuotientCanBeWrong`, `HugeInt.RemainderCanBeWrong`), sums and differences with most negative numbers are
(`HugeSums.HAddValue`, `HugeSums.HSubValue`), and decimal literals past the width of an address are read modulo
that width where no prefix overflows (`Literals.DecimalIsRead`).

## Model

| member | source | states |
|---|---|---|
| Minicomp.CompiledHaltsWithTheSource | c/vbcc/minicomp.c:546-875 | the emitted code halts exactly if the structured program ends; every ending run of both leaves the same values in all program variables |
| Minicomp.CompileCorrect | c/vbcc/minicomp.c:546-875 | for every amount of fuel: the code ends with the final values of the program, or is still running when the program has run out of iterations |
| Minicomp.HaltsIfSourceEnds | c/vbcc/minicomp.c:620-656 | if the program ends, so does its code |
| Minicomp.SourceEndsIfHalts | c/vbcc/minicomp.c:620-656 | if the code halts within n steps, the program ends within n loop iterations |
| Minicomp.StmtCorrect | c/vbcc/minicomp.c:546-682 | the same for a statement anywhere in a larger program with unique labels, whatever stands around it |
| Minicomp.LoopCorrect | c/vbcc/minicomp.c:620-656 | the inverted loop: entered at either copy of its condition, the code does what the loop does from there |
| Minicomp.CondCorrect | c/vbcc/minicomp.c:835-875 | a condition with short-circuit AND and OR takes the machine to the label for its truth value and keeps the program variables |
| Minicomp.TreeCorrect | c/vbcc/minicomp.c:686-763 | the code of an expression tree leaves the value of the expression in its operand and changes its own temporaries only |
| Minicomp.LetCorrect | c/vbcc/minicomp.c:595-602 | an assignment stores the value of the expression, also when the last computation is redirected into the variable |
| Minicomp.SimplifyCorrect | c/vbcc/minicomp.c:528-544 | constant folding keeps the value of every expression |
| Minicomp.SimplifyTestCorrect | c/vbcc/minicomp.c:528-544 | constant folding keeps the truth value of every condition |
| Minicomp.StmtLabels | c/vbcc/minicomp.c:620-682 | the labels of a statement are its own and each is defined once |
| Minicomp.CodeGenerator.AddIC | c/vbcc/minicomp.c:903-913 | the peephole: a copy out of the temporary just computed replaces the target of that computation; every other instruction is appended; either way the variables of the program end as if it had been appended |
| Minicomp.AddedIsAppended | c/vbcc/minicomp.c:903-913 | redirecting the computation instead of emitting the copy changes nothing but the temporary |
| Minicomp.CodeGenerator.GenLabel | c/vbcc/minicomp.c:827-833 | a label is appended |
| Minicomp.CodeGenerator.GenTree | c/vbcc/minicomp.c:686-763 | appends the code of the tree and returns its operand |
| Minicomp.CodeGenerator.GenCond | c/vbcc/minicomp.c:835-875 | appends the code of the condition; labels and temporaries advance as its specification says |
| Minicomp.CodeGenerator.AssignStatement | c/vbcc/minicomp.c:546-605 | appends the code of the simplified assignment |
| Minicomp.CodeGenerator.IfStatement | c/vbcc/minicomp.c:658-666 | condition and true label; the false label is pushed |
| Minicomp.CodeGenerator.IfElse | c/vbcc/minicomp.c:673-682 | branch to a new end label, the false label popped and emitted, the end label pushed |
| Minicomp.CodeGenerator.IfEnd | c/vbcc/minicomp.c:668-671 | the label on top of the stack is popped and emitted |
| Minicomp.CodeGenerator.WhileStatement | c/vbcc/minicomp.c:620-638 | condition and loop label; loop and exit label and the condition are pushed |
| Minicomp.CodeGenerator.WhileEnd | c/vbcc/minicomp.c:640-656 | the condition again, with the labels popped, and the exit label |
| Minicomp.CodeGenerator.Parse | c/vbcc/minicomp.c:546-682 | the actions called in program order emit the code of the program; both stacks end as they began |
| Liveness.DeadAssignmentsPreserveRuns | c/vbcc/av.c:439-462 | after any number of blocks the original and the reduced program are at the same block, agree on what is live there, and on all globals and statics when they halt |
| Liveness.InStepInsideBlock | c/vbcc/av.c:439-462 | the same after every instruction of a block, for the variables the sweep finds in use there |
| Liveness.SweepPreserves | c/vbcc/av.c:439-462 | a block and its swept form end in states that agree on what is used afterwards |
| Liveness.SweepKeepsBranch | c/vbcc/av.c:446-462 | the sweep never deletes a branch |
| Liveness.GenKillIsBeforeAll | c/vbcc/av.c:304-339 | the gen and kill sets built front to back describe the backward composition of the instructions, self updates included |
| Liveness.CountersDisappear | c/vbcc/av.c:309-315 | a variable read only to update itself is not in the least solution, so every trace of it is deleted |
| Liveness.FlowGraph.SummariseBlocks | c/vbcc/av.c:353-368 | gen and kill of every block |
| Liveness.FlowGraph.JoinSuccessors | c/vbcc/av.c:380-388 | the union of what is live in the successors taken and of globals and statics at the end |
| Liveness.FlowGraph.Visit | c/vbcc/av.c:378-393 | one block: out and in are recomputed from the equations; a change is reported exactly if in rises |
| Liveness.FlowGraph.Pass | c/vbcc/av.c:374-394 | one round keeps the approximation below every solution; without a change it is a solution |
| Liveness.FlowGraph.ActiveVars | c/vbcc/av.c:340-400 | terminates on every flow graph with the least solution of the liveness equations |
| Liveness.FlowGraph.SweepBlock | c/vbcc/av.c:443-462 | the unlinking loop computes the sweep of the block; a change is reported exactly if something was deleted |
| Liveness.FlowGraph.DeadAssignments | c/vbcc/av.c:439-462 | every block becomes its sweep under the solution |
| Available.SummaryIsAfterAll | c/vbcc/cp.c:40-54 | the backward scan describes the forward composition of the instructions for both orders of gen and kill, and gen and kill are disjoint |
| Available.Analysis.SummariseBlocks | c/vbcc/cp.c:30-62 | gen and kill of every block |
| Available.Analysis.MeetPredecessors | c/vbcc/cp.c:74-86 | the intersection over the predecessor list, without a block before this one that ends in an unconditional branch elsewhere |
| Available.Analysis.Visit | c/vbcc/cse.c:73-95 | one block: in and out are recomputed from the equations; a change is reported exactly if out falls |
| Available.Analysis.Pass | c/vbcc/cse.c:69-96 | one round keeps the approximation above everything supported; without a change it is a solution |
| Available.Analysis.Analyse | c/vbcc/cse.c:17-100 | terminates on every flow graph with the greatest solution, with nothing available at the entry |
| Copies.AvailableCopiesHold | c/vbcc/cp.c:20-98 | on every run, both sides of each available copy hold one value at the start of the block |
| Copies.PropagationPreservesRuns | c/vbcc/cp.c:276-342 | copy propagation leaves every run unchanged: the same blocks in the same order with the same stores, from every start |
| Copies.PropagationKeepsEveryPoint | c/vbcc/cp.c:289-340 | inside a block, too, both programs are in the same state after every instruction |
| Copies.PropagateFromKeepsEffect | c/vbcc/cp.c:289-340 | from any state in which the current copies hold, each prefix of the swept block has the effect of the original prefix |
| Copies.CPropKeepsValue | c/vbcc/cp.c:215-275 | the operand put in has the value of the one replaced |
| Copies.PropagatedIsWellFormed | c/vbcc/cp.c:276-342 | branches and their targets stay |
| Copies.Propagator.NumCopies | c/vbcc/cp.c:115-198 | equal copies get equal numbers, every number has a representative in program order, and each variable lists the copies it takes part in |
| Copies.Propagator.AvailableCopies | c/vbcc/cp.c:20-98 | terminates with the greatest solution of the equations for these copies |
| Copies.Propagator.CopyPropagation | c/vbcc/cp.c:276-342 | rewrites the operands of all blocks as the sweep prescribes; a change is reported exactly if there is one |
| Copies.Propagator.SweepBlock | c/vbcc/cp.c:286-342 | one block in place; representatives outside the set of copies rewritten in this sweep are still the original ones |
| Copies.Propagator.Rewrite | c/vbcc/cp.c:295-326 | both operands of one instruction; the second is put back if it would equal the target on a machine that forbids this |
| Copies.Propagator.Replace | c/vbcc/cp.c:215-275 | the first suitable copy in the order of the numbers, among the current ones not rewritten in this sweep |
| Numbering.Renumber | c/vbcc/cp.c:149-157 | after sorting and passing numbers to right neighbours, two entries have one number exactly if they compare equal |
| Copies.CollectCopies | c/vbcc/cp.c:122-148 | the copies of the program in order, each once |
| Copies.Representatives | c/vbcc/cp.c:158-161 | back in program order, the last copy with a number represents it |
| Copies.CopiesByVariable | c/vbcc/cp.c:172-198 | a copy is listed for a variable exactly if it mentions it |
| Cse.CsePreservesRuns | c/vbcc/cse.c:327-389 | local elimination preserves every run of the numbered program: the same blocks in the same order, with the same values of all variables it had before |
| Cse.EliminationPreservesRuns | c/vbcc/cse.c:155-389 | numbering with its exchange of operands and then elimination preserve every run of the program as it was before both, if commutative operations commute |
| Cse.NormalisedKeepsRuns | c/vbcc/cse.c:169-174 | exchanging the operands of commutative operations leaves every run unchanged |
| Cse.CseKeepsEffect | c/vbcc/cse.c:339-388 | after every prefix of a block the rewritten prefix has the same effect on these variables, and every available number still stands for the value of its expression |
| Cse.StepKeepsInvariant | c/vbcc/cse.c:340-385 | one instruction keeps this, also when its source was replaced before |
| Cse.RedirectKeepsEffect | c/vbcc/cse.c:246-290 | computing into a fresh variable and copying from it changes no other variable; the fresh one holds what was computed |
| Cse.RedirectKeepsComputed | c/vbcc/cse.c:246-290 | every instruction of the block still computes what it computed before |
| Cse.LastWith | c/vbcc/cse.c:302-311 | the source found is the last instruction before with that number |
| Cse.NormalisedKeepsEffect | c/vbcc/cse.c:169-174 | exchanging the operands of a commutative operation keeps its effect |
| Cse.Eliminator.NumExp | c/vbcc/cse.c:155-245 | exactly the expressions are numbered, operands are put in order, equal expressions have equal numbers, and only numbers in use are killed |
| Cse.Eliminator.Eliminate | c/vbcc/cse.c:155-389 | numbering and elimination in place: every run of the old blocks is one of the new blocks with the same values of the old variables |
| Cse.Eliminator.Cse | c/vbcc/cse.c:327-389 | every block is rewritten as specified, with temporaries of its own |
| Cse.Eliminator.CseBlock | c/vbcc/cse.c:338-388 | one block: instructions rewritten and copies inserted while the list is walked |
| Cse.Eliminator.Advance | c/vbcc/cse.c:340-387 | one instruction: replaced by a copy if its expression is available, else recorded |
| Cse.Eliminator.Search | c/vbcc/cse.c:302-311 | backwards to the nearest instruction with the number |
| Cse.Eliminator.Insert | c/vbcc/cse.c:246-290 | the copy is inserted behind the source and the source redirected |
| Cse.KillsByVariable | c/vbcc/cse.c:219-243 | a variable kills exactly the numbers whose expression reads it |
| Expressions.AvailableExpressionsHold | c/vbcc/cse.c:17-100 | on every run, an expression available at the start of a block was computed before, and computing it again there gives the value it had last |
| Expressions.AvailableExpressions | c/vbcc/cse.c:17-100 | terminates with the greatest solution of the equations for a numbered program; what it finds available holds on every run |
| Reachability.Marker.MarkFromStart | c/vbcc/flow.c:348-356 | on every flow graph: exactly the blocks reachable from the first one are negated, the others keep their numbers |
| Reachability.Marker.MarkReachable | c/vbcc/flow.c:348-356 | terminates; marks only what is reached from its start, and leaves no successor of a marked block unmarked |
| Reachability.RunStaysReachable | c/vbcc/flow.c:348-356 | every run stays in reachable blocks, so the unmarked ones can be removed |
| Reachability.ClosedContains | c/vbcc/flow.c:348-356 | a set closed under edges contains all that its members reach |
| HugeInt.DivMod | c/vasm/hugeint.c:371-498 | for every divisor but 0: the quotient is that of the dividend less what the carries missed in early add-backs are worth, so it is exact if and only if that is at most the remainder; the remainder is exact if and only if no such carry is missed and the last round does not add back; both are exact below 2^64, and the quotient from 2^96 on |
| HugeInt.EstimateIsClose | c/vasm/hugeint.c:445-463 | for normalised divisors of n digits the corrected estimate is the true digit or one more; for two digits it is the digit |
| HugeInt.EstimateDigit | c/vasm/hugeint.c:445-463 | the correction loop computes the quotient of the leading three by the leading two digits |
| HugeInt.MultiplySubtract | c/vasm/hugeint.c:464-471 | subtracts the product exactly, modulo the window; a borrow is reported exactly if the result wrapped |
| HugeInt.AddBack | c/vasm/hugeint.c:472-478 | as it is coded, with digit sums cut to 32 bits: each digit is the sum modulo 2^32 and the leading digit is kept |
| HugeInt.DivideStep | c/vasm/hugeint.c:442-481 | one round yields the exact digit and the exact rest; if it adds back, the rest is less by the carries missed and the leading digit keeps its borrow |
| HugeInt.DivideRounds | c/vasm/hugeint.c:438-481 | all rounds: each works on what the one before left, whether it added back or not |
| HugeInt.ShiftDigits | c/vasm/hugeint.c:359-368 | shifts a string of digits left in place |
| HugeInt.ShiftBack | c/vasm/hugeint.c:484-490 | shifts the remainder back and clears the digit before it |
| HugeInt.CountHeadroom | c/vasm/hugeint.c:431-433 | the number of leading zero bits of the top digit |
| HugeInt.SkipZeros | c/vasm/hugeint.c:425-429 | skips leading zeros of the dividend, whose value stays |
| HugeInt.NormaliseAndDivide | c/vasm/hugeint.c:431-493 | normalisation, division and shifting back |
| HugeInt.LongDivide | c/vasm/hugeint.c:425-497 | divisors of more than one digit |
| HugeInt.ShortDivide | c/vasm/hugeint.c:402-423 | divisors of one digit: exact |
| HugeInt.TwoDigitsNeverAddBack | c/vasm/hugeint.c:471-479 | a divisor of two digits never enters the add-back branch |
| HugeInt.ShortDivisorNeverAddsBack | c/vasm/hugeint.c:471-479 | nor does one of more digits that are 0 behind the second |
| HugeInt.LossMeansCarry | c/vasm/hugeint.c:472-478 | adding back loses something if and only if the sum of some digit behind the leading one carries |
| HugeInt.LeadingCarry | c/vasm/hugeint.c:472-478 | when a round adds back, the sum of the leading digits always carries, as it should |
| HugeInt.AddedBack | c/vasm/hugeint.c:472-478 | what adding back yields is the true rest less the carries missed |
| HugeInt.LostMatters | c/vasm/hugeint.c:438-493 | a carry missed before the last round, which only divisors of three digits can have, always makes the remainder wrong |
| HugeInt.LastDigits | c/vasm/hugeint.c:483-493 | the remainder put together from the last digits is right if and only if the last round did not add back |
| HugeInt.WhenExact | c/vasm/hugeint.c:371-498 | the exact conditions hold for all divisors below 2^64, and that of the quotient for all from 2^96 on |
| HugeInt.RemainderOfLargeDivisor | c/vasm/hugeint.c:471-493 | from 2^96 on the remainder is right if and only if the last round does not add back |
| HugeInt.RemainderCanBeWrong | c/vasm/hugeint.c:471-493 | one input where the remainder is wrong: 2b - 1 divided by b = 2^96 + 2^32 - 1 |
| HugeInt.QuotientCanBeWrong | c/vasm/hugeint.c:471-493 | one input where the quotient is wrong: 2^96 + 2^33 divided by 2^64 + 3 |
| HugeInt.HNegValue | c/vasm/hugeint.c:149-157 | the negative modulo 2^128; exact except for the least number |
| HugeInt.HDiv | c/vasm/hugeint.c:501-516 | truncates toward zero if and only if the carries missed are worth at most the remainder of the magnitudes and the quotient fits; the first holds for magnitudes of the divisor below 2^64 and from 2^96 on |
| HugeInt.HMod | c/vasm/hugeint.c:519-534 | the remainder has the sign of the dividend if the divisor is positive, the other sign if it is negative, if and only if no carry is missed and the last round does not add back; that holds for magnitudes below 2^64 |
| HugeInt.DivisionIdentity | c/vasm/hugeint.c:501-534 | hdiv times divisor plus hmod is the dividend if and only if the divisor is positive or divides it |
| HugeSums.HAddIValue | c/vasm/hugeint.c:209-219 | the sum with a signed 64-bit number is exact modulo 2^128 |
| HugeSums.HAddValue | c/vasm/hugeint.c:222-232 | the sum is exact modulo 2^128 if and only if the second operand is not negative or its low half is 0 |
| HugeSums.SumCanBeWrong | c/vasm/hugeint.c:222-232 | 5 plus -1 is not 4 |
| HugeSums.HSubValue | c/vasm/hugeint.c:235-245 | the difference is exact modulo 2^128 under the same condition |
| HugeSums.HSubOff | c/vasm/hugeint.c:235-245 | otherwise it is too large by 2^64 |
| HugeSums.DifferenceCanBeWrong | c/vasm/hugeint.c:235-245 | 0 minus -1 is not 1 |
| HugeSums.HCmpValue | c/vasm/hugeint.c:248-255 | for which signed operands the comparison is right: exactly those whose difference fits; for a negative second operand whose low half is not 0, equal numbers and those less by at most 2^64 compare wrongly, and so do some large differences |
| HugeSums.ComparisonCanBeWrong | c/vasm/hugeint.c:248-255 | -1 compares as greater than itself |
| HugeSums.HMulValue | c/vasm/hugeint.c:339-357 | the product is exact modulo 2^128 if and only if the carry that the last test finds in the product of the high parts is the carry of the products of the low parts |
| HugeSums.ProductCanBeWrong | c/vasm/hugeint.c:339-357 | a product with 10 that is wrong |
| HugeSums.HMulIValue | c/vasm/hugeint.c:318-336 | the product with a signed 64-bit number is exact modulo 2^128 if and only if these carries and what a negative factor should subtract cancel |
| HugeSums.HighPartValue | c/vasm/hugeint.c:318-336 | the product of two 64-bit numbers from four 32-bit products, up to that carry |
| Literals.ReadConstant | c/vasm/expr.c:109-187 | literals in base 2, 8, 10 and 16: for powers of two the exact value if it fits an address, else the value modulo 2^128. A decimal one is read into an address if and only if no prefix overflows, as the value modulo the address width, so that it is wrong if and only if it also does not fit; into 128 bits it is exact modulo 2^128 if and only if no carry is missed at its last 64 digits; floating point exactly where it is recognised |
| Literals.ReadAddress | c/vasm/expr.c:116-144 | the address loop computes what its specification says and gives up exactly when multiplying by the base overflows |
| Literals.PowersOfTwoAreRead | c/vasm/expr.c:116-144 | for bases 2, 8 and 16 it gives up exactly if the number does not fit, and else has read it |
| Literals.DecimalIsRead | c/vasm/expr.c:116-144 | for base 10 the loop gives up if and only if some prefix of the digits, taken modulo the address width, is too large to be multiplied by 10; else it ends with the number modulo that width, which is wrong if and only if the number does not fit |
| Literals.LoopResult | c/vasm/expr.c:116-144 | the same from any digit on and for every base |
| Literals.DecimalRoundTrip | c/vasm/expr.c:116-144 | a number written in decimal is read back into an address if and only if it fits |
| Literals.DecimalCanWrap | c/vasm/expr.c:116-144 | 65536 is read as 0 into 16 bits |
| Literals.ReadHuge | c/vasm/expr.c:147-167 | the 128-bit loop restarts at the first digit |
| Literals.HugeReadValue | c/vasm/expr.c:147-167 | its value is the number less the carries that the products miss, modulo 2^128 |
| Literals.DecimalExact | c/vasm/expr.c:147-167 | a decimal 128-bit value is exact modulo 2^128 if and only if no carry is missed at one of its last 64 digits, which the low 64 bits of the number before that digit decide |
| Literals.LowHalfIsRight | c/vasm/expr.c:147-167 | the low half is always that of the number the digits write |
| Literals.DecimalCanBeWrong | c/vasm/expr.c:147-167 | the digits of 0x1999_9999_ffff_ffff and one more are read as a wrong number |
| Literals.DecimalTextCanBeWrong | c/vasm/expr.c:147-167 | such a text exists |
| Literals.PowersOfTwoLoseNothing | c/vasm/expr.c:147-167 | for bases 2, 8 and 16 no carry is ever missed |
| Literals.NextFits | c/vasm/expr.c:121-141 | the overflow tests by shifting back are exact for powers of two |
| Literals.TenCanBeWrong | c/vasm/hugeint.c:318-336 | the product with 10 can be wrong: a concrete operand |
| Vobj.ObjectRoundTrip | c/vasm/vobjdump.c:261-330 | a file written in the format is read as the same object if and only if every field fits the width it is written and read with |
| Vobj.NumberRoundTrip | c/vasm/vobjdump.c:87-115 | a number of 1 to 7 bytes is read back if and only if it lies in the unsigned or signed range of that width |
| Vobj.FieldRoundTrip | c/vasm/vobjdump.c:126-155 | the same with the casts to int, char and long of the reader |
| Vobj.FieldsRead | c/vasm/vobjdump.c:131-135 | each of a row of numbers comes back if and only if it fits |
| Vobj.StringRoundTrip | c/vasm/vobjdump.c:118-123 | a string without NUL is read back |
| Vobj.SymbolRoundTrip | c/vasm/vobjdump.c:126-136 | a symbol comes back if and only if its fields fit |
| Vobj.RelocRoundTrip | c/vasm/vobjdump.c:177-190 | a standard relocation comes back if and only if its fields fit |
| Vobj.SectionRoundTrip | c/vasm/vobjdump.c:139-230 | a section with its content and relocations comes back if and only if its fields fit |
| VobjFiles.WriteAndRead | c/vasm/output_vobj.c:200-251 | the file written for a source is read as its linked object if and only if every number fits |
| VobjWriter.OutputRoundTrip | c/vasm/output_vobj.c:200-251 | the same for what the writer specifies |
| VobjWriter.AlignmentsAgree | c/vasm/supp.c:450-500 | the alignment computed and the one written agree if and only if no limit stops the computed one alone |
| VobjWriter.FileDataIsAllThatMatters | c/vasm/output_vobj.c:122-151 | the bytes left out at the end of a section are zero if it is padded with zeros |
| VobjWriter.DataEndIsEnd | c/vasm/output_vobj.c:133-147 | the announced size ends behind the last atom with content |
| VobjWriter.ImageGrows | c/vasm/output_vobj.c:153-167 | the bytes of the first atoms are a prefix of the section, as long as its addresses say |
| VobjWriter.IndexIsPosition | c/vasm/output_vobj.c:210-213 | symbol numbers point to the symbols written, counted from 1 |
| VobjWriter.Writer.WriteNumber | c/vasm/output_vobj.c:61-73 | one byte up to 127, else a length byte and the number in little-endian order |
| VobjWriter.Writer.WriteString | c/vasm/output_vobj.c:83-90 | the characters and a NUL |
| VobjWriter.Writer.CountRelocs | c/vasm/output_vobj.c:109-120 | the number of standard relocations |
| VobjWriter.Writer.GetSectionSizes | c/vasm/output_vobj.c:122-151 | total size, size in the file and number of relocations |
| VobjWriter.Writer.FwPcAlign | c/vasm/supp.c:450-500 | writes zeros until the pattern fits, then the pattern, and returns the address behind them |
| VobjWriter.Writer.FwSblock | c/vasm/supp.c:422-430 | repeats the fill bytes |
| VobjWriter.Writer.WriteData | c/vasm/output_vobj.c:153-167 | writes exactly as many bytes as were announced |
| VobjWriter.Writer.WriteRlist | c/vasm/output_vobj.c:169-183 | writes the standard relocations of an atom |
| VobjWriter.Writer.WriteRelocs | c/vasm/output_vobj.c:185-198 | writes as many relocations as were counted |
| VobjWriter.Writer.NumberSymbols | c/vasm/output_vobj.c:210-213 | numbers the valid symbols |
| VobjWriter.Writer.WriteSymbols | c/vasm/output_vobj.c:228-237 | the valid symbols in order |
| VobjWriter.Writer.WriteHeader | c/vasm/output_vobj.c:215-226 | identification, endianness, sizes, processor and counts |
| VobjWriter.Writer.WriteSection | c/vasm/output_vobj.c:239-250 | one section |
| VobjWriter.Writer.WriteOutput | c/vasm/output_vobj.c:200-251 | the whole file is the format of the linked object |
| VobjReader.Reader.ReadNumber | c/vasm/vobjdump.c:87-115 | reads what the format says at the cursor and moves behind it; nothing past the end of the file |
| VobjReader.Reader.ReadString | c/vasm/vobjdump.c:118-123 | the string at the cursor |
| VobjReader.Reader.ReadSymbol | c/vasm/vobjdump.c:126-136 | the symbol at the cursor |
| VobjReader.Reader.ReadReloc | c/vasm/vobjdump.c:176-227 | the relocation at the cursor, standard or special |
| VobjReader.Reader.ReadSection | c/vasm/vobjdump.c:139-230 | the section at the cursor |
| VobjReader.Reader.VobjDump | c/vasm/vobjdump.c:261-330 | the object in the file, if it is one |
| Alignment.BalignIsLeast | c/vasm/supp.c:641-645 | the aligned address is a multiple of the alignment and the nearest one |
| Relaxation.Section.ResolveSection | c/vasm/vasm.c:166-260 | when the section is resolved every label stands where the sizes put it, and every size computed again at these labels is the recorded one; a section that was not absolute is then absolute exactly if some RORG sets the address 0 and none after it sets another address |
| Relaxation.Section.Pass | c/vasm/vasm.c:175-255 | after every pass each label equals the aligned prefix sum of the current sizes; past the fast phase at most one instruction changes; a pass without change is stable |
| Relaxation.Section.EnterAtom | c/vasm/vasm.c:187-221 | alignment, change of origin and label of one atom; an RORG inside an open one is a fatal error, which ends the assembler |
| Relaxation.Section.Resize | c/vasm/vasm.c:222-249 | an atom is computed again, or an instruction kept in the safe phase; done stays set only if nothing differs |
| Relaxation.AtDependsOnPrefix | c/vasm/vasm.c:186-250 | the layout up to an atom depends on the sizes before it only |
| Relaxation.AtomsDoNotOverlap | c/vasm/vasm.c:187-250 | without RORG atoms follow each other without overlap |
| Relaxation.PlaceIsAligned | c/vasm/supp.c:655-663 | each on a multiple of its alignment |
| Relaxation.AbsoluteIffZeroOrigin | c/vasm/vasm.c:197-209 | code is absolute after the end of the section if and only if some RORG sets the address 0 and none after it sets another address, or it was absolute and no RORG sets another address |
| Relaxation.AbsoluteIsCleared | c/vasm/vasm.c:197-209 | in particular, not if no RORG sets the address 0 and it was not before |
| Relaxation.BlockEnds | c/vasm/vasm.c:197-221 | after a RORG block the counter is the address before it plus the length of the block, if and only if the address set is not 0 or the address before it was 0; the absolute flag is cleared if and only if the address set is not 0 |
| Relaxation.RorgToZeroStaysOpen | c/vasm/vasm.c:197-209 | an example: behind a block of four bytes for address 0 that was met at 8 the counter is 4 and code is still absolute |
| IdeDrive.WriteThenRead | emulator/ide_simulation.c:495-558 | writing n sectors word by word and reading them again returns the same words; all other sectors keep their bytes |
| IdeDrive.WriteSectors | emulator/ide_simulation.c:526-558 | the sectors up to the end of the disk receive the words, all others are unchanged; the status is an error exactly if the end came first |
| IdeDrive.ReadSectors | emulator/ide_simulation.c:495-524 | the words are those of the sectors up to the end of the disk |
| IdeDrive.NextIsSuccessor | emulator/ide_simulation.c:411-449 | stepping cylinder, head and sector advances the linear number by one and leaves the disk exactly at its end |
| IdeDrive.Drive.PrepareNextSectorForPIO | emulator/ide_simulation.c:403-492 | offers the next sector, aborts exactly at the end of the disk, or ends the command; registers, buffer and error codes in each case |
| IdeDrive.Drive.StepAddress | emulator/ide_simulation.c:411-449 | the successor address; an error exactly past the end |
| IdeDrive.Drive.FillBuffer | emulator/ide_simulation.c:452-459 | the buffer holds the sector; every index is in bounds |
| IdeDrive.Drive.FlushBuffer | emulator/ide_simulation.c:542-547 | the sector holds the buffer, others are unchanged |
| IdeDrive.Drive.ReadDataRegister | emulator/ide_simulation.c:495-524 | the next word of the sector and what follows it; stops exactly after an aborted transfer |
| IdeDrive.Drive.WriteDataRegister | emulator/ide_simulation.c:526-558 | the word goes into the buffer, a full buffer into the sector; stops exactly after an aborted transfer |
| IdeDrive.Drive.HandleReadWriteSectors | emulator/ide_simulation.c:325-400 | starts a transfer at the linear number of the address, verifies from there, or rejects the address; a transfer that a rejected command interrupts stays open |
| IdeDrive.Drive.ExecuteCommand | emulator/ide_simulation.c:246-322 | every command code in every state, also while data is requested; the emulator stops exactly for block addresses |
| IdeDrive.Drive.VerifyReadSectors | emulator/ide_simulation.c:616-642 | reads the sectors above the old value of the counter, which is not reset, up to the end of the disk; the address registers end at the last one or behind the disk; on an error the count register is one less than the number of sectors not verified if the counter was 0 |
| IdeDrive.Drive.VerifiesWhatIsAsked | emulator/ide_simulation.c:616-623 | a verify command reads the sectors it was given, up to the end of the disk, if and only if the counter was 0 |
| IdeDrive.Drive.VerifiedOnce | emulator/ide_simulation.c:616-623 | an example: a verify command for two sectors that is given twice reads them once |
| IdeDrive.Drive.WriteParameter | emulator/ide_simulation.c:146-176 | stores a register, with fixed bits in the head register |
| IdeDrive.Drive.Command | emulator/ide_simulation.c:146-180 | stores and executes a command, or ignores it while the drive is busy |
| IdeDrive.Drive.Initialize | emulator/ide_simulation.c:562-606 | ready for a command; the sectors are kept |
| SymbolTable.Table.Perform | c/vasm/symbol.c:81-147 | any sequence of imports, savings and restorings does to the listing of names what its specification says, and list and hash table hold the same symbols after it |
| SymbolTable.RestoreUndoesImports | c/vasm/symbol.c:117-147 | saving a list that is not empty, any imports and restoring leave the saved symbols and, in front, the protected ones added since; nothing else |
| SymbolTable.ImportsAdd | c/vasm/symbol.c:248-265 | imports put symbols in front and never remove one or its protection |
| SymbolTable.OnlyProtected | c/vasm/symbol.c:127-133 | what is kept of the symbols added is exactly the protected ones |
| SymbolTable.ViewOfKept | c/vasm/symbol.c:127-143 | the symbols that the loop keeps are those the specification keeps |
| SymbolTable.Table.RestoreListing | c/vasm/symbol.c:117-147 | a restore seen as a change of the listing |
| SymbolTable.Table.ImportProtected | c/vasm/expr.c:54-65 | an import that may also set the protection, as for the symbol of the current address |
| SymbolTable.Table.RestoreSymbols | c/vasm/symbol.c:117-147 | the saved list with the protected symbols added since in front; hash table and list hold the same symbols; nothing happens without a saved list |
| SymbolTable.Table.RestoreOne | c/vasm/symbol.c:124-139 | one symbol taken off the list: kept if protected, else out of the hash table |
| SymbolTable.Table.SaveSymbols | c/vasm/symbol.c:110-114 | remembers the list |
| SymbolTable.Table.NewImport | c/vasm/symbol.c:248-265 | the symbol of that name, new exactly if there was none |
| SymbolTable.Table.FindSymbol | c/vasm/symbol.c:92-98 | agrees with a linear search of the list |
| SymbolTable.Table.AddSymbol | c/vasm/symbol.c:81-89 | in front of the list and in its chain |
| SymbolTable.Table.AddHashEntry | c/vasm/symtab.c:55-67 | at the head of the chain of its code; other chains unchanged |
| SymbolTable.Table.RemHashEntry | c/vasm/symtab.c:70-87 | takes the first entry of the name out of its chain; fails exactly if there is none |
| SymbolTable.HashCode | c/vasm/symtab.c:16-24 | the hash in 64 bits |
| SymbolTable.KeptAreProtected | c/vasm/symbol.c:127-133 | exactly the protected symbols are kept |
| SymbolTable.KeptNamesDiffer | c/vasm/symbol.c:127-143 | names stay unique |
| SymbolTable.ChainShrinks | c/vasm/symtab.c:75-83 | unlinking by name removes exactly that symbol from the table |
| SrecWriter.WriteAndRead | c/vasm/output_srec.c:285-344 | the file is read as the headers, each section's bytes in records, and the start address; no error is reported if and only if the records of each section are contiguous from its origin on and the start address is the one given |
| SrecWriter.RecordsHoldBytes | c/vasm/output_srec.c:218-229 | the records of a section hold exactly its bytes, at most 32 in each; they are contiguous from its origin if and only if no address was cut |
| SrecWriter.RecordsJoin | c/vasm/output_srec.c:218-229 | full records can be written as soon as they are full |
| SrecWriter.RecordsFit | c/vasm/output_srec.c:86-88 | no address is cut if and only if the last record starts at one that fits |
| SrecWriter.NoErrorsMeansTrueAddresses | c/vasm/output_srec.c:285-344 | for a whole file: nothing is reported exactly if all addresses in it are right |
| SrecWriter.CutSame | c/vasm/output_srec.c:118-136 | the bytes written of an address are those of its low part |
| SRecords.RecordRoundTrip | c/vasm/output_srec.c:70-157 | a record is read as it was written |
| SRecords.RecordsRoundTrip | c/vasm/output_srec.c:285-344 | so is a file of records |
| SRecords.BodyParts | c/vasm/output_srec.c:99-150 | count, address, data and checksum bytes sum to 255 modulo 256; the count covers them |
| SRecords.HexRoundTrip | c/vasm/output_srec.c:52-68 | bytes in hexadecimal are read back |
| SRecords.BigEndianValue | c/vasm/output_srec.c:118-136 | an address that fits is the value of its bytes |
| SrecWriter.Writer.WriteHexByte | c/vasm/output_srec.c:52-68 | two hexadecimal digits |
| SrecWriter.Writer.WriteAddress | c/vasm/output_srec.c:92-142 | type, count and address, and their checksum so far |
| SrecWriter.Writer.WriteDataBuffer | c/vasm/output_srec.c:70-157 | an empty data buffer writes nothing; else one record, with an error exactly if its address is cut; the address moves on |
| SrecWriter.Writer.PutByteInBuffer | c/vasm/output_srec.c:218-229 | whole records written, the rest buffered, for one byte more |
| SrecWriter.Writer.AddrAlign | c/vasm/output_srec.c:231-283 | the alignment bytes of an atom |
| SrecWriter.Writer.WriteSection | c/vasm/output_srec.c:309-340 | header and data records of a section, and the errors for them |
| SrecWriter.Writer.WriteTerminationRecord | c/vasm/output_srec.c:159-216 | the record with the start address, and the error if it is cut |
| SrecWriter.Writer.WriteOutput | c/vasm/output_srec.c:285-344 | the text of all records and the errors; nothing without sections |
| Qnice.InterruptsAlternate | emulator/timer.c:107-120 | in every interleaving of processor steps and timer writes: entries and returns strictly alternate, every return restores the SR and PC held at its entry, and the saved values stay until then |
| Qnice.StepKeepsInv | emulator/qnice.c:798-813 | every single step of the processor or a timer keeps this |
| Qnice.RunKeepsInv | emulator/qnice.c:780-804 | so does every run |
| Qnice.InstructLogic | emulator/qnice.c:970-1007 | no instruction but RTI and INT touches the interrupt logic; RTI restores SR and PC |
| Qnice.ReturnRestores | emulator/qnice.c:976-984 | what RTI writes reads back as the saved SR and PC |
| Qnice.UndisturbedIsExecute | emulator/qnice.c:780-1047 | without a timer in between the steps amount to one execution |
| Qnice.ReadRegister | emulator/qnice.c:341-351 | reads stay below 2^16 and the low bit of SR reads as 1, in every state |
| Qnice.ReadWritten | emulator/qnice.c:341-367 | a register reads as it was written, SR with its low bit set |
| Qnice.ReadOther | emulator/qnice.c:341-367 | the upper registers do not depend on writes to others |
| Qnice.SameIndex | emulator/qnice.c:341-367 | lower registers move with the bank in SR only |
| QniceEmulator.Emulator.Read | emulator/qnice.c:341-351 | banked register read |
| QniceEmulator.Emulator.Write | emulator/qnice.c:356-367 | banked register write in place |
| QniceEmulator.Emulator.ReadWord | emulator/qnice.c:375-434 | memory below the I/O area, devices in it |
| QniceEmulator.Emulator.WriteWord | emulator/qnice.c:435-442 | writes below the I/O area only |
| QniceEmulator.Emulator.ReadSource | emulator/qnice.c:650-684 | the four addressing modes as a source, with increment and decrement |
| QniceEmulator.Emulator.WriteDest | emulator/qnice.c:689-720 | the four addressing modes as a destination |
| QniceEmulator.Emulator.UpdateStatus | emulator/qnice.c:736-775 | the flags of a result, with the old overflow logic |
| QniceEmulator.Emulator.RunOneOperand | emulator/qnice.c:841-916 | MOVE, SWAP and NOT |
| QniceEmulator.Emulator.RunTwoOperands | emulator/qnice.c:847-937 | additions, subtractions and logic |
| QniceEmulator.Emulator.RunShift | emulator/qnice.c:875-904 | shifts |
| QniceEmulator.Emulator.ShiftUp | emulator/qnice.c:879-882 | the loop of SHL |
| QniceEmulator.Emulator.ShiftDown | emulator/qnice.c:894-897 | the loop of SHR |
| QniceEmulator.Emulator.RunCompare | emulator/qnice.c:938-966 | CMP and its flags |
| QniceEmulator.Emulator.RunControl | emulator/qnice.c:970-1007 | HALT, RTI, INT, INCRB and DECRB |
| QniceEmulator.Emulator.RunBranch | emulator/qnice.c:1008-1042 | branches and subroutine calls |
| QniceEmulator.Emulator.EnterRoutine | emulator/qnice.c:798-813 | entry into a requested service routine |
| QniceEmulator.Emulator.Step | emulator/qnice.c:780-1045 | one execution step in place is the specified one and keeps every word below 2^16 |
| Assembler.Assembly.Assemble | assembler/qasm.c:535-1044 | no error is counted for exactly the sources in which both passes find nothing wrong; then every entry has its label, address and words |
| Assembler.Assembly.FirstPass | assembler/qasm.c:545-986 | no error exactly if every line is accepted; then each entry has its address, the sum of the words since the last .ORG, and its constants |
| Assembler.Assembly.EnterLine | assembler/qasm.c:545-986 | one line of the first pass |
| Assembler.Assembly.EnterInstruction | assembler/qasm.c:770-983 | the instruction word and the constants behind it |
| Assembler.Assembly.EnterDirective | assembler/qasm.c:604-769 | the room that a directive takes; a block without a size is fatal |
| Assembler.Assembly.SecondPass | assembler/qasm.c:992-1041 | no error exactly if all names are known; then names are filled in |
| Assembler.Assembly.FillInstruction | assembler/qasm.c:992-1021 | labels and .EQU names of an instruction; relative branches hold the distance from the entry behind them |
| Assembler.Assembly.FillData | assembler/qasm.c:1023-1039 | the arguments of .DW |
| Assembler.Assembly.FindLabel | assembler/qasm.c:305-316 | the first entry with the label |
| Assembler.Assembly.SearchEquList | assembler/qasm.c:321-331 | the first .EQU entry of the name |
| Assembler.Assembly.InsertIntoEquList | assembler/qasm.c:337-364 | a name is entered once |
| Assembler.CodeFillsSize | assembler/qasm.c:770-985 | a line has exactly the words it was given room for |
| Assembler.SearchFindsLabels | assembler/qasm.c:305-316 | searching the entries finds the first line with the label and its address |
| Assembler.ListHoldsEqus | assembler/qasm.c:321-364 | searching the list finds the first .EQU of a name |
| Assembler.FilledNormal | assembler/qasm.c:992-1021 | what the two passes write into an instruction are its operands in order, or one name if a constant meets a name |
| QniceProgram.InstructionEnds | emulator/qnice.c:818-966 | an assembled instruction whose explicit operands leave R15 alone leaves the PC at the next entry; the only exception is a shift by nothing of an immediate, one word short |
| QniceProgram.ShiftRunsIntoConstant | emulator/qnice.c:875-890 | an example: SHL R0, 7 with R0 = 0 leaves the PC at the constant 7 |
| QniceProgram.JumpEnds | emulator/qnice.c:1008-1042 | an assembled jump with an immediate goes to its target if the flag is set, else to the next entry; a call pushes the address of the next entry |
| QniceProgram.JumpReachesLabel | assembler/qasm.c:992-1008 | a jump to a label, absolute or relative, sets the PC to the address of the line with that label modulo 2^16 |
| QniceProgram.WordLeadsToTarget | assembler/qasm.c:992-1008 | the word behind a relative jump is the distance from the next entry to the target modulo 2^16 |
| QniceProgram.ControlEnds | emulator/qnice.c:970-1007 | INT, INCRB and DECRB leave the PC at the next entry |
| QniceProgram.NextIsNextEntry | assembler/qasm.c:600-602 | address plus words is the address of the next entry, unless an .ORG or other words lie between |
| QniceProgram.NormalAtLine | assembler/qasm.c:465-529 | the processor decodes the fields that the assembler encoded, and its source operand is the value the line names |
| QniceProgram.NormalFields | assembler/qasm.c:831-831 | the fields of an instruction word |
| QniceProgram.JumpFields | assembler/qasm.c:906-909 | the fields of a jump word |
| QniceProgram.ControlFields | assembler/qasm.c:929-969 | the fields of a control word |
| QniceProgram.OperandRead | emulator/qnice.c:650-684 | each operand form is read as the value it stands for |
| QniceProgram.MoveMoves | emulator/qnice.c:841-846 | MOVE leaves in a register the value its source stands for |
| QniceProgram.PerformEnds | emulator/qnice.c:818-966 | where any instruction word below the control group leaves the PC |
| QniceProgram.BranchPc | emulator/qnice.c:1008-1042 | where any branch word leaves the PC, and what a call leaves on the stack |
| QniceProgram.LabelIsFound | assembler/qasm.c:576-582 | labels are unique in a source that assembles |

## Left out

- Literals.ReadConstant: the value of a floating-point constant, which the C library reads.
- Relaxation.Section.ResolveSection: sizes are an arbitrary function, so nothing is said of the number of passes below the limit; OPTS atoms are fixed.
- Assembler.Assembly.Assemble: the second pass is run only after a first pass without errors; after errors the second pass of the assembler only adds more.
- Assembler.FilledNormal: the third word of an instruction with one constant and one name is not filled by either pass and is 0 in the model.
- QniceProgram.InstructionEnds: instructions that mix one constant and one name are excluded, and so are explicit uses of R15 that move it.
- SymbolTable.HashCode: case-insensitive lookup, additional names by `refer_symbol` and the collision counter are not modelled.
- Cse.Eliminator.Cse: the global mode of `cse_search` is not modelled; what it starts from, the available expressions, is (`Expressions`).
- Liveness.FlowGraph.DeadAssignments: the reordering of post-increments in the same function is not modelled.
- Numbering.Renumber: an insertion sort with the same comparison stands for `vqsort`.
- vbcc: pointer dereferences, calls, volatile accesses, alias information, the construction of the flow graph, `num_vars`, types other than scalars.
- minicomp: arrays, reals, functions, type conversions and the parser; the fixed sizes of its stacks; trees are values, not overwritten nodes; the code for `return`.
- vasm: shifts and bit operations on 128-bit numbers; the rest of the expression grammar; other object formats; the symbol search for the start address of a record file.
- Alignments that are not powers of two; the last loop of fwpcalign and addralign, which no input reaches.
- vobjdump: the printed text; files are read into one object instead. Special relocations are read and skipped, the writer has none.
- IDE: LBA mode, which stops the emulator; the dispatch on device addresses 0 to 8 other than the command block.
- qnice.c: the extended arithmetic element and all other devices, cycle counter, statistics, breakpoints, debugger; a device answers the same at an address during one step.
- qasm.c: the classification of operand and number text, including labels spelled like registers; listing and output files.
- fifo.c: correct and small, it would add easy members only.
