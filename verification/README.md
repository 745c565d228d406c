# A model of the mudlle compiler and runtime

mudlle's optimising compiler is written in mudlle itself, on a small C runtime.
This project models its hardest parts in Dafny and proves what they are for: that a
function run on allocated registers and stack slots does what it does on variables,
that type inference ends in the least and sound typesets, that code for arithmetic by
constants and for conditions computes the right thing, that jumps reach their targets,
that native arguments arrive where they belong, and that the runtime's line tables,
random numbers and hash tables keep their promises.

Each `.dfy` file is one module. Code that changes state in the source (bitsets, code
lists, buckets, offsets) is a method, with loops and fields where the source has them,
proved against a specification; what the specification means is proved in lemmas.

| file | what it models |
|---|---|
| FlowGraph.dfy | flow graphs and liveness (flow.mud) |
| RegisterAllocation.dfy | interference graph, variable groups, colouring, spilling (phase4.mud) |
| AllocatedRuns.dfy | runs on variables and runs on locations, in step |
| TypeInference.dfy, TypeFlow.dfy | typeset constraints, and their iteration to the least solution (inference.mud) |
| TypeEquations.dfy | the meaning the header of inference.mud gives to constraints, against what the code computes |
| TypeTests.dfy, TypedRuns.dfy | constraints of branches and of whole functions, and inference over whole runs |
| MachineCode.dfy | 64-bit words and the x86-64 instructions used below |
| Multiplication.dfy, MultiplyCode.dfy, DivisionCode.dfy | arithmetic of tagged integers by constants (genx64.mud) |
| Conditions.dfy | conditions, `if` and `while` as branches (phase2.mud) |
| BranchRelaxation.dfy | short and near jumps, and their bytes (ax64.mud) |
| ParallelMoves.dfy | moving arguments into the native argument registers (genx64.mud) |
| ReachingCopies.dfy | copies in effect on every way to a block (flow.mud) |
| LineNumbers.dfy | the line table encoder and decoders (dwarf.c, utils.c) |
| RandomNumbers.dfy | bounded random numbers and shuffling (random.c) |
| AssociativeArrays.dfy | the chained hash table (assoc.c) |
| Arithmetic.dfy, Prelude.dfy | facts that several modules use |

Bitsets of variables are sets, and variables are their numbers. Integers are unbounded
in Dafny, so every width that matters is written out: machine words are integers modulo
2^64, mudlle's 63-bit integer n is the word 2n+1, and 32-bit sums in dwarf.c wrap.

## What the proofs found

Two promises do not hold for all inputs. The model keeps the code as it is, gives an
input that shows it, and proves when the promise holds.

* `move_native_args` assigns all arguments simultaneously if and only if the register
  moves contain no cycle of more than two (`ParallelMoves.MoveNativeArgs`). The table
  entry of the register that has been swapped out is always taken to be done, since the
  test at genx64.mud:2855 compares an entry's register with the register it is filed
  under. Five arguments suffice to fail; four do not.
* `dwarf_line_number_info` computes a special opcode in 32 bits. An address step of a
  fifth of the address space can make it wrap to a small opcode
  (`LineNumbers.LargeStepWraps`). Unless a step before the last wraps to one of the two
  advance opcodes, which take the next bytes for their number, a table round-trips if and
  only if no step wraps
  (`LineNumbers.RoundTripExactly`).

The header comment of inference.mud differs from the code in two places. The model
follows the code.

* Under the header's rules (lines 131 to 170) a satisfied constraint leaves alone the
  types of variables it does not mention, and a destination that is also an argument
  gets the types of both. `apply_iconstraint` does neither, so its types can be smaller:
  a call through a variable narrows it to functions even when the call escapes
  (`TypeEquations.EscapingCallNarrows`). `TypeEquations.ReadingsAgree` says exactly when
  both are the same. The smaller types are sound. Rule b is read as speaking of variables
  not mentioned in a constraint at all, since the header's own example gives the
  destination no old types.
* The header starts the iteration with "any" everywhere in the entry block; `init_infer`
  gives types only to arguments, their count, globals and closure variables. That is
  right if and only if no other variable has a value on entry
  (`TypedRuns.StartExactly`).

A copy reaches a block when, on every way there, it is made and then kept
(`ReachingCopies.Problem.FlowCopies`). `mc:flow_copies` intersects over all
predecessors, and thereby over ways from blocks that cannot be reached, too
(`ReachingCopies.UnreachableBlocksCount`).

Nothing promises that branch relaxation lengthens as few jumps as possible, and it
judges forward jumps by offsets of the pass before. When the short jumps can grow by at
most 128 bytes in all, the result is nevertheless the least list in which they fit
(`BranchRelaxation.RelaxedIsLeast`); 51 jumps can do worse
(`BranchRelaxation.StaleOffsetsLengthen`). All jumps reach their targets regardless.

## Model

| member | source | states |
|---|---|---|
| FlowGraph.BlockLive | flow.mud:1166-1185 | one forward pass over a block finds exactly the variables, globals aside, that some instruction reads before any assigns them |
| FlowGraph.UnionSuccessors | flow.mud:351-380 | one step makes the block satisfy its two equations and reports whether its in-set grew |
| FlowGraph.FlowLive | flow.mud:1157-1210 | the iteration terminates in a solution of the liveness equations, and a variable is live into a block exactly when some path from there uses it before any definition |
| FlowGraph.PathIsIn | flow.mud:1202-1209 | any solution contains every variable with such a path |
| FlowGraph.LiveBeforeMeaning | flow.mud:1212-1255 | what the reverse scan carries at an instruction: used later before defined, or live out and never defined again |
| FlowGraph.ScanMeetsLiveIn | flow.mud:1212-1255 | scanning a block backwards from its live-out arrives at its live-in, globals aside |
| RegisterAllocation.TogetherIsClique | phase4.mud:52-76 | two variables live at the same time anywhere are in a common live set, hence get an edge |
| RegisterAllocation.SurvivorsMeaning | phase4.mud:111-167 | which variables outlive a call or a use of scratch registers, from liveness and what the instruction clobbers and defines |
| RegisterAllocation.Allocator.MakeIgraph | phase4.mud:40-81 | the neighbours of a variable are exactly the other variables live together with it at some point |
| RegisterAllocation.Allocator.GroupInstruction | phase4.mud:111-167 | an instruction moves to the call groups what outlives it as a call, and out of the temps what outlives its scratch registers |
| RegisterAllocation.Allocator.Migrate | genx64.mud:476-517 | of the argument and closure variables among the temps all but the first move to the locals, and nothing else changes |
| RegisterAllocation.Allocator.GroupVariables | phase4.mud:107-187 | the four groups partition the variables; calls only leave survivors in the call groups, and no temp outlives a scratch instruction |
| RegisterAllocation.Allocator.EasySpill | phase4.mud:189-210 | spills the first variable without a location that already lives in a stack or closure slot, or says there is none |
| RegisterAllocation.Allocator.Spill | phase4.mud:212-243 | spills a variable with most uncoloured neighbours, or says that all have locations |
| RegisterAllocation.FewLaterRemove | phase4.mud:260-278 | removing a variable with fewer pending neighbours than registers keeps it true that every removed variable has fewer later neighbours than there are registers |
| RegisterAllocation.Allocator.ColorGraph | phase4.mud:246-279 | removes variables until none has few enough neighbours; done exactly when none is left; the removal order stays colourable |
| RegisterAllocation.Allocator.GetFreeColor | phase4.mud:283-301 | the assertion never fails: with fewer coloured neighbours than colours there is a colour below their number that no neighbour has, and the least is taken |
| RegisterAllocation.ColoredStep | phase4.mud:334-340 | colouring the next variable in reverse removal order keeps neighbours of one kind apart |
| RegisterAllocation.ColoredIsProper | phase4.mud:303-343 | when all of one kind are coloured, colours are below the count and interfering variables differ |
| RegisterAllocation.Allocator.SelectColors | phase4.mud:303-343 | colours of one register kind are below the number of registers, proper, first fit, and as few as the greatest used; the other kinds are untouched |
| RegisterAllocation.Allocator.SelectSpill | phase4.mud:345-374 | spill offsets are below the number of locals, differ for interfering variables, and are first fit |
| RegisterAllocation.Allocator.AllocateTemps | phase4.mud:417-430 | terminates with every temp in a scratch register, except those it moves to the locals, which are crowded: in a set of temps each with as many neighbours there as there are registers |
| RegisterAllocation.Allocator.AllocateGroup | phase4.mud:433-448 | terminates with every variable of the group located, in a register of its kind unless it is crowded in the group |
| RegisterAllocation.FewNeighbors | phase4.mud:433-474 | nobody is crowded in a group whose variables all have fewer neighbours in it than there are registers, so that nothing is spilled there |
| RegisterAllocation.Allocator.LocateAll | phase4.mud:417-474 | all three allocation loops together locate every variable, and only crowded variables get no register of their group |
| RegisterAllocation.AllocatedFrom | phase4.mud:417-480 | proper colours per kind and kinds that respect what instructions clobber make an allocation |
| RegisterAllocation.Allocator.AllocateRegisters | phase4.mud:83-480 | every variable gets a location, interfering variables different ones, nothing is kept where an instruction it outlives clobbers it; only variables crowded in their group get no register of its kind; numbers are first fit and the counts bound them |
| AllocatedRuns.AllocateFunction | phase4.mud:83-480 | liveness followed by allocation yields a sound allocation for every valid function |
| AllocatedRuns.Undisturbed | phase4.mud:111-167 | neither the result nor the clobbered registers of an instruction touch the location of a variable live across it |
| AllocatedRuns.InputsKept | phase4.mud:153-155 | an early-scratch instruction finds its inputs outside the scratch registers |
| AllocatedRuns.InstructionAgrees | phase4.mud:83-480 | one instruction keeps live variables equal to their locations |
| AllocatedRuns.AllocationPreservesMeaning | phase4.mud:83-480 | for every function, machine and pair of runs that start alike, the run on locations passes the same points as the run on variables, and at each of them every live variable equals its location |
| AllocatedRuns.StepExists | phase4.mud:83-480 | each step on variables has its step on locations, whatever the clobbered registers are left holding |
| AllocatedRuns.RunExists | phase4.mud:83-480 | so every run on variables has a run on locations beside it, from any store that holds the live variables |
| AllocatedRuns.EntryRealizable | phase4.mud:66-76 | the live variables at a block entry can hold any values at once in their locations |
| TypeInference.EvaluateCondition | inference.mud:1358-1372 | the early exit still computes the intersection of all typesets |
| TypeInference.ApplyConstraint | inference.mud:1390-1437 | adds to each variable exactly what a satisfied constraint contributes, and nothing if a condition fails |
| TypeInference.ApplyIconstraint | inference.mud:1374-1447 | the loops compute the union of contributions for the variables concerned, keep the others, and intersect copies in turn |
| TypeInference.CopiesShareTypes | inference.mud:1439-1445 | after the copies neither side has a type the other did not have before, and variables of no copy keep theirs |
| TypeInference.AppliedMono | inference.mud:1374-1447 | larger typesets before never give smaller ones after: the monotonicity the least solution rests on |
| TypeInference.AppliedSound | inference.mud:1374-1447 | actual types that lie in the typesets before an admitted instruction lie in them afterwards |
| TypeInference.InstantiateConstraint | inference.mud:753-805 | a signature becomes one condition per argument, repeating a starred parameter, with the consequence tied to the referenced argument's condition |
| TypeInference.BuildIconstraint | inference.mud:817-844 | collects exactly the variables of the constraints and the copies that involve one |
| TypeInference.PerformedIsAdmitted | inference.mud:753-844 | what an instruction that works on one of its signatures does is admitted by the constraints generated for it, also when destination and argument coincide |
| TypeInference.BranchAdmits | inference.mud:1346-1352 | taking an edge whose condition holds is admitted by the edge's constraint |
| TypeInference.AdmittedExactly | inference.mud:1374-1447 | constraints, with destinations and copies, keep the actual types for all typesets if and only if they admit what the instruction does |
| TypeInference.GenerateConstraints | inference.mud:982-1351 | an instruction's constraints: one per signature, and one for each variable an escaping call may assign |
| TypeEquations.CodeIsFiner | inference.mud:131-170 | the code's types are never more than the header's |
| TypeEquations.ImpliedExactly | inference.mud:1374-1437 | the code leaves an argument the types some applicable signature takes, a destination those of the results, and an assigned variable any |
| TypeEquations.EquationsExactly | inference.mud:144-161 | the header's rule b leaves the same, and whatever an escaping call does not mention or a destination is taken with |
| TypeEquations.ReadingsAgree | inference.mud:131-170 | for the constraints of any instruction both agree if and only if an escaping call narrows nothing and a destination among the arguments gets every type it is taken with |
| TypeEquations.SimpleInstructionsAgree | inference.mud:131-170 | so they agree where nothing escapes and no argument is overwritten |
| TypeEquations.EscapingCallNarrows | inference.mud:1166-1171 | a call through a variable, with one variable that closures may assign, where they differ |
| TypeTests.CodesDescribeTypes | ins3.mud:294-376 | a value has a type code only if its base type is in the code's typeset, and lacks it only if in the inverse |
| TypeTests.CodesExactly | ins3.mud:294-376 | a code's typeset has exactly the base types some value of which has the code, its inverse those some value of which has not |
| TypeTests.TestTypesExactly | inference.mud:1254-1345 | the types of the two edges of a test are exactly those of values that may take them |
| TypeTests.EdgeTypesExactly | inference.mud:1254-1352 | an edge's condition leaves the tested variable exactly those of its types |
| TypeTests.OutcomeHolds | inference.mud:1236-1345 | for each interesting branch, the condition generated for an outcome holds for the values that had it |
| TypeTests.GenerateBranchConstraints | inference.mud:1236-1352 | the constraints of the edge taken and of the other, exchanged for negated branches |
| TypeTests.BranchIsAdmitted | inference.mud:1236-1352 | following the edge a test selects is admitted by that edge's constraint |
| TypeFlow.EdgeFlowOutTypes | inference.mud:2383-2401 | the true or false edge's constraint is applied to the predecessor's out |
| TypeFlow.MergeBlock | inference.mud:2450-2487 | in becomes the join over the edges, out the widened result of the block's constraints, and the answer is whether out changed |
| TypeFlow.StepBelowAll | inference.mud:2450-2487 | a merge never goes beyond any solution |
| TypeFlow.RoomAllShrinks | inference.mud:2450-2487 | every changed out leaves less room to grow, so the iteration ends |
| TypeFlow.SolutionMeaning | inference.mud:2450-2487 | every solution spelled out: a type is in a block's in exactly if the entry starts with it or it comes along an edge with the edge's constraint applied; the out is that after the last instruction for what is live or global, any for the rest |
| TypeFlow.InferRun | inference.mud:197-207 | iterating from empty typesets terminates in a solution of the equations, which are spelled out, that is below every other one |
| TypeFlow.BlockSound | inference.mud:2466-2469 | actual types stay within the typesets through all instructions of a block |
| TypeFlow.EdgeSound | inference.mud:2383-2401 | following an edge carries them from one block's out into the next one's in |
| TypeFlow.InferenceSound | inference.mud:2450-2487 | in every run from the entry block the actual types at each block entry lie in the inferred in-typesets |
| TypedRuns.InitTypes | inference.mud:2545-2571 | the entry block's types: any for arguments, globals and closure variables, vector for further arguments, integer for their count, nothing for the rest |
| TypedRuns.StartExactly | inference.mud:2545-2571 | a start state is within them if and only if no other variable has a value |
| TypedRuns.EntryTypesOccur | inference.mud:2545-2571 | each of the entry types is that of some start state, so that none could be left out |
| TypedRuns.GenerateBlock | inference.mud:982-1234 | the constraints of a block's instructions in order, each with the copies in effect after it |
| TypedRuns.StatementAdmitted | inference.mud:982-1234 | each step of a run is admitted by the constraints generated for its instruction, the copies among them holding because they reach it |
| TypedRuns.RoutineSound | inference.mud:2450-2571 | in every run of a function its types at each block entry and exit lie in those inferred from its instructions, branches and reaching copies |
| TypedRuns.Infer | inference.mud:2491-2571 | copies, constraints and iteration together: the least solution of the equations that a function's instructions, branches and reaching copies give, which holds in every run of it |
| MachineCode.WordLinear | genx64.mud:1927-2078 | words may be reduced modulo 2^64 anywhere inside a linear combination |
| Multiplication.DivideOut | genx64.mud:1805-1816 | removes all factors of one prime: the count and a rest it does not divide |
| Multiplication.PowerDelta | genx64.mud:1818-1826 | finds a power of two, at least 8, that differs from n by one of the fourteen addends, or says that there is none |
| Multiplication.MultiplyFactorize | genx64.mud:1798-1871 | the factors multiply to n, each is one the generator handles, and a power of two yields a single factor |
| MultiplyCode.LinearStep | genx64.mud:1964-2044 | an lea, add, sub or shl combines the linear functions held by its operands |
| MultiplyCode.MultiplyByFactor | genx64.mud:1930-2046 | the loop invariant: a register holding a*x plus excess-a goes on to hold the same for a times the factor |
| MultiplyCode.AdjustExcess | genx64.mud:2055-2078 | the final or, add or sub leaves the tag bit of the product and nothing else |
| MultiplyCode.MgenFactors | genx64.mud:1927-2079 | the factors in turn, with the sign, multiply every tagged integer by c modulo 2^64 |
| MultiplyCode.MgenImul | genx64.mud:1903-1920 | imul and a correction by c-1 do so, too |
| MultiplyCode.MgenNegate | genx64.mud:1525-1545 | 2-x, in place or into another register, negates a tagged integer |
| MultiplyCode.MgenMultiply | genx64.mud:1874-2080 | for every 63-bit constant that is 32-bit, a power of two or minus one, and every placement of operands, the code takes 2n+1 to 2nc+1 modulo 2^64 and changes only the destination and r11 |
| DivisionCode.QuotRem | genx64.mud:2083-2265 | quotient times divisor plus remainder is n; the remainder is smaller than the divisor and has the sign of n |
| DivisionCode.ShiftedQuotient | genx64.mud:2123-2156 | shifting 2n+1, or 2(n+c-1) for negative n, right gives twice the truncated quotient up to the tag bit |
| DivisionCode.MaskedRemainder | genx64.mud:2215-2225 | masking with the bias and taking it off again gives the tagged truncated remainder |
| DivisionCode.MgenEqualsMinint | genx64.mud:2087-2092 | dividing by the least integer is the flag of a comparison with it, of a register or a stack slot |
| DivisionCode.MgenDivide | genx64.mud:2083-2161 | for plus and minus powers of two, 1, -1 and the least integer, the code leaves the quotient of every 63-bit integer rounded towards zero |
| DivisionCode.MgenMinintRemainder | genx64.mud:2190-2213 | the remainder by the least integer, by a conditional move |
| DivisionCode.MgenRemainder | genx64.mud:2164-2265 | for the same divisors the code leaves the remainder that goes with that quotient |
| Conditions.TrivialRuns | phase2.mud:1096-1118 | the single-branch form assigns the body the condition selects, under any inversion |
| Conditions.FlagResult | phase2.mud:1556-1571 | a test that computes a boolean yields the condition's value through inversions and inverted tests |
| Conditions.BitResult | phase2.mud:1311-1338 | a single-bit test as a boolean: shift, mask and possibly flip |
| Conditions.GuardCorrect | phase2.mud:1393-1444 | a type check in front of a test leaves trivial mode off, and fails to the failure label |
| Conditions.AndCorrect | phase2.mud:1222-1235 | && by a continuation that generates the second operand where the first has succeeded |
| Conditions.OrCorrect | phase2.mud:1237-1250 | the same for the other operator, where the first has failed |
| Conditions.SwappedCorrect | phase2.mud:1252-1258 | swapping the conclusions negates, in every mode |
| Conditions.RestEnters | phase2.mud:1225-1231 | the labels inside a generated continuation mean the same from outside |
| Conditions.GenCondition | phase2.mud:1182-1589 | for every condition the code evaluates the atoms in short-circuit order and goes on at the success code if and only if it holds; labels of continuations are bound once and remain reachable |
| Conditions.IfCorrect | phase2.mud:1062-1152 | from that contract: one run of the whole `if`, and every branch target bound exactly once |
| Conditions.GenIf | phase2.mud:1062-1152 | an `if`, `ifelse` or boolean condition ends with the history and result its meaning prescribes, whatever mode is chosen |
| Conditions.LoopMeaning | phase2.mud:1154-1180 | the generated loop ends after n rounds in a state exactly when the `while` does |
| Conditions.GenWhile | phase2.mud:1154-1180 | each round of the code is one of the loop, and its labels resolve |
| BranchRelaxation.GrowthSinceStart | ax64.mud:524-552 | a pass that grows the code leaves fewer short jumps; one that does not changes nothing |
| BranchRelaxation.Assembler.IncreaseBranches | ax64.mud:524-552 | one pass computes that list, keeps offsets the prefix sums of sizes, and returns the growth |
| BranchRelaxation.Assembler.ResizeBranches | ax64.mud:554-556 | terminates, with the list at which passes stop changing |
| BranchRelaxation.RelaxedFits | ax64.mud:524-556 | in it every remaining short jump fits a signed byte, and only short jumps were lengthened |
| BranchRelaxation.RelaxedIsLeast | ax64.mud:524-556 | when the short jumps can grow by at most 128 bytes in all, it is pointwise the least list in which they fit, although forward offsets are stale |
| BranchRelaxation.InsertInt | ax64.mud:559-565 | writes the low bytes of a number, least significant first, and nothing else |
| BranchRelaxation.Assembler.Assemble | ax64.mud:1253-1340 | the bytes are the instructions' images in order, jumps with the distance from their end |
| BranchRelaxation.SignedBytes | ax64.mud:1283-1294 | a displacement that fits is read back from its bytes |
| BranchRelaxation.JumpsReach | ax64.mud:1283-1294 | decoding any jump of the assembled code leads to the start of its target |
| BranchRelaxation.RelaxedJumpsReach | ax64.mud:524-1294 | so does any jump after resizing, to the target it named before |
| BranchRelaxation.StaleOffsetsLengthen | ax64.mud:536-556 | behind 50 growing jumps, a jump to the next instruction ends as a near jump although a short one fits |
| ParallelMoves.HasPredecessor | genx64.mud:2824-2847 | when every waiting move is blocked, each waiting register is also a destination |
| ParallelMoves.SwapProgress | genx64.mud:2849-2861 | exchanging two registers completes one move, and the other exactly when they swap |
| ParallelMoves.ClosedCycle | genx64.mud:2824-2861 | blocked moves that are not all swaps contain a cycle of more than two |
| ParallelMoves.MovePass | genx64.mud:2827-2843 | one pass makes every move that is free, or names a register to exchange |
| ParallelMoves.Classify | genx64.mud:2786-2822 | the first use of an argument register waits in its table entry; later uses copy from the first one's destination |
| ParallelMoves.SimpleDone | genx64.mud:2864-2867 | the remaining moves do not overwrite each other's sources |
| ParallelMoves.MoveNativeArgs | genx64.mud:2781-2868 | rdi, rsi, rdx, rcx, r8 and r9, by number, end with the original values of the arguments in turn, for all contents, if and only if there is no cycle of more than two |
| ParallelMoves.FourArgumentsAreSafe | genx64.mud:2781-2868 | there is none with at most four arguments, since rdi and rsi hold no variables |
| ParallelMoves.FiveArgumentsCanFail | genx64.mud:2855-2861 | five arguments with a cycle of three |
| ReachingCopies.ScanMeaning | flow.mud:995-1042 | a block leaves in effect exactly the copies nothing disturbs since they were made, or since the start |
| ReachingCopies.BlockCopies | flow.mud:995-1058 | the scan computes that set and the variables escaping calls may assign |
| ReachingCopies.TransferIsScan | flow.mud:1091-1137 | applying the block's gen and kill sets is the same as scanning it |
| ReachingCopies.CopiesHold | flow.mud:1139-1143 | in every run, each copy in the in-set of a block reached has equal sides there, escaping calls changing ambiguous variables as they like |
| ReachingCopies.Problem.IntersectionPredecessors | flow.mud:289-318 | one step keeps the sets above every solution and below what predecessors let through |
| ReachingCopies.Problem.FlowCopies | flow.mud:1139-1152 | terminates in the greatest solution of the equations; a copy is in a block's in-set if and only if, on every way there, it is made and then neither variable is assigned or ambiguous |
| ReachingCopies.GreatestMeaning | flow.mud:1139-1152 | the greatest solution is that set of copies, also for blocks without a way from the entry, before which a copy may also just be left alone |
| ReachingCopies.WaysFromEntry | flow.mud:1139-1143 | where every block can be reached, only ways from the entry count |
| ReachingCopies.UnreachableBlocksCount | flow.mud:289-318 | otherwise an unreachable block that assigns a variable takes its copies from its successors |
| LineNumbers.UlebReadsBack | dwarf.c:1131-1136 | an unsigned LEB128 number is read back, with its length, whatever follows |
| LineNumbers.SlebReadsBack | dwarf.c:1124-1129 | so is a signed one |
| LineNumbers.UlebDigits | dwarf.c:1131-1136 | the bytes are the groups of seven bits, lowest first, the eighth bit set in all but the last, none too many |
| LineNumbers.SlebDigits | dwarf.c:1124-1129 | so are those of a signed number, ending where bit 6 and all that follows are the sign |
| LineNumbers.ReadLebU | dwarf.c:1011-1013 | read_leb_u's loop finds that number |
| LineNumbers.ReadLebS | dwarf.c:1014-1016 | read_leb_s's loop finds the signed one, extending the sign of the last byte |
| LineNumbers.EncodeEntry | dwarf.c:1099-1137 | the retries end, and append the bytes of one step |
| LineNumbers.StandardBytes | dwarf.c:312-335 | the bytes of near and far steps with the standard's opcode numbers written out |
| LineNumbers.StandardOperations | dwarf.c:1008-1027 | what a reader does for each opcode number |
| LineNumbers.Encode | dwarf.c:1084-1143 | the encoder appends the bytes of every entry for addresses that do not decrease |
| LineNumbers.LineNumberInfo | dwarf.c:990-1033 | the decoding loop finds all entries, or fails on malformed bytes |
| LineNumbers.StepDecodes | dwarf.c:1099-1137 | the bytes of a step that does not wrap decode to exactly one entry, at its address and line |
| LineNumbers.RoundTrip | dwarf.c:1084-1143 | decoding an encoded table gives back exactly its entries, for all 32-bit lines and all address steps that do not wrap |
| LineNumbers.RoundTripExactly | dwarf.c:1108-1122 | for every table in which no step before the last wraps to an advance opcode, decoding gives it back if and only if no step wraps |
| LineNumbers.CloseNeverWraps | dwarf.c:1111-1113 | steps below a fifth of the address space do not wrap |
| LineNumbers.LargeStepWraps | dwarf.c:1111-1113 | a table of one entry that does not round-trip |
| LineNumbers.TableAvoidsConstAddPc | dwarf.c:1115-1117 | every encoded table is a sequence of operations, none of which is the reserved opcode 8 |
| LineNumbers.ReaderMeetsNoConstAddPc | dwarf.c:1115-1117 | nor does a decoder come to one in a table without wrapping steps |
| LineNumbers.LookupLineNumber | dwarf.c:948-988 | the search over bytes, also of malformed ones |
| LineNumbers.LookupSearches | dwarf.c:948-988 | searching bytes is searching the table they decode to |
| LineNumbers.EncodedLookup | dwarf.c:948-988 | the line found is that of the first entry at the address, else of the last one below it, else 1 |
| RandomNumbers.MulU64 | random.c:87-108 | the four-limb product is exact in two words, with no overflow on the way |
| RandomNumbers.Unbiased | random.c:113-166 | every number of the range is yielded by exactly floor(w/n) of the w raw words |
| RandomNumbers.Generator.RandomRange64 | random.c:114-139 | the result is the high word of range+1 times the last raw word taken, which is among the words that yield it; all words before it were rejected, and it fails only if all are |
| RandomNumbers.Generator.RandomRange32 | random.c:142-166 | the same with 32-bit words and a 64-bit product |
| RandomNumbers.RandomizeArray | random.c:178-192 | shuffles in place by the choices of words taken in turn, each the first accepted behind the one before; it fails only if they run out |
| RandomNumbers.ShuffledFront | random.c:184-191 | the first choice brings its element to the front, the others shuffle the rest |
| RandomNumbers.ShuffledIsPermutation | random.c:178-192 | a shuffled array has the same elements |
| RandomNumbers.EveryPermutation | random.c:178-192 | every permutation comes from some choices |
| RandomNumbers.OnlyChoices | random.c:178-192 | for distinct elements, from only those |
| RandomNumbers.EquallyLikely | random.c:142-192 | each permutation of distinct elements comes from equally many tuples of accepted raw words: the product of floor(2^32/(n-i)) |
| AssociativeArrays.Fold | hash.c:14-23 | a folded hash is a bucket number below the table size |
| AssociativeArrays.FoldBits | hash.c:14-23 | bit j of it is bit j of the hash exclusive-or the bit as many places higher as there are bucket bits |
| AssociativeArrays.Table.LookupNode | assoc.c:18-31 | finds the node of the key if and only if the map has it |
| AssociativeArrays.PlacedMore | assoc.c:91-104 | putting a new node at the head of the chain of its folded hash keeps every node in its chain, once |
| AssociativeArrays.PlacedLess | assoc.c:142-152 | taking one out does, too |
| AssociativeArrays.SkipLinked | assoc.c:152 | redirecting one pointer past a node leaves the rest of the chain |
| AssociativeArrays.Table.MoveChain | assoc.c:67-78 | relinking a chain while walking it moves each of its nodes once |
| AssociativeArrays.Table.Rehash | assoc.c:60-83 | the new array holds the same nodes, each in the bucket of its hash, and the map is unchanged |
| AssociativeArrays.Table.Add | assoc.c:84-105 | adds one entry; the table grows when it is two thirds full, which keeps the load bound |
| AssociativeArrays.Table.Set | assoc.c:115-128 | updates the map, keeping a key that is stored already |
| AssociativeArrays.Table.ForceRef | assoc.c:107-113 | the node of the key, with null data if it is new |
| AssociativeArrays.Table.Remove | assoc.c:138-163 | removes exactly the key's entry, and says whether there was one |
| AssociativeArrays.Table.ForEach | assoc.c:165-175 | visits every entry exactly once even when the visited entry is removed; the others stay |
| AssociativeArrays.Perform | assoc.c:18-175 | any sequence of operations acts as on a finite map |

## Left out

- RegisterAllocation.Allocator.GroupVariables: the migration step is the one of the x86-64 back end (genx64.mud:476-517); other machine descriptions are not modelled.
- AllocatedRuns.AllocationPreservesMeaning: an instruction is abstract: a function of its arguments and the outside world that may clobber what its register class says. The code generator's own instruction sequences are not part of it.
- Trap instructions, garbage collection points, the `myself` closure variable and the argument count variable are not located.
- TypedRuns.Infer: what a test on values means (equal values have one type, null and false are single values) is taken from the runtime; which variables closures may assign at a call, and what is live, are given. apply_functions' rewriting of result types, warnings, and instructions without constraints (returns, nops, stores), which change no variable, are not modelled.
- TypeFlow.InferRun: merge_block alone is iterated; short_cut_branch, which edits the graph between passes, and narrowing between functions are left out.
- MultiplyCode.MgenMultiply: operands are registers; loads of memory operands, type traps, the final move to a spilled destination and the encoding limit of lea displacements are left out. Sums the compiler computes in 63 bits are unbounded.
- DivisionCode.MgenDivide: a memory operand is taken to be in the scratch register it is loaded into; for the least integer, where it is compared without loading, it is a number above those of the registers.
- DivisionCode.MgenEqualsMinint: operands that are reached indirectly, through r11, are not modelled.
- Conditions.GenCondition: an atom is one evaluation with a value; code inside operands, gen_find_branch and the choice of specialised branch operators are abstracted by how the value is tested. mc:ins_assign is a plain assignment, and trivial mode does not rename the tested variable.
- Conditions.GenWhile: the loop-count trap in the body is left out.
- BranchRelaxation.JumpsReach: near displacements are assumed to fit in 32 bits; the code does not check it. Other instructions are opaque bytes.
- ParallelMoves.MoveNativeArgs: operands of the index form (x64:lqidx) are not modelled; in the source they must not use an argument register.
- LineNumbers.RoundTripExactly: nothing is said of tables in which an opcode before the last wraps to 2 or 3: the decoder takes the bytes after it for a number, and what comes out depends on the entries that follow.
- LineNumbers.ReadLebU: numbers are unbounded; the undefined shifts of 64 bits or more that endless LEB128 digits would cause are not modelled.
- RandomNumbers.Generator.RandomRange64: the source of raw words is a finite list and a draw fails when it runs dry; the PCG state transition and seeding are left out.
- AssociativeArrays.Table.Remove: freeing keys, data and nodes is left out; so are bits_size limits of 64 bits.
- ReachingCopies.CopiesHold: which variables are ambiguous at a call is given; its own data-flow problem (mc:flow_ambiguous) is not modelled, nor is the rewriting of copies.
- The assembler's peephole pass, instruction encodings other than jumps, flow_sizes, parsing, linking, ELF output, profiling, string ports and floating point would need models of their own or add only easy members.
- Termination and results are proved; running time and memory use are not.
