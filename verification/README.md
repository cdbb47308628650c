# MaxAFL: a verified model

MaxAFL is the AFL fuzzer with an LLVM instrumentation pass, a runtime, and the laf-intel
rewrites of compares and switches. The modules here model the parts of it that carry state or
change programs, and prove what those parts are for.

| file | part of the system |
|---|---|
| `ForkServer.dfy` | the protocol between `run_target`, the SIGALRM handler, the fork server and the process under test, as steps of four actors |
| `SplitSwitches.dfy` | `switchConvert`: a switch becomes a decision tree over the bytes of its operand |
| `SplitCompares.dfy` | integer compares become nested compares of half the width |
| `Conditions.dfy` | `visitBrInst`: a branch condition becomes a prefix vector of operators and leaves |
| `InfoFile.dfy` | the vector's way through the info file into the tables shared with the target |
| `StackMachine.dfy` | `__maxafl_visit_br`: the vector evaluated right to left on a stack of doubles |
| `Distance.dfy` | `__maxafl_visit_cmp_integer`: the distances the leaves of the vector read |
| `EndToEnd.dfy` | a branch from the pass to the value the fuzzer takes |
| `CycleCut.dfy`, `Meic.dfy` | cutting the cycles of call graph and CFG, and the heaviest path of a function |
| `Tmin.dfy`, `Trim.dfy` | the test case minimizer and the queue's trimmer, against any deterministic target |
| `StageLaws.dfy`, `TrimLaws.dfy` | what each stage of the two tries and leaves, block by block |
| `SteadyOracles.dfy` | oracles for which the minimizer leaves no byte that could become '0' |
| `QueueCover.dfy` | winners of coverage bytes, their reference counts, the favored entries |
| `VirginMap.dfy` | new bytes and bits, a 64-bit word at a time |
| `Tokencap.dfy` | the dictionary tokens one library prints and the fuzzer reads back |
| `Dislocator.dfy` | the allocator that ends every buffer at an unreadable page |
| `Powers.dfy`, `Words.dfy` | shared definitions |

Code that works in place is a class or a method over arrays. Its contract is a function of the
old state, the naive form of the algorithm, and the theorems are about that function. The target
program is an arbitrary deterministic function of its input bytes. A double is a sign bit and a
real magnitude (signed zero as in section 6.3 of IEEE 754-2008).

Four modules form one chain: the pass visits the branches of a module and compiles their
conditions (`Conditions.Pass.VisitBranch`), the info file carries them to the fuzzer
(`InfoFile.CompiledBranchRuns`), the runtime evaluates them (`StackMachine.ConditionSign`), and
their leaves read the distances of `Distance`. `EndToEnd.RunBranch` composes them.

Where the code does not do what its surroundings suggest, the model follows the code. An input
shows it, and the exact condition is stated unless an item says that it is sufficient only:

- The pass passes 32 as the operand size of every compare, so distances of wider compares can
  have the wrong sign (`Distance.WideCompare`, `Distance.InsertedSignIffNarrow`).
- Ids are cast to 16 bits on the way to the runtime (`InfoFile.StoredIffSmall`,
  `InfoFile.LeafBecomesOperator`).
- A polarity flag of 0 evaluates OR by a maximum. The sign bit of a compound condition is
  therefore its denotation under complemented leaves (`StackMachine.SignIsDenotation`), not its
  truth (`StackMachine.CompoundSignIsNotTruth`, `StackMachine.CompoundSignIff`).
- A floating-point distance can have the magnitude of one of the two constants, and running with
  the other sign is then not dual (`StackMachine.DualityNeedsPlain`).
- The run compares the counts of the two sides as signed, the fuzzer as unsigned words
  (`StackMachine.OrientationsAgree`).
- Where a leaf reads +0 and another -0, it need not be that either (`StackMachine.ZerosClash`,
  met by `Distance.EqualOperandsClash`): of two zeros the second operand wins, and
  `StackMachine.SignOfResult` gives the sign for all values. That no two such leaves are read is
  sufficient.
- A condition below a neutral constant is reported as visited even when nothing was emitted for
  it (`Conditions.ReportedButEmpty`); a report is right exactly under
  `Conditions.SupportedIffReported`.
- Cycles the entry cannot reach are not cut (`CycleCut.UnreachableCycleStays`), and the sorter
  then fails (`CycleCut.SortSucceedsIff`).
- A switch whose width is no multiple of 8 changes its meaning
  (`SplitSwitches.MeaningKeptIffWholeBytes`) or trips an assertion (`SplitSwitches.TwelveBits`,
  `SplitSwitches.AssertionFailsIff`). Both are stated from 8 bits on: below, the operand has no
  byte, and the pass reads an element of an empty vector (llvm_mode/split-switches-pass.so.cc:115).
- Scoring an entry again on a run that hits other bytes can leave a winner whose stored trace
  misses its slot (`QueueCover.StaleTraceCountsTwice`, `QueueCover.CoverAfterScoring`).
- A captured text whose first byte is its NUL is printed as an empty keyword, which the loader
  refuses (`Tokencap.CapturedIff`).
- The minimizer leaves its loop before the character stage of the last pass, so a byte may be left
  that could become '0' (`SteadyOracles.NotCharacterMinimal`). That the oracle is steady is
  sufficient for none to be left (`SteadyOracles.SteadyMinimized`), not necessary
  (`SteadyOracles.UnsteadyYetMinimal`).
- A trim that is broken off can leave a shorter buffer than its file (`Trim.BrokenOffShorter`):
  exactly when something had been cut before (`Trim.Entry.TrimCase`).

`dafny verify dfyconfig.toml` checks the project.

## Model

| member | source | states |
|---|---|---|
| `ForkServer.ProtocolSafe` | llvm_mode/afl-llvm-rt.o.c:299-369 | in every interleaving of fuzzer, server, child and timer: a fork never finds a process that was not waited for, SIGCONT only goes to a stopped process, at most one process exists, and the fuzzer sees each request answered by one process number and then one status of that very process |
| `ForkServer.StatusIsFate` | llvm_mode/afl-llvm-rt.o.c:355-368 | in every run each status the fuzzer reads is what became of that process since it was forked or continued: its exit code, the signal that ended it, or, in persistent mode only, its stop; where it stopped and the timer killed it, one of the two |
| `ForkServer.VerdictIsFate` | afl-fuzz.c:3111-3149 | a run is reported as a timeout exactly when the status just read is SIGKILL and the timer's kill was sent in the same request, as a crash exactly when it is another signal, a SIGKILL without the timer, or the sanitizer's exit code while one is in use |
| `ForkServer.KilledIsNotContinued` | llvm_mode/afl-llvm-rt.o.c:310-348 | when the server continues a process, the fuzzer waits for its number and the run before did not end in a timeout kill; the process is really stopped, although the kill may race with the child stopping itself |
| `ForkServer.NoDeadlock` | afl-fuzz.c:3035-3094 | in every reachable state the fuzzer, the server or the timer can step, whatever the child does |
| `ForkServer.RequestEnds` | afl-fuzz.c:2889-3115 | in any run, from any moment, within 20 steps of the four actors the request is answered and recorded, and the fuzzer idle |
| `ForkServer.RankDrops` | afl-fuzz.c:2889-3115 | why: until then every step of any actor lowers a rank of at most 20 |
| `ForkServer.InvStep` | llvm_mode/afl-llvm-rt.o.c:286-370 | the inductive invariant of the protocol is kept by every step of every actor, kill included |
| `ForkServer.RunInv` | afl-fuzz.c:8147-8162 | so it holds in all states of all runs |
| `SplitSwitches.Splitter.SplitSwitches` | llvm_mode/split-switches-pass.so.cc:250-309 | for any list of switches of whole bytes, every case list and every value: at the end, branching through the created blocks from each new root ends where its switch would; each PHI node has had the edits of all of them |
| `SplitSwitches.AllPhisMatch` | llvm_mode/split-switches-pass.so.cc:289-308 | a PHI node with one entry per edge ends with one entry per edge, however many of the switches share its block |
| `SplitSwitches.TreeTakesSwitch` | llvm_mode/split-switches-pass.so.cc:119-218 | the blocks of a tree do what its switch does, also after others have been created |
| `SplitSwitches.Splitter.SplitSwitch` | llvm_mode/split-switches-pass.so.cc:270-308 | one switch: its blocks, its PHI edits and its meaning; older blocks stay |
| `SplitSwitches.ConvertMeaning` | llvm_mode/split-switches-pass.so.cc:79-221 | the tree reaches a case's block exactly for that case's value and the new default otherwise |
| `SplitSwitches.EvalConvert` | llvm_mode/split-switches-pass.so.cc:141-218 | the same for any recursion state: values that agree on the bytes tested so far |
| `SplitSwitches.MeaningKeptIffWholeBytes` | llvm_mode/split-switches-pass.so.cc:280 | over all switches on at least 8 bits: the case list is converted without a failing assertion into a tree with the same meaning for all values exactly when the width is a multiple of 8 |
| `SplitSwitches.AssertionFailsIff` | llvm_mode/split-switches-pass.so.cc:149-152 | over all switches on at least 8 bits: the assertion that one case is left fails somewhere in the recursion exactly when two cases have the same low `getBitWidth() / 8` bytes |
| `SplitSwitches.CollisionFails` | llvm_mode/split-switches-pass.so.cc:119-218 | from any state of the recursion two cases with the same bytes end together at the assertion |
| `SplitSwitches.ConvertibleSucceeds` | llvm_mode/split-switches-pass.so.cc:119-218 | from any state of the recursion, cases that differ in their bytes never reach it together |
| `SplitSwitches.TwelveBits` | llvm_mode/split-switches-pass.so.cc:149-152 | on 12 bits, two cases with one value of the one byte tested: the assertion fails |
| `SplitSwitches.MatchConvertible` | llvm_mode/split-switches-pass.so.cc:149-152 | when the last byte has been tested exactly one case is left: the assertion holds; otherwise the recursion's conditions are kept |
| `SplitSwitches.HalvesSmaller` | llvm_mode/split-switches-pass.so.cc:186-208 | both halves of a pivot split are non-empty and smaller |
| `SplitSwitches.RootTestsFewest` | llvm_mode/split-switches-pass.so.cc:103-143 | the next byte tested is one with the fewest values, and it is tested for equality exactly when some unchecked byte is the same in all cases |
| `SplitSwitches.PathLength` | llvm_mode/split-switches-pass.so.cc:141-218 | a path makes at most n equality tests and 8n pivot tests for n bytes, whatever the number of cases |
| `SplitSwitches.OneNodePerCase` | llvm_mode/split-switches-pass.so.cc:150-153 | each case owns one accepting node of its own |
| `SplitSwitches.EditsTrade` | llvm_mode/split-switches-pass.so.cc:155-174 | each first-occurrence edit trades one entry of the original block for a node |
| `SplitSwitches.PhiMatchesPredecessors` | llvm_mode/split-switches-pass.so.cc:289-308 | after all edits each PHI node has one entry per edge into its block and none for the original block |
| `SplitSwitches.BranchIsEval` | llvm_mode/split-switches-pass.so.cc:119-218 | the created blocks compute the tree |
| `SplitSwitches.Splitter.SwitchConvert` | llvm_mode/split-switches-pass.so.cc:79-221 | the recursion creates exactly the tree's blocks and makes exactly its PHI edits, ending by (unchecked bytes, cases) |
| `SplitSwitches.BuildByteSets` | llvm_mode/split-switches-pass.so.cc:93-101 | the sets of byte values per position |
| `SplitSwitches.FindSmallest` | llvm_mode/split-switches-pass.so.cc:103-115 | the first unchecked byte with the fewest values; one exists, so the assertion holds |
| `SplitSwitches.SortedBytes` | llvm_mode/split-switches-pass.so.cc:186-189 | sorted, each position being the number of smaller elements |
| `SplitSwitches.Divide` | llvm_mode/split-switches-pass.so.cc:195-209 | the two halves in order |
| `SplitSwitches.SetIncomingBlock` | llvm_mode/split-switches-pass.so.cc:164-173 | only the first occurrence is replaced |
| `SplitSwitches.Splitter.UpdatePhis` | llvm_mode/split-switches-pass.so.cc:155-174 | all PHI nodes of the case's block, and no others |
| `SplitCompares.Module.RunOnModule` | llvm_mode/split-compares-pass.so.cc:516-553 | the whole cascade keeps the value of every instruction for all operands; only EQ, NE, UGT and ULT are left, and no compare of width 64, 32 or 16 (from the chosen width down) |
| `SplitCompares.Module.RewriteAll` | llvm_mode/split-compares-pass.so.cc:104-173 | one pass over the collected compares keeps all values and leaves no compare of the kind it takes |
| `SplitCompares.Module.Collect` | llvm_mode/split-compares-pass.so.cc:343-383 | the work list is exactly the selected compares, once each |
| `SplitCompares.RewriteSound` | llvm_mode/split-compares-pass.so.cc:230-317 | each of the three rewrites computes the compare it replaces, for all operands of every width it takes |
| `SplitCompares.ReplacedMeaning` | llvm_mode/split-compares-pass.so.cc:390-512 | replacing one compare changes the value of no other instruction |
| `SplitCompares.ReplacedKinds` | llvm_mode/split-compares-pass.so.cc:390-512 | which predicates and widths a replacement can introduce; nothing new is selected by the same pass |
| `SplitCompares.Halves` | llvm_mode/split-compares-pass.so.cc:401-511 | comparing by high and low halves |
| `SplitCompares.HalfValues` | llvm_mode/split-compares-pass.so.cc:404-412 | shift and truncation give quotient and remainder by 2^(w/2) |
| `SplitCompares.SignBitValue` | llvm_mode/split-compares-pass.so.cc:257-267 | shift and truncation give the sign bit |
| `Conditions.Pass.VisitBrInst` | llvm_mode/maxafl-pass.cpp:512-669 | the visit appends exactly the vector `Emit`, hands out ids in order and never twice, and returns `Reported` |
| `Conditions.Pass.VisitBranch` | llvm_mode/maxafl-pass.cpp:1392-1409 | every branch record of the module carries its position as id and the vector `Emit` gives for its condition under the ids of now, however many branches follow; earlier records stay as they were |
| `Conditions.Pass.VisitLeaf` | llvm_mode/maxafl-pass.cpp:523-542 | a leaf gets an id once; id i is the position of its record |
| `Conditions.Pass.VisitXor` | llvm_mode/maxafl-pass.cpp:612-626 | the expansion of an exclusive or, whose second half reuses the ids of the first |
| `Conditions.Pass.VisitPair` | llvm_mode/maxafl-pass.cpp:603-610 | an operator in front of its two operands |
| `Conditions.CompileDenotes` | llvm_mode/maxafl-pass.cpp:575-626 | the emitted vector, its flag read as a De Morgan complement, denotes the condition, or its complement when visited with `no` |
| `Conditions.EmitIsFlatten` | llvm_mode/maxafl-pass.cpp:599-626 | a supported condition is emitted as the prefix code of its expression |
| `Conditions.WellFormedIffSupported` | llvm_mode/maxafl-pass.cpp:548-632 | the vector is a prefix code exactly when every node is supported |
| `Conditions.FlattenPrefixFree` | llvm_mode/maxafl-pass.cpp:601-626 | a vector is read in one way only |
| `Conditions.ReportedVsSupported` | llvm_mode/maxafl-pass.cpp:584-597 | the returned value can be trusted where no operand is constant |
| `Conditions.ReportedButEmpty` | llvm_mode/maxafl-pass.cpp:584-587 | below a constant it cannot: a condition that emits nothing is reported as visited |
| `Conditions.EmitStable` | llvm_mode/maxafl-pass.cpp:529-535 | ids given later do not change what was emitted |
| `Conditions.SupportedIffReported` | llvm_mode/maxafl-pass.cpp:548-632 | a condition is supported exactly when it is reported and nothing unsupported stands beside a constant |
| `InfoFile.RoundTrip` | afl-fuzz.c:1582-1641 | for any list of units with distinct module ids, one of them written by a pass: compare i of it is at `cmp_info_ptr[m] + i` and branch j at `br_info_ptr[m] + j`, each with its own id; the triples are packed; the vector is read back exactly when its ids and kinds fit 16 bits |
| `InfoFile.PassNumbers` | llvm_mode/maxafl-pass.cpp:1392-1392 | a finished pass has numbered both kinds of records by their position |
| `InfoFile.NumberedRoundTrip` | afl-fuzz.c:1582-1641 | the same for any unit whose records are numbered |
| `InfoFile.CompiledBranchRuns` | afl-fuzz.c:1617-1636 | any supported condition of a finished pass, written among any units and read back: the runtime finds at the branch's offset the prefix code of exactly the compiled expression, as long as the module has no more than 32768 leaves |
| `InfoFile.StoredIffSmall` | afl-fuzz.c:1633-1635 | the cast to `s16` keeps a vector exactly when all its numbers fit |
| `InfoFile.S16Exact` | afl-fuzz.c:1633-1634 | a number survives `%d` into `u32` and the cast to `s16` exactly when it lies in -32768..32767 |
| `InfoFile.LeafBecomesOperator` | llvm_mode/afl-llvm-rt.o.c:603-613 | leaf id 65535 comes back as the operator mark |
| `InfoFile.TriplesDisjoint` | afl-fuzz.c:1618-1638 | the triples of different branches do not overlap and stay inside the array |
| `InfoFile.LoadedFound` | afl-fuzz.c:1587-1640 | each unit's records are where its pointers say |
| `InfoFile.Reader.SetupInfo` | afl-fuzz.c:1582-1641 | the reader, fed the file of any sections, ends with their tables; on any other stream it ends too |
| `InfoFile.Reader.LoadCmps` | afl-fuzz.c:1586-1599 | the compare section |
| `InfoFile.Reader.LoadBranch` | afl-fuzz.c:1605-1638 | one branch record, its offset the next free triple |
| `InfoFile.Reader.LoadHeader` | afl-fuzz.c:1605-1616 | the five numbers of a branch record |
| `InfoFile.Reader.LoadVector` | afl-fuzz.c:1623-1636 | the triples of a branch |
| `InfoFile.Stream.PutUnit` | llvm_mode/maxafl-pass.cpp:1533-1546 | what the pass appends for a unit is its two sections |
| `InfoFile.Stream.PutBranches` | llvm_mode/maxafl-pass.cpp:105-114 | branch records with their vectors |
| `InfoFile.Stream.PutCmps` | llvm_mode/maxafl-pass.cpp:61-64 | compare records |
| `InfoFile.SaveAppends` | llvm_mode/maxafl-pass.cpp:406-406 | files appended one after the other make one file |
| `InfoFile.Reader.LoadBranches` | afl-fuzz.c:1601-1640 | the branch section |
| `InfoFile.Reader.LoadSection` | afl-fuzz.c:1582-1640 | a header and the section it announces |
| `InfoFile.Stream.PutEntries` | llvm_mode/maxafl-pass.cpp:108-111 | the vector of a branch |
| `StackMachine.EvaluateBranch` | llvm_mode/afl-llvm-rt.o.c:599-682 | the loop over the flat triples never under- or overflows its array when the depth fits and leaves the value of the expression |
| `StackMachine.WellFormedScan` | llvm_mode/afl-llvm-rt.o.c:601-682 | any well-formed vector is scanned without underflow and leaves exactly one value |
| `StackMachine.SlotsNeeded` | llvm_mode/afl-llvm-rt.o.c:560-680 | the depth needed is exactly `Height`, computed on the tree |
| `StackMachine.CompiledHeight` | llvm_mode/afl-llvm-rt.o.c:560 | the depth of a compiled condition from the condition |
| `StackMachine.ChainHeights` | llvm_mode/afl-llvm-rt.o.c:560 | a left-nested chain of twenty operators no longer fits twenty slots, a right-nested one always does |
| `StackMachine.ScanDual` | llvm_mode/afl-llvm-rt.o.c:599-682 | running any vector with the other sign gives exactly the flipped stack, or underflows where the first run does, ties and signed zeros included |
| `StackMachine.ResultDual` | llvm_mode/afl-llvm-rt.o.c:599-682 | duality for a whole expression |
| `StackMachine.OrientationCancels` | afl-fuzz.c:2792-2796 | after the fuzzer has turned the sign where the run had not, neither sign nor distance depends on which side is the heavier one |
| `StackMachine.OrientationsAgree` | llvm_mode/afl-llvm-rt.o.c:599-599 | the signed comparison of the run and the unsigned one of the fuzzer choose the same orientation exactly when none or both of the counts have the top bit |
| `StackMachine.OperatorsDual` | llvm_mode/afl-llvm-rt.o.c:613-643 | the two operators are each other's dual |
| `StackMachine.DualityNeedsPlain` | llvm_mode/afl-llvm-rt.o.c:668-680 | a compare leaf is dual exactly when its distance has not the magnitude of one of the two constants; a concrete distance of a floating-point compare that has |
| `StackMachine.SignOfResult` | llvm_mode/afl-llvm-rt.o.c:605-680 | the sign bit of every value, zeros included, from the (sign, is zero) pairs of the leaves alone: of two zeros the second operand wins |
| `StackMachine.SideOfOperators` | llvm_mode/afl-llvm-rt.o.c:613-643 | the operators act on those pairs |
| `StackMachine.SignIsDenotation` | llvm_mode/afl-llvm-rt.o.c:605-680 | while no +0 and -0 are both among the distances read, the sign bit is the denotation under complemented leaves when `sign` is set, and its complement otherwise |
| `StackMachine.ZerosClash` | llvm_mode/afl-llvm-rt.o.c:624-643 | a concrete OR over +0 and -0 whose sign bit is not that |
| `StackMachine.ConditionSign` | llvm_mode/afl-llvm-rt.o.c:605-682 | from the source condition, through the emitted vector: one value is left, with the sign of the leaves' pairs, and with that of the condition where no +0 meets -0 |
| `StackMachine.CompoundSignIff` | llvm_mode/afl-llvm-rt.o.c:599-682 | where no +0 meets -0, the sign bit of a compiled condition says whether the condition holds exactly when the condition changes with all its leaves complemented |
| `StackMachine.SignOfOperators` | llvm_mode/afl-llvm-rt.o.c:624-643 | minimum and maximum are boolean OR and AND of the sign bits exactly when they do not meet zeros of different sign in the one order |
| `StackMachine.CompoundSignIsNotTruth` | llvm_mode/afl-llvm-rt.o.c:599-682 | a concrete AND of two equalities, with distances they report, whose sign bit is not its truth |
| `StackMachine.StepInPlace` | llvm_mode/afl-llvm-rt.o.c:601-680 | one entry on the array |
| `StackMachine.OperatorsChoose` | llvm_mode/afl-llvm-rt.o.c:613-643 | each operator gives back one of its operands, the lesser or the greater, the known true counting below and the known false above every distance |
| `StackMachine.ResultChooses` | llvm_mode/afl-llvm-rt.o.c:605-680 | the value of an expression is that of one of its leaves, and it is at most any threshold exactly when the leaves are in the AND/OR reading of the operators |
| `StackMachine.ExtremeOfAll` | llvm_mode/afl-llvm-rt.o.c:605-680 | over compares, operators of one kind leave the least, or the greatest, of all the signed distances |
| `Distance.SignIsTruth` | llvm_mode/afl-llvm-rt.o.c:814-887 | the sign bit, minus zero included, is the truth of each of the ten predicates on the truncated operands |
| `Distance.EqualOperandsClash` | llvm_mode/afl-llvm-rt.o.c:814-887 | the clash is met by real distances: `a > a || c == c` is true and evaluated as a false condition is |
| `Distance.MagnitudeIsCircular` | llvm_mode/afl-llvm-rt.o.c:845-853 | for EQ and NE the magnitude is the distance around the circle of 2^size values |
| `Distance.MagnitudeIsDistance` | llvm_mode/afl-llvm-rt.o.c:840-887 | for any four arguments: the four unsigned and the four signed order predicates report how far apart the truncated operands are in their reading, EQ and NE the lesser of both |
| `Distance.FartherIsGreater` | llvm_mode/afl-llvm-rt.o.c:858-878 | the distance grows strictly as the operands move apart |
| `Distance.DistanceIsPlain` | llvm_mode/afl-llvm-rt.o.c:786-887 | distances are whole numbers, so never one of the machine's constants, for any sign- and zero-extended arguments |
| `Distance.InsertedSignIffNarrow` | llvm_mode/maxafl-pass.cpp:671-704 | with the size of 32 the pass always passes, the sign is right for all operands exactly when the width is at most 32 |
| `Distance.NarrowCompare` | llvm_mode/maxafl-pass.cpp:429-464 | extending and truncating to a size that is no smaller changes no predicate |
| `Distance.Table.VisitCmpInteger` | llvm_mode/afl-llvm-rt.o.c:786-890 | for any four argument words: a visit stores the distance unless the entry is at the success mark, and lists the compare exactly once a run |
| `Distance.Table.VisitEtc` | llvm_mode/afl-llvm-rt.o.c:511-528 | a leaf that is no compare stores its value as it is, and is not listed |
| `Distance.Table.ClearHits` | afl-fuzz.c:2923-2929 | exactly the listed leaves are cleared: all compares, while the other leaves keep the values of the run before |
| `Distance.NeverNoHit` | llvm_mode/afl-llvm-rt.o.c:809-812 | no stored distance looks like the no-hit mark, for any arguments |
| `EndToEnd.RunBranch` | llvm_mode/afl-llvm-rt.o.c:546-683 | a branch of a finished pass, written among any units, read back, evaluated over the values its module's leaves have stored, and turned by the fuzzer: its sign is that of the leaves, its distance that of the expression whichever side is the heavier one, and, where no +0 meets -0, the sign is that of the source condition under complemented leaves |
| `EndToEnd.BranchReady` | afl-fuzz.c:1582-1641 | reading back leaves everything the runtime needs where it looks: the record, the vector at its offset, the leaves behind `cmp_info_ptr`, and a depth that fits |
| `EndToEnd.VisitBr` | llvm_mode/afl-llvm-rt.o.c:546-683 | the runtime's visit, from the tables and the pointers of the module |
| `EndToEnd.ComparesStored` | llvm_mode/afl-llvm-rt.o.c:786-890 | integer compares that have run store the truth of their predicates on the bits of the size they got, as plain distances |
| `CycleCut.CutCycles` | llvm_mode/maxafl-pass.cpp:1147-1189 | the DFS loop ends; only edges are removed, each removed edge closed a cycle, everything the entry reached it still reaches, and nothing it reaches lies on a cycle (the call graph loop at lines 964-1016 is the same code) |
| `CycleCut.Scan` | llvm_mode/maxafl-pass.cpp:1165-1178 | the scan of the in-edges: back edges of the stack are collected up to the first new vertex |
| `CycleCut.FinalState` | llvm_mode/maxafl-pass.cpp:964-1016 | the state with an empty stack gives the promise of the cut |
| `CycleCut.SortSucceedsIff` | llvm_mode/maxafl-pass.cpp:1201-1203 | the sorter meets no cycle exactly when no cycle of the original graph lies in the part the entry cannot reach |
| `CycleCut.UnreachableCycleStays` | llvm_mode/maxafl-pass.cpp:1147-1203 | a concrete graph, a loop the entry does not reach, comes out unchanged and cyclic |
| `Meic.ComputeMeic` | llvm_mode/maxafl-pass.cpp:1231-1285 | every block's count is the greatest weight of a path from it in the cut graph, paths ending at blocks that call the exit function |
| `Meic.Body.MeicStep` | llvm_mode/maxafl-pass.cpp:1275-1285 | a block's value from the final values of its successors |
| `Meic.Body.MeicExists` | llvm_mode/maxafl-pass.cpp:1201-1203 | in a sorted graph each block has such a value |
| `Meic.Body.MeicUnique` | llvm_mode/maxafl-pass.cpp:1275-1285 | and only one |
| `Meic.Body.SortedIsAcyclic` | llvm_mode/maxafl-pass.cpp:1201-1203 | the sorter's contract can only be met by a graph without cycles |
| `Meic.SuccessorLater` | llvm_mode/maxafl-pass.cpp:1232-1232 | against the emitted order, successors come first: only final values are read |
| `Meic.OwnCount` | llvm_mode/maxafl-pass.cpp:1234-1273 | own size plus the counts of the called functions known so far, and whether the exit function is called |
| `Meic.WeightAppend` | llvm_mode/maxafl-pass.cpp:1234-1273 | every instruction of a block counts one, and a call of a known function its entry besides |
| `Meic.ExitsAppend` | llvm_mode/maxafl-pass.cpp:1254-1270 | a path ends at a call of `ErrFatal`, and only where its own count is known |
| `Meic.MaxSuccessor` | llvm_mode/maxafl-pass.cpp:1277-1285 | the greatest successor count |
| `Meic.EntryMeic` | llvm_mode/maxafl-pass.cpp:1522-1530 | the value stored for a function is that of its entry block |
| `Meic.AnalyzeModule` | llvm_mode/maxafl-pass.cpp:1214-1531 | the functions against the sorted order of the cut call graph, each under the map at its turn, vertices without a body skipped; every function on no cycle of calls ends with its heaviest path, each callee weighing its own final entry |
| `Meic.Module.FinalMapConsistent` | llvm_mode/maxafl-pass.cpp:964-1531 | the same of the final map: for any module, any cut of its call graph that keeps the promise of the cut, and any order the sorter can give |
| `Meic.Module.CalleesFirst` | llvm_mode/maxafl-pass.cpp:964-1018 | what the cut and the sort are for: a function on no cycle of calls is analyzed after all functions it calls |
| `Meic.Module.KeptEdges` | llvm_mode/maxafl-pass.cpp:1006-1009 | the cut removes no edge of a vertex on no cycle |
| `Tmin.Minimizer.Minimize` | afl-tmin.c:422-658 | for any deterministic oracle that accepts the input: the run ends, its buffer is that of the minimizer that skips nothing, it is accepted, deleting any single byte of it is rejected, and it is the input with bytes dropped or turned into '0' |
| `Tmin.MinimizedOneMinimal` | afl-tmin.c:478-556 | 1-minimality of the end state, for every oracle and input |
| `Tmin.MinimizedBlockMinimal` | afl-tmin.c:486-549 | no aligned block of any length a deletion stage tries can be deleted from the end state either |
| `Tmin.MinimizedAccepted` | afl-tmin.c:422-658 | an accepted input is minimized to an accepted buffer |
| `Tmin.MinimizedSimpler` | afl-tmin.c:422-658 | the end state is a subsequence of the input up to bytes turned into '0' |
| `Tmin.ZerosDecrease` | afl-tmin.c:478-643 | termination: a pass that changes the buffer shortens it, or keeps the length and leaves fewer bytes other than '0' |
| `Tmin.RepeatedBlock` | afl-tmin.c:509-520 | deleting a block equal to the one before it gives the same bytes as deleting that one: the skip loses nothing |
| `Tmin.Minimizer.SameAsPrevious` | afl-tmin.c:514-520 | when the comparison succeeds, the candidate was rejected already |
| `Tmin.Minimizer.DeleteBlocks` | afl-tmin.c:494-542 | one deletion stage with its skip equals the stage that tries every block; the changed flag is exact |
| `Tmin.Minimizer.TryDelete` | afl-tmin.c:522-540 | the edit in place commits exactly the accepted candidate |
| `Tmin.Minimizer.DeleteAllBlocks` | afl-tmin.c:486-549 | all block lengths from the power of two down to 1 |
| `Tmin.Minimizer.NormalizeBlocks` | afl-tmin.c:437-471 | blocks that are '0' already need no run |
| `Tmin.Minimizer.CountSymbols` | afl-tmin.c:562-570 | the alphabet counts are the multiplicities in the buffer |
| `Tmin.AbsentSymbol` | afl-tmin.c:572-581 | skipping symbols that were absent when the stage began loses nothing |
| `Tmin.Minimizer.MinimizeAlphabet` | afl-tmin.c:558-600 | the stage equals the one that tries all 256 symbols; the changed flag is exact |
| `Tmin.Minimizer.MinimizeCharacters` | afl-tmin.c:608-636 | the stage equals the one that tries every byte; the changed flag is exact |
| `Tmin.Minimizer.TryZero` | afl-tmin.c:452-467 | a block is zeroed exactly when the result is accepted |
| `Tmin.Minimizer.TryReplace` | afl-tmin.c:583-597 | a symbol is replaced everywhere exactly when the result is accepted |
| `Tmin.Minimizer.MinimizeSymbols` | afl-tmin.c:558-640 | a pass after its deletion stage, with an exact changed flag |
| `Tmin.PresentSymbol` | afl-tmin.c:579-593 | a symbol that was present still is when its turn comes, so trying it can change the buffer |
| `StageLaws.MinimizedByStages` | afl-tmin.c:422-658 | the minimizer stage by stage: it starts from the block-normalized input, goes through at least one pass of deletions, alphabet and characters, each stage by its law, and ends after a pass that changes nothing or where no block can be deleted; the result is the normalized input with bytes dropped or turned into '0' |
| `StageLaws.NormalizeIsLaw` | afl-tmin.c:437-471 | each block is '0' exactly when the buffer with the blocks before it as decided, '0' there and the input behind is accepted, and as in the input otherwise |
| `StageLaws.DeleteIsLaw` | afl-tmin.c:494-542 | one block length: each block stays exactly when the blocks kept before it and all behind it are not accepted without it |
| `StageLaws.DeleteAllIsLaw` | afl-tmin.c:486-549 | the lengths halved down to one |
| `StageLaws.AlphabetIsLaw` | afl-tmin.c:572-600 | each symbol is '0' everywhere exactly when the buffer with the lower symbols as decided, '0' in its place and the higher ones as before is accepted, and stays otherwise |
| `StageLaws.CharactersAreBlocks` | afl-tmin.c:608-636 | the character stage is normalization by blocks of one byte, so the same law holds of it |
| `StageLaws.StageLengths` | afl-tmin.c:430-491 | the lengths the stages start from are the least powers of two of the size asked for |
| `SteadyOracles.NotCharacterMinimal` | afl-tmin.c:556-556 | a concrete input and oracle whose end state still has a byte that could become '0': the pass loop leaves before the character stage |
| `SteadyOracles.SteadyMinimized` | afl-tmin.c:478-643 | for every oracle where accepting a '0' never makes another one acceptable before it, no byte of the minimized buffer could become '0' |
| `SteadyOracles.SteadyIff` | afl-tmin.c:608-636 | that condition holds exactly when the character stage, on any accepted input and cut off anywhere, leaves no byte behind it that could become '0' |
| `SteadyOracles.MonotoneSteady` | afl-tmin.c:608-636 | oracles for which a '0' never helps meet it |
| `SteadyOracles.UnsteadyYetMinimal` | afl-tmin.c:478-643 | it is not necessary: a concrete oracle that fails it, and minimizes every input to nothing |
| `Powers.NextP2` | afl-tmin.c:411-417 | the loop ends without 32-bit overflow up to 2^31 |
| `Powers.NextPowerLeast` | afl-tmin.c:409-417 | the result is a power of two, at least the argument, and the least such |
| `Trim.Entry.TrimCase` | afl-fuzz.c:5348-5471 | the trimmer with its changing `len_p2` ends, leaves the buffer of the naive trimmer, returns the status of the last run, rewrites the file exactly when it was not broken off, so file and buffer agree exactly when it was not or nothing had been cut, and re-scores with the trace of the first cut kept exactly when something was cut and it was not broken off |
| `Trim.BrokenOffShorter` | afl-fuzz.c:5399-5400 | a concrete target and any twelve bytes: the trim is broken off with eight bytes left |
| `Trim.TrimmedGood` | afl-fuzz.c:5378-5441 | for every target: what is kept is a subsequence of the input, keeps the first four bytes and at least four bytes, and hashes as before; it is the input or shorter |
| `Trim.Entry.TrimPass` | afl-fuzz.c:5381-5438 | one step size in place; the progress never passes `q->len / remove_len` |
| `Trim.FewSteps` | afl-fuzz.c:5378-5386 | a pass makes at most 1024 runs |
| `Trim.Entry.MoveTail` | afl-fuzz.c:5414-5420 | the move closes the gap |
| `Trim.Entry.WriteWithGap` | afl-fuzz.c:3189-3230 | the file run is the buffer without the gap |
| `TrimLaws.TrimmedByPasses` | afl-fuzz.c:5367-5443 | the trimmer pass by pass: steps from a sixteenth of the length halved while not too small for the length left; each pass by its law; only the last may be broken off |
| `TrimLaws.PassIsLaw` | afl-fuzz.c:5381-5438 | one step size: the first block stays, each later one exactly when the target without it does not keep its hash; the status is that of the last run; a run that breaks off leaves the rest |
| `TrimLaws.TrimmedExhaustive` | afl-fuzz.c:5367-5443 | a trim that completes and cuts nothing has tried every block of every step size from the first down to the smallest |
| `QueueCover.Queue.UpdateBitmapScore` | afl-fuzz.c:1353-1398 | slots go to the entry where it is no worse; the score counts as changed exactly when it takes one; reference counts and kept traces stay right and the favored flags as they were; the cover of all winners is kept exactly under `KeepsCover`, and always when the run hits the kept bytes or the entry had none |
| `QueueCover.CoverAfterScoring` | afl-fuzz.c:1357-1397 | the exact condition under which a scoring leaves every winner's trace holding its slots |
| `QueueCover.Queue.BestHolders` | afl-fuzz.c:1357-1389 | after a scoring each slot of the trace is held by the entry scored exactly when its speed times size is no greater than that of the holder before, and all others stay |
| `QueueCover.SameTraceKeepsCover` | afl-fuzz.c:1390-1394 | re-scoring with the same bytes, or a first scoring, meets it |
| `QueueCover.Queue.TakeSlot` | afl-fuzz.c:1372-1396 | the old holder loses a reference and, with the last, its trace; the new one gains both |
| `QueueCover.Queue.CullQueue` | afl-fuzz.c:1406-1460 | after every cull, also one that returns early because no score has changed: while the kept traces are right, each rated byte is hit by a favored entry, and the counters are the numbers of favored and of favored unfuzzed entries |
| `QueueCover.Queue.ChooseFavored` | afl-fuzz.c:1423-1451 | the sweep makes exactly the greedy choice and leaves flags and counters of it |
| `QueueCover.Queue.FavoredCover` | afl-fuzz.c:1431-1451 | in any state in which no score has changed since the last cull: while the kept traces are right, a favored entry hits every rated byte |
| `QueueCover.Queue.FavoredCounted` | afl-fuzz.c:1446-1450 | and the two counters count the favored and the favored unfuzzed entries |
| `QueueCover.Queue.Add` | afl-fuzz.c:868-903 | a new entry changes nothing of the last choice |
| `QueueCover.Queue.MarkFuzzed` | afl-fuzz.c:7957-7963 | a favored entry fuzzed for the first time leaves the pending ones, and the counter follows |
| `QueueCover.Queue.Measure` | afl-fuzz.c:3329-3346 | new speed and length change factors, not the last choice |
| `QueueCover.PicksCover` | afl-fuzz.c:1434-1446 | every uncovered rated byte gets into a chosen trace |
| `QueueCover.PicksDistinct` | afl-fuzz.c:1434-1447 | no entry is chosen twice |
| `QueueCover.ChoiceIsGreedy` | afl-fuzz.c:1431-1451 | the choice slot by slot: a holder is favored exactly when its slot is in the trace of no entry favored before |
| `QueueCover.StaleTraceCountsTwice` | afl-fuzz.c:1357-1447 | two scorings of one entry on runs that hit different bytes: the second loses the cover, and the next choice counts the entry twice |
| `QueueCover.Queue.ReleaseSlot` | afl-fuzz.c:1375-1382 | the holder loses a reference, and its trace with the last one |
| `QueueCover.Queue.ResetFavored` | afl-fuzz.c:1423-1429 | no entry stays favored; traces stay |
| `QueueCover.Queue.Favor` | afl-fuzz.c:1442-1450 | an entry is favored and counted |
| `VirginMap.HasNewBits` | afl-fuzz.c:972-1038 | the word loop returns the byte-wise verdict and clears exactly the bits of the trace |
| `VirginMap.VirginIsComplement` | afl-fuzz.c:1027-1027 | after any sequence of traces each virgin byte is the complement of the union of the trace bytes seen there |
| `VirginMap.VerdictMeaning` | afl-fuzz.c:1002-1025 | 2 exactly when some byte is hit for the first time ever, at least 1 exactly when some bit is new |
| `VirginMap.RepeatIsOld` | afl-fuzz.c:965-970 | a trace seen before gives 0 |
| `VirginMap.PartialIsVerdict` | afl-fuzz.c:994-1033 | words that are not pristine hide no new byte, words without overlap no new bit |
| `Tokencap.Dump` | libtokencap/libtokencap.so.c:106-142 | the printer never leaves its buffer and prints the escaped line exactly for lengths 3 to 32 |
| `Tokencap.RoundTrip` | afl-fuzz.c:1856-1983 | the loader reads the line of any token of 1 to 128 bytes back as it was, and stops on the empty or an overlong one |
| `Tokencap.CapturedIff` | libtokencap/libtokencap.so.c:116-118 | a captured token survives exactly when it is not a text that starts with its NUL |
| `Tokencap.CapturedFile` | afl-fuzz.c:1856-1983 | a whole file of captured tokens is loaded in order and complete exactly when no empty text is among them; `fgets` cuts it into its lines |
| `Tokencap.Canonical` | afl-fuzz.c:1864-1976 | printing again what any accepted line gave is read as the same token |
| `Tokencap.WrittenLine` | afl-fuzz.c:1864-1976 | a line `name@n=token` with blanks around and between gives its token exactly when n is at most the level, is passed over above it, and always counts without `@n` |
| `Tokencap.FrontIff` | afl-fuzz.c:1929-1969 | a byte is read from the front exactly when it stands there in one of its spellings: as it is, behind a backslash, or as two digits of either case |
| `Tokencap.ParsePrinted` | afl-fuzz.c:1864-1919 | nothing of a printed line is taken for blanks, a comment, a label or a level |
| `Tokencap.UnescapeEscapeAll` | afl-fuzz.c:1929-1969 | unescaping undoes escaping |
| `Tokencap.CopyKeyword` | afl-fuzz.c:1921-1969 | the write pointer never passes the `rptr - lptr` bytes allocated, for any line |
| `Tokencap.ParseLine` | afl-fuzz.c:1864-1976 | the pointer walk with its NULs written in place computes the outcome for any line |
| `Tokencap.CutRight` | afl-fuzz.c:1869-1873 | blanks are cut at the right end |
| `Tokencap.Extras.LoadFile` | afl-fuzz.c:1856-1983 | the loop over the file: all tokens in order with their least and greatest length, or the first malformed line stops it |
| `Tokencap.Extras.ReadLine` | afl-fuzz.c:1856-1856 | `fgets` takes through the newline, at most the buffer less one |
| `Tokencap.BoundsHold` | afl-fuzz.c:1971-1980 | the lengths kept bound every token loaded, and are those of a token or what they were |
| `Tokencap.SprintHex` | libtokencap/libtokencap.so.c:127-128 | four characters and the NUL behind them |
| `Tokencap.PutByte` | libtokencap/libtokencap.so.c:120-136 | one byte of the token, as it is or in four characters |
| `Tokencap.SkipWhile` | afl-fuzz.c:1866-1867 | the pointer stops at the first other byte, at the NUL at the latest |
| `Tokencap.NextByte` | afl-fuzz.c:1929-1969 | one turn of the copy: an escape, or a printable byte, or a fatal error |
| `Tokencap.TakeQuote` | afl-fuzz.c:1882-1887 | the closing quote must be there and becomes the NUL |
| `Tokencap.ParseBody` | afl-fuzz.c:1889-1905 | label and level |
| `Tokencap.ParseValue` | afl-fuzz.c:1907-1976 | the quoted keyword |
| `Tokencap.StringLength` | afl-fuzz.c:1869-1869 | `strlen` |
| `Dislocator.Heap.Alloc` | libdislocator/libdislocator.so.c:96-150 | a buffer is returned exactly when the total stays within the limit and pages are granted; it is zero, ends at its guard page, and no other byte changes; otherwise nothing changes |
| `Dislocator.Heap.Calloc` | libdislocator/libdislocator.so.c:156-182 | overflowing products are refused, all others are the allocation of the product |
| `Dislocator.Heap.Malloc` | libdislocator/libdislocator.so.c:189-201 | as the allocation, filled with the clobber byte |
| `Dislocator.Heap.Free` | libdislocator/libdislocator.so.c:208-230 | a live buffer's mapping becomes unreadable and its length leaves the total; a freed one is noticed before anything changes |
| `Dislocator.Heap.Realloc` | libdislocator/libdislocator.so.c:238-257 | always a new buffer with the common front copied and the old one freed; without a new buffer everything stays |
| `Dislocator.GuardedBuffers` | libdislocator/libdislocator.so.c:130-146 | header and buffer can be touched, the page behind the buffer and all of a freed mapping cannot |
| `Dislocator.OverflowCheck` | libdislocator/libdislocator.so.c:160-164 | the division finds exactly the products that do not fit 64 bits |
| `Dislocator.LimitCheck` | libdislocator/libdislocator.so.c:101-101 | the two comparisons refuse exactly the sums above the limit |
| `Dislocator.PtrUnique` | libdislocator/libdislocator.so.c:130-140 | different blocks have different addresses, empty ones too |
| `Dislocator.ContentsKept` | libdislocator/libdislocator.so.c:243-250 | what happens in one mapping leaves the contents of all others |
| `Dislocator.Heap.Move` | libdislocator/libdislocator.so.c:243-250 | the common front is copied before the old buffer is freed |
| `Dislocator.Heap.Memcpy` | libdislocator/libdislocator.so.c:247-247 | only the front of the new buffer changes |

## Left out

- Pipes, shared memory, signals and the file system appear only as their effects; failing reads and writes end both programs of the fork server protocol and are not modelled.
- ForkServer: process numbers are not reused, so a kill sent after the process is gone hits nothing; the handler of Ctrl-C, dumb mode and the handshake before the first request are not modelled; `cycle_cnt` of the persistent loop is an arbitrary choice of the child to stop or to exit.
- `Tmin.Minimizer.Minimize`: crash mode, the counters shown and hash collisions; the oracle is any deterministic predicate on the bytes.
- `SteadyOracles.SteadyMinimized`: its condition is sufficient, not necessary (`SteadyOracles.UnsteadyYetMinimal`); what an oracle does on buffers no run visits does not matter to the end state.
- `Powers.NextP2`: requires at most 2^31, beyond which the 32-bit loop does not end.
- `Trim.Entry.TrimCase`: the statistics, `show_stats`, and the entry's other fields; the scoring it calls is `QueueCover.Queue.UpdateBitmapScore`.
- `CycleCut.CutCycles`: loop back edges found by LLVM are removed from the graph before this loop and are not part of this model.
- `Meic.ComputeMeic`: the topological sort of Boost enters by its contract; counts are unbounded integers, the `int` of the C++ code can overflow.
- `Meic.AnalyzeModule`: the module number stored beside each count, the calls inserted at call sites, and functions without a name, which share one key of the map.
- `SplitSwitches.Splitter.SplitSwitches`: requires whole-byte widths (for the others see `SplitSwitches.MeaningKeptIffWholeBytes`) and what LLVM guarantees of a switch; the search for switches in a module, which skips those without cases, and values of more than 64 bits are left out.
- SplitSwitches: instructions are not modelled beyond the tested byte, the two successors and the incoming blocks of PHI nodes.
- `SplitCompares.Module.RunOnModule`: compares of vectors and pointers are not touched by the passes; the blocks created are modelled by the value the PHI picks; compares on one bit and LLVM's verifier are left out.
- `Conditions.Pass.VisitBranch`: the search for conditional branches, which passes over one whose operand is printed as `i1 %9`; the weights of both sides enter as given.
- `Conditions.Pass.VisitBrInst`: operands that are constant expressions or arguments, and the inserted runtime calls.
- `StackMachine.EvaluateBranch`: requires the depth to fit, as the C code does without a check; a branch that has passed already, the hit counters and the adaptive objective modes, whose multipliers involve 0.1, are left out, as are NaN and infinity.
- `Distance.Table.VisitCmpInteger`: sizes 8, 16 and 32, where the conversion to double is exact; 64-bit operands are rounded and floating-point compares are left out.
- `EndToEnd.RunBranch`: requires no more than 32768 leaves in the module, kinds of 16 bits, a depth that fits, and counts below 2^31; `InfoFile.StoredIffSmall`, `StackMachine.ChainHeights` and `StackMachine.OrientationsAgree` say what happens beyond.
- `InfoFile.Reader.SetupInfo`: the text of the file is a stream of numbers; the fixed sizes of the shared arrays are not modelled, and the fields it resets to constants are left out.
- `QueueCover.Queue.UpdateBitmapScore`: a bitmap is the set of its set positions, so the packing into bits of `minimize_bits` is not modelled.
- `QueueCover.Queue.CullQueue`: the files that mark redundant entries.
- `VirginMap.HasNewBits`: the 64-bit flavor only; `bitmap_changed` is not modelled.
- `Tokencap.Dump`: which addresses are read-only, and the comparison functions themselves.
- `Tokencap.Extras.LoadFile`: sorting by size afterwards; numbers beyond the range of `int`, on which `atoi` is undefined, are taken modulo 2^32.
- `Dislocator.Heap.Alloc`: one thread; `mprotect` does not fail; the two header words are kept apart from the bytes of memory, so a program that overwrites them is not modelled.
- `Dislocator.Heap.Realloc`: requires a null pointer or an address once returned, as `Dislocator.Heap.Free` does; any other address is undefined.
- The L-BFGS search, cost functions and havoc stages are numerical or random; the deterministic stages of `fuzz_one` behind an unconditional jump are never reached; splicing, the status screen, start-up checks and the compiler wrappers would add only plumbing.
- The transformation of string compares: it does not keep the sign of the result.
