# cccc: verified models of its hardest parts

`cccc` is a C-to-bytecode compiler and virtual machine with its own build system. This
project models the parts of it that hold real invariants and proves, in Dafny 4.11, what
they promise over every input, every run and every outcome of the system calls they make.

`dafny verify dfyconfig.toml` checks the whole project.

## What is modelled

**Reclaimed code and data space.** The debugger and the REPL compile throw-away wrappers;
their words go back as holes or to the top of the segment. `Holes` is the coalesced hole
list with its insertion, best-fit search, carving and absorbing; `SourceMap` the debugger's
source map; `TextSpace`, `TextMap` and `DataSpace` what compiles and releases do to the text
segment, the source map and the data segment; `CodeRuns` the whole protocol as a state
machine, whose invariant, kept by every run, is that every word has exactly one owner;
`CodeLives`, `CodeLines` and `DataLives` what runs promise about code, locations and globals:
which stay, which go, and that what stays is what was compiled; `CodeMoves` a run that reaches a case the debugger mishandles; `CodeSpace` the same operations
as classes with mutable fields and arrays, each proved equal to its step of the state machine.

**Build scheduler.** `TopoSort` is the depth-first sort, `Schedule` the legal histories of
target states and what follows from them, `Dispatch` the fork/reap loop, `BuildGraph` the
two together. `Depfile` is the dependency-file reader and cccc's own writer, `Staleness`
the mtime fast path over arbitrary runs of edits and builds.

**Code generation.** `ComplexGen` compiles complex-number trees to a register and stack
machine with executable semantics; `StaticChain` compiles access to a variable of an
enclosing function. Both are compiler-correctness theorems. `ComplexFold` is the constant
folder for the same trees, compared with the compiled code; `Binary` the two binary formats
on whole numbers it is compared in.

**Build shell.** `ShellParser` is the recursive-descent parser with its saturating cursor,
`ShellRaw` everything it can return, with right sides missing; `ShellRuns` and `ShellEval` the
evaluator with its saved descriptors and deferred waits.

**Smaller cores.** `SourceIndex` (the debugger's line index), `VaList` (variadic calls from
the call site to `va_arg`) and `Arena` (the bump allocator).

Imperative source is modelled by classes and methods over mutable fields and arrays; each
method is proved against a function of the old state or outright against its promise, and
the promises that span operations are lemmas about those functions. The answers of open,
pipe, fork, wait, mmap and the clock are left free or are parameters, so every contract
holds for all of them.

## What the proofs found

- `debugger_move_into_hole` (src/debugger.c:1771-1804) picks a hole, releases the copy at
  the top, and only then compiles into the hole. The release absorbs the hole exactly when
  it ends right below that copy; the wrapper then ends up above the top, owned by nothing
  (`MoveKeepsHole`, `MoveIntoAbsorbedHole`). Seven compiles and releases of one word each
  lead there from a fresh machine (`SevenSteps`).
- A compile that throws gives back its words wherever it threw, but its source locations
  only when none was recorded for a word that never came, and exactly then (`ThrowsAtTopMap`,
  `ThrowsInHoleMap`).
- A compile that throws after its hole was shrunk loses its words: they hold the filler,
  but no hole lists them (`ThrowAfterHole`). Without such a throw nothing is ever lost.
- An un-ended mark released late takes every word compiled above it since, and no older one
  (`LateReleaseTakesLive`), which is why a compile that threw is released before the next.
- The constant folder for complex arithmetic says it matches the runtime bit for bit
  (src/parse_expr.c:140-147). It rounds once per node where the code rounds once per
  operation, so in float a product or a quotient need not agree, nor does an integer
  converted to float, which the folder rounds to double first. Every other well-typed tree
  agrees (`FoldAgrees`, `OperatorAgreesExactly`, `ConversionAgreesExactly`).
- The comment on the block descriptor layout (src/parse_blocks.c:167-180) has each capture
  slot start at its alignment; the offset is only rounded for the slots before it, so
  exactly the captures that need no more than 8 bytes are always aligned
  (`CaptureAlignedIff`).
- The rule written by `write_deps_file` (src/main.c:58-110) is said to match what
  `read_dep_prereqs` parses. It reads back as its names exactly when the target holds no
  colon and none of the names a tab, a line end, a backslash or a hash (`WriteReadExactly`).
- The shell parser's end-of-input test accepts a word behind a last redirection and drops
  it, accepts a broken command behind a trailing `;` or `&` and drops it (`DropsWord`,
  `DropsCommand`), and accepts a pipe without a right side, which the evaluator then
  dereferences: `a | b |` and `a | b >` (`HalfPipe`). `ParsesExactlyRaw` says which tokens
  give any tree at all, `EvaluableExactly` which give one that can be evaluated. Such a pipe
  crashes exactly when each of its at most 64 stages got its pipe; it returns only if a pipe
  could not be made or the slots ran out first (`EvalPipeline`, `CrashesExactly`).
- A pipeline of 66 or more stages whose first 65 pipes could be made leaves the two ends of
  the last one open; no other pipeline leaves a descriptor open (`EvalPipeline`).
- An edit no later than the object goes unnoticed, so one in the tick of the build does, and
  two sources with one base name share one object (`SameTickIsMissed`, `SharedStemIsMissed`).
- The arena's room test is right exactly while adding the size to a block's pointer does not
  wrap around (`RoomIsExact`, `HugeWraps`).

## Model

| member | source | states |
|---|---|---|
| Holes.CanonicalUnique | src/codegen_func.c:880-913 | a sorted, disjoint, fully coalesced list is determined by the cells it frees, so every operation below has one possible result |
| Holes.InsertAdds | src/codegen_func.c:880-913 | inserting a taken range frees exactly that range and keeps the list canonical, merging left, right or both |
| Holes.AddHole | src/codegen_func.c:880-913 | the scan, the insertion and the two merges compute that insertion |
| Holes.FindHole | src/codegen_func.c:927-939 | best fit: no listed hole that is large enough is smaller, and the lowest one is taken on a tie; none exactly when none is large enough |
| Holes.CarveTakes | src/codegen_func.c:954-970 | taking a compile's words off the front of a listed hole frees exactly the rest |
| Holes.ShrinkHole | src/codegen_func.c:1054-1068 | the shrinking loop computes that carving, dropping a hole that is used up |
| Holes.AbsorbTakes | src/codegen_func.c:915-923 | absorbing lowers the limit through free cells only, stops at a taken one and leaves exactly the free cells below |
| Holes.AbsorbHoles | src/codegen_func.c:1026-1034 | the loop from the end of the list computes that |
| SourceMap.LowerBound | src/codegen_func.c:786-796 | the loop computes Bound, the index a binary search halves its way to, on any map however disordered |
| SourceMap.BoundSplits | src/codegen_func.c:786-796 | where everything below the pc comes first, which is less than sorted, that index is the border |
| SourceMap.BoundMonotone | src/codegen_func.c:820-827 | on any map the search for a lower pc never ends higher, so a range to forget is never inverted |
| SourceMap.OutsideKeeps | src/codegen_func.c:820-827 | dropping a range keeps the order and drops exactly the entries in it |
| SourceMap.ForgetRange | src/codegen_func.c:820-827 | two searches and one cut; on a sorted map exactly the entries in the range go |
| SourceMap.ForgetIsOutside | src/codegen_func.c:820-827 | cutting between the two search results is filtering, when the map is sorted |
| SourceMap.MergeSorts | src/codegen_func.c:800-817 | a tail that falls into a gap gives one sorted map with exactly the entries of both |
| SourceMap.TailSplits | src/codegen_func.c:786-803 | the search is sound although it runs over the not yet sorted array |
| SourceMap.MergeTail | src/codegen_func.c:800-817 | the early returns and the rotation, on any map; no entry is lost or invented |
| SourceMap.TailMerges | src/codegen_func.c:800-817 | when the tail lies in a gap of a sorted map, the rotation yields the sorted union |
| TextMap.ClosedUnit | src/codegen_stmt.c:24-51 | a unit whose last item is a word leaves no source location dangling |
| TextMap.EmittedExactly | src/codegen_stmt.c:24-51 | exactly the items up to the first word without room take effect: each word stands with its value as many words behind the start as words came before it, and each location is recorded with its file and line for the word that follows, in order |
| TextSpace.CompileAtTop | src/codegen_func.c:1091-1120 | a compile at the top adds its words to the split of the segment and changes nothing else |
| TextSpace.CompileInHole | src/codegen_func.c:943-971 | a compile into a listed hole takes its words from the free ones and changes no other |
| TextMap.HoleMerges | src/codegen_func.c:800-817 | its locations merge into the map at one place and in order, even with one left dangling |
| TextSpace.ReleaseBelow | src/codegen_func.c:1383-1391 | below the top, or in a hole, a release turns the words into one free range holding the filler |
| TextSpace.ReleaseTop | src/codegen_func.c:1393-1403 | at the top it lowers the top below the words and below the free words it then meets, and no further |
| TextSpace.ReleaseKeeps | src/codegen_func.c:1370-1404 | a release keeps the split: it gives back exactly the words of its own compile, or none; which of the two is CodeLives.ReleaseExactly |
| TextSpace.ThrowAtTop | src/codegen_func.c:1376-1404 | a compile at the top that threw, wherever it threw, gives back every word it emitted |
| TextMap.ThrowMapExact | src/codegen_func.c:820-827 | after a throw at the top the source map describes live words only if and only if no location was left dangling |
| TextMap.ThrowInHoleExact | src/codegen_func.c:820-827 | after a throw in a hole the source map is as it was if and only if no location was left dangling |
| TextSpace.ThrowInHole | src/codegen_func.c:1343-1344 | a compile into a hole that threw while the limit was set, wherever it threw, leaves words, top and holes exactly as they were |
| TextSpace.ThrowAfterHole | src/codegen_func.c:1385-1390 | one that threw after its hole was shrunk loses exactly its words |
| TextSpace.LateReleaseTakesLive | src/codegen_func.c:1376-1396 | an un-ended mark released late takes a word in use if and only if the word lies above the mark's start, so every compile since and nothing older |
| TextSpace.MoveKeepsHole | src/debugger.c:1771-1804 | the hole chosen before the release is still listed after it if and only if it does not end right below the copy released |
| TextSpace.MoveIntoAbsorbedHole | src/debugger.c:1771-1804 | otherwise the wrapper ends up above the top, and no split of the words owns it |
| CodeMoves.SevenSteps | src/debugger.c:1771-1804 | the case is reached from a fresh machine in seven compiles and releases: the only hole ends right where the last wrapper begins |
| CodeMoves.MoveLosesWrapper | src/debugger.c:1771-1804 | in that state the move leaves the wrapper above the top |
| DataSpace.NewVarsDataEnd | src/codegen_func.c:1073-1085 | the dry run predicts where the new globals end |
| DataSpace.PlaceVars | src/codegen_func.c:1169-1227 | the real loop ends exactly there, with every global aligned, in place and apart from the others |
| DataSpace.EndIsLeast | src/codegen_func.c:1073-1085 | no aligned placement in order ends below where the dry run says |
| DataSpace.TakesHoleExactly | src/codegen_func.c:1169-1175 | a requested hole is taken if and only if there are globals and they can be placed in it |
| DataSpace.PlaceKeeps | src/codegen_func.c:1169-1227 | placing new globals, in a hole when they fit or at the top, keeps the split of the data and no hole touches data_ptr |
| DataSpace.ReleaseKeeps | src/codegen_func.c:1351-1368 | a release gives back exactly the bytes of its compile, or none, and no hole comes to touch data_ptr |
| CodeRuns.StepKeeps | src/codegen_func.c:1091-1434 | every compile, throw, release, discard and retry keeps: one owner per word and byte, canonical holes holding the filler, marks that agree with the regions |
| CodeRuns.RunKeeps | src/codegen_func.c:1091-1434 | the invariant holds in every state of every run |
| CodeRuns.StepKeepsMap | src/codegen_func.c:1091-1434 | every step that leaves no location dangling keeps the source map sorted and on live words |
| CodeRuns.RunKeepsMap | src/codegen_func.c:1091-1434 | so does every run up to the first compile that leaves one |
| CodeRuns.ThrowsAtTopMap | src/codegen_func.c:1376-1404 | after a throw at the top, in any state of the invariant, the map is right if and only if nothing dangles |
| CodeRuns.ThrowsInHoleMap | src/codegen_func.c:1376-1404 | after one in a hole the map is unchanged if and only if nothing dangles |
| CodeRuns.WordsSplit | src/codegen_func.c:875-971 | each word of 1..top is free, or in exactly one live compile, or lost by a late throw; free words are exactly the hole list's |
| CodeRuns.StepLosesNone | src/codegen_func.c:1385-1390 | words are lost only by a compile that throws after leaving its hole |
| CodeRuns.RunSplits | src/codegen_func.c:875-971 | without such a throw, 1..top splits exactly into holes and live compiles in every state of the run |
| CodeRuns.FreedOnce | src/codegen_func.c:1370-1377 | once a mark has given its words back it stays done and owns nothing in every later state of the run, and releasing it again changes neither text nor source map |
| CodeLives.CodeStays | src/codegen_func.c:1122-1434 | as long as a compile has not given its words back they stay where and what they are, over every run |
| CodeLives.ReleaseExactly | src/codegen_func.c:1347-1373 | over every run, what a release answers: 0 while a wrapper runs, -1 for a unit of several functions or with labels that no step confined, and 1, its words gone, otherwise |
| CodeLives.ReachableStays | src/codegen_func.c:1372-1374 | the words of such a unit stay in use and unchanged in every later state, whatever is released, discarded or retried |
| CodeLives.GoneIsFree | src/codegen_func.c:1385-1403 | words given back are in a hole or above the top |
| CodeLives.DiscardExactly | src/codegen_func.c:1406-1421 | a discard is a release, or while a wrapper runs a place on the dead list and nothing else |
| CodeLives.DiscardedGoes | src/codegen_func.c:1406-1434 | a discarded mark that may go has given its words back by the first retry with nothing running |
| CodeLives.DepthCounts | src/debugger.c:1905-1909 | cond_depth is the number of wrappers entered and not yet left |
| CodeLives.StaysClear | src/codegen_func.c:1393-1403 | words above the top are zero in every state: what is given back at the top is cleared |
| CodeLines.CodeIs | src/codegen_stmt.c:24-51 | every word a compile emitted stands where it was put in every later state in which the compile is in use |
| CodeLines.LinesAre | src/codegen_stmt.c:24-51 | and every location it recorded is in the map with its file and line, at its word, in runs that leave none dangling |
| CodeLines.LinesStay | src/codegen_func.c:800-827 | a compile in use neither loses a location nor gains one |
| DataLives.DataStays | src/codegen_func.c:1354-1355 | globals of a compile that was not confined are below data_ptr and in no hole for ever after |
| DataLives.DataGoes | src/codegen_func.c:1357-1367 | confined globals are above data_ptr or in a hole after the first release with nothing running |
| CodeRuns.NoDataHoleAtTop | src/codegen_func.c:1351-1368 | no data hole touches data_ptr in any state of any run |
| CodeSpace.TextSegment.EmitItems | src/codegen_stmt.c:24-51 | emitting words and locations in place, until one throws, is the model's emission |
| CodeSpace.TextSegment.AbsorbTextHoles | src/codegen_func.c:915-923 | absorbing in place |
| CodeSpace.TextSegment.GiveBack | src/codegen_func.c:1376-1404 | the text half of a release, in place, is the model's step |
| CodeSpace.TextSegment.RestoreTopState | src/codegen_func.c:943-951 | the saved top, limit and merged map come back |
| CodeSpace.TextSegment.LeaveTextHole | src/codegen_func.c:954-971 | and the rest of the hole stays one |
| CodeSpace.TextSegment.Compile | src/codegen_func.c:1122-1333 | one incremental compile over the mutable segment, to its end or to a throw at any point, is the model's step on the text and on the source map |
| CodeSpace.CompileIsStep | src/codegen_func.c:1122-1333 | what the mutable segment does in a compile is what the state machine's step does to text, map and mark |
| CodeSpace.DataSegment.Place | src/codegen_func.c:1073-1085 | the dry run against a hole, then the loop |
| CodeSpace.DataSegment.Release | src/codegen_func.c:1351-1368 | the data half of a release |
| CodeSpace.CodeMachine.Release | src/codegen_func.c:1339-1404 | cc_code_release over the mutable machine keeps the invariant and is the model's step |
| CodeSpace.CodeMachine.Discard | src/codegen_func.c:1406-1421 | a mark that cannot be released yet joins the dead list, and the invariant stays |
| CodeSpace.CodeMachine.RetryDead | src/codegen_func.c:1423-1434 | the retry loop releases every dead mark when nothing runs, leaving the list empty |
| ComplexGen.GenCorrect | src/codegen_addr.c:1287-1482 | for every tree, the generated code leaves the tree's value in the two result registers, restores the stack and preserves every register marked in use |
| ComplexGen.GenPool | src/codegen_addr.c:1287-1482 | the temp-register pool comes back as it was, but for the result registers |
| ComplexGen.GenNeeds | src/codegen_addr.c:1370-1475 | a tree of any depth compiles if and only if a fixed number of registers, at most five, is free |
| ComplexGen.SpillInvisible | src/codegen_addr.c:1402-1423 | a trip through the stack does not change an operand for an operation of its width |
| ComplexFold.ProductLaws | src/codegen_addr.c:1429-1446 | without rounding the product formula is the complex product: i squared is -1, real factors scale, it commutes and distributes |
| ComplexFold.QuotientLaw | src/codegen_addr.c:1447-1475 | without rounding the difference undoes the sum and the quotient the product |
| ComplexFold.FoldIsEval | src/parse_expr.c:140-253 | every well-typed tree without a product or quotient of floats and without an integer converted to float folds to its value |
| ComplexFold.FoldAgrees | src/parse_expr.c:140-253 | such a tree folds to what its compiled code leaves in the registers |
| ComplexFold.OperatorAgreesExactly | src/parse_expr.c:177-212 | an operator folds to what its code computes on all operands of its type if and only if it is not a product or quotient of floats |
| ComplexFold.SquareDiffers | src/parse_expr.c:193-201 | the square of 4097 + 4096i in float folds to the real part 8193 and computes 8192 |
| ComplexFold.QuotientDiffers | src/parse_expr.c:202-212 | a quotient of floats folds to the real part 15172151 and computes 15172152 |
| ComplexFold.ConversionAgreesExactly | src/parse_expr.c:228-232 | a conversion agrees on all operands if and only if it does not take an integer to float |
| ComplexFold.IeeeLaws | src/ops.c:1271-1327 | float and double on whole numbers obey the laws the agreement rests on |
| Binary.SumNarrows | src/ops.c:1271-1288 | adding two floats in double and narrowing is adding them in float, although it rounds twice |
| Binary.TiesToEven | src/ops.c:1271-1288 | what lies half way between two numbers of a format goes to the even one |
| ComplexGen.Codegen.AllocTemp | src/codegen_regalloc.c:437-446 | the first free register, marked, or failure exactly when none is free |
| ComplexGen.Codegen.GenBinTail | src/codegen_addr.c:1411-1475 | the operator's code over the mutable pool and text is the model's |
| ComplexGen.Codegen.GenComplexExpr | src/codegen_addr.c:1287-1482 | the whole generator appends exactly the model's code, and fails exactly when the model does |
| TopoSort.ChainsGoBack | src/build.c:3334-3349 | an order with every dependency first is closed under chains and has no cycle |
| TopoSort.Sorter.TopoVisit | src/build.c:3334-3349 | one visit appends, each once and dependencies first, exactly what was reachable and new, or finds a cycle through the active targets |
| TopoSort.Sorter.Sort | src/build.c:3422-3441 | a cycle is reported if and only if one is reachable from the roots; otherwise the order is exactly what they reach, dependencies first, within the array |
| Schedule.LegalSound | src/build.c:3351-3380 | in every state of a legal history whatever started had its dependencies done, at most jobs run, and unless the build stopped no target is skipped without a failure below it |
| Schedule.NoStartAfterFailure | src/build.c:3586-3593 | without keep-going, behind the first target that fails nothing starts or settles: pending targets are abandoned and that is all |
| Schedule.StartsAfterDeps | src/build.c:3352-3359 | a target starts only with every dependency done and a job free, and never twice |
| Schedule.SkippedExactly | src/build.c:3361-3380 | a finished build that did not stop skipped exactly the targets with a failed transitive dependency |
| Schedule.LegalEnds | src/build.c:3476-3615 | how a history ends that did not stop; where nothing failed every target is done |
| Schedule.StoppedEnds | src/build.c:3563-3610 | how one ends that stopped: as it stood at its first failure, what was pending then being skipped and what ran left in flight |
| Dispatch.Dispatcher.TargetIsReady | src/build.c:3352-3359 | pending, with every dependency done |
| Dispatch.ReadyOne | src/build.c:3487-3495 | the count is 1 exactly when one target is ready and no other |
| Dispatch.Dispatcher.PropagateSkipped | src/build.c:3361-3380 | skips to a fixpoint: afterwards nothing pending has a failed or skipped dependency |
| Dispatch.Dispatcher.Launch | src/build.c:3529-3559 | fork gives the target a slot, or fails it |
| Dispatch.Dispatcher.Reap | src/build.c:3577-3592 | the reaped child's slot is emptied and the target it was forked for settles as the child exited; slots and running targets still match one to one |
| Dispatch.Dispatcher.ReapOne | src/build.c:3572-3610 | dispatch stops if and only if the child failed and there is no keep-going, and then every other child has been waited for |
| Dispatch.Dispatcher.DispatchReady | src/build.c:3522-3561 | afterwards every job is taken or nothing is ready |
| Dispatch.Dispatcher.Drain | src/build.c:3595-3608 | every child still running is waited for; its target keeps its state |
| Dispatch.Dispatcher.SkipRest | src/build.c:3563-3570 | what can no longer be built is skipped |
| Dispatch.Dispatcher.Turn | src/build.c:3476-3615 | one turn of the loop makes progress or ends it |
| Dispatch.Dispatcher.Run | src/build.c:3476-3615 | the loop terminates for every fork outcome, reap order and exit status; its history is legal, every target ended as its build or its child said, failures counts the failed targets; a build that did not stop leaves every target done, failed or skipped, skipped exactly under a failure; one that stopped stands as at its first failure; with no failures every target is done, keep-going or not |
| BuildGraph.SameDependence | src/build.c:3422-3441 | transitive dependence is the same by target and by place in the order |
| BuildGraph.RunGraph | src/build.c:3422-3615 | sort and dispatch together, from the chosen roots to the final states, with and without keep-going |
| Depfile.RuleRoundTrip | src/build.c:1897-1964 | any make rule over plain paths, with escaped spaces, continuations and a colon-free target, reads back as exactly its paths |
| Depfile.JoinInPlace | src/build.c:1921-1932 | continuations become spaces in place |
| Depfile.CollapseWord | src/build.c:1948-1957 | a word is collapsed in place, and what is written never passes what is read |
| Depfile.ReadDepPrereqs | src/build.c:1897-1964 | the whole reader over its buffer computes the specified list |
| Depfile.UniqIs | src/main.c:79-99 | the writer lists each non-empty name once |
| Depfile.WriteDeps | src/main.c:68-110 | the writer's text |
| Depfile.ReadsBackExactly | src/main.c:58-110 | for every target and list, the written rule reads back if and only if the target is free of colons and every name is non-empty and free of tabs, line ends, backslashes and hashes |
| Depfile.WriteReadExactly | src/main.c:58-110 | the same for every target and list of files given to the writer, empty and repeated names included |
| Staleness.StepKeeps | src/build.c:1980-2018 | edits, deletions, builds, failed compiles and removals keep: a file not newer than an object holds what it held when the object was compiled |
| Staleness.IncrementalIsClean | src/build.c:2944-2954 | after any run, an object accepted as current is what compiling now would give |
| Staleness.SameTickIsMissed | src/build.c:1990-1993 | an edit of a file a current object reads goes unnoticed if and only if it is not later than the object |
| Staleness.SharedStemIsMissed | src/build.c:2937-2942 | with one stem for two sources, building one makes the other look built if and only if the files it is then taken to read exist, and its object is right if and only if both compile to the same |
| Staleness.OfileIsCurrent | src/build.c:1985-2018 | object, source and every prerequisite exist and none is newer |
| Staleness.Objdir.CompileOne | src/build.c:2944-2954 | an object that is current is left alone and nothing else happens; any other is compiled, or the compile fails and its object stays |
| Staleness.Objdir.CompileSources | src/build.c:2944-2954 | the loop stops at the first compile that fails; every object before it is what a clean build would give, every object that was current keeps its code, time and list, and when all were current the state is unchanged |
| StaticChain.MaskRoundsUp | src/codegen_addr.c:681-686 | adding align - 1 and masking with -align in 64 bits rounds up, wrap-around included |
| StaticChain.CaptureSlots | src/parse_blocks.c:181-197 | capture slots start right behind the header, on 8-byte boundaries, without overlap and no further apart than their alignment asks |
| StaticChain.SlotFits | src/parse_blocks.c:181-197 | a slot holds its variable in whole words, or one pointer for a boxed variable or a variable-length array |
| StaticChain.LinkLies | src/codegen_addr.c:546-560 | in a frame as ENT3 leaves it, canary first if there is one and then the parameters, the static link lies where the hops and the first load look for it |
| StaticChain.CaptureAlignedIff | src/parse_blocks.c:167-197 | a capture starts at its alignment behind every list of captures if and only if it needs no more than 8 bytes |
| StaticChain.ChaseCorrect | src/codegen_addr.c:614-687 | for every depth, canary setting and alignment the emitted code leaves owner_bp + 8 * offset rounded up, or the first block's capture slot, dereferenced for a boxed variable, and touches no other register |
| StaticChain.ChaseFailsIff | src/codegen_addr.c:655-660 | there is no code if and only if the first block on the way does not capture the variable |
| StaticChain.ChainDepth | src/codegen_addr.c:599-605 | the owner's distance, the nearest one with its identity |
| StaticChain.FindCaptureIndex | src/codegen_addr.c:563-568 | the first capture of the variable, if any |
| StaticChain.FindCaptureOffset | src/parse_blocks.c:181-197 | the layout loop |
| StaticChain.Emitter.EmitStaticChainVarAddr | src/codegen_addr.c:614-687 | the emitting loop appends exactly that code |
| ShellParser.RoundTrip | src/build_shell.c:786-954 | printing any well-formed tree and parsing the tokens gives the tree back, cursor on the last token |
| ShellParser.ParsesExactly | src/build_shell.c:948-954 | exactly which token arrays parse to a given well-formed tree: its print, plus a stray word behind a last redirection, plus refused text behind a trailing operator |
| ShellRaw.PipelineRefuses | src/build_shell.c:875-892 | a pipeline is refused, and where, if and only if its first command runs into an operator lacking its word |
| ShellRaw.PipelineExactly | src/build_shell.c:875-892 | exactly which tokens _pipe reads as a given pipeline, with or without its last right side |
| ShellRaw.RefusedExactly | src/build_shell.c:894-946 | exactly which tokens full_command refuses, and where it leaves the cursor |
| ShellRaw.ParsesExactlyRaw | src/build_shell.c:948-954 | exactly which token arrays parse to a given tree, for every tree there is |
| ShellRaw.EvaluableExactly | src/build_shell.c:875-892 | a parsed tree has no pipe without a right side if and only if no pipe the parser kept is followed by a command that runs into an operator lacking its word |
| ShellRaw.PrintedIsWhole | src/build_shell.c:875-892 | the text of a well-formed tree holds no such pipe |
| ShellParser.DropsWord | src/build_shell.c:951-953 | for every tree ending in a redirection a further word is accepted and dropped |
| ShellParser.DropsCommand | src/build_shell.c:951-953 | for every tree ending in an operator a broken command behind it is accepted and dropped |
| ShellRaw.HalfPipe | src/build_shell.c:875-892 | for any two commands, the first piped into the second and one more operator at the end parse to a pipe without a right side |
| ShellParser.Parser.Advance | src/build_shell.c:786-795 | the cursor moves on, or stays on the last token |
| ShellParser.Parser.ParseWords | src/build_shell.c:807-817 | simple_command over the mutable cursor |
| ShellParser.Parser.ParseCommand | src/build_shell.c:845-873 | the redirection loop splices each node above the words |
| ShellParser.Parser.ParsePipeline | src/build_shell.c:875-892 | _pipe over the mutable cursor |
| ShellParser.Parser.ParseFull | src/build_shell.c:894-946 | full_command over the mutable cursor |
| ShellParser.EvalParser | src/build_shell.c:948-954 | a print parses to its tree, and a well-formed result was printed at the start of the tokens |
| ShellRuns.RedirectionsInOrder | src/build_shell.c:1335-1382 | files are opened in source order and closed in reverse; if one does not open nothing runs; if all do, the command runs with the last of each direction, or with the end it was given, as in section 2.7 of the POSIX Shell Command Language |
| ShellRuns.OutcomeIs | src/build_shell.c:1401-1435 | a pipeline's result is its first negative stage result, or else its last stage's |
| ShellRuns.PlaysExactly | src/build_shell.c:1307-1333 | a list runs from the left until the first and-operator after a failure or or-operator after a success, which ends all of it; everything at or behind an ampersand runs as a background job; behind a trailing operator the result is 0 |
| ShellEval.Shell.Execute | src/build_shell.c:1104-1285 | one command runs with the context's descriptors; only a pipeline stage leaves a child to be waited for |
| ShellEval.Shell.ExecCommand | src/build_shell.c:1335-1382 | descriptors of the context and of the process are as before, whatever was opened or refused |
| ShellEval.Shell.EvalRedirection | src/build_shell.c:1335-1382 | one redirection around the rest of the command: opened, run inside it, closed, or nothing run when it does not open |
| ShellEval.Shell.WaitDeferred | src/build_shell.c:1401-1435 | each deferred child is waited for once, in stage order, and the result is the pipeline's outcome |
| ShellEval.Shell.RunMiddle | src/build_shell.c:1509-1523 | one middle stage between its two pipes; with all slots taken it stops, the new pipe still open |
| ShellEval.Shell.RunStages | src/build_shell.c:1477-1526 | the stages up to the cleanup; the 64 slots are never overrun, and a missing last stage is dereferenced if and only if every stage before it got its pipe and its slot |
| ShellEval.Shell.Cleanup | src/build_shell.c:1539-1555 | the last read end is closed and every child waited for, however the stages ended |
| ShellEval.Shell.EvalPipeline | src/build_shell.c:1452-1559 | it crashes if and only if the last stage is missing and the stages before it all had a pipe and a slot; otherwise input_fd, output_fd and defer_wait are restored, no child is left, each stage ran between its pipes, the result is the outcome or the pipe error, and the only descriptors left open are the ends of a 65th pipe made for a stage without a slot |
| ShellRuns.CrashesExactly | src/build_shell.c:1497-1526 | told from the log alone: a pipe crashed, and did not return, if and only if it lacks its last stage and one pipe was made for each of at most 64 stages before that one |
| ShellEval.Shell.AstExec | src/build_shell.c:1308-1584 | the same for every list the parser builds: a crash happens in the pipeline the list had come to, one lacking its last stage with every pipe made, and a list that returns ran no such pipeline; then everything is restored, every child waited for, with pipelines of at most 65 stages every descriptor closed, and the log is exactly the pipelines that were to run, one after the other |
| ShellEval.Shell.RunTokens | src/build_shell.c:1989-2003 | parse and execute any tokens: they crash exactly so, hence only where a kept pipe is followed by a command that runs into an operator lacking its word |
| SourceIndex.IndexedIs | src/bytecode.c:33-85 | which map entries the index is about: those outside replaced bodies, less a leading run without a file |
| SourceIndex.IndexMeans | src/bytecode.c:46-101 | a line is listed with a pc if and only if that is the least pc of an entry on it |
| SourceIndex.IndexUnique | src/bytecode.c:22-31 | whatever the sort does with equal keys, the index is the same |
| SourceIndex.PcInReplacedBody | src/bytecode.c:35-42 | the scan over replaced functions |
| SourceIndex.Fill | src/bytecode.c:63-80 | the first pc of each run, relying on the source map being sorted by pc |
| SourceIndex.Dedup | src/bytecode.c:85-98 | the in-place compaction leaves strictly ordered keys with their least pcs |
| SourceIndex.BuildIndex | src/bytecode.c:46-101 | fill, sort and compaction together |
| SourceIndex.FindPc | src/debugger.c:1230-1251 | the binary search finds a line exactly when it is listed |
| SourceIndex.FindFirstPc | src/debugger.c:1214-1254 | index and lookup together give the least pc of a line's entries, and nothing exactly when there are none |
| SourceIndex.FindPcAnyFile | src/debugger.c:1222-1229 | without a file, the line of that number in the first file that has one, and nothing exactly when no file has |
| SourceIndex.Debugger.Rebuild | src/bytecode.c:46-62 | after the test that skips a rebuild the index is that of the present map |
| SourceIndex.Debugger.Compiled | src/codegen_func.c:1325-1333 | after a compile at the top, which appends a location whenever it replaces a body, the index is that of the new map |
| SourceIndex.Debugger.Forgotten | src/codegen_func.c:868-872 | after a range is forgotten the index is that of what is left, or empty with the map |
| VaList.Vm.PushArgs | src/codegen_expr.c:3122-3168 | overflow arguments end up in order above the frame |
| VaList.Vm.StageArgs | src/codegen_expr.c:3196-3279 | the first eight arguments go to the integer and float registers in turn |
| VaList.StagedRegisters | src/codegen_expr.c:3196-3279 | a fixed floating argument is in a float register and any other in an integer register, no further than its place |
| VaList.Vm.Enter | src/ops.c:1045-1088 | ENT3's at least eight slots hold the arguments, below the canary if there is one, which is untouched |
| VaList.VaList.Start | include/stdarg.h:183-208 | the list stands before the first variadic argument |
| VaList.VaList.Next | include/stdarg.h:258-282 | the k-th read returns the k-th variadic argument, across the register and stack areas |
| VaList.VaList.Copy | include/stdarg.h:308-308 | a copy stands where the original stood |
| VaList.CallAndRead | include/stdarg.h:126-308 | from the call site to the last va_arg, over a copy made at any point, every variadic argument arrives in order, as section 7.16 of ISO/IEC 9899:2011 has it |
| Arena.RoundCovers | src/arena.c:69-71 | rounding covers the request if and only if it does not wrap around |
| Arena.RoomIsExact | src/arena.c:73-75 | for every size the room test is right if and only if adding it to the pointer does not wrap around |
| Arena.WrapMeansFull | src/arena.c:73-83 | if it wraps around in any block, no block has room |
| Arena.HugeWraps | src/arena.c:74-75 | a request that wraps around passes although no block can hold it |
| Arena.BumpKeeps | src/arena.c:87-91 | a new region is inside its block, at a 16-byte multiple from its base, and clear of every earlier one |
| Arena.Pool.FindBlock | src/arena.c:79-83 | the scan finds the first block with room, if any |
| Arena.Pool.NewBlock | src/arena.c:34-65 | a new block of the default size, or of the size asked for if that is more, joins the front of the list |
| Arena.Pool.Alloc | src/arena.c:68-92 | for every request that wraps around in no block, every region handed out so far stays disjoint and housed, and a block is mapped only when no existing one has room; one that wraps around gets memory it cannot hold |

## Left out

- The lexer, globbing, environment expansion, signals and background reaping, and all Windows code of the build shell: the model starts from tokens, and a background child is not tracked.
- Content-addressed cache, toolchain and link stamps, dry runs, the serial build path (which does not skip dependents of a failed target) and a failing waitpid.
- Without keep-going, targets of children drained after a failure stay in flight, as in the code, and the exit statuses of those children are not looked at.
- Code reclaim: label table contents (a mark records only whether labels grew), patch tables and debug symbols dropped with a text range, the state that suppresses repeated source locations, and data grown during code generation while the data sits in a hole. `find_reloaded_static` is taken to find nothing in the dry run. The hole lists and the source map are sequences, where the source shifts arrays with counters in place; the text segment is an array.
- CodeRuns.StepKeeps: a compile that throws while a condition wrapper runs (cond_depth above 0) is not a step; its mark, not yet ended, would wait in the dead list, and `LateReleaseTakesLive` says what its release then takes.
- CodeSpace.CodeMachine.Discard: the source stores a copy of the mark (src/codegen_func.c:1420) and the debugger releases a copy (src/debugger.c:1789); the model has one cell per mark, which amounts to assuming that of several copies only one is ever released, and `FreedOnce` is about that one.
- Complex operands with calls or side effects, comma, conditional and assignment: leaves are loads that write only their destination. Infinities, NaNs, the sign of zero and the bound on the exponent are not part of `Binary`.
- ComplexFold.QuotientDiffers: on whole numbers, so it is a pair of operands all of whose quotients are whole.
- Hash-table lookup of a variable's owner, checked pointers and the recording of addresses in the static chain. Alignments are powers of two below 2^64, and the frame links hold what the call sequence puts there.
- Calls to nested variadic functions, over-aligned and by-pointer parameters of variadic functions.
- VaList.Vm.StageArgs: the saving of staged registers around an argument that contains a call is not modelled.
- VaList.Vm.Enter: a float parameter's narrowing to 32 bits is not modelled.
- Compiles are taken to depend on nothing but the files they report and the declared inputs, so a header newly placed earlier in the search path is not covered; compiles are atomic.
- SourceIndex.BuildIndex: program counters are not truncated to 32 bits.
- Trees of the shell parser are values: the model splices a redirection into a new tree where the code relinks nodes in place.
- Targets are numbers; the dispatcher works on the order's own numbering, related to the original by `SameDependence`.
- ShellEval.Shell.Execute: blacklists, allowlists, builtins and the dup/dup2 pair around an in-process builtin are abstracted to free choices.
- Arena.Pool.Alloc: running out of memory ends the program and is not modelled.
