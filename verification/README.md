# Verified model of the approximate-computing extensions of Sniper

This project models, in Dafny, the parts of the simulator fork that make it a simulator *for approximate
computing*, and proves what those parts promise. One file per component:

| file | what it models |
|---|---|
| `Common.dfy` | optional values and machine word sizes |
| `Bits.dfy` | binary numbers: positional value, bits, shifts |
| `Divisors.dfy` | multiples, greatest common divisors, rounding up to a multiple |
| `ApproxAdder.dfy` | the windowed carry-lookahead adder `rapcla` |
| `MagicRegistry.dfy` | the registry of approximate bytes as values: one step per operation, the loops over a block, the iterator walk |
| `MagicServer.dfy` | the server object itself: an address-ordered collection of records changed in place, proved against `MagicRegistry` |
| `RegistryRuns.dfy` | what the registry holds after any sequence of operations |
| `PeriodicCallback.dfy` | the periodic-instruction callback as interleaved steps of any number of cores |
| `LostCalls.dfy` | when that callback cannot lose a due call |
| `LossyRuns.dfy` | runs in which it does, and the exact conditions |
| `RequestSplit.dfy` | splitting a memory request into cache-line pieces |
| `KnobSearch.dfy` | the pruned search over approximation knobs, over exact reals |
| `PowerReport.dfy` | reading back the component tree that McPAT prints by indentation |
| `ConfigList.dfy` | comma-separated configuration lists, printed by Python and split by C++ |
| `ComponentLayout.dfy` | the positional agreement between the XML template and `ParseXML::parse` |
| `CacheClusters.dfy` | attribution of per-core statistics to shared caches |
| `SobelFilter.dfy` | the Sobel driver with its border and interior paths |
| `SelectionTree.dfy` | the arbiter count of the selection logic |

Machine arithmetic is explicit where it matters: 64-bit addresses wrap, the `int` that receives a 64-bit
difference in `rapcla` keeps 32 bits, `UInt32` sizes are bounded. Where a property fails at the edge of that
arithmetic, the code is modelled as it is and the exact condition is proved.

## Where the code differs from what it says or intends

- `rapcla` computes its first term index `st` as a 32-bit `int` from a 64-bit unsigned difference, so the
  window acts modulo 2^32 (`CodeMeetsDesignIff`). Its `1 << i` is an `int` shift, literal C++ only for i up to
  30; it is modelled as the 64-bit shift it stands for.
- `update_liftime` is commented "return true if address is approx". It returns true for every block that the
  global address range does not exclude. Every block is misjudged in some reachable state
  (`EveryBlockMisjudged`); a state judges all blocks of a size rightly exactly when nothing was ever added or
  registered bytes follow each other at block distance from address 0 to the end of the range
  (`AnswersRightlyIff`). The range test also lets through a block that ends right in front of the range.
- The iterator walk of `update_liftime` counts in 32 bits: for a block of 2^32-1 bytes without a byte to settle
  it never ends (`WalkEndsIff`).
- The page loop of `update_liftime` does nothing for the last page of the address space, where its upper bound
  wraps to 0 (`PageLoopCoversIff`); the range filter is unsound for blocks that reach the top of the address
  space (`FilterSoundIff`).
- A request that ends in the last line of the address space never leaves the splitting loop, unless the line size
  is odd enough for the wrapped variable to slip past the last line (`LoopEndsIff`).
- The unlocked check of the periodic callback reads two shared variables in an order the compiler chooses. With
  counts of at most k, n cores can end idle with a call still due, for either order: exactly when the condition of
  `ThresholdFirstIff` fails if the threshold is read first, and exactly when that of `NeverLosesIff` fails if the
  counter may be read first. Every number of cores is safe with the threshold read first exactly
  when one full flush of k+perCore-1 instructions passes at most one threshold (`SafeForAnyCoresIff`).
- `kx` is written like a kernel for differences of rows, but `convolve` indexes window and kernel crosswise, so that
  it yields the horizontal gradient its name promises (`CrosswiseGradients`). `sobel` then stores the gradient of
  `ky` in `sx` and that of `kx` in `sy`; the magnitude is the same. Saturated pixels (180) are darker than the
  brightest unsaturated ones (181).
- Alone among the sections of the XML reader, the NoC section does not stop on a component with another name: it
  silently loads no NoC and goes on (`RenamedNocIsSkipped`). `readTemplate` never writes such a file.
- With a given number of NUCA slices the cores per slice are rounded down, and the cores behind the last slice are
  written nowhere unless the slices divide the cores evenly (`NucaConservesIff`).
- The pruning of the knob search is exact only when every variable is read from both caches, added and
  multiplied at least once (`PruningExactIff`).

## Model

| member | source | states |
|---|---|---|
| ApproxAdder.Rapcla | common/system/magic_server.cc:53-99 | for all operands and windows the program returns the word whose bit i is the exclusive or of the operand bits and of a carry that exists iff some position inside the program's window generates one that every later position propagates; for fitting windows this is the windowed sum as designed |
| ApproxAdder.SumLoop | common/system/magic_server.cc:70-90 | the sum bits left in the array are those of the carries the program's window sees |
| ApproxAdder.WindowCarry | common/system/magic_server.cc:72-88 | the nested sum of products is true iff a generated carry is propagated into bit i from inside the window |
| ApproxAdder.CodeStartMeans | common/system/magic_server.cc:73-75 | the first position seen follows from the 32-bit int that equals i+1-w modulo 2^32 |
| ApproxAdder.Pack | common/system/magic_server.cc:92-98 | setting one bit after the other spells the number with those bits |
| ApproxAdder.WindowCarryMeaning | common/system/magic_server.cc:70-90 | the carry into bit i is the carry out of really adding the two operand slices the window covers |
| ApproxAdder.WideningKeepsCarries | common/system/magic_server.cc:73-74 | widening the window never clears a carry |
| ApproxAdder.SpeculativeCarryIsTrue | common/system/magic_server.cc:70-90 | every carry of the windowed adder is a carry of an ordinary ripple adder |
| ApproxAdder.OneMorePosition | common/system/magic_server.cc:73-86 | a window one wider sees exactly one more chain: the one that starts where the narrower window ends |
| ApproxAdder.ExactError | common/system/magic_server.cc:53-99 | exact sum minus windowed sum is the sum of 2^(g+w+1) over exactly the positions g that generate a carry which the next w positions all propagate, plus 2^63 for the carry out |
| ApproxAdder.ExactErrorModulo | common/system/magic_server.cc:53-99 | the same modulo 2^63, for all operands |
| ApproxAdder.LowBitsExact | common/system/magic_server.cc:53-99 | the w+1 low bits are always those of the exact sum |
| ApproxAdder.WideWindowExact | common/system/magic_server.cc:53-99 | windows of 62 and more give the exact sum modulo 2^63 |
| ApproxAdder.ZeroWindowIsXor | common/system/magic_server.cc:53-99 | window 0 gives the exclusive or |
| ApproxAdder.CodeMeetsDesign | common/system/magic_server.cc:73-75 | for a fitting window the program's sum is the designed one |
| ApproxAdder.CodeMeetsDesignIff | common/system/magic_server.cc:73-75 | the program equals the designed adder on all operands exactly for windows that are at most 2^31+2 modulo 2^32 and either below 2^32 or at least 62 modulo 2^32 |
| MagicServerModel.AppVar.constructor | common/system/magic_server.cc:764-797 | a new record has zero counters and lifetimes |
| MagicRegistry.UpsavedIsJoin | common/system/magic_server.cc:233-257 | saving keeps the least counters that are at least the saved and the speculative ones; saving twice is saving once |
| MagicRegistry.ResetAfterUpsave | common/system/magic_server.cc:259-276 | what was saved survives a reset and the next saving; counts that were not saved are lost for the caches, not for additions and multiplications |
| MagicServerModel.AppVar.IncCnt | common/system/magic_server.cc:305-345 | one channel is bumped, chosen by level name, core and direction; unknown levels and cores bump none |
| MagicRegistry.CountedIff | common/system/magic_server.cc:305-345 | an access is counted exactly on L1 with a core from 0 to 3, or on L2 |
| MagicRegistry.SameChannelIff | common/system/magic_server.cc:305-345 | two counted accesses share a counter exactly when level, direction and, on L1, core are the same |
| MagicRegistry.BumpsAddUp | common/system/magic_server.cc:347-355 | amounts counted in one channel add up, those of different channels do not disturb each other |
| MagicRegistry.LongestIntervalCounts | common/system/magic_server.cc:968-971 | of several page accesses only the longest interval counts, in any order; a read of the block makes it the lifetime, a write forgets it |
| MagicRegistry.IntervalIff | common/system/magic_server.cc:957-961 | the interval of an access is d exactly when one of its two times is d after the other |
| MagicServerModel.AppVar.Settle | common/system/magic_server.cc:996-1004 | a read saves the speculative lifetime, a write drops it |
| MagicServerModel.MagicServer.Find | common/system/magic_server.cc:829-837 | the iterator points at the address's record, or at the end exactly when there is none |
| MagicServerModel.MagicServer.AddApprox | common/system/magic_server.cc:764-812 | a new byte enters with zero counters, stretches the range and counts; an old one is untouched; says which |
| MagicServerModel.MagicServer.DelApprox | common/system/magic_server.cc:814-827 | exactly that byte goes, range and counter stay; says whether it was there |
| MagicServerModel.MagicServer.IsApprox | common/system/magic_server.cc:829-837 | membership |
| MagicServerModel.MagicServer.IsBlockApprox | common/system/magic_server.cc:839-847 | some byte of the block, addresses wrapping, is registered |
| MagicRegistry.InBytesIff | common/system/magic_server.cc:1031-1097 | a byte is in a block exactly when it is one of the size addresses from its start on, going round the address space |
| MagicServerModel.MagicServer.AddAcc | common/system/magic_server.cc:872-949 | the whole registry becomes the access step of it |
| MagicServerModel.MagicServer.BumpPrefix | common/system/magic_server.cc:877-907 | the bytes bumped are a registered prefix of the block that ends at the first unregistered byte |
| MagicServerModel.MagicServer.UpdateLiftime | common/system/magic_server.cc:953-1010 | whenever the walk ends the registry takes the lifetime step; the answer is the filter's; the bytes settled are in order, each once, exactly the registered ones of the block |
| MagicServerModel.MagicServer.AgePage | common/system/magic_server.cc:962-975 | every registered byte of the page, and no other, is aged; none on the last page |
| MagicServerModel.MagicServer.Walk | common/system/magic_server.cc:978-1009 | whenever it ends, the loop over iterators with its wrapping 32-bit counter does to the table what size+1 iterations over addresses do |
| MagicServerModel.MagicServer.ResetCnters | common/system/magic_server.cc:1031-1062 | the registered bytes of the block, and no other, are reset |
| MagicServerModel.MagicServer.UpsaveCnters | common/system/magic_server.cc:1064-1097 | the registered bytes of the block, and no other, are upsaved |
| MagicServerModel.MagicServer.CountOp | common/system/magic_server.cc:556-603 | the registry takes the counting step; says whether the byte is registered |
| MagicRegistry.WalkIsExact | common/system/magic_server.cc:978-1009 | from any ascending collection size+1 iterations settle exactly the registered bytes of the block, in order and once, wherever the first one lies |
| MagicRegistry.WalkEndsIff | common/system/magic_server.cc:981-1008 | the loop with its 32-bit counter ends exactly when the block is smaller than 2^32-1 bytes or has a registered byte |
| MagicRegistry.GoalNext | common/system/magic_server.cc:981-1008 | every iteration, also after the counter has wrapped, keeps what the walk will make of the table, and a bound on the iterations left falls |
| MagicRegistry.WalkTableVisits | common/system/magic_server.cc:981-1008 | the walk's effect is that of settling the visited bytes one after the other |
| MagicRegistry.VisitedOnce | common/system/magic_server.cc:993-1006 | visiting an ascending list changes each of its bytes once and no other |
| MagicRegistry.LifetimeRefines | common/system/magic_server.cc:953-1010 | page loop, filter and walk together do to each registered byte what the per-byte lifetime rule says |
| MagicRegistry.BumpedPrefix | common/system/magic_server.cc:872-949 | stopping at the first unregistered byte is the access rule that a byte counts iff all bytes from the block's start up to it are registered |
| MagicRegistry.BlockLoopIsMapBelow | common/system/magic_server.cc:1031-1097 | a byte-by-byte loop over a block changes exactly the registered bytes at offsets below its length |
| RegistryRuns.RangeCovers | common/system/magic_server.cc:803-804 | in every reachable state all registered addresses lie between start_addr and end_addr |
| RegistryRuns.RangeIsTight | common/system/magic_server.cc:803-804 | the bounds of the range are two addresses that were added, and none was added outside |
| RegistryRuns.FilterSoundIff | common/system/magic_server.cc:874-875 | the filter hides no registered byte in any reachable state exactly when the block is empty or ends below 2^64 |
| RegistryRuns.FilterIsTransparent | common/system/magic_server.cc:874-977 | filtered updates equal unfiltered ones: lifetimes always, accesses when the block ends below 2^64 |
| RegistryRuns.PageLoopCoversIff | common/system/magic_server.cc:962-962 | the page loop reaches the whole page exactly when it is not the last one, of which it reaches nothing |
| RegistryRuns.WalkCoversBlockIff | common/system/magic_server.cc:993-993 | the walk's range test is membership in the block exactly when the block is empty or ends below 2^64, and passes no byte of any other block |
| RegistryRuns.EveryBlockMisjudged | common/system/magic_server.cc:953-977 | for every block some run leads to a state in which the answer is wrong |
| RegistryRuns.AnswersRightlyIff | common/system/magic_server.cc:953-977 | in a reachable state the answers for all blocks of a size that do not wrap are right exactly when nothing was ever added or from address 0 and from each registered byte below the end of the range the next registered byte is at most a block away |
| RegistryRuns.LastAddOrDelDecides | common/system/magic_server.cc:764-837 | after any run a byte is approximate iff some addition of it was not followed by a deletion |
| RegistryRuns.AddCounterBalance | common/system/magic_server.cc:800-826 | app_cnter is the number of registered bytes plus the number of successful deletions |
| RegistryRuns.LifetimeOfRun | common/system/magic_server.cc:953-1009 | after any run a byte's maxlifetime is the largest interval of the accesses to its page since it was registered that were followed, or accompanied, by a read of its own block before any write of it; poten_maxlifetime counts open ones too, is never below, and is equal right after the byte's own block |
| RegistryRuns.FirstReadLifetime | common/system/magic_server.cc:953-1009 | after any run a byte that is added and then read in its own block has as lifetime the distance between that access's time and the last one's |
| RegistryRuns.CountersOfRun | common/system/magic_server.cc:233-355 | after any run a speculative counter is what was counted since the last reset, a saved one is the largest value any upsave found |
| RegistryRuns.SavedNeverDecreases | common/system/magic_server.cc:233-257 | saved counters never decrease while the byte stays registered |
| RegistryRuns.AccessBumpsPrefix | common/system/magic_server.cc:872-949 | one access bumps exactly the longest all-registered prefix of its block |
| RegistryRuns.AccessCountsOnce | common/system/magic_server.cc:305-345 | after any run one access raises the counter of its own level, direction and L1 core by one on the bytes it counts for, and leaves every other cache counter, so those of all other cores, as it was |
| PeriodicCallback.InvNext | common/core/core.cc:164-192 | every step of every core keeps the counter equation, lock ownership, threshold count and per-core bounds |
| PeriodicCallback.GlobalIsSum | common/core/core.cc:169-171 | under every interleaving the shared counter is the sum of what the cores have reported, cores in mid-flush counting in full |
| PeriodicCallback.OneCallPerThreshold | common/core/core.cc:182-191 | after n calls the threshold is n times the global interval, call k was made with the counter above k intervals, so no threshold is used twice although the first check is unlocked |
| PeriodicCallback.CallReceivesReported | common/core/core.cc:189-189 | a call made at any moment of any run receives, in all later states, exactly the sum of what the cores had reported at that moment |
| PeriodicCallback.EveryCallReceivesReported | common/core/core.cc:187-190 | every call of a run was made by a core past its second check and received what had been reported then |
| PeriodicCallback.OneCallAtATime | common/core/core.cc:184-191 | the locked part is never executed by two cores |
| PeriodicCallback.BoundedLag | common/core/core.cc:165-171 | after its check a core has fewer than perCore unreported instructions; when all have checked the shared counter lags by at most cores times perCore-1 |
| LostCalls.NoCallLost | common/core/core.cc:173-190 | with the threshold read first and counts that pass at most one threshold per flush, the threshold has caught up whenever all cores are idle |
| LostCalls.CoveredNext | common/core/core.cc:164-192 | for either order of the reads every step keeps: while a call is due some core can still make it, and what the other cores can still flush makes no second call due |
| LostCalls.RoomForAll | common/core/core.cc:169-171 | with no call due, a full flush by every core makes at most one call due, the divisibility of marks and thresholds included |
| LossyRuns.NeverLosesIff | common/core/core.cc:173-190 | counter read first, or in either order: n cores with counts of at most k never end idle with a call due, under every interleaving, exactly when k is 0 or n(k+perCore) is at most the global interval plus n rounded up to a multiple of the intervals' greatest common divisor |
| LossyRuns.ThresholdFirstIff | common/core/core.cc:173-190 | threshold read first: n cores with counts of at most k never end idle with a call due, under every interleaving, exactly when n or k is 0, or k+perCore-1 is at most the global interval, or nk+perCore is at most the global interval plus the intervals' greatest common divisor |
| LossyRuns.SafeForAnyCoresIff | common/core/core.cc:173-190 | threshold read first: no number of cores ever ends idle with a call due exactly when k is 0 or k+perCore-1 is at most the global interval |
| LostCalls.KeepingNext | common/core/core.cc:164-192 | with equal intervals and the threshold read first every step keeps: the thresholds the counter takes exceed those moved by at most one per pending flush |
| LossyRuns.Burst | common/core/core.cc:173-190 | whenever the primed cores' full flushes together pass the next threshold but one, they can all end idle with a call due |
| RequestSplit.InitiateMemoryAccess | common/core/core.cc:278-394 | the pieces tile the request in order without gap or overlap, none empty, each in one aligned line with its buffer position, one access per line, lines in ascending order; the level returned is the fold over them; an empty request returns its component |
| RequestSplit.Lines | common/core/core.cc:334-394 | the loop's own part of that |
| RequestSplit.EveryByteOnce | common/core/core.cc:334-376 | a byte is in some piece iff it is in the request, never in two |
| RequestSplit.OneTiling | common/core/core.cc:334-376 | only one list of accesses covers a request in this way, so the contract determines the accesses |
| RequestSplit.OneAccessPerLine | common/core/core.cc:334-376 | a request makes as many accesses as there are lines from its first to its last byte |
| RequestSplit.BufferIsTotalIssued | common/core/core.cc:392-393 | the buffer head of a piece is the total size already issued |
| RequestSplit.FarthestIsMaximum | common/core/core.cc:387-388 | the returned level is the maximum of the known answers, unknown only if none is known |
| RequestSplit.LoopEndsIff | common/core/core.cc:328-334 | for every line size the loop ends exactly when address+size wraps, or its last line is not the last of the address space, or the bytes of that last line do not divide the line size |
| RequestSplit.RestOfDivisor | common/core/core.cc:328-334 | the last line is a whole one exactly for line sizes that divide 2^64 |
| KnobSearch.Search | probability_analysis/run.cpp:268-346 | the results are in strict lexicographic order, are exactly the settings that pass the filters, with their means; the program aborts exactly when a setting it gets to lies beyond a write table |
| KnobSearch.AcceptedMeans | probability_analysis/run.cpp:290-329 | accepted are exactly the settings whose tables' entries, and all smaller DRAM entries, reach the target and whose mean exceeds it |
| KnobSearch.FailsMeans | probability_analysis/run.cpp:305-314 | the abort happens exactly at a setting that is got to, with a variable to look up, beyond the end of a write table |
| KnobSearch.LessIsLexicographic | probability_analysis/run.cpp:268-288 | the order of the results is that of the first knob that differs |
| KnobSearch.DramLoop | probability_analysis/run.cpp:288-342 | the innermost loop with its break adds exactly the accepted DRAM settings of one combination, or meets one beyond a write table |
| KnobSearch.SurvivalIsAllOperations | probability_analysis/run.cpp:305-314 | the product of powers is the probability that every single operation on the variable is error-free |
| KnobSearch.OneOperationMore | probability_analysis/run.cpp:305-314 | one more operation of a kind multiplies a variable's survival by that kind's table entry, and a variable without operations survives |
| KnobSearch.SumOfConcat | probability_analysis/run.cpp:303-326 | the sum behind the mean adds up over any split of the variables |
| KnobSearch.SumOfOne | probability_analysis/run.cpp:303-326 | a single variable contributes its survival |
| KnobSearch.OrderIrrelevant | probability_analysis/run.cpp:303-326 | the order of the variables does not matter |
| KnobSearch.PruningIsExact | probability_analysis/run.cpp:290-326 | with probabilities, a non-increasing DRAM table and exercised variables, filters and break drop nothing that a plain search accepts |
| KnobSearch.PruningExactIff | probability_analysis/run.cpp:290-326 | for given variables pruned and plain search agree on all proper tables and targets exactly when every variable is exercised |
| KnobSearch.DownwardClosed | probability_analysis/run.cpp:290-329 | with non-increasing tables every component-wise smaller setting of an accepted one is accepted |
| PowerReport.Parse | tools/raul_mcpat.py:265-294 | the loop over lines with its popping loop computes the reading function |
| PowerReport.ReadKeepsShape | tools/raul_mcpat.py:288-294 | whatever is read, the two stacks are equally high and indents strictly increase |
| PowerReport.HeaderPlaced | tools/raul_mcpat.py:288-294 | a header lands under its parent iff it is deeper than the parent and not deeper than the previous sibling |
| PowerReport.ReadForest | tools/raul_mcpat.py:267-294 | after a well-indented forest the parser stands where it stood and has stored every reading under its full path |
| PowerReport.RoundTrip | mcpat/added/core.cc:4059-4152 | a printed component and its well-indented parts come back as exactly the map from full paths to readings |
| PowerReport.StoredKeys | tools/raul_mcpat.py:284-284 | the keys of the result are those printed with a readable value |
| PowerReport.StoredIsLast | tools/raul_mcpat.py:273-284 | each key holds its last readable value, nan counting as 0 |
| PowerReport.RightlyPlacedIff | tools/raul_mcpat.py:285-294 | every header is read at its full path exactly when the forest is well indented |
| PowerReport.BlanksIgnored | tools/raul_mcpat.py:268-269 | blank lines change nothing wherever they are |
| PowerReport.JoinInjective | tools/raul_mcpat.py:273-273 | paths of names without a slash have different keys |
| ConfigList.Split | mcpat/added/XML_Parse.cc:476-494 | the array receives the values of the tokens, the rest is unchanged, the scratch buffer never overflows and is empty afterwards |
| ConfigList.TokensOfTexts | mcpat/added/XML_Parse.cc:478-491 | splitting joined texts gives the texts back |
| ConfigList.AtofSigned | mcpat/added/XML_Parse.cc:485-491 | digits behind a sign or none are read up to the first character that is no digit |
| ConfigList.AtofSkips | mcpat/added/XML_Parse.cc:485-491 | leading white space does not count |
| ConfigList.RoundTripIff | tools/raul_mcpat.py:933-956 | printing a list of integers with the template's separators and splitting it gives the list back, for exactly the non-empty lists |
| ComponentLayout.Parse | mcpat/added/XML_Parse.cc:123-1423 | the index walk loads the positions it computes, and exits exactly when a component there is missing or, NoCs excepted, carries another tag |
| ComponentLayout.AgreesMeans | mcpat/added/XML_Parse.cc:123-1423 | of any counts and components, what is accepted: without gaps the counted cores, L1 and L2 directories, L2s, L3s, NoCs or some other component where they stop, and the four single components |
| ComponentLayout.CarriesMeans | mcpat/added/XML_Parse.cc:123-1423 | the text looked for in the name or the id of each kind of component |
| ComponentLayout.ContainsIff | mcpat/added/XML_Parse.cc:136-136 | the text is found exactly when it stands at some position |
| ComponentLayout.SectionsMean | mcpat/added/XML_Parse.cc:604-1122 | of any counts, the positions from which the four counted sections are loaded |
| ComponentLayout.OtherSlotsMean | mcpat/added/XML_Parse.cc:123-1423 | of any counts, the positions of cores, NoCs and single components |
| ComponentLayout.ReadGroups | mcpat/added/XML_Parse.cc:604-1122 | the four counted loops, one after the other |
| ComponentLayout.ReadNocs | mcpat/added/XML_Parse.cc:1124-1242 | the NoC loop loads the longest run of NoCs from its position on and exits only when it runs out of components |
| ComponentLayout.AllNocsLoadedIff | mcpat/added/XML_Parse.cc:1129-1242 | every counted NoC is loaded exactly when each counted position carries one |
| ComponentLayout.RenamedNocIsSkipped | mcpat/added/XML_Parse.cc:1136-1242 | whatever the reader accepts it also accepts with something else in place of the first NoC, loading everything but the NoCs |
| ComponentLayout.ReadSingles | mcpat/added/XML_Parse.cc:1280-1423 | the four single components follow the last position |
| ComponentLayout.TemplateTags | tools/raul_mcpat.py:1012-1450 | position by position, which component the template emits |
| ComponentLayout.LayoutAgreesIff | tools/raul_mcpat.py:969-1464 | the reader accepts a template's components exactly when there is a core and counts and components come from the same numbers of cores, L2s and L3s |
| ComponentLayout.ReadInWritingOrder | mcpat/added/XML_Parse.cc:123-1423 | every component is read once, in the order written, into a slot of its kind |
| CacheClusters.ClustersPartition | tools/raul_mcpat.py:638-639 | every core is in exactly one cluster, and that one is written out |
| CacheClusters.ClustersConserveTotal | tools/raul_mcpat.py:868-875 | with the number of caches rounded up the clusters' numbers add up to the cores' numbers |
| CacheClusters.SumOfOne | tools/raul_mcpat.py:868-875 | the number of a range of one core is that core's number |
| CacheClusters.ClustersConserveIff | tools/raul_mcpat.py:868-916 | the numbers of m caches of `shared` cores add up to the cores' numbers, whatever these are, exactly when the caches reach the last core |
| CacheClusters.NucaConservesIff | tools/raul_mcpat.py:474-491 | with a given number of NUCA slices no core is left out exactly when the slices divide the cores evenly |
| CacheClusters.ClustersReach | tools/raul_mcpat.py:460-466 | the number of clusters is the least that reaches the last core |
| SobelFilter.Filter | data_significance/sobel/sobel.cpp:114-179 | for every image size every pixel is written, in all channels, with the zero-padded gradient, and no index leaves the image |
| SobelFilter.HalfWindow | data_significance/sobel/convolution.hpp:36-48 | the checked window is the zero-padded neighbourhood |
| SobelFilter.Window | data_significance/sobel/convolution.hpp:22-34 | for inner pixels the unchecked window is the same neighbourhood |
| SobelFilter.PaddedMeans | data_significance/sobel/convolution.hpp:36-48 | outside the image the neighbourhood is 0 |
| SobelFilter.Convolve | data_significance/sobel/convolution.cpp:31-41 | the double loop sums the nine crosswise products |
| SobelFilter.CrosswiseGradients | data_significance/sobel/convolution.cpp:17-41 | on a window the two convolutions are the vertical and the horizontal gradient |
| SobelFilter.GradientIsSmoothedDifference | data_significance/sobel/convolution.cpp:17-41 | each gradient is the sum of three differences across the pixel with weights 1, 2, 1 |
| SobelFilter.TransposedPixel | data_significance/sobel/convolution.cpp:17-78 | exchanging rows and columns of the image exchanges the gradients and keeps the pixels |
| SobelFilter.Sobel | data_significance/sobel/convolution.cpp:43-78 | the result is the saturated integer magnitude of the gradient |
| SobelFilter.SaturatedAsWritten | data_significance/sobel/convolution.cpp:70-72 | in the program's own constants the pixel is the integer part of the saturation value from the threshold on, and of the magnitude below |
| SobelFilter.PixelAsWritten | data_significance/sobel/convolution.cpp:70-72 | the same for the pixel itself, from the squared length of its gradient |
| SobelFilter.PixelRange | data_significance/sobel/convolution.cpp:70-72 | no pixel exceeds 181, and 181 is reached exactly for squared magnitudes from 32761 to 32767 |
| SelectionTree.SelectionLogic.CountArbiters | mcpat/added/logic.cc:85-91 | the loop ends, returns the arbiter count and leaves the topmost arbiter's inputs in the field |
| SelectionTree.CountsTheTree | mcpat/added/logic.cc:85-91 | the count is the number of arbiters of a tree of arbiters with one to four inputs whose leaves are the window's entries in order, and the field is left with the number of the topmost arbiter's inputs |
| SelectionTree.ArbiterBounds | mcpat/added/logic.cc:85-91 | (n-1)/3 <= arbiters <= (n+1)/2 |

## Left out

- MagicServerModel.AppVar.IncCnt: counters are unbounded integers here; the program's 32-bit `int` counters can overflow after 2^31 events.
- MagicRegistry.BumpsAddUp: unbounded integers as well; the twelve counter pairs are vectors indexed by channel, not twenty-four separately allocated integers.
- MagicServerModel.MagicServer.AddApprox: the set number is ignored by the program, which always stores 0, so there is one set and `approx_addr_setnum` is membership; `app_cnter` is unbounded.
- MagicServerModel.MagicServer.AddAcc: `add_read_acc` and `add_write_acc` differ only in the counter and are one method; `add_pure_acc` has no caller left and would break the meaning of the saved counters.
- PeriodicCallback.InvNext: instruction counts are unbounded; 64-bit counters do not wrap in the model.
- RequestSplit.InitiateMemoryAccess: a request in the last line is excluded, as its loop never ends or, for line sizes that do not divide 2^64, ends after wrapping; latencies, locking, the cheetah hook and `num_misses` (computed and then unused) are not modelled; the memory manager's answers are a parameter.
- KnobSearch.Search: exact reals instead of `long double`; reading the tables and the variables from files is not modelled.
- PowerReport.Parse: a line is a header, a value or a blank; the regular expressions that tell them apart are not modelled.
- ConfigList.Split: numbers are integers; values above 2^53, which a `double` rounds, decimals, exponents, `inf` and `nan` are not modelled.
- ComponentLayout.Parse: only the choice of components is modelled, not the parameters inside them.
- CacheClusters.ClustersConserveTotal: the averages and duty cycles over a cluster are not modelled.
- SobelFilter.Filter: integers with an exact integer square root instead of `float`; random fault injection into pixels is off.
- `appmul`, command dispatch, logging, hooks, DVFS and region-of-interest control: plumbing, or code outside the repository.
- The random fault injector: per-byte exclusive or with random draws, gated by the registry membership modelled here.
- `readInstructionMemory`, `accessMemoryFast` and the instruction callback: no state beyond one cached line address.
- The amean, laplacian and sharp filters, the make scripts and the McPAT power models: single loops, tooling, and formulas over technology tables that are not part of this model.
