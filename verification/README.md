# Structor: a verified model

Structor recovers structure layouts inside a disassembler and persists them as
named types. This Dafny project models the parts of it that are algorithms and
state machines of their own, and proves what their callers rely on.

| part | modules |
|---|---|
| disjoint sets over a flat buffer, and the naive form | `Forest`, `UnionFind`, `NaiveUnionFind` |
| overlap detection: sweep line, pairwise, batch | `Overlaps`, `SweepLine`, `DetectOverlaps` |
| interval tree in a 4n array | `IntervalTree` |
| radix sort, gcd | `RadixSort`, `Gcd` |
| bump-pointer arena, object pool | `Arena`, `ObjectPool` |
| crash-safe replacement of the contract corpus, several recorders, where a run ends | `CorpusSwap`, `CorpusRecorders`, `CorpusOutcomes` |
| first-touch journal, the named-type transaction as functions and as methods | `Journal`, `Rollback`, `Creations`, `Persistence` |
| the address-type transaction, global synthesis up to its commit point | `GlobalTinfo`, `GlobalSynthesis` |
| call-graph search | `CallGraph` |
| index over the history of rewrite registrations | `RewriteIndex` |
| configuration file: save and load | `ConfigText`, `ConfigNames`, `ConfigFile`, `Config`, `ConfigLines` |
| ABI packing and checked arithmetic | `Bits`, `Packing` |
| shared: machine integers, library sort and unique, the disassembler's database | `Machine`, `Sorting`, `Database` |

`dafny verify dfyconfig.toml` checks the whole project.

## How the model is built

Objects that the source updates in place are classes with the source's fields;
containers are fields of type `seq` or `map`; the radix sort works on arrays.
Ghost fields hold what the class has to be judged by: the united pairs, the
registrations since the last clear, the live allocations. Integer widths are
written out wherever a cast, a wrap-around or a limit occurs.

The corpus swap is a transition system. One step is one statement of the
recorder that touches the disk or sets a flag; an exception or a crash may come
between any two, `rmtree` deletes one entry at a time and may stop anywhere, and
a crashed recorder may be followed by any number of others. Renames are atomic.
`CorpusRecorders` gives each process a statement of its own and shows that the
lock makes every interleaving a sequence of single runs.

The database in `Database` is adversarial, and what it does is an argument. It
answers what is asked, to store a definition under a name or to remove it, with an
`Effect`: the write may fail, do something else than asked, report the opposite of
what it did, or raise an exception. The writes about an address are answered in the
same way. Checks, reads that fail and companions that are tolerated are part of a
script too. `Rollback`, `Creations`, `GlobalTinfo` and `GlobalSynthesis` state each
transaction as a function of the script, so that what holds for all answers, what
holds if they do as asked, and what some of them bring about are all theorems; the
source's methods are proved equal to those functions. Three things are taken for
granted: a read of a type name may raise an exception, and otherwise is exact; a
write to a type name changes no other name; and the database never newly gives an
address a type that names a missing one.

## What the proofs brought out

- Corpus swap: an exception that arrives between the rename of the corpus into
  its backup and the assignment `moved_original = True`
  (`integration_tests/generate_fixture_contracts.py:764-765`), as a keyboard
  interrupt can, makes the final clause take the only copy for an unused backup
  and delete it. It is the only such window
  (`CorpusSwap.ExceptionLosesCorpusExactlyThere`).
- Corpus swap: a crash while the old backup is being deleted stops every later
  run until the backup is removed by hand (`CorpusSwap.CrashRetainsBackup`,
  `CorpusSwap.RetainedBackupStopsEveryRun`).
- Corpus swap: a crash of the very first regeneration after it made its stage root
  (`integration_tests/generate_fixture_contracts.py:729`) stops every later run
  until the stage root is removed by hand (`CorpusSwap.CrashLeavesStage`,
  `CorpusSwap.StageStopsEveryRun`). Short of an exception in the window above, there
  is no third such state (`CorpusSwap.RecoveryIsPossibleExactly`).
- Corpus swap: an exception between the making of the backup root and its being
  noted (`integration_tests/generate_fixture_contracts.py:758-763`), or between the
  rename of the new corpus into place and `installed_stage = True` (lines 768-769),
  leaves a backup beside the destination and so the first of these states
  (`CorpusOutcomes.FailureIsUndone`, `CorpusOutcomes.UnflaggedInstallRetainsBackup`).
  Any other exception of the swap outside the window is undone.
- Named-type rollback: a deletion is believed, not read back
  (`Rollback.BelievedDeletionLeavesName`). And the reads of the identity after a
  write that did not raise (`src/synthesis/structure_persistence.cpp:1399`, `:1405`)
  have no handler: if one raises, the entry stays unmarked, and a rollback that
  reports success leaves the write as it is, even if it changed or took away a type
  of the start; so does, for a new name, a write that raised and whose identity
  cannot be read (`Rollback.UnseenWriteStays`). Otherwise, and only then, success
  means that the store is as at the start (`Rollback.RollbackIsExact`). A type that
  is not ours is never touched.
- Global synthesis: an address can be left naming a deleted type exactly if that
  type is ours and the creation writes it (`GlobalSynthesis.DanglingIsPossibleExactly`).
  The rollback has then failed and said so, or a write took the type away unnoticed
  (`GlobalSynthesis.DoGlobalSynthesis`). Any type of ours can be lost in this way
  (`Rollback.FailedRollbackLosesType`), and no other (`Rollback.OnlyOursCanBeLost`).
- Global synthesis: the branches for a commit that is refused cannot be reached,
  because a creation that returns an identity leaves the transaction unpoisoned.
- Configuration: a hotkey with a comment sign, a line end, a terminator or outer
  blanks is not restored; every other valid configuration is (`Config.SaveThenLoadRestores`).
- Unsigned values: the comment at `include/structor/config.hpp:476-477` says that
  negative unsigned values reject the file. The code refuses a minus sign only as
  the very first character of the value; behind a vertical tab or form feed the
  library negates modulo 2^64 and the file is loaded (`ConfigText.NegativeUnsigned`,
  `Config.NegativeFile`, `Config.MinusFiveIsLoaded`). The model follows the code.
- Packing: that a smaller cap stays feasible holds for natural alignments that
  are powers of two, or above every cap, and for no others
  (`Packing.DownwardClosedAlignments`).
- Packing: the sentinel of `align_offset` is also its result for the greatest
  offset and alignment 1, where nothing failed (`Packing.AlignOffsetRoundsUp`).
- Arena: the alignment parameter is ignored, `bytes_allocated` leaves out large
  allocations (`Arena.BytesAllocatedLeavesOutLarge`), after a reset only the first
  block is used again although all are kept, and the guarantee ends at sizes that
  wrap the position round, which exist as soon as anything was allocated in the
  current block (`Arena.WrappingSizeExists`, `Arena.WrapAround`).

## Model

| member | source | states |
|---|---|---|
| `UnionFind.FlatUnionFind.MakeSet` | include/structor/optimized_containers.hpp:347-364 | an identifier seen before keeps its index and nothing changes; a new one gets the next index as a root of rank 0, and the uint32 cast of the index loses nothing because identifiers are distinct int32 keys |
| `UnionFind.FlatUnionFind.Halve` | include/structor/optimized_containers.hpp:376-380 | one halving step: the grandparent lies strictly higher in rank and the write changes no element's root |
| `UnionFind.FlatUnionFind.Find` | include/structor/optimized_containers.hpp:372-383 | returns the root of the class, changes no class, no rank and no identifier, and takes at most log2(size) steps |
| `UnionFind.FlatUnionFind.FindById` | include/structor/optimized_containers.hpp:388-391 | the root of the class of the identifier, which is created if it is new; every identifier keeps its index |
| `UnionFind.FlatUnionFind.Unite` | include/structor/optimized_containers.hpp:397-415 | adds exactly one pair to the united pairs, after which find roots still decide membership in their equivalence closure; both arguments end under the returned root |
| `UnionFind.FlatUnionFind.UniteById` | include/structor/optimized_containers.hpp:420-424 | the same for identifiers, creating missing elements and keeping every index |
| `UnionFind.FlatUnionFind.SameSet` | include/structor/optimized_containers.hpp:429-431 | true exactly if the two elements are related by the equivalence closure of all united pairs |
| `UnionFind.FlatUnionFind.GetSet` | include/structor/optimized_containers.hpp:440-451 | lists exactly the identifiers related to the element, in index order, each once |
| `UnionFind.FlatUnionFind.BatchUnite` | include/structor/optimized_containers.hpp:456-467 | every identifier of the pairs exists afterwards, old indices are kept, and the united pairs grow by exactly the given ones |
| `UnionFind.FlatUnionFind.Clear` | include/structor/optimized_containers.hpp:480-483 | back to the empty structure |
| `UnionFind.AppendSound` | include/structor/optimized_containers.hpp:357-363 | a new self-parented entry keeps the forest invariant, the closure and the index, and there are never more than 2^32 elements |
| `UnionFind.HalveSound` | include/structor/optimized_containers.hpp:376-380 | pointing an element to its grandparent keeps ranks increasing along links, the root of every element and the closure |
| `UnionFind.LinkSound` | include/structor/optimized_containers.hpp:403-414 | hanging the root of lower or equal rank under the other keeps every invariant and merges exactly the two classes |
| `UnionFind.LinkWritesAreExact` | include/structor/optimized_containers.hpp:408-412 | the uint32 parent cast and the uint16 rank increment of a link lose nothing |
| `UnionFind.RankFitsUint16` | include/structor/optimized_containers.hpp:486-490 | in every reachable state with at most 2^32 elements a rank is at most 32 |
| `UnionFind.MemberIdsAre` | include/structor/optimized_containers.hpp:444-448 | the identifiers collected under a root are exactly those whose element has that root |
| `UnionFind.MemberIdsInOrder` | include/structor/optimized_containers.hpp:444-448 | they are collected in strictly increasing index order, so without repetition |
| `Forest.RankBound` | include/structor/optimized_containers.hpp:372-383 | 2 to the rank of any element is at most the number of elements |
| `Forest.LinkKeepsPaidFor` | include/structor/optimized_containers.hpp:403-412 | after union by rank every root's class still has at least 2^rank members |
| `Forest.IdsBoundSize` | include/structor/optimized_containers.hpp:357-362 | an index map over int32 identifiers bounds the structure to 2^32 elements |
| `Forest.LinkRepresents` | include/structor/optimized_containers.hpp:397-415 | after linking two different roots, sharing a root is the equivalence closure with the new pair added |
| `Forest.RedundantPairRepresents` | include/structor/optimized_containers.hpp:401 | uniting elements that already share a root leaves the closure decided by the same roots |
| `Forest.RepresentationsAgree` | bench/bench_algorithms.cpp:345-366 | two forests built from the same united pairs, however linked, put the same elements together |
| `NaiveUnionFind.Naive.Find` | bench/bench_algorithms.cpp:351-356 | the recursive find with full path compression returns the root and changes no class |
| `NaiveUnionFind.Naive.Unite` | bench/bench_algorithms.cpp:358-362 | the naive union, without ranks, keeps the closure decided by its roots |
| `NaiveUnionFind.AnswerBoth` | bench/bench_algorithms.cpp:345-366 | over the same unions the flat structure and the naive one answer every query alike, and the answer is membership in the closure |
| `SweepLine.FindOverlappingPairs` | include/structor/optimized_algorithms.hpp:212-284 | returns the sorted, duplicate-free list of (min id, max id) over all pairs of positions whose half-open intervals overlap, for empty intervals, equal endpoints and repeated identifiers alike |
| `SweepLine.Sweep` | include/structor/optimized_algorithms.hpp:254-277 | what the sweep reports, as a set, is exactly the overlapping pairs |
| `SweepLine.RemoveActive` | include/structor/optimized_algorithms.hpp:267-275 | swap with last and pop removes exactly the one active interval |
| `SweepLine.ActiveOverlap` | include/structor/optimized_algorithms.hpp:254-265 | at a start event the active intervals are exactly the earlier-started ones that overlap it |
| `SweepLine.BuildEvents` | include/structor/optimized_algorithms.hpp:235-246 | two events for each non-empty interval position and none for an empty one |
| `SweepLine.FindOverlapsNaive` | bench/bench_algorithms.cpp:90-102 | the pairwise form finds the same pairs up to the order of the two labels |
| `Overlaps.CanonicalUnique` | include/structor/optimized_algorithms.hpp:279-281 | a sorted list without duplicates is determined by its elements |
| `DetectOverlaps.Detect` | include/structor/optimized_algorithms.hpp:293-371 | the same list for every threshold: a length error above 2^31-1 candidates, otherwise exactly the overlapping index pairs |
| `DetectOverlaps.DetectPairwise` | include/structor/optimized_algorithms.hpp:307-346 | the pairwise path, with zero sizes and ends beyond int64 skipped, produces the list element for element |
| `DetectOverlaps.BuildIntervals` | include/structor/optimized_algorithms.hpp:352-368 | every candidate becomes an interval of the sweep, an invalid one an empty interval |
| `DetectOverlaps.SweepFindsTheList` | include/structor/optimized_algorithms.hpp:348-370 | the canonical answer of the sweep over those intervals is the pairwise list |
| `DetectOverlaps.OverlapListIsCanonical` | include/structor/optimized_algorithms.hpp:307-346 | the list holds exactly the overlapping positions i < j, sorted, each once |
| `DetectOverlaps.OverlapMeansCommonByte` | include/structor/optimized_algorithms.hpp:307-346 | two candidates overlap if and only if they have a common byte and both sizes and ends are representable |
| `DetectOverlaps.BatchOverlapSmall` | include/structor/simd.hpp:1014-1082 | for uint32 sizes the batch form yields the same index pairs in the same order |
| `RadixSort.RadixSortU32` | include/structor/optimized_algorithms.hpp:532-564 | after four passes and four buffer swaps the caller's buffer holds a sorted permutation of the input |
| `RadixSort.CountingPass` | include/structor/optimized_algorithms.hpp:537-556 | one pass writes the stable rearrangement of the source buffer by one byte |
| `RadixSort.CountDigits` | include/structor/optimized_algorithms.hpp:539-542 | bucket counts |
| `RadixSort.PrefixSums` | include/structor/optimized_algorithms.hpp:544-550 | each bucket holds the number of elements with a smaller byte |
| `RadixSort.Place` | include/structor/optimized_algorithms.hpp:552-556 | placing at the bucket positions yields the concatenation of the buckets, each in original order |
| `RadixSort.BucketsSorted` | include/structor/optimized_algorithms.hpp:536-560 | a stable pass over one byte keeps the order established on the lower bytes and extends it to this byte |
| `RadixSort.PassIsPermutation` | include/structor/optimized_algorithms.hpp:552-556 | a pass loses and duplicates nothing |
| `Gcd.GcdIsGcd` | bench/bench_algorithms.cpp:71-78 | the result of Euclid's algorithm has exactly the common divisors of the two numbers as divisors, zeros included |
| `Gcd.BinaryGcd` | include/structor/optimized_algorithms.hpp:94-124 | Stein's algorithm terminates for every pair of uint32 values and equals the gcd; the final shift overflows nothing |
| `Gcd.DropTwos` | include/structor/optimized_algorithms.hpp:106-111 | dropping factors of two from one side of a pair with an odd number keeps the gcd |
| `Gcd.EuclideanGcd` | bench/bench_algorithms.cpp:71-78 | the simple loop equals the gcd |
| `Gcd.GcdArray` | include/structor/optimized_algorithms.hpp:135-156 | with early exit at 1 the result is the fold of gcd over the array, 0 for an empty one |
| `Gcd.OnceOneAlwaysOne` | include/structor/optimized_algorithms.hpp:149-152 | once the running gcd is 1 the rest of the array cannot change it |
| `Gcd.GcdAllIsGcd` | include/structor/optimized_algorithms.hpp:135-156 | the divisors of the result are exactly the common divisors of all elements |
| `IntervalTree.IntervalTree.Build` | include/structor/optimized_containers.hpp:528-545 | sorts the intervals by start and fills the tree |
| `IntervalTree.IntervalTree.BuildTree` | include/structor/optimized_containers.hpp:623-635 | fills the subtree of a node with the largest end below each node, stays inside 4n cells and touches no other subtree |
| `IntervalTree.FitsInFour` | include/structor/optimized_containers.hpp:541-544 | every node the construction visits for n intervals has an index below 4n |
| `IntervalTree.IntervalTree.QueryOverlaps` | include/structor/optimized_containers.hpp:551-557 | returns what a linear scan of the sorted intervals returns, in position order |
| `IntervalTree.IntervalTree.QueryRange` | include/structor/optimized_containers.hpp:637-659 | both prunings lose nothing: the query of a subtree appends exactly the scan of its range |
| `IntervalTree.ScanMembers` | include/structor/optimized_containers.hpp:637-659 | an identifier is in the scan exactly if an interval with it has start < query end and query start < end |
| `IntervalTree.QueryFresh` | include/structor/optimized_containers.hpp:528-557 | build followed by query, in terms of the caller's list |
| `CorpusSwap.StepKeepsInv` | integration_tests/generate_fixture_contracts.py:727-790 | every statement, failure, deletion, exception and crash keeps the swap invariant, save an exception in one window |
| `CorpusSwap.CorpusSurvivesEveryRun` | integration_tests/generate_fixture_contracts.py:727-790 | through all runs, failures, crashes and retries the last installed corpus is intact at the destination or in a backup, the destination is never damaged, and recovery meets neither several backups nor a backup without its corpus |
| `CorpusSwap.OnlyIntactBackupsAreRestored` | integration_tests/generate_fixture_contracts.py:835-848 | what recovery moves back is the last installed corpus, never a partly deleted backup |
| `CorpusSwap.StageWithoutDestinationMeansNoCorpusYet` | integration_tests/generate_fixture_contracts.py:850-855 | the refusal of staged files without a destination occurs only before any corpus was installed |
| `CorpusSwap.InterruptedSwapIsRecovered` | integration_tests/generate_fixture_contracts.py:817-848 | after a crash between the two renames one recovery run brings the corpus back and removes the backup |
| `CorpusSwap.ExceptionLosesCorpusExactlyThere` | integration_tests/generate_fixture_contracts.py:764-790 | an exception can cost the corpus if and only if it arrives after the rename into the backup and before the flag that records it |
| `CorpusOutcomes.SuccessfulRunInstalls` | integration_tests/generate_fixture_contracts.py:727-790 | from every state in which the build begins, a run in which every statement succeeds ends idle with what was written last at the destination, no backup and no stage root |
| `CorpusOutcomes.SuccessInstalls` | integration_tests/generate_fixture_contracts.py:727-790 | the same from every point on the way |
| `CorpusOutcomes.SuccessIsPossible` | integration_tests/generate_fixture_contracts.py:727-790 | and for every version there is such a run that installs it |
| `CorpusOutcomes.FailureIsUndone` | integration_tests/generate_fixture_contracts.py:764-790 | an exception while the stage is filled, at the making of the backup or at either rename, and a cleanup that succeeds: the run ends idle with the corpus it found at the destination, its stage root gone and no backup; only an exception before the made backup root is noted leaves that root |
| `CorpusOutcomes.FailureCanBeUndone` | integration_tests/generate_fixture_contracts.py:770-790 | and such a cleanup exists |
| `CorpusOutcomes.UnflaggedInstallRetainsBackup` | integration_tests/generate_fixture_contracts.py:767-790 | an exception after the new corpus was installed and before the flag is set: the original cannot be moved back, and the backup is never dropped |
| `CorpusOutcomes.CleanupEnds` | integration_tests/generate_fixture_contracts.py:788-790 | a cleanup that succeeds removes the stage root, and the backup exactly if the flags say so |
| `CorpusOutcomes.BuildStartsClean` | integration_tests/generate_fixture_contracts.py:817-857 | in every undisturbed run the build begins with no backup, no stage root, and the last installed corpus at the destination |
| `CorpusSwap.RegenerationReachesTheWindow` | integration_tests/generate_fixture_contracts.py:757-765 | that window is reached by a regeneration in which every statement succeeds |
| `CorpusSwap.RetainedBackupStopsEveryRun` | integration_tests/generate_fixture_contracts.py:835-842 | with a destination and a backup left beside it, no sequence of events whatever gets a recorder past the scan or changes the disk |
| `CorpusSwap.CrashRetainsBackup` | integration_tests/generate_fixture_contracts.py:757-790 | that state is reached from a clean start: a regeneration in which every statement succeeds, and a crash while the old backup is being deleted |
| `CorpusSwap.RecoveryIsPossibleExactly` | integration_tests/generate_fixture_contracts.py:817-857 | from every state that runs and crashes outside the one window can leave, some later run gets as far as building a new corpus if and only if: with no backup there is a destination or no stage root, and with a backup there is no destination |
| `CorpusSwap.StageStopsEveryRun` | integration_tests/generate_fixture_contracts.py:850-855 | with a stage root left and neither destination nor backup, no sequence of events whatever gets a recorder past the check of the stages or changes the disk |
| `CorpusSwap.CrashLeavesStage` | integration_tests/generate_fixture_contracts.py:727-730 | that state is reached from a clean start: the very first regeneration, and a crash as soon as the stage root exists |
| `CorpusSwap.SweepReachesBuild` | integration_tests/generate_fixture_contracts.py:850-857 | leftover stage roots, however many, are removed by a run |
| `CorpusSwap.RecoveryPassesScan` | integration_tests/generate_fixture_contracts.py:817-848 | an undisturbed run gets past the scan if and only if there is no backup or nothing at the destination, and otherwise ends where it began |
| `CorpusRecorders.EveryInterleavingIsSerial` | integration_tests/generate_fixture_contracts.py:794-814 | with a statement and local variables for each process, every interleaving of their steps is a run of one recorder at a time |
| `CorpusRecorders.StepIsHolders` | integration_tests/generate_fixture_contracts.py:794-814 | a step of any process is a step of the holder of the lock or changes nothing, and keeps the exclusion |
| `CorpusRecorders.AtMostOneRecorderWorks` | integration_tests/generate_fixture_contracts.py:794-814 | in every reachable state a process is at work if and only if it holds the lock, so at most one is |
| `CorpusRecorders.CorpusSurvivesEveryInterleaving` | integration_tests/generate_fixture_contracts.py:727-814 | however any number of processes interleave, fail and crash, the installed corpus is intact, the destination is never damaged, and recovery restores nothing else |
| `CallGraph.FindCallPath` | include/structor/call_graph.hpp:463-513 | a call path of minimum length if one of at most max_depth calls exists, nothing otherwise; the trivial and invalid ends as in the code |
| `CallGraph.SearchPath` | include/structor/call_graph.hpp:476-512 | the search proper, and that it terminates |
| `CallGraph.Reconstruct` | include/structor/call_graph.hpp:495-505 | following the parents from the target is a call path from the source, of the recorded distance, and ends |
| `CallGraph.TraverseBfs` | include/structor/call_graph.hpp:295-354 | enters each function at distance below max_depth exactly once, with its true distance; forward, the visitor collects exactly the functions reached by 1 to max_depth calls, backward exactly the called functions at distance below max_depth that have a caller |
| `CallGraph.ExpandForVisit` | include/structor/call_graph.hpp:319-350 | visiting the neighbours of one function shows every edge once and queues each unseen neighbour once |
| `CallGraph.NearIsVisited` | include/structor/call_graph.hpp:309-350 | whatever lies nearer than everything pending has been visited |
| `CallGraph.DiscoverOk` | include/structor/call_graph.hpp:346-349 | a neighbour not seen before lies exactly one step farther |
| `RewriteIndex.GlobalRewriteIndex.Upsert` | include/structor/global_rewrite_index.hpp:32-60 | the three maps agree with the log extended by the registration; the root keeps its slot or opens the next one, and the update says which |
| `RewriteIndex.GlobalRewriteIndex.OpenSlot` | include/structor/global_rewrite_index.hpp:37-51 | a known root keeps its slot and loses its old lookup keys, a new one opens the next slot |
| `RewriteIndex.GlobalRewriteIndex.FindRoot` | include/structor/global_rewrite_index.hpp:62-71 | the root's slot; failing that the only slot whose current head is the address; else none |
| `RewriteIndex.GlobalRewriteIndex.FindAlias` | include/structor/global_rewrite_index.hpp:73-79 | the slot of the last registration listing the alias exactly when its root has not been registered again since |
| `RewriteIndex.GlobalRewriteIndex.SlotCount` | include/structor/global_rewrite_index.hpp:81-83 | the number of distinct roots in the log |
| `RewriteIndex.GlobalRewriteIndex.Clear` | include/structor/global_rewrite_index.hpp:24-30 | forgets the whole log |
| `RewriteIndex.RebuildHeadIndex` | include/structor/global_rewrite_index.hpp:86-101 | maps a head to a slot exactly if that slot alone has it, however often and in whichever order heads repeat |
| `RewriteIndex.EraseSlot` | include/structor/global_rewrite_index.hpp:103-114 | removes exactly the keys of the slot |
| `RewriteIndex.SlotIsStable` | include/structor/global_rewrite_index.hpp:44-51 | a root never changes its slot |
| `RewriteIndex.RootsOf` | include/structor/global_rewrite_index.hpp:44-51 | slots are dense and in bijection with the roots ever registered |
| `RewriteIndex.HeadOfLatest` | include/structor/global_rewrite_index.hpp:54 | the current head of a root is the one its latest registration gave |
| `RewriteIndex.AliasRootIsLive` | include/structor/global_rewrite_index.hpp:47-58 | the alias map's recursion on the log finds a registration exactly if one lists the alias last and is still current |
| `Journal.PersistenceTransactionJournal.Stage` | include/structor/persistence_transaction.hpp:44-70 | an empty name is refused, a staged name keeps its first entry, a new name gets the next entry unmarked |
| `Journal.PersistenceTransactionJournal.Find` | include/structor/persistence_transaction.hpp:72-78 | the entry of the name |
| `Journal.PersistenceTransactionJournal.MarkMutated` | include/structor/persistence_transaction.hpp:80-89 | marks the entry with the identity, and nothing else, unless the index is out of range or the identity is 0 |
| `Journal.PersistenceTransactionJournal.RollbackOrder` | include/structor/persistence_transaction.hpp:95-104 | the reverse loop returns the mutated entries, latest first touch first |
| `Journal.OrderIsTheMutated` | include/structor/persistence_transaction.hpp:95-104 | the order contains exactly the mutated entries |
| `Journal.OrderDecreases` | include/structor/persistence_transaction.hpp:95-104 | the order is strictly decreasing, so each mutated name is visited once however often it was rewritten |
| `Journal.WritesAreRemembered` | include/structor/persistence_transaction.hpp:29-32 | whatever the writes, each entry holds the state its name had at the start and is marked exactly if some write of the name was |
| `Journal.UndoRestoresMarkedNames` | include/structor/persistence_transaction.hpp:29-32 | undoing along the order gives every marked name its value at the start and leaves all others alone |
| `Journal.UndoRestoresStart` | include/structor/persistence_transaction.hpp:80-104 | the store is back at its start if and only if every name that now differs was marked at least once |
| `Rollback.RollbackIsExact` | src/synthesis/structure_persistence.cpp:1447-1553 | a rollback that reports success leaves the store as at the start if and only if no deletion was reported without being done and no name escaped: none differs from the start with its entry unmarked because its identity could not be read |
| `Rollback.RollbackOfEveryRun` | src/synthesis/structure_persistence.cpp:1286-1553 | the same after any sequence of writes with any effects; names that were not written and types that are not ours are unchanged, whether or not the rollback succeeds |
| `Rollback.RollbackRestores` | src/synthesis/structure_persistence.cpp:1447-1553 | after a successful rollback every name of the start that did not escape has its definition, and every new name is gone unless a deletion lied or it escaped; what escaped is as the writes left it |
| `Rollback.ForeignTypesUntouched` | src/synthesis/structure_persistence.cpp:1306-1311 | a type that is not ours is never touched in a transaction, whatever the database does and even if the rollback fails |
| `Rollback.ForeignTypesAreNotJournaled` | src/synthesis/structure_persistence.cpp:1286-1345 | and it never enters the journal |
| `Rollback.RollbackLeavesOthers` | src/synthesis/structure_persistence.cpp:1447-1553 | a rollback, successful or not, changes no name outside the journal |
| `Rollback.ObedientSucceeds` | src/synthesis/structure_persistence.cpp:1447-1553 | if every read and write of the rollback does as asked and every identity was read, it reports success |
| `Rollback.ObeyingRollbackRestoresStart` | src/synthesis/structure_persistence.cpp:1447-1553 | if every write of the rollback leaves what was asked for, the definition of the snapshot or nothing, and every identity was read, the rollback succeeds and the store is as at the start |
| `Rollback.PoisonedExactly` | src/synthesis/structure_persistence.cpp:1374-1415 | after any sequence of writes the transaction is poisoned if and only if one was not refused and failed, vanished or could not be read |
| `Rollback.EveryRunIsConsistent` | src/synthesis/structure_persistence.cpp:1286-1415 | after any sequence of writes with any effects, exceptions of the reads before and after included, each name is as at the start, or its entry is marked, or its identity went unseen; and each entry holds the state of the start |
| `Rollback.TransactionalWriteIsConsistent` | src/synthesis/structure_persistence.cpp:1374-1415 | one write keeps this, whatever the database makes of it |
| `Rollback.TransactionalWriteTouchesOne` | src/synthesis/structure_persistence.cpp:1374-1415 | a write changes its own name only, and only that name can enter the journal |
| `Rollback.StoppedStays` | src/synthesis/structure_persistence.cpp:1547-1552 | an exception ends the rollback: the remaining entries are not touched |
| `Rollback.BelievedDeletionLeavesName` | src/synthesis/structure_persistence.cpp:1472-1487 | a deletion is believed: in any store, a new type deleted only in the report survives a successful rollback |
| `Rollback.UnseenWriteStays` | src/synthesis/structure_persistence.cpp:1383-1415 | in any store, a write whose identity cannot be read afterwards stays as it is through a rollback that reports success, without any lie: for a new name if the write raised, and for any name of ours if it did not raise, since that read has no handler |
| `Rollback.FailedRollbackLosesType` | src/synthesis/structure_persistence.cpp:1499-1515 | in any store, any one type of ours is lost by a failed write and a failed rollback, and nothing else is |
| `Rollback.OnlyOursCanBeLost` | src/synthesis/structure_persistence.cpp:1286-1553 | a stored type can be lost by some writes to its name and a rollback if and only if it is ours |
| `Persistence.StructurePersistence.PrepareNamedTypeWrite` | src/synthesis/structure_persistence.cpp:1286-1345 | refuses a write exactly if the name is empty, or new to the journal with a type that is not ours or cannot be read or whose reading raises; otherwise the name is journaled with the state it had when first touched, and nothing else changes |
| `Persistence.StructurePersistence.MarkNamedTypeWritten` | src/synthesis/structure_persistence.cpp:1347-1372 | marks the entry with the identity read, or an entry of a name that existed with its original identity once |
| `Persistence.StructurePersistence.SetNamedTypeTransactional` | src/synthesis/structure_persistence.cpp:1374-1415 | the transaction becomes exactly what the answer to storing this definition under this name makes of it, an exception of the unguarded read after it included, and is poisoned unless the write was refused or saved; the journal stays consistent |
| `Persistence.StructurePersistence.UndoEntry` | src/synthesis/structure_persistence.cpp:1456-1543 | the snapshot is what is stored, or the name is removed; never undone if the name has an unknown identity; a restored definition is read back; a name reported deleted is gone unless the report was false |
| `Persistence.StructurePersistence.RollbackTransaction` | src/synthesis/structure_persistence.cpp:1447-1553 | the loop does what the specification of a rollback says; on success the names of the start that did not escape are restored, and the store is as at the start if and only if no deletion lied and no name escaped; with writes that leave what was asked and every identity read it succeeds and the store is as at the start; names outside the journal and types that are not ours are unchanged in any case |
| `Persistence.StructurePersistence.CommitTransaction` | src/synthesis/structure_persistence.cpp:1430-1445 | succeeds exactly if the transaction is not poisoned, and then changes nothing; otherwise rolls back |
| `Persistence.StructurePersistence.BeginTransaction` | src/synthesis/structure_persistence.cpp:1217-1225 | a nested transaction is refused |
| `Persistence.StructurePersistence.CreateStruct` | src/synthesis/structure_persistence.cpp:1555-1587 | the creation as specified, concluded and, outside a transaction, committed or rolled back; an identity is returned exactly if the transaction is not poisoned; with a database that does as asked one is returned and every written name has the definition of its last write; names the creation does not write and types that are not ours are unchanged in any case |
| `Persistence.StructurePersistence.CreateStructImpl` | src/synthesis/structure_persistence.cpp:1589-1817 | the loop over companions and root does what the specification of a creation says, with the definitions of the creation in order |
| `Creations.CreationIsRun` | src/synthesis/structure_persistence.cpp:1589-1817 | whatever is answered, the transaction after a creation is what a prefix of its writes makes of it; it stays consistent, and unless it is poisoned no name is lost and every identity was read |
| `Creations.IdentityMeansSettled` | src/synthesis/structure_persistence.cpp:1555-1817 | an identity means that every write was saved and passed its checks, or was of a companion, refused and tolerated |
| `Creations.ConcludedFacts` | src/synthesis/structure_persistence.cpp:1555-1587 | an identity is that of the created name, after a new write, before an update, or as it was when reused |
| `Creations.ObligingCreationSucceeds` | src/synthesis/structure_persistence.cpp:1589-1817 | if everything can be read, every write leaves the definition asked for and every check passes, the creation returns its identity and every name has the definition of its last write, and other names are unchanged |
| `Persistence.CreatedLeavesOthers` | include/structor/api.hpp:1930-2018 | neither the created types nor what any rollback makes of them touch other names or types that are not ours |
| `Persistence.Transaction.Commit` | src/synthesis/structure_persistence.cpp:1172-1183 | only the first commit or rollback of a handle does anything |
| `Persistence.Transaction.Rollback` | src/synthesis/structure_persistence.cpp:1185-1196 | the same for rollback |
| `GlobalTinfo.FirstVerdictsDecide` | include/structor/global_tinfo_transaction.hpp:17-72 | over every sequence of calls in any order, the first verdict on the application and the first verdict on a rollback after it decide the phase |
| `GlobalTinfo.VerdictsAreFinal` | include/structor/global_tinfo_transaction.hpp:33-66 | once a verdict is taken no sequence of calls revises it |
| `GlobalTinfo.Admissible` | include/structor/global_tinfo_transaction.hpp:104-131 | an address is admitted exactly if it is mapped and, for a pointer type, all 4 or 8 bytes are mapped and do not run past the last address |
| `GlobalTinfo.PreparePointerStorage` | include/structor/global_tinfo_transaction.hpp:160-185 | an item is created exactly over a fully unexplored range, and counted as temporary only with all flags of the range recorded |
| `GlobalTinfo.VerifyRollback` | include/structor/global_tinfo_transaction.hpp:218-244 | true exactly if type, item head, size and flags, and the flags of a materialized range, are as in the snapshot |
| `GlobalTinfo.UndoWrites` | include/structor/global_tinfo_transaction.hpp:204-217 | the type is removed, the temporary item deleted and the prior type set again, in this order and up to the first exception |
| `GlobalTinfo.RollBack` | include/structor/global_tinfo_transaction.hpp:204-257 | makes the undo writes and reports restored exactly if nothing raised and the snapshot reads back |
| `GlobalTinfo.CanUndoRestores` | include/structor/global_tinfo_transaction.hpp:204-257 | if the undo writes do as asked, nothing raises and the write touched nothing but types, a type that is not accepted is undone and the address is as before |
| `GlobalTinfo.CanApplyApplies` | include/structor/global_tinfo_transaction.hpp:99-203 | if the address is admitted, the write does as asked and it can be read back, the type is applied |
| `GlobalTinfo.ApplyingIsHonest` | include/structor/global_tinfo_transaction.hpp:99-263 | whatever the writes do: applied means the verifier accepted the type read back, restored means type, item and materialized range are as before, and a failed rollback is reported only if something differs or an exception intervened |
| `GlobalTinfo.ApplyingNamesNothingMissing` | include/structor/global_tinfo_transaction.hpp:99-263 | the address never comes to name a missing type it did not name before |
| `GlobalTinfo.ApplyGlobalTinfoTransactionDetailed` | include/structor/global_tinfo_transaction.hpp:99-263 | does what the specification says for every script of answers, and so all of the above |
| `GlobalSynthesis.DoGlobalSynthesis` | include/structor/api.hpp:1915-2038 | the result, the store and the items are exactly what the specification makes of the answers; success has the types as created and the address typed with the created identity; a reported rollback has the address and every name of the start that did not escape as at the start, and the store too exactly if no deletion lied and no name escaped; a failed address rollback keeps the types; commit is never refused; names the creation does not write and types that are not ours are untouched; the address names a missing type exactly under the stated condition; and the two theorems that follow |
| `GlobalSynthesis.ObligingRunsSucceed` | include/structor/api.hpp:1915-2038 | if the address is admitted, everything can be read and loaded and every write leaves what was asked, the run succeeds, every written name has the definition of its last write, and the address names the created identity |
| `GlobalSynthesis.ObligingRunsGiveUpCleanly` | include/structor/api.hpp:1930-2018 | if every write of the rollback leaves what was asked and every identity was read, no rollback of the types fails, and one leaves the store as at the start |
| `GlobalSynthesis.UndoableRunsLeaveAddress` | include/structor/api.hpp:1975-2018 | if the address can be undone, the types are never retained, and a run that does not succeed leaves the address as before |
| `GlobalSynthesis.RunsDangleExactly` | include/structor/api.hpp:1915-2038 | if the type of the address was stored and is not ours or not written, the address names no missing type after any run; and unless a rollback failed and said so, it names one exactly if a write took its type away unnoticed |
| `GlobalSynthesis.RunsAreHonest` | include/structor/api.hpp:1915-2038 | what a run reports is true and nothing else is touched, whatever is answered |
| `GlobalSynthesis.DanglingIsPossibleExactly` | include/structor/api.hpp:1915-2018 | some writes of the creation and a rollback leave an address naming a deleted type if and only if the type it named is ours and the creation writes it |
| `GlobalSynthesis.ApplyAndFinish` | include/structor/api.hpp:1959-2038 | from the created types on, exactly what the specification makes of the answers |
| `GlobalSynthesis.LoadType` | include/structor/api.hpp:1959-1968 | finds a type with the identity if and only if the store has one and it can be loaded |
| `GlobalSynthesis.SparedNamesNothingMissing` | include/structor/api.hpp:1915-2038 | an address whose type the creation cannot write names no missing type whatever became of the rest, failed rollbacks included |
| `GlobalSynthesis.RestoredNamesNothingMissing` | include/structor/api.hpp:1959-2018 | after a rollback that reports success, an address that named no missing type names one if and only if a write took its type away unnoticed |
| `Config.SaveThenLoadRestores` | include/structor/config.hpp:444-709 | for valid options, loading what save wrote restores every persisted option, whatever was in force before, if and only if the hotkey has no comment sign, line end, terminator or outer blank |
| `Config.LoadsWhatWasSaved` | include/structor/config.hpp:444-709 | for any other hotkey without a line end, exactly what comes back instead |
| `Config.LineEndIsLost` | include/structor/config.hpp:645-709 | a hotkey with a line end is never restored, although the rest of it becomes lines of its own |
| `Config.LoadsRendered` | include/structor/config.hpp:454-577 | loading rendered lines overwrites exactly the options they name |
| `Config.LoadsSetting` | include/structor/config.hpp:455-481 | a line with a known name assigns to that option whatever stands behind the sign, or rejects the file |
| `ConfigLines.FlagLine` | include/structor/config.hpp:364-377 | a flag is set exactly by true, 1 and yes, cleared exactly by false, 0 and no, in letters of either case, and any other value rejects the file |
| `ConfigLines.NumberLine` | include/structor/config.hpp:379-409 | a number option takes exactly the numerals, spaces, one sign and digits, whose value lies in its range, and gets their place value |
| `ConfigLines.NoNumberLine` | include/structor/config.hpp:379-409 | any other value of a number option rejects the file |
| `ConfigLines.ModeLine` | include/structor/config.hpp:517-521 | the mode is one of three words, and any other value rejects the file |
| `ConfigLines.TextLine` | include/structor/config.hpp:479-481 | a text is taken up to the first terminator and never rejected |
| `ConfigLines.SpacedLine` | include/structor/config.hpp:454-476 | blanks around the name and the value and a comment behind it do not matter |
| `ConfigLines.UnknownNameIsIgnored` | include/structor/config.hpp:461-573 | a line with the name of no option changes nothing |
| `ConfigLines.LineWithoutSettingIsIgnored` | include/structor/config.hpp:455-463 | nor does a blank line, a comment, a section header or a line without an equals sign |
| `Config.ValueRoundTrip` | include/structor/config.hpp:364-409 | every value of every kind survives printing and parsing |
| `Config.EchoIsExactForClean` | include/structor/config.hpp:454-481 | a hotkey comes back unchanged exactly if a line can carry it |
| `Config.ValidIsLoadable` | include/structor/config.hpp:211-251 | valid options satisfy the stricter limits of the parser |
| `Config.ValidMeans` | include/structor/config.hpp:211-251 | which options are valid |
| `Config.Config.Load` | include/structor/config.hpp:419-586 | a readable file is loaded whole and leaves valid options, or not at all and leaves options and dirty flag unchanged; a missing one is written; an unreadable one is left alone |
| `Config.Config.Save` | include/structor/config.hpp:588-765 | succeeds exactly if the options are valid, there is a path and every step in the directory succeeds; success puts the whole text in place, touches no other file and clears the dirty flag; failure leaves every file but the temporary one as it was; at every moment the file has its old content or all of the new one |
| `ConfigFile.Folder.Replace` | include/structor/config.hpp:620-760 | writing under a temporary name and renaming replaces the file as a whole if every step succeeds and not at all otherwise |
| `Config.DefaultsAreRestored` | include/structor/config.hpp:124-195 | the default options are valid and restored by the file written for them |
| `Config.Config.Reset` | include/structor/config.hpp:767-770 | the default options, to be saved |
| `Config.Config.SetOptions` | include/structor/config.hpp:309-316 | replaces the options exactly if the new ones are valid |
| `ConfigNames.KeyOfName` | include/structor/config.hpp:479-573 | load finds for every saved name the option it was saved for |
| `ConfigNames.NamesDiffer` | include/structor/config.hpp:479-573 | no two options share a name |
| `ConfigText.Trimmed` | include/structor/config.hpp:357-362 | a trimmed text has no outer blank and no new character |
| `ConfigText.NegativeUnsigned` | include/structor/config.hpp:364-398 | a negative number is accepted for an unsigned option if and only if the minus sign is not the first character and the magnitude fits, in a trimmed value behind a vertical tab or form feed; the 32-bit condition too |
| `Config.NegativeLine` | include/structor/config.hpp:476-573 | a line with such a value assigns a number close to 2^64 exactly on that condition, and rejects the file otherwise |
| `Config.NegativeFile` | include/structor/config.hpp:444-586 | and a whole file with it is loaded exactly on that condition, with valid options |
| `Config.MinusFiveIsLoaded` | include/structor/config.hpp:476-586 | an input that shows it: z3_max_constraint_pairs with minus five behind a vertical tab is loaded as 2^64 - 5 |
| `ConfigText.ParsePrintedInt` | include/structor/config.hpp:400-409 | printing and parsing an int |
| `ConfigText.ParsePrintedNat` | include/structor/config.hpp:379-398 | a printed natural number parses to itself |
| `ConfigText.LinesOfJoin` | include/structor/config.hpp:454-456 | reading lines undoes writing them |
| `Packing.CanonicalPackingCap` | include/structor/synth_types.hpp:1191-1226 | the largest admissible power-of-two option that aligns every field, and none exactly if no admissible option does |
| `Packing.AdmissibleOptions` | include/structor/synth_types.hpp:1202-1210 | the power-of-two options within the limit, descending |
| `Packing.AllAligned` | include/structor/synth_types.hpp:1213-1220 | the remainder test on signed offsets decides alignment of every field |
| `Packing.EffectiveAlignmentForPacking` | include/structor/synth_types.hpp:1228-1240 | the strictest alignment the packing leaves any field |
| `Packing.CapIsThreshold` | include/structor/synth_types.hpp:1191-1226 | with power-of-two natural alignments an admissible cap aligns every field exactly if it is no larger than the canonical one |
| `Packing.FeasibilityIsDownwardClosed` | include/structor/synth_types.hpp:1212-1224 | what a cap aligns, a smaller one aligns too |
| `Packing.OddAlignmentIsNotDownwardClosed` | include/structor/synth_types.hpp:1212-1224 | for every alignment below 2^31 that is no power of two, a field that fits the power above it and not the power below it |
| `Packing.DownwardClosedAlignments` | include/structor/synth_types.hpp:1212-1224 | feasibility of a field is downward closed at all offsets if and only if its natural alignment is a power of two or exceeds every cap |
| `Packing.ArrayElementsStayAligned` | include/structor/synth_types.hpp:1168-1240 | rounding the size up to the effective alignment keeps every field aligned in every element of an array |
| `Packing.AlignOffsetRoundsUp` | include/structor/synth_types.hpp:1168-1178 | the least multiple not below the offset, negative offsets included; the sentinel exactly when the alignment is no power of two, the sum overflows, or the greatest offset is aligned to 1, where it is no failure |
| `Packing.MaskRoundsDown` | include/structor/synth_types.hpp:1177 | masking the two's complement form rounds down |
| `Packing.PackingValuesArePowersOfTwo` | include/structor/synth_types.hpp:1187-1189 | the bit test accepts exactly the powers of two |
| `Packing.OverlapIsACommonByte` | include/structor/synth_types.hpp:127-140 | overlap means a common byte and representable ends |
| `Packing.ContainmentIsByByte` | include/structor/synth_types.hpp:142-152 | containment means containment of every byte |
| `Packing.CheckedSvalMul` | include/structor/synth_types.hpp:1134-1157 | the unsigned magnitudes give the exact product if it is representable and nothing otherwise |
| `Packing.CheckedIntervalSpan` | include/structor/synth_types.hpp:115-127 | the wrapping subtraction is the exact distance over the whole signed range |
| `Packing.CheckedU32Product` | include/structor/synth_types.hpp:154-161 | the exact product or nothing |
| `Packing.CheckedSvalAdd` | include/structor/synth_types.hpp:1112-1121 | the exact sum or nothing |
| `Packing.CheckedSvalSub` | include/structor/synth_types.hpp:1123-1132 | the exact difference or nothing |
| `Bits.PowerOfTwoTest` | include/structor/synth_types.hpp:1098-1107 | a positive number shares no bit with its predecessor exactly if it is a power of two |
| `Bits.ClearLowBits` | include/structor/simd.hpp:353-356 | clearing the low bits rounds down to a multiple of the power |
| `Arena.Arena.Allocate` | include/structor/optimized_containers.hpp:75-100 | which region and offset each request gets and where the position then stands; allocations since the last reset are disjoint, inside their blocks and at multiples of 16, across block switches and large requests, exactly as long as no size wraps the position round |
| `Arena.WrappingSizeExists` | include/structor/optimized_containers.hpp:75-100 | a size that wraps exists exactly if something was taken from the current block |
| `Arena.WrapAround` | include/structor/optimized_containers.hpp:75-100 | such a run: 16 bytes, then 2^64 - 16, which succeeds in the same block and puts the position back to 0 |
| `Arena.BytesAllocatedLeavesOutLarge` | include/structor/optimized_containers.hpp:82-99 | the byte counter is the total of the live sizes modulo 2^64 exactly if the large allocations add up to nothing |
| `Arena.Arena.TakeFromBlock` | include/structor/optimized_containers.hpp:95-99 | bumping the position |
| `Arena.Arena.AllocateLarge` | include/structor/optimized_containers.hpp:82-88 | a large request gets a block of its own |
| `Arena.Arena.Reset` | include/structor/optimized_containers.hpp:124-139 | nothing is live and the first block is used again |
| `Arena.AlignUp16RoundsUp` | include/structor/optimized_containers.hpp:77 | the aligned position is the next multiple of 16 |
| `Arena.AlignmentIsMetUpTo16` | include/structor/optimized_containers.hpp:75-77 | the alignment parameter is not used: a power-of-two alignment is met wherever the arena stands exactly if it is at most 16 |
| `ObjectPool.ObjectPool.Allocate` | include/structor/optimized_containers.hpp:203-211 | hands out a slot that was not live: the head of the list, or the first of a new block |
| `ObjectPool.ObjectPool.Deallocate` | include/structor/optimized_containers.hpp:213-219 | a live slot goes to the front of the list |
| `ObjectPool.ObjectPool.Grow` | include/structor/optimized_containers.hpp:235-253 | the slots of a new block are linked in order in front of the list |
| `ObjectPool.ObjectPool.Write` | include/structor/optimized_containers.hpp:191-194 | writing to a live slot leaves the list alone |
| `ObjectPool.PopChain` | include/structor/optimized_containers.hpp:208-209 | taking the head keeps the list acyclic and free and live slots a partition of all slots |
| `ObjectPool.PushChain` | include/structor/optimized_containers.hpp:216-218 | and so does returning a slot |
| `ObjectPool.GrowChain` | include/structor/optimized_containers.hpp:246-252 | and so does growing |

## Left out

- Z3 solving, layout synthesis, access collection and type propagation: their work lies in libraries or files that are not part of this model.
- Disassembler calls beyond the database operations of the transactions, user interface, bindings, host hooks, real threads, prefetch hints.
- `FlatHashSet`: its insertion can overwrite an occupied slot, so it does not refine a set; not modelled.
- `IntervalTree::find_all_overlaps`: it reports touching intervals, unlike `overlaps`; `find_overlapping_pairs` is modelled instead.
- `traverse_dfs`: a visited mark set near the depth limit can hide functions within it; no completeness is claimed.
- `FlatUnionFind`: growth of the buffer and the move operations; a buffer that is a sequence has no capacity.
- `same_set_by_id`, `find_by_id` style wrappers beyond those in the table: they only chain members that are there.
- `std::sort`: modelled as some sorted permutation, computed by insertion; nothing depends on the order of equals.
- Vector instructions of `batch_overlap_small` and its null-pointer check: the scalar loop is modelled.
- `gcd_two` in `include/structor/simd.hpp:689-721`: the same statements as `binary_gcd`, covered by `Gcd.BinaryGcd`.
- Overflow of `size_t` in `4 * n` and in container sizes: such containers do not fit in memory.
- Call sites passed to graph visitors and visitors that stop a branch: the visitor that always continues is modelled.
- Graph queries: `get_callees` and `get_callers` are an arbitrary finite graph; the inner loops of the two searches are methods of their own.
- Naming and building of the fixture contracts: the corpus is accepted by the loader or it is not.
- Persistence.StructurePersistence.PrepareNamedTypeWrite: allocation failure inside the journal is not modelled, because it is outside the guarantee stated for exceptions of the database.
- Persistence.StructurePersistence.RollbackTransaction: provenance and ownership records are an outcome of each undo step, not a store of their own; reentrant calls during a rollback are left out.
- Persistence.StructurePersistence.CreateStruct: which types a structure needs is an arbitrary list of writes; every read-back check may fail.
- Enumeration companions (`src/synthesis/structure_persistence.cpp:2983-3150`): they are written without `set_named_type_transactional`, under a name made unique, marked with the identity the creation returned, and a failure that leaves nothing neither marks nor poisons; companions are modelled as written by `Persistence.StructurePersistence.SetNamedTypeTransactional`.
- Persistence.Transaction.Commit: a handle whose owner has been destroyed, and destruction of an unresolved handle, are left out.
- Address-type transaction: distinguishing an empty type from none, and waiting for the main thread beyond its check.
- Global synthesis: preview mode, analysis before the transaction, the vtable fields of the result, exceptions outside the two transactions, and everything after the commit point.
- Config: options are entries of one table, the access filter is not persisted and not modelled, the invalid-mode error cannot occur for a datatype.
- Config.Config.Save: concurrent changes of the directory by other processes; creating directories has an outcome and no effect.
- ConfigText: characters are compared as code points; case folding covers the letters A to Z of the C locale.
- Arena.Arena.Allocate: a failing allocation leaves the arena alone; construction and array wrappers are left out.
- ObjectPool: construction and destruction of the objects; the number of slots per block is a parameter.
- `checked_sval_from_u64`: one comparison, used by code that is not modelled.
- Merging of field evidence, enum-to-string tables, name metadata and result structures: they would only add easy members.
