# Verification models for cstructures and the algorithms it ships with

This project models the hardest code of the repository in Dafny and proves what that code promises. Two
components are the library's own containers, the open-addressing hash map and the flat sorted "btree". The
others are its hash functions, its allocation tracker, and the deepest algorithms of the vendored GoogleTest,
GoogleMock and Google Benchmark. `dafny verify dfyconfig.toml` checks all of it.

| file | what it models |
|---|---|
| `BipartiteMatching.dfy` | the maximum matching behind the unordered-elements matchers: graph, search, matcher verdicts |
| `ProbeOrbit.dfy` | the number theory of triangular probing |
| `HashMap.dfy` | the hash map on its slot array, with tombstones and growth, as a finite map |
| `ProbeTermination.dfy` | exactly when its probe loops end, and tables in which they do not |
| `JenkinsHash.dfy` | the 32-bit hash functions, on bit vectors |
| `Barrier.dfy`, `ThreadManager.dfy` | the thread barrier and the completion wait: the critical sections, and every interleaving of them |
| `BTree.dfy` | the key and value regions of one buffer, the memmoves on it, and the map they stand for |
| `StringLiteral.dfy` | the string-literal printer, and a reader for its output |
| `Utf8.dfy` | the UTF-8 recogniser against section 4 of RFC 3629 |
| `Prerequisites.dfy` | the expectation graph and its three worklist algorithms |
| `ExpectationDispatch.dfy` | every interleaving of setting expectations and calling mock functions |
| `AllocationTracker.dfy` | the counters and the report of live blocks, with its re-entrant growth |
| `ArgumentRanges.dfy` | `AddRange`, and the odometer of `Ranges` |
| `RunCounter.dfy` | the iteration accounting of `State` |
| `FiniteSets.dfy`, `Wrappers.dfy` | cardinality facts and `Option` |

Code that updates fields or arrays in place is a class or a method on arrays with loop invariants, tied to a
specification on values; the properties are lemmas about that specification. In `Barrier.dfy` the critical
sections are methods of a class proved equal to functions, and the state machine takes its steps by those same
functions.

What the outside world decides is a parameter: whether an allocation succeeds (`allocOk`), the address the C
allocator returns (`fromC`, `moved`, `forReport`), which thread steps next, and whether a sleeping thread wakes
without being notified. The configured constants `CSTRUCTURES_BTREE_MIN_CAPACITY` (at least 1) and
`CSTRUCTURES_BTREE_EXPAND_FACTOR` (at least 2) are parameters of the btree.

## Where the code falls short

- **The probe loops of the hash map need not end.** A probe loop ends exactly when the table has the key or the
  key's orbit has an unused slot (`ProbeStopsExactly`), and then within `table_count` probes. Insert, erase and find
  are proved under that condition. For every size that a table takes which starts at a power of two,
  `NewKeyStopsExactly` names the slots that count: all of them before the first growth, those that are not 2 modulo 3
  from the hash on after it, and fewer still later. The load check (hashmap.c:239) does not keep such a slot unused,
  for two reasons. Tombstones are not counted, so insertions and erasures alone fill a table of any size
  (`TombstonesCanFillTable`). And after the first growth the size is no power of two, so keys whose hashes agree can
  fill their orbit at a load of two thirds, without any erasure: 256 keys do in the 384 slots that the default 128
  grow to (`GrownTableTraps`). Growth itself never gets stuck from a table of 2^k * 3^n slots.
- **A printed string literal is not always a valid reading of the array.** The printer writes a NUL as `\0` and
  breaks the literal only after hexadecimal escapes, so a NUL in front of a character `0` to `7` is read by a
  standard reader as a longer octal escape. `StandardRoundTripCondition` gives the exact condition, and
  `StandardReading` says what is read otherwise.
- **The byte count of the tracker keeps the bytes of an unrecorded block.** When the report cannot grow, the
  block's bytes are counted but no record exists, so freeing the block never takes them off. Allocating keeps the
  count as right or wrong as it was, and freeing or reallocating a block makes it too high by the block's size exactly
  if that block has no record (`Malloc`, `Free`, `Realloc`). `CountCanStayWrong` reaches such a state from the start.
- **`btree_erase_index` moves one entry too many.** That entry lands behind the last one and does no harm, but its
  value is inside the buffer exactly when the tree is not full (`ExtraValueIsInside`).

Three behaviours that the documentation leaves open:

- `AddRange` stops at `kmax / mult`, so at most two powers near the top of the type are left out, and
  `ListsEveryPowerExactly` says when one is. With 64-bit arguments and multiplier 2 it is 2^62.
- `VerifyMatchMatrix` looks at single nodes, as its comment says. What the matchers need in the end is Hall's condition
  on all sets of nodes (`FindPairing`), of which the quick check is the case of one node (`QuickCheckIsHallForOne`).
- `FindUnsatisfiedPrerequisites` does not look behind a satisfied expectation that has been called. In every run of
  the dispatch that loses nothing (`ListIsEmptyIffAllSatisfied`), because a call retires the prerequisites.

## Model

| member | source | states |
|---|---|---|
| MaxBipartiteMatch.MaxBipartiteMatchState.TryAugment | thirdparty/googletest/googlemock/src/gmock-matchers.cc:166-206 | terminates because unseen right nodes decrease; on failure both arrays are unchanged and the newly seen nodes form an exhausted set; on success mutual reference holds again, the start node alone leaves unused on the left, exactly one right node becomes used, nobody used becomes unused, and no trap was entered |
| MaxBipartiteMatch.MaxBipartiteMatchState.Compute | thirdparty/googletest/googlemock/src/gmock-matchers.cc:130-161 | the pairs returned are a matching, without repetition and in left order, no matching of the graph is larger, and there is a vertex cover of exactly that size |
| MaxBipartiteMatch.AugmentThrough | thirdparty/googletest/googlemock/src/gmock-matchers.cc:183-204 | the outer link repairs the mutual reference that an inner success leaves broken at one right node |
| MaxBipartiteMatch.TrapGrows | thirdparty/googletest/googlemock/src/gmock-matchers.cc:131-153 | a failed search from a left node joins its seen nodes to the trap, whose matched lefts have no neighbours outside |
| MaxBipartiteMatch.TrapSurvives | thirdparty/googletest/googlemock/src/gmock-matchers.cc:137-144 | a later successful augmentation leaves the trap closed and every settled left node settled, so searching each left node once is enough |
| MaxBipartiteMatch.NoLargerMatching | thirdparty/googletest/googlemock/src/gmock-matchers.cc:131-153 | when every left node is used or confined to the trap, any matching at all has at most as many pairs as there are used lefts |
| MaxBipartiteMatch.MaximumAtEnd | thirdparty/googletest/googlemock/src/gmock-matchers.cc:129-161 | the final arrays hold a maximum matching |
| MaxBipartiteMatch.CoverAtEnd | thirdparty/googletest/googlemock/src/gmock-matchers.cc:129-161 | the trap and the left nodes not confined to it touch every edge, with one node for each pair of the matching |
| MaxBipartiteMatch.PairsOfState | thirdparty/googletest/googlemock/src/gmock-matchers.cc:99-103 | mutually referent arrays stand for a matching with one pair for each used left node |
| BipartiteGraph.SaturationBySize | thirdparty/googletest/googlemock/src/gmock-matchers.cc:424-437 | a matching saturates a side exactly when it has as many pairs as that side has nodes |
| UnorderedElements.VerifyMatchMatrix | thirdparty/googletest/googlemock/src/gmock-matchers.cc:370-418 | true exactly when, for Superset, no matcher is idle; for Subset, no element; for ExactMatch, neither |
| UnorderedElements.FindPairing | thirdparty/googletest/googlemock/src/gmock-matchers.cc:420-459 | true exactly when some matching saturates the matchers (Superset), the elements (Subset) or both (ExactMatch), and exactly when Hall's condition holds on each of these sides |
| UnorderedElements.FlagsMean | thirdparty/googletest/googlemock/include/gmock/gmock-matchers.h:2885-2891 | which side each flag asks for, in terms of matchings only |
| HallsCondition.HallDecides | thirdparty/googletest/googlemock/src/gmock-matchers.cc:424-446 | given a matching and a cover of one size, the size test on a side is Hall's condition for that side: no set of its nodes has fewer neighbours than members |
| UnorderedElements.MatchAndExplain | thirdparty/googletest/googlemock/include/gmock/gmock-matchers.h:2971-2998 | with all shortcuts taken, the verdict is the same, flag by flag |
| UnorderedElements.SatisfiableBySize | thirdparty/googletest/googlemock/src/gmock-matchers.cc:424-446 | comparing the size of one maximum matching with the side sizes decides satisfiability |
| UnorderedElements.QuickCheckIsSound | thirdparty/googletest/googlemock/src/gmock-matchers.cc:365-418 | the quick check never rejects a satisfiable matrix |
| UnorderedElements.QuickCheckIsHallForOne | thirdparty/googletest/googlemock/src/gmock-matchers.cc:365-418 | the quick check is Hall's condition for sets of one node, on each side the flags require |
| UnorderedElements.QuickCheckIsNotComplete | thirdparty/googletest/googlemock/src/gmock-matchers.cc:365-369 | a matrix that passes the quick check and is not satisfiable, and a satisfiable one |
| ProbeOrbit.TriClosedForm | cstructures/src/hashmap.c:262-267 | the offset after i probes is i(i+1)/2 |
| ProbeOrbit.ProbeStep | cstructures/src/hashmap.c:262-267 | adding the next step and reducing gives the next position of the closed form |
| ProbeOrbit.ReachedWithinTable | cstructures/src/hashmap.c:249-269 | for every table size, a slot ever reached is reached in the first `table_count` probes |
| ProbeOrbit.ProbePrefixIsPermutation | cstructures/src/hashmap.c:262-263 | on a power of two the first `table_count` probes visit every slot exactly once |
| ProbeOrbit.OrbitExactly | cstructures/include/cstructures/hashmap.h:11 | for every table of 2^k * 3^n slots, which slots a probe sequence ever reaches: those whose distance from the hash is a triangular number modulo 3^n, by a test on its remainders |
| ProbeOrbit.OrbitSize | cstructures/include/cstructures/hashmap.h:11 | and how many these are, for every k and n: all, 2/3, 4/9, 11/27 and so on |
| ProbeOrbit.TwoThirdsReached | cstructures/include/cstructures/hashmap.h:11 | on 3 * 2^k exactly two thirds of the slots are ever reached, and which ones |
| ProbeOrbit.OrbitAfterGrowth | cstructures/include/cstructures/hashmap.h:11 | after any number of growths from a power of two, a probe sequence of the grown table reaches more slots than the old table had |
| ProbeOrbit.Solve | cstructures/include/cstructures/hashmap.h:11 | the quadratic congruences behind the orbit theorems have solutions modulo every 2^k * 3^n, by lifting one prime factor at a time |
| HashStorage.HashWrapper | cstructures/src/hashmap.c:98-105 | 2 for the three reserved values, which is none of them, and every other hash unchanged |
| HashStorage.StopsWithinTable | cstructures/src/hashmap.c:300-320 | if a probe sequence ever stops it stops within `table_count` probes |
| HashStorage.AbsentAtUnused | cstructures/src/hashmap.c:333-357 | meeting an unused slot before the key means the key is not in the map |
| HashStorage.Stored | cstructures/src/hashmap.c:271-288 | writing a new key into any dead slot on its probe path keeps the table well formed and adds exactly that key, so reusing a tombstone loses nothing |
| HashStorage.Erased | cstructures/src/hashmap.c:322-326 | a tombstone keeps the table well formed and removes exactly that key |
| HashMaps.HashMap.InitWithOptions | cstructures/src/hashmap.c:191-214 | an empty map whose slots are all unused |
| HashMaps.HashMap.FindSlot | cstructures/src/hashmap.c:243-281 | the probe loop ends, finds the key exactly when the map has it, and otherwise gives the last tombstone before the first unused slot on the key's path, or that slot itself if there is no tombstone before it |
| HashMaps.HashMap.Insert | cstructures/src/hashmap.c:234-291 | status and new map in every case: out of memory only on failed growth, exists for a present key, otherwise the map with the key added; the table size triples exactly when it grows; without growth that slot alone is written |
| HashMaps.HashMap.ResizeRehash | cstructures/src/hashmap.c:122-154 | the whole map survives in a table without tombstones, and a failed allocation changes nothing |
| HashMaps.HashMap.CopyEntry | cstructures/src/hashmap.c:137-146 | one turn of the copy loop: the nested insert succeeds, does not grow again, and the new table holds one entry more |
| HashMaps.HashMap.Erase | cstructures/src/hashmap.c:295-327 | removes the key if present, and then changes the mark of its slot and nothing else |
| HashMaps.HashMap.Find | cstructures/src/hashmap.c:331-357 | finds the key's own live slot exactly when the map has the key |
| HashMaps.HashMap.ForEach | cstructures/include/cstructures/hashmap.h:155-167 | the loop macro visits every entry of the map once and nothing else |
| HashMaps.OverloadedFromSevenTenths | cstructures/src/hashmap.c:239-240 | while the 32-bit product does not wrap, the load check says that seven tenths of the slots are used |
| HashMaps.NotOverloadedAfterGrowth | cstructures/src/hashmap.c:239-241 | right after growth the load check is false, so re-inserting never resizes again |
| HashMaps.GrowthAlwaysHasRoom | cstructures/src/hashmap.c:239-241 | a table of 2^k * 3^n slots always grows to one where every probe sequence meets an unused slot |
| HashMaps.RoomMeansStop | cstructures/src/hashmap.c:249-269 | without tombstones, an orbit larger than the number of live slots makes every probe stop |
| HashMaps.CountIsMapSize | cstructures/src/hashmap.c:288 | the number of live slots is the size of the map |
| ProbeTermination.ProbeStopsExactly | cstructures/src/hashmap.c:249-269 | in a well-formed table of any size, a probe loop ends if and only if the table has the key or the key's orbit an unused slot |
| ProbeTermination.NewKeyStopsExactly | cstructures/src/hashmap.c:262-263 | for an absent key in a table of 2^k * 3^n slots, the loop ends if and only if there is an unused slot at a triangular distance; any unused slot for n = 0, one not 2 modulo 3 from the hash on for n = 1 |
| ProbeTermination.TombstonesCanFillTable | cstructures/src/hashmap.c:239-269 | for every table size, operations that leave an empty map, not overloaded, in which no probe loop for any key ends |
| ProbeTermination.GrownTableTraps | cstructures/src/hashmap.c:239-269 | for every power of two whose load check does not wrap, insertions alone that leave a grown table without tombstones, not overloaded, in which no probe loop for a new key ends |
| ProbeTermination.FullOrbitTraps | cstructures/src/hashmap.c:249-269 | keys with one hash that are as many as its orbit has slots keep every other key from being looked up |
| JenkinsHash.Hash32JenkinsOaat | cstructures/src/hash.c:6-19 | the loop computes the composition of the mixing steps and the finalisation, which the following rows pin to numbers |
| JenkinsHash.AddShift10Multiplies | cstructures/src/hash.c:12 | the first shift-and-add multiplies by 1025 modulo 2^32 |
| JenkinsHash.AddShift3Multiplies | cstructures/src/hash.c:15 | the second multiplies by 9 |
| JenkinsHash.AddShift15Multiplies | cstructures/src/hash.c:17 | the third multiplies by 32769 |
| JenkinsHash.XorShift6Bits | cstructures/src/hash.c:13 | each bit becomes its sum without carry with the bit six places higher |
| JenkinsHash.XorShift1Bits | cstructures/src/hash.c:16 | and with the bit one place higher |
| JenkinsHash.KeyOfOne | cstructures/src/hash.c:9-18 | the hash of one byte, and its value for 0x61 |
| JenkinsHash.KnownKeys | cstructures/src/hash.c:9-18 | hash values for keys of two and three bytes, which fix the number and order of all steps |
| JenkinsHash.MixByteInjective | cstructures/src/hash.c:11-13 | one mixing step is injective in the state for a fixed byte and in the byte for a fixed state |
| JenkinsHash.FinishInjective | cstructures/src/hash.c:15-17 | the finalisation is injective on 32-bit words |
| JenkinsHash.MixFromInjective | cstructures/src/hash.c:9-14 | mixing any byte string is injective in the start state |
| JenkinsHash.OneByteChangesHash | cstructures/src/hash.c:6-19 | two keys of any equal length that differ in exactly one byte have different hashes |
| JenkinsHash.SpreadArithmetic | cstructures/src/hash.c:70 | what is added to the right operand, in multiplication and division |
| JenkinsHash.KnownCombinations | cstructures/src/hash.c:24-33 | values of the combination and of the hash of a pointer |
| JenkinsHash.WordsOfAddress | cstructures/src/hash.c:29-32 | the two words that a pointer is split into give it back |
| JenkinsHash.CombineInjective | cstructures/src/hash.c:68-72 | combining is injective in the right operand |
| JenkinsHash.SameLowWordNoCollision | cstructures/src/hash.c:24-33 | two different 64-bit pointers with the same low word never collide |
| BarrierFields.Barrier.Enter | thirdparty/benchmark/src/mutex.h:132-150 | the section up to the first predicate check changes the three fields as the transition function says |
| BarrierFields.Barrier.Recheck | thirdparty/benchmark/src/mutex.h:138-149 | the section a woken thread runs, likewise |
| BarrierFields.Barrier.RemoveThread | thirdparty/benchmark/src/mutex.h:114-118 | one running thread fewer, and a notification exactly when somebody is inside |
| BarrierProtocol.StepKeepsInv | thirdparty/benchmark/src/mutex.h:104-149 | every step of every thread, spurious wake-ups and removals included, keeps the invariant |
| BarrierProtocol.EnterCheckHolds | thirdparty/benchmark/src/mutex.h:133 | the check at entry never fails, and when the last thread enters all others are parked in the phase |
| BarrierProtocol.EnteredIsBounded | thirdparty/benchmark/src/mutex.h:125-137 | in every execution `entered_` counts the threads parked in the current phase and never exceeds the running ones |
| BarrierProtocol.NobodyLeavesEarly | thirdparty/benchmark/src/mutex.h:129-144 | nobody has returned from phase p before every still running thread has entered it |
| BarrierProtocol.ExactlyOneReturnsTrue | thirdparty/benchmark/src/mutex.h:104-112 | each completed phase has one thread whose call returns true, and only that one |
| BarrierProtocol.NoDeadlock | thirdparty/benchmark/src/mutex.h:104-149 | in every execution, with all running threads inside, some thread is awake or about to notify |
| BarrierProtocol.SleepersHaveNotifier | thirdparty/benchmark/src/mutex.h:110-142 | no wake-up is lost: if all threads inside are asleep or notifying, a notifier exists |
| BarrierProtocol.InsideStepsAreBounded | thirdparty/benchmark/src/mutex.h:110-144 | without new arrivals, only a bounded number of steps can happen inside the barrier |
| ThreadManagerProtocol.StepKeepsInv | thirdparty/benchmark/src/thread_manager.h:25-37 | every interleaving of the decrement outside the mutex, the notification and the wait keeps the invariant |
| ThreadManagerProtocol.ReturnsOnlyWhenAllDone | thirdparty/benchmark/src/thread_manager.h:33-37 | the wait returns only after every thread has decremented |
| ThreadManagerProtocol.NotifiesOnlyAtZero | thirdparty/benchmark/src/thread_manager.h:27-30 | a thread that goes on to notify has seen the count reach zero |
| ThreadManagerProtocol.NeverStranded | thirdparty/benchmark/src/thread_manager.h:25-37 | once the count is zero, until the wait returns some step that needs no luck is possible |
| ThreadManagerProtocol.ZeroMeansProgress | thirdparty/benchmark/src/thread_manager.h:25-37 | each such step brings the return strictly nearer |
| FlatBuffer.RelocationKeepsEntries | cstructures/src/btree.c:43-49 | moving the value region between capacities, overlap included, keeps every key with its value |
| FlatBuffer.FilledInserts | cstructures/src/btree.c:204-218 | the two memmoves and the two writes insert one entry at the index |
| FlatBuffer.ClosedRemoves | cstructures/src/btree.c:396-410 | the two memmoves remove one entry at the index, whether or not they carry along what stands behind the last entry |
| FlatBuffer.ExtraValueIsInside | cstructures/src/btree.c:404-406 | the second memmove of the source stays inside the buffer if and only if the tree is not full |
| FlatBuffer.BlockIsProduct | cstructures/src/btree.c:207-209 | the length of a moved block of values is the number of entries times the value size |
| FlatBuffer.OverwriteReplaces | cstructures/src/btree.c:225-240 | overwriting a value changes that entry's value and nothing else |
| FlatBuffer.OffsetIsAffine | cstructures/include/cstructures/btree.h:25-45 | the value of index i starts at capacity + value size times i |
| SortedEntries.LowerBoundDecides | cstructures/src/btree.c:146-157 | a key is in the map exactly when it stands at its lower bound, with its value |
| SortedEntries.InsertedIsMapUpdate | cstructures/src/btree.c:189-221 | inserting an absent key at its lower bound keeps keys strictly ascending and is the map update |
| SortedEntries.RemovedIsMapRemoval | cstructures/src/btree.c:396-410 | removing an index keeps the order and removes exactly its key |
| BTrees.BTree.Clamped | cstructures/src/btree.c:10-12 | the least capacity that is neither below the one asked for nor below the configured minimum |
| BTrees.BTree.Realloc | cstructures/src/btree.c:8-92 | the first allocation, growth and shrinking all keep the entries; out of memory exactly on a failed growth, with nothing changed |
| BTrees.BTree.MakeRoom | cstructures/src/btree.c:197-200 | a full tree, and no other, grows to its capacity times the configured factor; otherwise there is room already |
| BTrees.ScaledIsProduct | cstructures/src/btree.c:199 | that new capacity as a product |
| BTrees.BTree.Reserve | cstructures/src/btree.c:134-144 | afterwards the capacity suffices or it is out of memory, and the map is unchanged |
| BTrees.BTree.FindLowerBound | cstructures/src/btree.c:158-185 | the binary search gives the first index whose key is not less than the target |
| BTrees.BTree.InsertNew | cstructures/src/btree.c:189-221 | status, new map and new capacity in every case |
| BTrees.BTree.InsertOrGet | cstructures/src/btree.c:244-282 | status, new map and new capacity in every case, and the position given holds the value of the key |
| BTrees.BTree.SetExisting | cstructures/src/btree.c:225-240 | updates exactly a present key |
| BTrees.BTree.Find | cstructures/src/btree.c:286-300 | the position of the key's value, exactly when the map has the key |
| BTrees.BTree.KeyExists | cstructures/src/btree.c:367-377 | true exactly when the map has the key |
| BTrees.BTree.EraseIndex | cstructures/src/btree.c:396-410 | removes the entry at the index and returns its key, with the move of one entry too many whenever the tree is not full |
| BTrees.BTree.Erase | cstructures/src/btree.c:414-427 | the map without the key, and whether it was there |
| BTrees.BTree.Clear | cstructures/src/btree.c:464-469 | the empty map, with the capacity kept |
| BTrees.BTree.Compact | cstructures/src/btree.c:473-487 | the same map in the least capacity, or no buffer at all when empty |
| BTrees.BTree.ForEachErasing | cstructures/include/cstructures/btree.h:335-373 | erasing inside the loop macro visits every original item once, in order, and leaves exactly the kept ones, through the index wrap at item zero |
| LiteralPrinter.PrintCharsAsStringTo | thirdparty/googletest/googletest/src/gtest-printers.cc:264-286 | the text printed is the literal of the array as `LiteralText` describes it, and the format is hexadecimal exactly when some code is in 1 to 6, 14 to 31 or 127 to 255 |
| LiteralPrinter.PrintIsLiteral | thirdparty/googletest/googletest/src/gtest-printers.cc:136-212 | codes 32 to 126 but the double quote and the backslash stand for themselves, ten characters have their two-character escapes, the others one or two upper-case hexadecimal digits without a leading zero, and a break stands exactly between such an escape and a following hexadecimal digit |
| LiteralText.LiteralIsUnique | thirdparty/googletest/googletest/src/gtest-printers.cc:144-212 | that description fits one text only |
| LiteralText.PlainLiteral | thirdparty/googletest/googletest/src/gtest-printers.cc:136-138 | an array without characters to escape is printed as itself between quotes |
| LiteralPrinter.UniversalPrintCharArray | thirdparty/googletest/googletest/src/gtest-printers.cc:294-314 | the literal without a final NUL, or the literal of all characters and the note that there is none |
| LiteralRoundTrip.RoundTrip | thirdparty/googletest/googletest/src/gtest-printers.cc:144-212 | reading the printed literal, with `\0` a complete escape, gives every array back |
| LiteralRoundTrip.PrintIsInjective | thirdparty/googletest/googletest/src/gtest-printers.cc:264-286 | different arrays print differently |
| LiteralRoundTrip.PrintArrayIsInjective | thirdparty/googletest/googletest/src/gtest-printers.cc:294-314 | different arrays print differently although a final NUL is left out |
| LiteralRoundTrip.BreakIsTransparent | thirdparty/googletest/googletest/src/gtest-printers.cc:272-277 | a break in the literal does not change what is read |
| LiteralRoundTrip.NoDigitAfterHex | thirdparty/googletest/googletest/src/gtest-printers.cc:272-277 | what follows a hexadecimal escape never starts with a hexadecimal digit |
| LiteralRoundTrip.StandardReading | thirdparty/googletest/googletest/src/gtest-printers.cc:144-212 | what a standard reader, with octal escapes of up to three digits, reads for every array |
| LiteralRoundTrip.StandardRoundTripCondition | thirdparty/googletest/googletest/src/gtest-printers.cc:144-212 | a standard reader gets the array back if and only if no NUL stands before an octal digit |
| LiteralRoundTrip.NulThenDigitMisread | thirdparty/googletest/googletest/src/gtest-printers.cc:147-149 | the two characters NUL and `1` are read back as the one character with code 1 |
| Utf8.IsValidUTF8 | thirdparty/googletest/googletest/src/gtest-printers.cc:378-411 | true exactly when the bytes are a concatenation of encodings of Unicode scalar values |
| Utf8.ExamplesOfTheStandard | thirdparty/googletest/googletest/src/gtest-printers.cc:384-405 | the encoding used as reference agrees with examples in section 7 of RFC 3629 |
| Utf8.ConsumedIsEncoding | thirdparty/googletest/googletest/src/gtest-printers.cc:384-405 | the bytes one turn accepts are the encoding of a scalar value |
| Utf8.EncodingIsConsumed | thirdparty/googletest/googletest/src/gtest-printers.cc:384-405 | one turn accepts every encoding of a scalar value, whatever follows, and no more of it |
| Utf8.EncodingIsUnique | thirdparty/googletest/googletest/src/gtest-printers.cc:376-411 | the sequence of scalar values behind the bytes is unique |
| ExpectationWorklists.RetireAllPreRequisites | thirdparty/googletest/googlemock/src/gmock-spec-builders.cc:104-127 | from a closed retired set: exactly the transitive prerequisites become retired besides what was, and the set is closed again, so both shortcuts are sound |
| ExpectationWorklists.AllPrerequisitesAreSatisfied | thirdparty/googletest/googlemock/src/gmock-spec-builders.cc:131-148 | on an acyclic graph it terminates without a visited set, and is true exactly when every transitive prerequisite is satisfied |
| ExpectationWorklists.FindUnsatisfiedPrerequisites | thirdparty/googletest/googlemock/src/gmock-spec-builders.cc:151-178 | it terminates, and adds exactly the unsatisfied nodes reached through satisfied, never called ones |
| ExpectationWorklists.NothingCollectedIffAllSatisfied | thirdparty/googletest/googlemock/src/gmock-spec-builders.cc:165-169 | if everything behind each satisfied and called expectation is satisfied, nothing is collected exactly when all prerequisites are satisfied |
| ExpectationWorklists.CalledOutOfOrder | thirdparty/googletest/googlemock/src/gmock-spec-builders.cc:165-169 | that condition is needed: a graph, which no run of the dispatch produces, where it fails and so does the equivalence |
| ExpectationDispatch.Expectations.ShouldHandleArguments | thirdparty/googletest/googlemock/include/gmock/gmock-spec-builders.h:1096-1106 | for matching arguments: not retired, and every transitive prerequisite called at least its minimum and at most its maximum of times |
| ExpectationDispatch.Expectations.GetActionForArguments | thirdparty/googletest/googlemock/include/gmock/gmock-spec-builders.h:1192-1218 | counts the call and no other; excessive exactly when the maximum was reached before; otherwise retires exactly the transitive prerequisites and, if asked and now saturated, the expectation itself |
| ExpectationDispatch.StepKeepsInv | thirdparty/googletest/googlemock/include/gmock/gmock-spec-builders.h:1096-1218 | every EXPECT_CALL clause and every handled call keeps the invariant: prerequisites are older, the retired set is closed, retired expectations are satisfied and called ones within their limits have retired prerequisites |
| ExpectationDispatch.WalksAreReady | thirdparty/googletest/googlemock/src/gmock-spec-builders.cc:104-178 | in every run the graph is acyclic and the retired set closed under prerequisites, which is what the three walks assume |
| ExpectationDispatch.InvMeansOrder | thirdparty/googletest/googlemock/src/gmock-spec-builders.cc:165-169 | everything behind a called and satisfied expectation is satisfied |
| ExpectationDispatch.ListIsEmptyIffAllSatisfied | thirdparty/googletest/googlemock/include/gmock/gmock-spec-builders.h:1132-1144 | in every run, the list of unsatisfied prerequisites in a failure message is empty if and only if all prerequisites are satisfied |
| ExpectationDispatch.SequenceOrders | thirdparty/googletest/googlemock/include/gmock/gmock-spec-builders.h:942-951 | in every run, of two expectations that join one sequence the later depends on the earlier, for good |
| ExpectationDispatch.AfterOrders | thirdparty/googletest/googlemock/include/gmock/gmock-spec-builders.h:970-981 | in every run, After makes its argument a prerequisite, for good |
| ExpectationDispatch.HandledInOrder | thirdparty/googletest/googlemock/include/gmock/gmock-spec-builders.h:1105 | nothing is handled while something it depends on has had fewer calls than its minimum or more than its maximum |
| ExpectationDispatch.CallsFollowSequence | thirdparty/googletest/googlemock/include/gmock/gmock-spec-builders.h:1096-1106 | in every run, a later expectation of a sequence is called only while the number of calls of an earlier one is within its limits |
| ExpectationDispatch.CallsAreCounted | thirdparty/googletest/googlemock/include/gmock/gmock-spec-builders.h:1200-1208 | in every run, the call count of an expectation is the number of calls it has handled |
| ExpectationDispatch.HandledAtMostMax | thirdparty/googletest/googlemock/include/gmock/gmock-spec-builders.h:1211-1213 | in every run, an expectation with a maximum of at least one that retires on saturation handles at most that many calls |
| ExpectationDispatch.Between | thirdparty/googletest/googlemock/src/gmock-cardinalities.cc:49-53 | the upper bound is never below the lower, neither is lowered, a mended bound is zero or the other one, and sensible bounds are kept |
| PrerequisiteGraph.AcyclicHasWeights | thirdparty/googletest/googlemock/src/gmock-spec-builders.cc:134-146 | every acyclic graph has weights of one plus the prerequisites' sum, the measure that ends both walks |
| ExpectationSequences.Sequence.AddExpectation | thirdparty/googletest/googlemock/src/gmock-spec-builders.cc:852-860 | exactly one new prerequisite edge, to the sequence's last expectation, unless there is none or it is the same |
| ExpectationSequences.NewEdgeKeepsAcyclic | thirdparty/googletest/googlemock/src/gmock-spec-builders.cc:852-860 | the graph stays acyclic if and only if the last expectation does not already reach the new one |
| AllocationTracker.Tracker.Init | cstructures/src/memory.c:31-52 | no user blocks, no records, and one allocation: the report's own storage |
| AllocationTracker.Tracker.Malloc | cstructures/src/memory.c:56-114 | a failed call changes nothing; a successful one adds the block to the books, byte count and peak, stays exact if and only if the record is kept, and leaves the excess of the byte count as it was; called for the report's storage it only counts the allocation |
| AllocationTracker.Tracker.InsertReport | cstructures/src/memory.c:97-106 | recording a block adds exactly its record; if the report grows, it re-enters malloc and free once each, with no effect on user blocks or bytes |
| AllocationTracker.Tracker.FullIsOverloaded | cstructures/src/hashmap.c:239 | the division-free load check of the contracts is that of the hash map |
| AllocationTracker.Tracker.Realloc | cstructures/src/memory.c:118-200 | the old block is replaced by the new one in the books; the byte count takes off the old size before it adds the new one, the peak sees both values, and the excess grows by the old size if and only if the old block had no record |
| AllocationTracker.Tracker.Free | cstructures/src/memory.c:204-251 | exactly this block leaves the books; a null pointer changes nothing; the peak stays; the books are exact afterwards if and only if no other record was lost, and the excess grows by the size of a block without record |
| AllocationTracker.Tracker.Deinit | cstructures/src/memory.c:254-303 | the leaks returned are the number of user blocks never freed |
| AllocationTracker.Tracker.GetNumAllocs | cstructures/src/memory.c:306-310 | the number of user blocks exactly when every record was kept, otherwise fewer |
| AllocationTracker.Tracker.CountIsRightExactly | cstructures/src/memory.c:72-78 | the byte count is the sum of the live sizes if and only if the bytes of lost records are all those of live blocks; in particular while no record is lost |
| AllocationTracker.LoseRecord | cstructures/src/memory.c:106-107 | from any exact tracker with a full report, a malloc whose record is lost and the free of its block leave the same blocks and a count too high by the size |
| AllocationTracker.CountCanStayWrong | cstructures/src/memory.c:31-114 | such a state is reached from initialisation, after 2868 recorded blocks |
| AllocationTracker.Tracker.BytesAfterLastFree | cstructures/src/memory.c:204-251 | when everything is freed the byte count is exactly the bytes of blocks whose record was lost |
| AllocationTracker.MaximumIsGreatest | cstructures/src/memory.c:76-78 | the value that the peak is kept equal to is one of, and the greatest of, all values the byte count has had |
| BlockSizes.TotalWithout | cstructures/src/memory.c:212 | taking one block out lowers the sum of sizes by its size |
| ArgumentRanges.AddRange | thirdparty/benchmark/src/benchmark_register.h:9-31 | appends a strictly ascending list from lo to hi whose inner elements are exactly the powers of the multiplier between them and below `kmax / mult` |
| ArgumentRanges.RangeListUnique | thirdparty/benchmark/src/benchmark_register.h:9-31 | that description fits one list only |
| ArgumentRanges.NoOverflow | thirdparty/benchmark/src/benchmark_register.h:20 | the multiplication in the loop never exceeds the type's maximum |
| ArgumentRanges.ListsEveryPowerExactly | thirdparty/benchmark/src/benchmark_register.h:20-26 | with q the least power not below `kmax / mult`, every power strictly between the bounds is listed if and only if neither q nor `q * mult` lies strictly between them |
| ArgumentRanges.Int64PowersOfTwo | thirdparty/benchmark/src/benchmark_register.h:20-26 | with 64-bit arguments and multiplier 2: if and only if 2^62 does not lie strictly between the bounds |
| ArgumentRanges.LargestPowerLeftOut | thirdparty/benchmark/src/benchmark_register.h:20-26 | from 0 to the 64-bit maximum, 2^62 is missing |
| ArgumentProduct.Benchmark.Range | thirdparty/benchmark/src/benchmark_register.cc:278-287 | appends one single-argument tuple for each value of the list, in order |
| ArgumentProduct.Benchmark.Ranges | thirdparty/benchmark/src/benchmark_register.cc:289-321 | appends the tuples of the product of the range lists in odometer order, after which the number of arguments is that of the ranges |
| ArgumentProduct.Advance | thirdparty/benchmark/src/benchmark_register.cc:312-318 | the loop in place turns the counter vector by one |
| ArgumentProduct.NextCounts | thirdparty/benchmark/src/benchmark_register.cc:312-318 | one turn adds one to the number the vector stands for, and wraps to zero after the last |
| ArgumentProduct.RankIsInjective | thirdparty/benchmark/src/benchmark_register.cc:300-318 | different counter vectors stand for different numbers |
| ArgumentProduct.ExactlyOnce | thirdparty/benchmark/src/benchmark_register.cc:289-321 | a tuple is in the enumeration if and only if it is in the Cartesian product, and no tuple appears twice |
| RunCounter.State.KeepRunningInternal | thirdparty/benchmark/include/benchmark/benchmark.h:693-719 | one call changes the counters as the transition function says |
| RunCounter.State.RangedFor | thirdparty/benchmark/include/benchmark/benchmark.h:721-767 | a ranged for loop runs `max_iterations` rounds, after which `iterations()` is right |
| RunCounter.FieldsAfter | thirdparty/benchmark/include/benchmark/benchmark.h:637-646 | the meaning of both counters after any run of granted calls with mixed batch sizes |
| RunCounter.IterationsIsSum | thirdparty/benchmark/include/benchmark/benchmark.h:629-635 | `iterations()` is the sum of the granted batch sizes, at every point of every run |
| RunCounter.GrantedWhileBelowMax | thirdparty/benchmark/include/benchmark/benchmark.h:693-719 | a call is granted if and only if the sum so far is below `max_iterations` |
| RunCounter.OvershootBelowLastBatch | thirdparty/benchmark/include/benchmark/benchmark.h:711-716 | at the end the sum is at least `max_iterations` and overshoots by less than the last batch, and `iterations()` still tells it |
| RunCounter.PlainRunLength | thirdparty/benchmark/include/benchmark/benchmark.h:685-687 | plain `KeepRunning` is granted exactly `max_iterations` times |
| RunCounter.State.StartKeepRunning | thirdparty/benchmark/src/benchmark.cc:202-208 | the counters at the start of a run |
| RunCounter.State.FinishKeepRunning | thirdparty/benchmark/src/benchmark.cc:210-219 | the counters at the end of a run |

## Left out

- BTrees.BTree.EraseIndex: in a full tree it moves `count - idx - 1` entries; the source moves one more, whose value would have to be read behind the end of the buffer (`ExtraValueIsInside`).
- FlatBuffer.ClosedRemoves: likewise has no entry to carry along that is not in the buffer.
- HashMaps.HashMap.InitWithOptions: the answer `HM_OOM` for a failed first allocation.
- HashMaps.HashMap.Insert: does not promise that the probe loop ends by itself; that is false of the code, so the exact condition is a precondition, as it is for erase and find. For a growing table the precondition `GrowthHasRoom` is sufficient only: it holds for all sizes 2^k * 3^n and does not depend on the hashes, and leaves out some other sizes, such as 35 slots with 25 entries, whose growth may end. Table sizes stay within 2^31, because beyond that the 32-bit position arithmetic wraps; the key's bytes and its hash function are abstract.
- HashMaps.HashMap.ResizeRehash: the same condition.
- ArgumentProduct.Benchmark.Ranges: the product of the list sizes is unbounded, without the wrap of `size_t`.
- AllocationTracker.Tracker.InsertReport: does not say how many bytes it asks for the report's own storage, which no figure of the tracker counts; takes the report as the finite map that `HashMap.dfy` proves its hash map refines, with the same load check, so a probe loop that never ends is not seen here.
- AllocationTracker.Tracker.Realloc: a failed realloc, and realloc or free of a pointer that is not live, are not modelled.
- AllocationTracker.Tracker.Init: assumes the report's first storage can be allocated.
- RunCounter.State.KeepRunningInternal: runs in which an error was reported are not modelled, and the barrier and the timer calls are left to their own models.
- BarrierProtocol.StepKeepsInv: the integers of the barrier do not overflow.
- The match matrix is kept as rows, so the flattened index arithmetic of `MatchMatrix` is not modelled; neither are `Randomize`, `NextGraph` or any text written to a listener.
- HashMaps.HashMap.ForEach: the body of the loop macro does not change the table.
- The hash map's statistics and its create and free wrappers.
- `hash32_aligned_ptr` and the 32-bit variants of the pointer hashes.
- `btree_find_unused_key`, whose scan is not bounded by the count, and the lookups by value (`btree_find_key`, `btree_erase_value` and their relatives), which are linear scans over the entries proved here.
- Overflow of a capacity times an entry size; keys and value cells are mathematical integers, and a value is a fixed number of cells.
- Wide-character printing, character codes in decimal, and printing of arrays other than narrow characters.
- ExpectationDispatch.StepKeepsInv: cardinalities are bounds on the number of calls, fixed when the EXPECT_CALL statement starts; user-defined cardinalities and the removal of expectations are not modelled.
- Checks of the source (`CHECK`, `assert`) are preconditions, apart from the one at the barrier's entry, which is proved.
- Backtraces, hex dumps and messages of the allocation tracker.
- The vector and string containers, timers, reporters, flags and statistics of the benchmark library, and the mock registry: they would add mostly easy members.
