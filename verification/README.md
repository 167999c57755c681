# FlySentinel: a verified model

FlySentinel is a sentinel for Redis written in C++: it keeps its data in its own dictionary and skip list,
talks to clients in the RESP protocol, runs scripts and background jobs, and passes messages between
subscribers. This project models the parts of it whose behaviour is hard to see from the code, and proves what
they keep and, where they fail, exactly when.

The pattern is the same throughout. What the code does step by step is written step by step: classes with the
fields of the source, methods with its loops. Each method is proved equal to a function on values, and the
theorems are about those functions, for every input, every run and every state. Where the code as written does
not meet what it is for, the model keeps the code, names an input that shows it, and states the condition under
which the property does hold.

| part | files |
|---|---|
| words and the scan cursor | `Words`, `Cursor`, `BitReversal` |
| hash table and dictionary | `HashTable`, `DictModel`, `DictOps`, `DictRuns`, `DictSizes`, `Dictionary` |
| scanning while rehashing | `DictScan`, `DictScanRuns`, `ScanMisses`, `ScanHistory` |
| skip list | `Towers`, `SkipModel`, `SkipDelete`, `SkipQueries`, `SkipRanges`, `SkipFailures`, `SkipNodes`, `SkipUnlink`, `SkipList` |
| glob patterns | `Glob`, `GlobMeanings` |
| shared: texts put together, 32-bit counters, options | `Texts`, `Counters`, `Options` |
| numbers, splitting, hello messages | `Decimals`, `Splitting`, `HelloMessages`, `HelloTexts` |
| RESP requests | `Resp`, `RespRuns`, `Pipelines`, `Stray`, `RespEdges`, `RespClient`, `Fio`, `FioChunks`, `RespLoop` |
| replies and their delivery | `Replies`, `ReplyBuffers`, `Delivery`, `DeliveryRuns`, `DeliverySteps`, `DescriptorReuse`, `ClientServer` |
| background jobs | `BackgroundJobs`, `BackgroundCalls` |
| scripts | `Scripts`, `ScriptPasses`, `ScriptRuns` |
| publish and subscribe | `Subscriptions`, `SubscriptionSteps`, `PubSub` |

## How the source is read

- A 32-bit word is a list of 32 bits, lowest first; counters of 32 bits wrap where the source lets them. A
  dictionary key carries its own hash value, so that the hash function is arbitrary. A chain of entries is a
  sequence in its bucket; which entry comes next follows from its place.
- The initial table size is a parameter. The source uses 20 (`src/datastructure/dict/DictDef.h:8`), so that its
  masks are not contiguous blocks of ones.
- Scores are real numbers (a total order, no NaN); objects of a skip list are integers. The height of a new
  tower follows from a random number that is an argument.
- What a socket takes, what `fork` and `wait3` return, the time, and whether a watch can be installed are
  arguments of the methods, and the theorems hold for all of them.
- Undefined behaviour is repaired in the evident way: `rehashSteps` uses the entry's successor after freeing
  the entry (`src/datastructure/dict/Dict.cpp:217-219`), so the model takes the rest of the chain first;
  `analyseMultiBulk` and `processInputBuffer` end without a return value on success
  (`src/flyclient/FlyClient.cpp:409-416`, `src/flyclient/FlyClient.cpp:214-232`), which become 1 and 0;
  `replies.back()` of an empty list (`src/flyclient/FlyClient.cpp:657`) counts as null; erasing from a list
  while walking it (`src/pubsub/PubSubHandler.cpp:123-133`, `src/flysentinel/FlySentinel.cpp:1046-1055`) stops
  after the erased element, or walks a copy; so does `unsubscribeAllChannels`, which walks the client's own map
  of channels, by reference, while `unsubscribeChannel` erases from it (`src/pubsub/PubSubHandler.cpp:144-151`).
- One undefined case is excluded instead: `rehashSteps` is public, and called while no rehash is running it
  replaces an empty first table by null, or starts to read buckets at index -1
  (`src/datastructure/dict/Dict.cpp:208-229`). All calls inside the class are made while rehashing.
- A base sink takes a chunk whole or not at all, and may fail once and take the next chunk again.
- `readQueryFromClient` reads into a local buffer and never adds it to the client's
  (`src/flyclient/FlyClient.cpp:784-815`); the model feeds a client through `addToQueryBuf`. The base write of
  `MemFio` does not lengthen its string (`src/io/MemFio.cpp:30-42`); the model's sink appends.
- Found wrong, kept as written, and described exactly, each with an input that shows it and the condition under
  which the property holds: an insertion during a rehash can add a key twice (`DictOps.ClashExactly`); the scan
  leaves the larger table (`DictScan.SecondInTable`, `DictScan.RealSizesOverrun`) and misses keys when the table
  doubles or halves between steps (`ScanMisses.DoublingExactly`, `ScanMisses.HalvingExactly`,
  `ScanHistory.GrowthLosesKey`), all exactly unless sizes are powers of two; the shrink test wraps around
  (`DictRuns.ShrinkTestExact`); a skip-list deletion can take out another element
  (`SkipDelete.KeyTakenExactly`), spoil the counters (`SkipDelete.DeleteExactly`), or leave a level of zero
  (`SkipFailures.LevelZeroExactly`); lookups by rank depend on leftovers (`SkipQueries.RankExactly`), and lookups by
  score on spoiled counters (`SkipRanges.RangesExactly`, `SkipFailures.RangeWrongAfterDelete`); the empty string is
  matched by no pattern of stars (`Glob.StringMatch`); of pipelined requests those are lost that do not end where a
  read ends (`Pipelines.HandedOnExactly`), a line without a word silences its client (`Pipelines.BlankLineExactly`),
  a stray character can throw (`Stray.ThrowsExactly`), a negative count hands the last request on once more
  (`RespEdges.NegativeRepeats`), and reading goes on after a bad length, at a wrong place
  (`RespEdges.BadLengthGoesOn`); a failing sink goes unnoticed (`Fio.WrittenExactly`,
  `Fio.HoleInTheMiddle`); a descriptor that is reused early loses its watch or gets its new client closed for the
  old one's failure (`DeliveryRuns.NothingLostExactly`, `DescriptorReuse`); ended scripts are never found
  (`ScriptRuns.WrittenStopsAtSixteen`) and every retry uses up a place for good (`ScriptRuns.AttemptedExactly`,
  `ScriptRuns.StoppedForGood`); unsubscribing from a pattern erases another one (`Subscriptions.InvertedExactly`,
  `Subscriptions.OtherErased`).

## Model

| member | source | states |
|---|---|---|
| BitReversal.RevBits | src/datastructure/dict/Dict.cpp:306-317 | the shift-and-mask loop reverses a 32-bit word: bit i becomes bit 31 - i |
| BitReversal.StagesReverse | src/datastructure/dict/Dict.cpp:309-315 | halving and swapping reverses a word of any power-of-two width |
| BitReversal.MaskHalves | src/datastructure/dict/Dict.cpp:313 | the mask computed by xor and shift selects the lower half of every group of the next smaller size |
| BitReversal.MaskedShiftsSwap | src/datastructure/dict/Dict.cpp:314 | the two masked shifts swap the halves of every group and nothing else |
| Words.ReverseTwice | src/datastructure/dict/Dict.cpp:306-317 | bit reversal is its own inverse |
| BitReversal.Advance | src/datastructure/dict/Dict.cpp:298-303 | the cursor update as computed, proved equal to the step that the cycle theorems are about |
| Cursor.CycleLength | src/datastructure/dict/Dict.cpp:290-303 | on a table with any mask whatever, the cursor first returns to zero after 2^popcount(mask) steps |
| Cursor.CycleVisitsOnce | src/datastructure/dict/Dict.cpp:290-303 | within a cycle no index comes up twice |
| Cursor.CycleVisitsAll | src/datastructure/dict/Dict.cpp:290-303 | the bucket of every hash value comes up, at a step that depends on the hash alone |
| Cursor.NextRank | src/datastructure/dict/Dict.cpp:298-303 | one step moves a cursor up by one in the order of its reversed masked bits, and from the last to zero |
| Cursor.SameBucket | src/datastructure/dict/HashTable.cpp:22-30 | two words select the same bucket exactly when they have the same place in that order |
| Cursor.OrderIsReversedVal | src/datastructure/dict/Dict.cpp:298-303 | the scan's order is the value of the reversed word |
| Cursor.NextCovers | src/datastructure/dict/Dict.cpp:298-303 | under a power-of-two mask, what a step newly passes is just the bucket visited; from the last cursor that is everything left |
| HashTables.AddIsMapAdd | src/datastructure/dict/HashTable.cpp:47-64 | insertion into the buckets is insertion of an absent key into the table's map, and refusal of a present one |
| HashTables.DeleteIsMapRemove | src/datastructure/dict/HashTable.cpp:79-106 | deletion from a chain removes the key from the map, with the right answer, and keeps the count |
| HashTables.UpdateIsMapUpdate | src/datastructure/dict/Dict.cpp:195-198 | overwriting a found entry changes the map at that key alone |
| HashTables.MapIsLookup | src/datastructure/dict/HashTable.cpp:66-77 | walking the one chain the hash selects finds just what the whole table holds |
| HashTables.HashTable.FindEntry | src/datastructure/dict/HashTable.cpp:66-77 | the walk returns the place of the key in its chain, or none when the key is nowhere |
| HashTables.HashTable.AddEntry | src/datastructure/dict/HashTable.cpp:47-64 | the array afterwards is the old table with the entry at the head of its chain, or the old table and -1 |
| HashTables.HashTable.DeleteEntry | src/datastructure/dict/HashTable.cpp:79-106 | the array afterwards is the old table without the entry, head of the chain or not |
| HashTables.HashTable.ScanEntries | src/datastructure/dict/HashTable.cpp:32-45 | the callback is given the whole chain in order |
| DictModel.MigrateMaps | src/datastructure/dict/Dict.cpp:215-220 | moving a chain entry by entry takes its keys from one table's map to the other's, values unchanged |
| DictModel.MigrateBuckets | src/datastructure/dict/Dict.cpp:215-220 | and leaves that bucket empty and all other buckets of the first table as they were |
| DictModel.RehashOneProgress | src/datastructure/dict/Dict.cpp:208-221 | a permitted step on a non-empty first table moves at least one entry |
| DictOps.RehashKeepsMap | src/datastructure/dict/Dict.cpp:201-232 | any number of rehash steps leaves the dictionary's map and the disjointness of its tables as they were |
| DictOps.RehashEnds | src/datastructure/dict/Dict.cpp:201-232 | a rehash ends within as many steps as the first table has entries left, or buckets at or above the index |
| DictOps.OperationsEndRehash | src/datastructure/dict/Dict.cpp:50-55 | the single steps that operations make end it within the same bound |
| DictOps.AddRefines | src/datastructure/dict/Dict.cpp:48-74 | insertion is insertion into the map, mid-rehash included, exactly when there is no clash; a clash claims success and adds the key to the second table too |
| DictOps.ClashExactly | src/datastructure/dict/Dict.cpp:50-60 | a clash is a present key still in the first table in a bucket other than the one the step moves |
| DictOps.ClashHappens | src/datastructure/dict/Dict.cpp:58-60 | there is a dictionary and a key that clash |
| DictOps.FindRefines | src/datastructure/dict/Dict.cpp:76-94 | a lookup answers from the map in every rehash state and leaves it unchanged |
| DictOps.FetchRefines | src/datastructure/dict/Dict.cpp:139-154 | so does fetching a value, with its two rehash steps |
| DictOps.DeleteRefines | src/datastructure/dict/Dict.cpp:156-181 | deletion removes the key from the map, whichever table has it, and may start a shrink |
| DictOps.SizeIsCardinality | src/datastructure/dict/Dict.cpp:393-401 | the sum of the two counts is the number of keys exactly when the tables share none |
| DictRuns.ReplaceRefines | src/datastructure/dict/Dict.cpp:183-199 | replacing is map update, with the entry found again where it is after the extra steps, unless there is a clash |
| DictRuns.NextPower | src/datastructure/dict/Dict.cpp:403-422 | the doubling loop returns the initial size times a power of two |
| DictRuns.NextPowerLeast | src/datastructure/dict/Dict.cpp:403-422 | and it is the least such size that is enough |
| DictRuns.ExpandRefines | src/datastructure/dict/Dict.cpp:362-381 | a resize on request answers -1 and changes nothing exactly while rehashing, for a target below the number of keys and for the size there is; otherwise 1, and the target is the size of the second table, or of the only one if moving was over at once; the map stays |
| DictRuns.ShrinkTestExact | src/datastructure/dict/HashTable.cpp:131-135 | the wrapped shrink test is the one that is meant, if and only if the table has its initial size, is sparse, or the wrapped product still reaches ten times the size; always below 2^32 / 100 entries |
| DictRuns.ShrinkTestWraps | src/datastructure/dict/HashTable.cpp:131-135 | a concrete full table that the wrapped product makes it shrink |
| DictRuns.ApplyRefines | src/datastructure/dict/Dict.cpp:48-232 | each operation on a good dictionary gives the answer and the map that the operation on the map gives |
| DictRuns.HistoryRefinesMap | src/datastructure/dict/Dict.cpp:48-232 | over any history of operations without clashes all answers and the final map are those of a plain map |
| DictSizes.GrowthExactly | src/datastructure/dict/Dict.cpp:62-68 | a new key makes a table double, into both tables or the larger one alone, if and only if there are then more keys than buckets, or than five times the buckets in 32 bits while a child saves; otherwise the size stays |
| DictSizes.LimitIs | src/datastructure/dict/HashTable.cpp:114-128 | the test for growth compares the entries with that limit |
| DictSizes.GrowthMoves | src/datastructure/dict/Dict.cpp:62-68 | growing moves the first bucket at once, and is over at once exactly if moving is allowed and there is only one to move |
| DictSizes.ShrinkExactly | src/datastructure/dict/Dict.cpp:163-171 | deleting a key that is there halves the table, rounded down, if and only if that is allowed, the table is above its initial size and a hundred times the keys left, in 32 bits, is below ten times the buckets; otherwise the size stays |
| DictSizes.AtRestKept | src/datastructure/dict/Dict.cpp:48-74 | inserting a present key or deleting an absent one leaves a dictionary at rest as it is |
| DictSizes.ReplaceGrows | src/datastructure/dict/Dict.cpp:183-199 | replacing an absent key is inserting it, growth included |
| DictSizes.TargetIs | src/datastructure/dict/Dict.cpp:403-422 | a resize on request aims at the least power of two times the initial size that is enough, or at 2^31 |
| DictSizes.RehashExactly | src/datastructure/dict/Dict.cpp:201-232 | moving n buckets empties just the first n that have something in them and stops right behind the last; with no more than n the rehash is over and the second table the only one; where moving is forbidden nothing changes |
| DictSizes.OperationMovesOn | src/datastructure/dict/Dict.cpp:50-55 | every operation on a key moves at least one bucket of a rehash that is far from its end, two if it steps twice, and keeps both sizes |
| Dictionaries.Dictionary.constructor | src/datastructure/dict/Dict.cpp:9-14 | a new dictionary is empty, with one table of the initial size and no rehash |
| Dictionaries.Dictionary.RehashSteps | src/datastructure/dict/Dict.cpp:201-232 | the nested loops over buckets and chains do what the value function does, and swap the tables at the end |
| Dictionaries.Dictionary.AddEntry | src/datastructure/dict/Dict.cpp:48-74 | the two tables in place afterwards are those of the value operation, growth included |
| Dictionaries.Dictionary.FindEntry | src/datastructure/dict/Dict.cpp:76-94 | returns the table and the place of the key as the value lookup does |
| Dictionaries.Dictionary.FetchValue | src/datastructure/dict/Dict.cpp:139-154 | returns the value and leaves the dictionary after two steps |
| Dictionaries.Dictionary.DeleteEntry | src/datastructure/dict/Dict.cpp:156-181 | in place as the value operation, shrink included |
| Dictionaries.Dictionary.Replace | src/datastructure/dict/Dict.cpp:183-199 | in place as the value operation |
| Dictionaries.Dictionary.Expand | src/datastructure/dict/Dict.cpp:362-381 | in place as the value operation |
| Dictionaries.Dictionary.Size | src/datastructure/dict/Dict.cpp:393-401 | the sum of the counts of the tables that exist |
| Dictionaries.Dictionary.ScanOneStep | src/datastructure/dict/Dict.cpp:251-304 | reports the chains of the one, or of the three, buckets and returns the next cursor, both tables ordered by size first |
| DictScan.SecondInTable | src/datastructure/dict/Dict.cpp:281-289 | the second bucket asked of the larger table exists for every cursor exactly when the smaller size is a power of two |
| DictScan.RealSizesOverrun | src/datastructure/dict/Dict.cpp:285-287 | with sizes 20 * 2^k and 40 * 2^k the first step of a scan asks for bucket 52 * 2^k |
| DictScan.LargerBuckets | src/datastructure/dict/Dict.cpp:272-289 | whatever shares the cursor's bucket of the smaller table is in one of the two visited buckets of the larger, or was passed before |
| DictScan.ScanCovers | src/datastructure/dict/Dict.cpp:251-304 | a key present and below the new cursor was below the old one or has just been reported, in any rehash state |
| DictScan.ScanMissesNothing | src/datastructure/dict/Dict.cpp:251-304 | over any full cursor cycle interleaved with any growth, shrinking and rehashing, a key present throughout is reported |
| DictScan.BothTables | src/datastructure/dict/Dict.cpp:255-264 | during a rehash a step works with both tables, the smaller first; at rest with the only one |
| DictScan.ScanReportsExactly | src/datastructure/dict/Dict.cpp:251-289 | one step reports a key if and only if it is in the cursor's bucket of the smaller table or in one of the two visited buckets of the larger |
| DictScan.ReadyIsSafe | src/datastructure/dict/Dict.cpp:258-289 | power-of-two sizes with ratio two keep every bucket index inside its table |
| ScanMisses.DoublingExactly | src/datastructure/dict/Dict.cpp:251-304 | over all scans of a table that doubles between two steps with no rehash under way at either, nothing is missed if and only if the smaller size is a power of two |
| ScanMisses.HalvingExactly | src/datastructure/dict/Dict.cpp:251-304 | the same for a table that halves between two steps: nothing is missed if and only if the smaller size is a power of two |
| ScanMisses.RealSizesMiss | src/datastructure/dict/DictDef.h:8 | so growth from 20 * 2^k to 40 * 2^k misses something for every k, and so does going back |
| ScanMisses.SixteenMissed | src/datastructure/dict/Dict.cpp:290-303 | with 20 buckets that become 40 after the first step, the bucket of hash 16 comes up in no scan |
| ScanMisses.FourMissed | src/datastructure/dict/Dict.cpp:290-303 | with 40 buckets that become 20 after the first step, the bucket of hash 4 comes up in no scan |
| ScanHistory.GrowthLosesKey | src/datastructure/dict/Dict.cpp:251-304 | on dictionaries: a key of hash 16, present throughout while 20 buckets become 40, is reported by no step |
| ScanHistory.GrowthHappens | src/datastructure/dict/Dict.cpp:362-381 | and there is such a dictionary, such a growth and such a scan |
| ScanHistory.HistoryScan | src/datastructure/dict/Dict.cpp:48-304 | from an empty dictionary of power-of-two size, with any operations between the steps whose resizes keep the ratio, every step stays inside the tables and a key present throughout is reported |
| DictScanRuns.MaskOfPow2 | src/datastructure/dict/HashTable.cpp:14 | a mask is a block of ones exactly when the size is a power of two |
| DictScanRuns.ApplyReady | src/datastructure/dict/Dict.cpp:48-181 | operations keep a dictionary scannable; a resize on request does so exactly when it is done at once or doubles or halves |
| SkipModel.InsertValid | src/datastructure/skiplist/SkipList.cpp:53-121 | insertion keeps order and level and adds just the element, after what comes before it and ahead of its equals |
| SkipModel.InsertByValid | src/datastructure/skiplist/SkipList.cpp:53-121 | whatever the counters hold, insertion keeps order and level and puts element, towers and links where they belong |
| SkipModel.RankExact | src/datastructure/skiplist/SkipList.cpp:72-85 | what the descent adds up is the place it has reached, at every level, when the counters are exact |
| SkipModel.InsertExact | src/datastructure/skiplist/SkipList.cpp:98-116 | every counter beside a link that is not null stays the exact distance, for every tower height |
| SkipQueries.InsertLeftovers | src/datastructure/skiplist/SkipList.cpp:84-116 | what insertion leaves beside null links stays zero or a small negative number wrapped around |
| SkipQueries.UnusedKept | src/datastructure/skiplist/SkipList.cpp:87-116 | counters of levels that are not in use keep what they hold |
| SkipQueries.BuiltRight | src/datastructure/skiplist/SkipList.cpp:53-121 | any elements inserted in any order with any heights give a sorted list of just those, with exact counters, in which every rank is found |
| SkipDelete.DeleteValid | src/datastructure/skiplist/SkipList.cpp:160-210 | for every list and key, a deletion that finds something takes out just that element and keeps order and level, though it unlinks other towers at upper levels |
| SkipDelete.DeleteExactly | src/datastructure/skiplist/SkipList.cpp:163-205 | the counters stay exact if and only if no level's search ran past the element taken out |
| SkipDelete.StraightIsNoneBeyond | src/datastructure/skiplist/SkipList.cpp:163-205 | that is: no level that the element taken out does not reach has, next after it, an element the search passes |
| SkipDelete.KeyTakenExactly | src/datastructure/skiplist/SkipList.cpp:177-210 | for every list and key: the element taken out is the key if and only if the key is there, and then just it goes and the answer is 0 |
| SkipDelete.DeleteSeparated | src/datastructure/skiplist/SkipList.cpp:160-210 | where passed elements come before all others the counters stay exact |
| SkipDelete.EqualScoresSeparated | src/datastructure/skiplist/SkipList.cpp:168-170 | lists in which all scores equal the key's are of that kind |
| SkipDelete.DeleteAnswer | src/datastructure/skiplist/SkipList.cpp:178-182 | a deletion refuses exactly when the search passes every element |
| SkipDelete.StaysLinked | src/datastructure/skiplist/SkipList.cpp:194-206 | a tower stays linked at just those of its levels at which it is not the one the search stops before |
| SkipFailures.AbsentKeyDeletesAnother | src/datastructure/skiplist/SkipList.cpp:177-183 | a concrete list from which deleting an absent key removes another element and reports success |
| SkipFailures.UnequalScoresCorrupt | src/datastructure/skiplist/SkipList.cpp:168-170 | a concrete list with unequal scores on which deleting a present key spoils a counter |
| SkipFailures.RankLostAfterDelete | src/datastructure/skiplist/SkipList.cpp:247-263 | a concrete equal-score list in which after a deletion an existing rank is not found |
| SkipFailures.StaleBuilt | src/datastructure/skiplist/SkipList.cpp:53-121 | the list of the last example is what inserting the objects 3, 1 and 2 with heights 2, 2 and 1 makes |
| SkipFailures.RangeWrongAfterDelete | src/datastructure/skiplist/SkipList.cpp:289-308 | a concrete list in which after deleting a key that was there a lookup of scores from 3 on returns the element of score 4 though one has score 3 |
| SkipFailures.LevelZeroExactly | src/datastructure/skiplist/SkipList.cpp:198-201 | a deletion leaves level zero exactly when it takes out the last element |
| SkipQueries.RankFinds | src/datastructure/skiplist/SkipList.cpp:247-263 | with exact counters and harmless leftovers, rank r finds the r-th element and every other number finds nothing |
| SkipQueries.RankExactly | src/datastructure/skiplist/SkipList.cpp:247-263 | all ranks are found if and only if no leftover counter equals a distance still to go |
| SkipRanges.RangeFindsExactly | src/datastructure/skiplist/SkipList.cpp:289-308 | for any counters and any range, the descent finds what a linear search finds if and only if some level leading to the first element not below the range says that it is next, and none that leads further says so of an element in range |
| SkipRanges.RangesExactly | src/datastructure/skiplist/SkipList.cpp:289-308 | lookups are right for all ranges if and only if that is so wherever scores go up |
| SkipRanges.OnesInserted | src/datastructure/skiplist/SkipList.cpp:53-121 | counters of the lowest level are one whatever is inserted, spoiled counters or not |
| SkipRanges.OnesDeleted | src/datastructure/skiplist/SkipList.cpp:160-210 | and whatever is deleted |
| SkipRanges.OnesFindExactly | src/datastructure/skiplist/SkipList.cpp:289-308 | so a lookup in a list made by insertions and deletions is right if and only if no counter of one stands beside the link that leads past the first element in question to another in range |
| SkipRanges.RangeFinds | src/datastructure/skiplist/SkipList.cpp:289-308 | with exact counters every lookup finds the first element in range, or null |
| SkipRanges.RangeIsInterval | src/datastructure/skiplist/SkipListNode.cpp:25-42 | in range are the scores between both ends, and each end itself unless it is left out |
| SkipRanges.FirstExactly | src/datastructure/skiplist/SkipList.cpp:289-308 | what a linear search finds is in range and nothing before it is |
| SkipLists.SkipList.constructor | src/datastructure/skiplist/SkipList.cpp:9-13 | a new list is the empty list with a header of 32 levels |
| SkipLists.SkipList.InsertNode | src/datastructure/skiplist/SkipList.cpp:53-121 | for any counters: the relinked nodes are the list with the element inserted, with links, backward pointers, tail, length and level right and counters computed from what the descent adds up; exact counters stay exact |
| SkipLists.SkipList.FindForwards | src/datastructure/skiplist/SkipList.cpp:72-85 | the descent finds at every level the last node before the element and the wrapped sum of the counters it followed, which is that node's place if they are exact |
| SkipLists.SkipList.RandomLevel | src/datastructure/skiplist/SkipList.cpp:130-145 | the height is the number of halvings of 2^31 that stay at or above the random number, between 1 and 32 |
| SkipLists.SkipList.OpenLevels | src/datastructure/skiplist/SkipList.cpp:87-92 | the header's counters of levels that come into use are set to the new node's place |
| SkipLists.SkipList.LinkBackward | src/datastructure/skiplist/SkipList.cpp:94-101 | the backward pointers around the new node and the tail |
| SkipLists.SkipList.LinkLevels | src/datastructure/skiplist/SkipList.cpp:103-109 | at each of its levels the new node takes over its forward's link and splits its counter |
| SkipLists.SkipList.LengthenLevels | src/datastructure/skiplist/SkipList.cpp:111-116 | above, exactly the links across the new node are counted longer |
| SkipLists.SkipList.DeleteNode | src/datastructure/skiplist/SkipList.cpp:160-210 | the nodes afterwards are the list after the value deletion, with the same answer and the node that was found |
| SkipLists.SkipList.FindPreds | src/datastructure/skiplist/SkipList.cpp:161-175 | at every level, from the header again, the node the search ends at |
| SkipLists.SkipList.UnlinkLevels | src/datastructure/skiplist/SkipList.cpp:192-206 | relinking stops at the first level with nothing to unlink, and the level falls by one for each level it empties |
| SkipLists.SkipList.GetNodeByRank | src/datastructure/skiplist/SkipList.cpp:247-263 | the node that the descent by counters ends at; the node of that rank, or null, whenever counters are exact and leftovers harmless |
| SkipLists.SkipList.FirstInScoreRange | src/datastructure/skiplist/SkipList.cpp:289-308 | the node that the descent by scores ends at, which is the first in range, or null, as a linear search finds it, if and only if no counter misleads the descent |
| Glob.StringMatch | src/utils/MiscTool.h:398-400 | the answer is what the pattern means, if and only if the string is not empty or the pattern is empty or has something other than stars in it |
| Glob.StringMatchLen | src/utils/MiscTool.h:271-396 | the loop with its recursion at stars decides the declarative meaning, ends, and reads no further than the terminating zero |
| Glob.MatchClass | src/utils/MiscTool.h:297-361 | the loop over a class finds whether some item accepts the character, and where the class ends, closed or not |
| Glob.MatchToken | src/utils/MiscTool.h:290-382 | a token other than a star accepts the character or not, and where the pattern goes on |
| Glob.MatchOne | src/utils/MiscTool.h:290-382 | in the meaning by pieces, such a token takes exactly one accepted character |
| Glob.MatchStar | src/utils/MiscTool.h:274-289 | a star takes any stretch |
| Glob.EmptyMatched | src/utils/MiscTool.h:383-395 | just the patterns of stars mean something that the empty string matches |
| Glob.WrittenMeans | src/utils/MiscTool.h:290-382 | any list of stars, wildcards, classes and literals can be written as a pattern, ordinary literals bare and the others quoted, that is read back as that list |
| GlobMeanings.OrdinaryMeans | src/utils/MiscTool.h:369-376 | a pattern of ordinary characters matches exactly itself, or what equals it up to letter case |
| GlobMeanings.OrdinaryThen | src/utils/MiscTool.h:369-376 | ordinary characters in front of a pattern match just themselves, and the pattern the rest |
| GlobMeanings.QuotedMeans | src/utils/MiscTool.h:363-376 | a backslash makes any character an ordinary one |
| GlobMeanings.LoneBackslash | src/utils/MiscTool.h:363-376 | a backslash at the end stands for itself |
| GlobMeanings.StarBetween | src/utils/MiscTool.h:274-289 | a star between two plain texts matches what starts with the one and ends, behind that, with the other |
| GlobMeanings.QuestionsMean | src/utils/MiscTool.h:290-296 | question marks match as many characters, whichever they are |
| GlobMeanings.SetMeans | src/utils/MiscTool.h:297-362 | a set matches one character that is in it, or is not if it is negated, closed by a bracket or by the end of the pattern |
| GlobMeanings.RangeMeans | src/utils/MiscTool.h:321-339 | a span matches the characters between its ends, in whichever order they are given |
| GlobMeanings.RangeOfLetters | src/utils/MiscTool.h:330-339 | without letter case a span of letters matches them in both cases |
| GlobMeanings.EscapedInClass | src/utils/MiscTool.h:309-314 | a backslash in a set quotes the next character, whose letter case then counts |
| Decimals.String2Int64 | src/utils/MiscTool.h:88-103 | refuses all but digits with an optional sign, saturates at 64 bits, and leaves the number alone when it refuses or there is no text |
| Decimals.ReadPrinted | src/utils/MiscTool.h:88-103 | a printed 64-bit number is read back |
| RespEdges.NoDigits | src/flyclient/FlyClient.cpp:377-407 | a text without a digit counts as zero, so that a star alone on its line is a request without arguments |
| RespEdges.PrintedIs | src/io/base/Fio.cpp:70-77 | a number is printed in digits without a zero in front, and with a minus sign exactly if it is negative |
| RespEdges.NumberExactly | src/utils/MiscTool.h:88-103 | a plus sign counts for nothing, and a number beyond 64 bits is taken for the nearest within |
| Splitting.SplitString | src/utils/MiscTool.h:24-50 | the loop yields the pieces of the specification: spaces dropped in front, no empty last piece |
| HelloMessages.SplitExactly | src/utils/MiscTool.h:24-50 | joined fields are recovered if and only if none has a comma in it or a space in front and the last is not empty |
| HelloMessages.HelloExactly | src/flysentinel/FlySentinel.cpp:1418-1424 | a message that fits the payload is read back, both 64-bit epochs included, if and only if its four text fields are clean |
| HelloTexts.TextIs | src/flysentinel/FlySentinel.cpp:1418-1424 | the text has the eight fields, the sentinel's four and then the master's, in this order with a comma between each two |
| HelloTexts.PayloadIs | src/flysentinel/FlySentinel.cpp:1418-1424 | of a longer text the first 1069 characters are sent |
| HelloTexts.EightExactly | src/flysentinel/FlySentinel.cpp:1269-1274 | of messages whose fields can be told apart just those with eight are taken |
| HelloTexts.NumberRead | src/flysentinel/FlySentinel.cpp:1281-1287 | a number is read with white space and a sign in front and anything but a digit behind |
| HelloTexts.SpacesAre | src/flysentinel/FlySentinel.cpp:1281-1287 | white space is the blank and the characters 9 to 13 |
| HelloTexts.UnsignedRead | src/flysentinel/FlySentinel.cpp:1284-1287 | an epoch too large for 64 bits is taken for the largest, a negative one counts down from 2^64 |
| HelloMessages.ProcessHello | src/flysentinel/FlySentinel.cpp:1269-1287 | a message without eight fields is ignored, any other is taken apart into its numbers, white space in front of them passed over, and texts |
| HelloMessages.ReadsBack | src/flysentinel/FlySentinel.cpp:1281-1287 | reading the printed ports and epochs gives them back |
| Pipelines.HandedOnExactly | src/flyclient/FlyClient.cpp:214-232 | of any requests in a row, arrays of arguments or words on a line, cut into any pieces, exactly those are handed on, in order and whole, at whose end a piece ends |
| Pipelines.AllArriveExactly | src/flyclient/FlyClient.cpp:214-232 | all of them are handed on if and only if every one ends where some piece does |
| Pipelines.FirstOfTwoLost | src/flyclient/FlyClient.cpp:214-232 | two ways to lose the first of two requests: both in one read, or the second begun in the read in which the first ends |
| Pipelines.RequestArrives | src/flyclient/FlyClient.cpp:214-474 | however one request is cut into pieces, the arguments read are those meant, they are handed on once, and the client is not marked for closing |
| Pipelines.BlankLineExactly | src/flyclient/FlyClient.cpp:306-334 | a line sent to an idle client silences it for good, whatever follows, if and only if there is no word in it |
| Pipelines.StuckForGood | src/flyclient/FlyClient.cpp:306-334 | a line without a word at the front of the buffer is never taken out, however much is read |
| RespRuns.FeedMore | src/flyclient/FlyClient.cpp:343-474 | a piece of any size leaves the parser waiting in a resumable state or through with all arguments |
| RespRuns.AmidRun | src/flyclient/FlyClient.cpp:409-416 | from amid the arguments it reads exactly those whose text is complete |
| RespRuns.BulkExactly | src/flyclient/FlyClient.cpp:418-474 | a written argument is read back if and only if it has no line break in it |
| RespRuns.HeaderReads | src/flyclient/FlyClient.cpp:367-407 | a written count is read back and room is made for that many arguments |
| Stray.ThrowsExactly | src/flyclient/FlyClient.cpp:214-232 | from any state a read throws if and only if, with all that is complete read, an argument is missing and a single character is left that cannot start one |
| Stray.CountThenStray | src/flyclient/FlyClient.cpp:426-430 | so a count line followed by a read of one character throws for every character but the dollar sign |
| Stray.FreshThrows | src/flyclient/FlyClient.cpp:426-430 | a new client that sends one argument's count and then the letter x makes its reader throw |
| RespEdges.CountRefused | src/flyclient/FlyClient.cpp:377-386 | a count that is no number or above 1048576 loses its line and marks the client for closing |
| RespEdges.CountTaken | src/flyclient/FlyClient.cpp:377-407 | any other count makes room for as many arguments and forgets the last ones, a negative one excepted |
| RespEdges.EmptyLineRefused | src/flyclient/FlyClient.cpp:367-386 | an empty line where a count should be is refused |
| RespEdges.NegativeCount | src/flyclient/FlyClient.cpp:388-396 | a negative count is read as a whole request with the arguments of the one before |
| RespEdges.NegativeRepeats | src/flyclient/FlyClient.cpp:343-396 | so an idle client that is sent one hands its last request on once more |
| RespEdges.EndlessLine | src/flyclient/FlyClient.cpp:367-375 | without a line break the parser waits, up to 65536 characters; with more the client is to be closed |
| RespEdges.EndlessLength | src/flyclient/FlyClient.cpp:431-440 | the same for the line with the length of an argument |
| RespEdges.WrongStart | src/flyclient/FlyClient.cpp:424-429 | an argument that starts with anything but a dollar sign costs two characters and the connection |
| RespEdges.StrayThrows | src/flyclient/FlyClient.cpp:476-486 | with a single such character there is nothing to drop, and an exception instead |
| RespEdges.LengthWrong | src/flyclient/FlyClient.cpp:451-464 | a text longer or shorter than announced loses both its lines and marks the client for closing |
| RespEdges.BadLengthGoesOn | src/flyclient/FlyClient.cpp:442-464 | after a length that is no number reading goes on, behind as many characters as the lost line had, where a line break makes an empty argument |
| RespEdges.BadLengthCloses | src/flyclient/FlyClient.cpp:442-449 | whatever comes after it, a bad length marks the client for closing |
| RespEdges.WordsRead | src/utils/MiscTool.h:24-50 | words with any number of spaces between them, in front and behind are read as these words |
| Resp.Parser.MultiBulk | src/flyclient/FlyClient.cpp:409-416 | reading on leaves the count wanted alone, succeeds only with all arguments there, and shortens the buffer when it does |
| Resp.Parser.Turn | src/flyclient/FlyClient.cpp:215-228 | every turn of the loop that continues shortens the buffer, and argument counts stay within the room made for them |
| RespClient.RequestReader.ProcessInputBuffer | src/flyclient/FlyClient.cpp:214-232 | the loop in place is the parser's function, and hands on the last request read |
| RespClient.RequestReader.ProcessMultiBulkBuffer | src/flyclient/FlyClient.cpp:343-365 | in place as the function, argument vector and request type included |
| RespClient.RequestReader.ProcessInlineBuffer | src/flyclient/FlyClient.cpp:306-334 | the words of a line become the arguments |
| RespClient.RequestReader.AnalyseMultiBulkLen | src/flyclient/FlyClient.cpp:367-407 | missing line, bad number, negative number and count, as the function |
| RespClient.RequestReader.AnalyseBulk | src/flyclient/FlyClient.cpp:418-474 | all error branches as the function, the bad length that does not return included |
| RespClient.RequestReader.SetProtocolError | src/flyclient/FlyClient.cpp:476-486 | marks the client for closing and drops the line, or throws |
| Fio.Output.Write | src/io/base/Fio.cpp:22-43 | for any chunk limit and any sink, failing and recovering at will, just the chunks before the first failure go out; what is returned counts the chunk that failed |
| Fio.Output.WriteBulkCount | src/io/base/Fio.cpp:70-77 | just what the sink takes of the line goes out; the answer is the line's length in any case, and right if and only if every chunk is taken |
| Fio.Output.WriteBulkString | src/io/base/Fio.cpp:106-124 | of each of the three writes goes out what the sink takes, whatever became of the one before; the answer is the whole length in any case, and right if and only if every chunk of the three is taken |
| Fio.WrittenExactly | src/io/base/Fio.cpp:22-43 | several writes in a row go out whole if and only if the sink takes as many chunks as they have, one after the other |
| FioChunks.ChunksAre | src/io/base/Fio.cpp:22-43 | a text goes out in as many chunks as its length divided by the limit, rounded up; without a limit in one |
| FioChunks.TakenAre | src/io/base/Fio.cpp:22-43 | what goes out is the limit times the chunks taken before the first that is not, or the whole text |
| FioChunks.UsedAre | src/io/base/Fio.cpp:22-43 | the sink is asked for each of those chunks and the one that fails |
| Fio.HoleInTheMiddle | src/io/base/Fio.cpp:106-124 | a sink that fails just once: length line and line break go out without the text between them |
| RespLoop.WriteRequest | src/io/base/Fio.cpp:70-124 | a request's count and arguments go out as the writes they are made of; the text is whole if and only if every chunk is taken |
| RespLoop.SendAndReceive | src/io/base/Fio.cpp:22-124 | the parser undoes the printer for every chunk limit, every sink that takes the chunks, every way of cutting the text and all sendable arguments |
| Replies.DeliveredInOrder | src/flyclient/FlyClient.cpp:234-304 | over any interleaving of replies and partial writes, what was sent followed by what is pending is all that was accepted, in order |
| Replies.AddAppends | src/flyclient/FlyClient.cpp:628-669 | a reply goes behind all that is pending; sizes, the byte count and the absence of empty strings are kept |
| Replies.AdvanceSends | src/flyclient/FlyClient.cpp:238-270 | a write that takes n bytes removes the first n pending ones, across the end of the fixed buffer or of a string |
| Replies.WriteKeepsOrder | src/flyclient/FlyClient.cpp:234-275 | whatever the socket takes in whatever pieces, sent then left is what was pending |
| DeliverySteps.WriteStops | src/flyclient/FlyClient.cpp:238-275 | the loop stops exactly when nothing is pending, more than 65536 characters are out, or the socket takes nothing |
| DeliverySteps.CutIs | src/flyclient/FlyClient.cpp:546-567 | of a message the first 1023 characters are kept |
| DeliverySteps.AddShape | src/flyclient/FlyClient.cpp:628-669 | into the fixed buffer while the list is empty and 16384 characters are enough, else onto the last string if they are enough for that, else as a new one |
| DeliveryRuns.NothingLostExactly | src/flysentinel/FlySentinel.cpp:895-1055 | over every run, early reuse of descriptors included: every client with output pending is looked after and nobody is marked for closing because writing to another failed, if and only if no flush comes to a write that ends so, and whenever marked clients are freed none of them has a descriptor that another client needs watched |
| ReplyBuffers.Output.AddReply | src/flyclient/FlyClient.cpp:546-567 | a message is cut to its buffer and appended to the output in place |
| ReplyBuffers.Output.AddReplyToBuffer | src/flyclient/FlyClient.cpp:628-649 | into the array if the list is empty and it fits |
| ReplyBuffers.Output.AddReplyToReplyList | src/flyclient/FlyClient.cpp:651-669 | into the last string if it fits, or as a new one |
| ReplyBuffers.Output.ReplyPopFront | src/flyclient/FlyClient.cpp:131-140 | the front string goes and its size comes off the count |
| ReplyBuffers.Output.WriteOnce | src/flyclient/FlyClient.cpp:239-270 | one write and the counter that buffer and list share |
| ReplyBuffers.Output.WriteLoop | src/flyclient/FlyClient.cpp:238-276 | the loop sends what the specification sends and stops where it stops |
| DeliveryRuns.NothingLost | src/flyclient/FlyClient.cpp:500-523 | up to the first such step nobody is marked for another's sake, and a client with output pending that is not to be closed is listed and flagged or watched |
| DeliveryRuns.UnlinkExactly | src/flysentinel/FlySentinel.cpp:992-1012 | freeing a client leaves no output behind if and only if no other client under its descriptor needs the watch |
| DeliveryRuns.UnlinkAllExactly | src/flysentinel/FlySentinel.cpp:1046-1055 | freeing all marked clients leaves no output behind if and only if none of them has a descriptor that another client needs watched |
| DeliveryRuns.FlushExactly | src/flysentinel/FlySentinel.cpp:895-926 | a flush marks nobody for another's sake if and only if no write along it ends in closing while its descriptor belongs to another unmarked client |
| DeliveryRuns.HangUpSafe | src/flysentinel/FlySentinel.cpp:992-1012 | freeing a client that hangs up is always safe, reused descriptors or not |
| DescriptorReuse.ReuseLosesOutput | src/flysentinel/FlySentinel.cpp:992-1001 | a concrete state with a reused descriptor in which closing loses a reply |
| DescriptorReuse.ReuseHappens | src/flyclient/FlyClient.cpp:276-281 | that state comes about: the first client's write fails, its descriptor is closed and given to the next client |
| DescriptorReuse.NewcomerWronged | src/flyclient/FlyClient.cpp:276-281 | a concrete state in which writing to a client that is closed already fails, and the client that has its descriptor now is marked with its reply unsent |
| DescriptorReuse.WrongHappens | src/flyclient/FlyClient.cpp:290-298 | that state comes about, from a close after the last reply and one more reply |
| Delivery.AddReplyKeeps | src/flyclient/FlyClient.cpp:500-557 | a reply keeps every client looked after |
| Delivery.WriteKeeps | src/flyclient/FlyClient.cpp:234-304 | so does writing, its failures and the close after the last reply |
| DeliverySteps.ReplyExactly | src/flyclient/FlyClient.cpp:500-567 | a client that takes replies has this one behind all that it had pending, unless it is to be closed; nobody else's output, mark or watch changes |
| DeliverySteps.ReplyLists | src/flyclient/FlyClient.cpp:500-523 | it is flagged and listed exactly if nothing was pending and it was not flagged |
| DeliverySteps.WriteExactly | src/flyclient/FlyClient.cpp:234-304 | a write sends the front of the client's own output and changes nobody else's; it marks exactly if it fails for good or the last reply before closing is out, and takes the watch back when nothing is left |
| DeliveryRuns.FlushKeeps | src/flysentinel/FlySentinel.cpp:895-926 | and so does the flush, which clears all flags and the list |
| DeliverySteps.FlushOneExactly | src/flysentinel/FlySentinel.cpp:895-926 | of the list everyone is written to; with something left it is watched, or marked if it cannot be |
| DeliverySteps.FlushWrites | src/flysentinel/FlySentinel.cpp:895-926 | a flush leaves everybody listed once with what its write leaves, everybody else with its output, and the list empty |
| DeliverySteps.UnlinkShortens | src/flysentinel/FlySentinel.cpp:992-1032 | freeing a client takes the first without a descriptor out of the closing list, and out of the list to be written to if it is flagged |
| DeliverySteps.CloseMarkedFrees | src/flysentinel/FlySentinel.cpp:1046-1055 | afterwards no marked client has a descriptor, every other has the one it had, and all outputs and flags are as they were |
| DeliverySteps.AlwaysListed | src/flysentinel/FlySentinel.cpp:979-986 | in every run whoever is marked and has a descriptor is listed for closing, and has none after the next closing |
| ClientServer.FlyServer.HandleClientsWithPendingWrites | src/flysentinel/FlySentinel.cpp:895-926 | the loop over the list in place is the specification's flush |
| ClientServer.FlyServer.WriteToClient | src/flyclient/FlyClient.cpp:234-304 | the branches after the write loop |
| ClientServer.FlyServer.AddReply | src/flyclient/FlyClient.cpp:500-557 | readiness, listing and appending in place |
| ClientServer.FlyServer.AddToClientsPendingToWrite | src/flysentinel/FlySentinel.cpp:878-893 | flag and list together, once |
| ClientServer.FlyServer.FreeClientAsync | src/flysentinel/FlySentinel.cpp:979-986 | the flags are overwritten, the client is put on the closing list once |
| ClientServer.FlyServer.UnlinkClient | src/flysentinel/FlySentinel.cpp:992-1032 | descriptor, watch and lists in place |
| ClientServer.FlyServer.FreeClientsInAsyncFreeList | src/flysentinel/FlySentinel.cpp:1046-1055 | all marked clients are unlinked and the list is emptied |
| BackgroundJobs.JobsInOrder | src/bio/BIOHandler.cpp:112-195 | in every reachable state done jobs, the one in flight and the queue are the submissions in order, the count is the queue's length, and a worker asleep means an empty queue |
| BackgroundJobs.AlwaysInv | src/bio/BIOHandler.cpp:112-195 | mutual exclusion and all of this hold after every interleaving of steps, early wake-ups included |
| BackgroundJobs.SleepIsShort | src/bio/BIOHandler.cpp:70-83 | a client waiting for a step sleeps through at most eight steps of the worker |
| BackgroundJobs.SomebodyGoesOn | src/bio/BIOHandler.cpp:70-83 | while it sleeps, the worker or whoever holds the mutex can go on |
| BackgroundJobs.HolderLetsGo | src/bio/BIOHandler.cpp:187-192 | whoever holds the mutex gives it up within four steps of its own |
| BackgroundJobs.SignalComesNearer | src/bio/BIOHandler.cpp:112-161 | every step of the worker brings the broadcast nearer and no other step puts it off |
| BackgroundJobs.RousedSoon | src/bio/BIOHandler.cpp:70-83 | from every state with a client asleep at most 49 steps, none of them a new call or an early waking, rouse it |
| BackgroundJobs.RousedInRuns | src/bio/BIOHandler.cpp:70-83 | in particular from every state of every run |
| BackgroundCalls.WaitStepAnswers | src/bio/BIOHandler.cpp:70-83 | in every run, a call that waits for a step and returns has read the count under the mutex: with nothing pending it answers 0; otherwise it has slept and been woken by the worker's broadcast or without one, and answers the queue's length |
| BackgroundCalls.PendingAnswers | src/bio/BIOHandler.cpp:52-60 | in every run, a call for the count never sleeps and answers the queue's length |
| BackgroundCalls.SubmitPutsOnce | src/bio/BIOHandler.cpp:164-195 | in every run, a submission that returns has put its job last by one step, holding the mutex, and left the queue alone otherwise; the worker is awake then, or the queue empty |
| ScriptRuns.SchedulerBounds | src/flysentinel/FlySentinel.cpp:202-325 | over all runs: at most 256 jobs, at most 16 running, none started more than ten times, and the running count right exactly while no retry was arranged |
| ScriptRuns.AttemptedExactly | src/flysentinel/FlySentinel.cpp:246-288 | with a script due, a pass over the queue attempts something if and only if running scripts and retries so far are fewer than sixteen |
| ScriptPasses.PassExactly | src/flysentinel/FlySentinel.cpp:246-288 | a pass attempts each due job in the order of the queue, the one with k due ones before it with answer k, as long as fewer than sixteen are counted as running by then: start time now, one attempt more, the process if one was made; every other job is as it was |
| ScriptPasses.PassCounts | src/flysentinel/FlySentinel.cpp:250-287 | the running count grows by the processes made, up to sixteen |
| ScriptPasses.FullOrAllTried | src/flysentinel/FlySentinel.cpp:246-288 | after a pass sixteen are counted as running, or every due job was attempted once |
| ScriptRuns.SixteenRetriesStop | src/flysentinel/FlySentinel.cpp:312-322 | after sixteen retries no script runs, and no step starts one or takes a retry back |
| ScriptRuns.StoppedForGood | src/flysentinel/FlySentinel.cpp:246-323 | in every run, once sixteen retries were arranged no script is ever started again |
| ScriptRuns.WrittenStopsAtSixteen | src/flysentinel/FlySentinel.cpp:298 | with the comparison assigned as written, nothing is ever collected and sixteen scripts are started at most |
| Scripts.ScheduleKeeps | src/flysentinel/FlySentinel.cpp:219-232 | a full queue always has a job to drop, and the new one stays |
| ScriptPasses.ScheduleExactly | src/flysentinel/FlySentinel.cpp:219-232 | the new job comes last, due at once; from a full queue the first job that is not running goes; all else stays in order |
| Scripts.RunKeeps | src/flysentinel/FlySentinel.cpp:246-288 | starting pending scripts keeps the bounds, failed forks included |
| Scripts.CollectKeeps | src/flysentinel/FlySentinel.cpp:306-323 | so does collecting an ended one, and the count falls with the job unless a retry is arranged |
| ScriptPasses.CollectExactly | src/flysentinel/FlySentinel.cpp:299-323 | a job to be run again stays in its place with its time put off and its attempts as counted; any other goes and the count falls; all other jobs are as they were |
| ScriptPasses.UnknownIgnored | src/flysentinel/FlySentinel.cpp:306-310 | the end of an unknown process changes nothing |
| Scripts.RetryWaits | src/flysentinel/FlySentinel.cpp:306-323 | a retry is arranged exactly for a killed script or one that asks, fewer than ten attempts in, and not started before its delay is over; any other job goes |
| Scripts.NotStartedEarly | src/flysentinel/FlySentinel.cpp:250-263 | starting pending scripts leaves running jobs and those whose time has not come as they are |
| Scripts.RetryDelayLoop | src/scriptjob/ScriptJob.cpp:96-105 | the loop yields 30000 * 2^(retryCount - 1) |
| Scripts.DelayBound | src/scriptjob/ScriptJob.cpp:90-105 | a retry that is arranged waits at most 7680000 milliseconds |
| ScriptPasses.DelayDoubles | src/scriptjob/ScriptJob.cpp:96-105 | the first delay is 30000 milliseconds and each later one twice the one before |
| ScriptRuns.ScriptQueue.ScheduleScriptExecution | src/flysentinel/FlySentinel.cpp:219-232 | the queue in place |
| ScriptRuns.ScriptQueue.RunPendingScripts | src/flysentinel/FlySentinel.cpp:246-288 | the loop over the queue in place |
| ScriptRuns.ScriptQueue.CollectTerminated | src/flysentinel/FlySentinel.cpp:299-323 | one ended child in place |
| ScriptRuns.ScriptQueue.DeleteScriptJob | src/flysentinel/FlySentinel.cpp:549-559 | the first job with the number goes and the count falls |
| ScriptRuns.ScriptQueue.GetScriptListNodeByPid | src/flysentinel/FlySentinel.cpp:235-244 | the first running job with the number |
| Subscriptions.AlwaysAgree | src/pubsub/PubSubHandler.cpp:89-208 | over every run with the comparison meant, handler and clients agree on channels and on patterns |
| Subscriptions.SubscribeKeeps | src/pubsub/PubSubHandler.cpp:89-109 | subscribing lists the client once, in both directions |
| Subscriptions.UnsubscribeKeeps | src/pubsub/PubSubHandler.cpp:111-142 | unsubscribing unlists it in both directions, and no channel keeps an empty list |
| SubscriptionSteps.SubscribeExactly | src/pubsub/PubSubHandler.cpp:89-109 | a new subscriber goes behind all who listen to the channel; every other list and every other client is as it was, and so is all if it was subscribed |
| SubscriptionSteps.UnsubscribeExactly | src/pubsub/PubSubHandler.cpp:111-142 | the client alone goes from the channel's list, whose order stays; a list nobody is left in goes; every other list and client is as it was |
| SubscriptionSteps.SubscribePatternExactly | src/pubsub/PubSubHandler.cpp:159-178 | a new pattern comes last in both lists; every other client is as it was |
| SubscriptionSteps.UnsubscribePatternExactly | src/pubsub/PubSubHandler.cpp:180-208 | as it is meant: just this entry goes from both lists, and all others stay in order |
| SubscriptionSteps.InvertedEffect | src/pubsub/PubSubHandler.cpp:180-208 | as it is written: the pattern goes from the client's list, and from the handler's the client's first entry of another pattern, if it has one |
| Subscriptions.InvertedExactly | src/pubsub/PubSubHandler.cpp:180-208 | as compared in the code, unsubscribing from a pattern keeps the agreement if and only if there was nothing to unsubscribe from |
| Subscriptions.OtherErased | src/pubsub/PubSubHandler.cpp:180-208 | a client with two patterns that unsubscribes from the first: the handler forgets the second |
| Subscriptions.PublishedExactly | src/pubsub/PubSubHandler.cpp:16-37 | every client is sent one message for its channel subscription and one for each of its matching patterns |
| SubscriptionSteps.PublishedInOrder | src/pubsub/PubSubHandler.cpp:16-37 | first the channel's listeners in the order in which they subscribed, then the owners of the matching entries in the order of the entries |
| SubscriptionSteps.SubscriberHears | src/pubsub/PubSubHandler.cpp:89-109 | who has just subscribed is sent what is published there, behind all others |
| SubscriptionSteps.PlainHits | src/pubsub/PubSubHandler.cpp:16-37 | a pattern of ordinary characters hears the channel of that very name, letter case included, and no other |
| PubSub.PubSubHandler.PublishMessage | src/pubsub/PubSubHandler.cpp:16-37 | the loops send just these and return their number, matching with the glob loop |
| PubSub.PubSubHandler.SubscribeChannel | src/pubsub/PubSubHandler.cpp:89-109 | both tables in place |
| PubSub.PubSubHandler.UnsubscribeChannel | src/pubsub/PubSubHandler.cpp:111-142 | both tables in place |
| PubSub.PubSubHandler.UnsubscribeAllChannels | src/pubsub/PubSubHandler.cpp:144-157 | the client is in no list afterwards and nobody else's channels have changed |
| PubSub.PubSubHandler.SubscribePattern | src/pubsub/PubSubHandler.cpp:159-178 | both lists in place |
| PubSub.PubSubHandler.UnsubscribePattern | src/pubsub/PubSubHandler.cpp:180-208 | both lists in place, with the comparison of the code |

## Left out

- Dictionary: `getRandomEntry`, `clear`, `shrinkToMinSize`, `shrinkToNextPower` and `tryShrink` are not modelled; the last three reach `expand`, which is.
- Dictionary: an insertion that would make a table grow beyond 2^31 buckets is excluded, and the signed overflow of `nextPower` with it; whether resizing is allowed is an argument of each operation.
- DictOps.AddRefines: asks that a table that has to grow can double within 32 bits; the code would make one of no buckets.
- DictSizes.GrowthExactly: asks that a table that has to grow can double within 32 bits; the code would make one of no buckets.
- DictSizes.OperationMovesOn: asks for more buckets left than the operation can move; with fewer the rehash ends on the way (`DictSizes.RehashExactly`), and what comes after it may start another.
- DictRuns.ReplaceRefines: asks that a table that has to grow can double within 32 bits; the code would make one of no buckets.
- Dictionaries.Dictionary.AddEntry: asks that a table that has to grow can double within 32 bits; the code would make one of no buckets.
- Dictionaries.Dictionary.Replace: asks that a table that has to grow can double within 32 bits; the code would make one of no buckets.
- Dictionaries.Dictionary.RehashSteps: asks for a rehash under way; without one the code's behaviour is undefined, as said above.
- Dictionaries.Dictionary.ScanOneStep: asks that the second bucket of a step during a rehash exists; with the real sizes it need not (`RealSizesOverrun`), and the code then reads outside the array.
- ScanHistory.HistoryScan: speaks of an initial size that is a power of two; for the size 20 of the source it is false (`GrowthLosesKey`).
- DictScan.ScanMissesNothing: holds for power-of-two sizes with ratio two; with the real sizes the scan leaves the table or misses keys, as `RealSizesOverrun` and `RealSizesMiss` state. A scan callback that fails is not modelled.
- Skip list: `getRank`, `lastInRange`, `isInRange`, `deleteRangeByScore`, `deleteRangeByRank`, `deleteNode(node)` and `scanAll`; most of these do not meet their evident intent.
- SkipLists.SkipList.InsertNode: asks for fewer than 2^32 - 2 elements, so that the length does not wrap.
- SkipLists.SkipList.DeleteNode: asks for a level above zero, since the code reads an empty vector at level zero; `LevelZeroExactly` says when that arises.
- Glob: `tolower` is that of the C locale.
- RESP: the text of error replies and the log are not modelled; that an error marks the client for closing is. `dealWithCommand` is a record of the arguments handed to it.
- Pipelines.HandedOnExactly: speaks of pieces that are not empty, since a read of nothing would hand on an unfinished request; of arrays without a line break in an argument, since others are refused (`RespRuns.BulkExactly`); and of lines with a word in them (`BlankLineExactly`) that are shorter than the limit of 64 KiB.
- Replies: formats are expanded before they reach the model; `clearOutputBuffer` belongs to the destructor.
- Delivery: the clients of the server are values in a table and shared by number, not objects shared by reference; the array of a client's output is modelled in `ReplyBuffers` alone.
- DeliveryRuns.NothingLostExactly: a new client gets a descriptor only once its last holder has been freed or marked for closing, since the source closes descriptors nowhere else. That what the old client still has pending goes to the new one, and that freeing the old client closes the descriptor under the new one, is not followed.
- BackgroundJobs: the protocol is that of types 1 and 2, since the worker of type 0 ends at once (`src/bio/BIOHandler.cpp:86-88`). Two first submissions that race to make the worker, the threads' death, and what the jobs do are not modelled.
- Scripts: argument vectors are one string, jobs are values in the queue; `killTimedoutScripts` only sends signals. A new process number is supposed to differ from those of unfinished children.
- Publish and subscribe: notices to the subscriber are not modelled, nor is `unsubscribeAllPatterns`, which repeats `unsubscribePattern`; clients are told by number.
- Hello messages: what the sentinel does with the fields. Ports are unbounded numbers.
- Sockets, the event loop, configuration, logging, hiredis, failover and down detection (empty stubs in the source).
