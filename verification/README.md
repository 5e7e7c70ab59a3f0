# otwebsockets verification

A Dafny model of the data structures and the message bridge of otwebsockets, with proofs.
`dafny verify dfyconfig.toml` checks all of it.

The program bridges websockets to local daemon sockets. It stands on bundled headers: an intrusive
hash table (`local_lib/uthash.h`), intrusive lists (`local_lib/utlist.h`), a string type with
Knuth-Morris-Pratt search (`local_lib/utstring.h`) and a ring buffer (`local_lib/utringbuffer.h`).
Its own parts are the callbacks that move messages (`main/frontend.c`, `main/backend.c`,
`main/mq.c`) and the table of sockets (`main/socklist.c`). All of these work by changing linked
structures, arrays and fields in place, so the model does too: classes with those fields, loops with
invariants, and for each operation a specification on sequences that the operation is proved to
meet. The theorems are then about the specifications.

| module | what it holds |
|---|---|
| `Items` | the element both list libraries thread together, the hash handle, the table record |
| `StableSorting` | what a stable sort is, why it is unique, and how merging, insertion and bottom-up passes compute it |
| `ListSort` | the in-place mergesorts LL, DL, CDL and HASH_SRT |
| `SortCosts` | their n log n bound |
| `ListOps` | the list surgery of utlist.h |
| `Bits` | masks, shifts and the arithmetic of a bucket expansion |
| `Buckets` | how items are spread over bucket chains, and what doubling does to that |
| `BucketLinks` | the links and counts of one bucket |
| `Expansion` | HASH_EXPAND_BUCKETS in place |
| `AppOrder` | the application order of the hash |
| `HashTable` | the hash table: `Hash` is the head variable of the application |
| `HashRuns` | whole runs of operations against a finite map and a sequence |
| `KmpTheory`, `Kmp` | borders and failure functions; table building and search in both directions |
| `MessageQueue`, `BridgeModel`, `Bridge` | the message queue, the bridge as a step system, and the callbacks that take its steps |
| `SocketTable` | the sorted table of socket and websocket names |
| `RingBuffer` | the ring buffer and its index maps |

## Main results

* **Hash table.** `HashTable.Hash.Valid` is everything HASH_FSCK checks, and more: every item is in
  the bucket its masked hash names and in no other, the bucket count is a power of two, the tail is
  the last item. Every operation keeps it. `HashRuns.Drive` runs any legal list of operations on the
  real structure, for an arbitrary hash function and across any number of doublings: every find
  answers as a finite map would, every replace returns the item the map held, and the application
  order is the specified sequence. For runs of appends, replaces and deletes that sequence holds
  exactly the items of the final map, each at the place of its last insertion
  (`HashRuns.OrderIsSurvivors`).
* **Sorting.** Each of the four in-place mergesorts leaves the one stable sort of its list, with all
  links of its shape right, after exactly max(1, ceil(log2 n)) passes over n > 0 elements and at most
  n comparisons in each. Adding in order to a sorted hash gives the same order as appending and
  sorting afterwards; the in-order insertions of utlist.h sort the reversed sequence.
* **Search.** Both KMP tables hold the optimised failure function (the right-to-left one mirrored),
  both searches refine naive search, and both are linear. Building a table of m entries follows at
  most m failure links and makes at most 2m comparisons in its inner loops plus m - 1 that decide
  which entry to store; `Kmp.BuildCostly` is a family of needles that costs 3m - 5 in all, so the sum
  is not bounded by 2m.
* **Bridge.** In every reachable state, under any interleaving and any choking, a queued message has
  a writable callback pending, and accepted messages are handed to the writer in order, once each,
  on their own connection only. `Bridge.ServeAll` states it for the callbacks themselves, which change
  linked queues and flags in place: any number of live sessions under any interleaving.

## Where the code and its documentation disagree

* `README.md:96` says that socket and websocket are paired 1:1. `socklist_addmap` refuses a repeated
  websocket name only (`main/socklist.c:161-168`), so one daemon socket can serve several websockets:
  `SocketTable.SharedSocketAccepted` is such a table and `SocketTable.SocketsStayDistinct` says that
  the documented rule survives an insertion if and only if the socket path is new to the table.
* `frontend_ws_callback` means to report a short write, but `m < msg->size` compares an `int` with an
  unsigned size (`main/frontend.c:227`), so a negative result counts as huge and is not reported:
  `Bridge.FailedWriteUnreported` is a callback that returns 0 although every write failed, and
  `Bridge.ReportIsExact` says exactly when the report is right.
* The length passed to that write counts the LWS_PRE bytes as well (`main/frontend.c:226`,
  `main/frontend.c:260`); the model records it in `webLengths` and states delivery about the payload.

## Model

| member | source | states |
|---|---|---|
| `HashRuns.Drive` | local_lib/uthash.h:164-488 | Any legal run of add, in-order add, replace, delete, sort and find on the real table keeps the invariant, answers every find and every replace as a finite map does and ends in the specified application order, for every hash function and any number of doublings. Any item may replace, also one that is in the table. |
| `HashRuns.Perform` | local_lib/uthash.h:164-488 | One operation on the real table takes the step of the sequence specification; a find returns the item the map holds, a replace the item it displaces. |
| `HashRuns.RunRefinesMap` | local_lib/uthash.h:164-488 | Over any legal run the application order holds exactly the bindings of the finite map, one item per key. |
| `HashRuns.StepRefinesMap` | local_lib/uthash.h:164-488 | Each operation keeps order and map in step; add needs a fresh key, replace needs nothing. |
| `HashRuns.ResultsOneMore` | local_lib/uthash.h:164-174 | The results of a run are, find by find and replace by replace, what the map built so far holds under the key, or null. |
| `HashRuns.OrderIsSurvivors` | local_lib/uthash.h:265-295 | After any legal run of adds, replaces, deletes and finds the application order is the insertion sequence restricted to the items the map holds in the end, each at its last insertion; items may come back any number of times. |
| `HashRuns.InorderAddsMatchSort` | local_lib/uthash.h:361-392 | On a sorted hash, adding items in order leaves the same application order as appending them all and then sorting. |
| `HashTable.Hash.constructor` | local_lib/uthash.h:413-418 | A null head is the empty hash, with no table allocated. |
| `HashTable.Hash.Find` | local_lib/uthash.h:164-174 | Returns an item with the key, or null exactly when no item has it; the result is the first match of the one chain the key hashes to. |
| `HashTable.Hash.Add` | local_lib/uthash.h:407-426 | Keeps the invariant and appends the item to the application order. The array doubles exactly when the chain the item joins reaches 10 * (expand_mult + 1) items and expansion is not inhibited; if it does not double, that chain stays shorter or expansion is inhibited. |
| `HashTable.Hash.AddInorder` | local_lib/uthash.h:361-392 | Keeps the invariant and inserts the item in front of the first greater one, so after its equals; the same rule for doubling. |
| `HashTable.Hash.Replace` | local_lib/uthash.h:265-273 | Returns the item that had the key, or null if there was none; that item leaves and the new one goes to the end. An item in the table may replace itself, which moves it to the end. |
| `HashTable.Hash.Delete` | local_lib/uthash.h:461-488 | Keeps the invariant, removes just that item from the order, and drops the table exactly when it was the last item. |
| `HashTable.Hash.Sort` | local_lib/uthash.h:983-1065 | The application order becomes its stable sort; the table, the bucket array and every chain stay as they are, so every find does too. |
| `HashTable.Hash.DeleteAll` | main/backend.c:149-163 | The deletion-safe iteration visits every item once in application order, deletes it, and ends with a null head. |
| `HashTable.Hash.Fsck` | local_lib/uthash.h:526-573 | HASH_FSCK finds nothing wrong with a valid hash. |
| `HashTable.Hash.Clear` | local_lib/uthash.h:1130-1139 | Empties the hash by dropping the table, touching no item. |
| `HashTable.Hash.SizeLaw` | local_lib/uthash.h:870-872 | Every hash that is not empty has 32 buckets doubled once per expansion so far; while it has 32, expansion is allowed, no multiplier was raised and no chain holds more than 9 items. |
| `HashTable.Hash.InhibitLaw` | local_lib/uthash.h:968-973 | Expansion is inhibited exactly when two doublings in a row each left more than half of the items beyond the ideal length; one that pays starts the count again. |
| `HashTable.Hash.TenInABucket` | local_lib/uthash.h:870-872 | A hash with ten items that share one of 32 buckets has at least 64. |
| `HashTable.CountedLaw` | local_lib/uthash.h:870-872 | The doubling rule and what it leaves, in numbers. |
| `HashTable.FsckTable` | local_lib/uthash.h:526-573 | Among tables whose forward links can be walked, HASH_FSCK accepts exactly those with right back links in both lists, right bucket counts and both totals equal to num_items. |
| `HashTable.FsckChain` | local_lib/uthash.h:534-550 | Counts one chain and accepts it exactly when its back links and the stored count are right. |
| `HashTable.FsckBuckets` | local_lib/uthash.h:533-555 | Accepts exactly when every bucket is right and the counts add up to num_items. |
| `HashTable.FsckOrder` | local_lib/uthash.h:556-571 | Accepts exactly when every prev link of the application order is right and its length is num_items. |
| `HashTable.ValidIsIntact` | local_lib/uthash.h:526-573 | The invariant kept by the operations implies everything HASH_FSCK checks. |
| `HashTable.FoundIn` | local_lib/uthash.h:838-857 | The single chain of the masked hash decides whether any item of the table has the key. |
| `HashTable.MakeTable` | local_lib/uthash.h:223-253 | A new table has 32 empty buckets with zero counts and multipliers, no items, all expansion counters zero, expansion allowed and the first item as tail. |
| `HashTable.AddToTable` | local_lib/uthash.h:348-356 | Counts the item, puts it in front of the chain its hash names and doubles the array exactly when the chain reached (expand_mult + 1) * 10 and expansion is not inhibited. |
| `HashTable.AddToBkt` | local_lib/uthash.h:860-869 | The item goes to the front of its chain and that bucket's count grows by one. |
| `HashTable.ExpandIfCrowded` | local_lib/uthash.h:870-872 | Doubling happens exactly at the threshold and leaves the redistributed chains; otherwise chains and expansion state stay. |
| `HashTable.LeaveBucket` | local_lib/uthash.h:483-485 | Takes the item out of the bucket its hash names and lowers num_items. |
| `HashTable.LeaveTable` | local_lib/uthash.h:470-486 | Deleting one of several items keeps the whole invariant for the order and chains without it. |
| `HashTable.DeleteItem` | local_lib/uthash.h:464-486 | The delete branches on a sole item (both links null) exactly when it is the only one, and frees the table just then. |
| `HashTable.SortItems` | local_lib/uthash.h:983-1065 | HASH_SRT keeps the invariant with the same chains and sets head and tail for the stable sort of the order. |
| `Expansion.ExpandBuckets` | local_lib/uthash.h:926-976 | Doubling moves every item, in place, to the front of the chain its hash names under the doubled mask; the invariant, the ideal length, the non-ideal count, the multipliers and the inhibit rule hold for the result. |
| `Expansion.MoveAll` | local_lib/uthash.h:942-963 | Following the old links while overwriting them still visits every item once; the new array is linked, counted and tallied for all of them. |
| `Expansion.MoveChain` | local_lib/uthash.h:945-962 | Moving one old chain extends the new array by its items in order. |
| `Expansion.MoveItem` | local_lib/uthash.h:947-961 | Moving one item puts it in front of its new chain and raises the multiplier and the non-ideal count exactly when the chain outgrew them. |
| `Expansion.IdealLength` | local_lib/uthash.h:939-941 | The shift-and-mask expression is ceil(num_items / new bucket count). |
| `Expansion.InstallBuckets` | local_lib/uthash.h:964-973 | Installs the doubled array and records the expansion; two in a row that leave more than half the items beyond the ideal length inhibit further ones. |
| `Expansion.ExpandedLaw` | local_lib/uthash.h:939-942 | After an expansion the ideal length is the least one at which the items fit the doubled array, and the non-ideal items are those beyond it. |
| `Expansion.RecordOneMore` | local_lib/uthash.h:968-973 | One more expansion lengthens the run of wasted ones or ends it, and completes a pair exactly when the one before was wasted too. |
| `Expansion.ExpansionMultipliers` | local_lib/uthash.h:949-954 | After an expansion with items, ideal length m >= 1 and a bucket with count c and multiplier e has e = 0 exactly when c <= m, and (e-1)m < c <= em + 1 otherwise. |
| `Bits.MultiplierBounds` | local_lib/uthash.h:949-954 | The bound above for the multiplier that moving c items one by one produces. |
| `Bits.IdealIsCeil` | local_lib/uthash.h:909-923 | Shift plus masked correction equals the rounded-up quotient by a power of two. |
| `Bits.CeilDivIsLeast` | local_lib/uthash.h:909-923 | The rounded-up quotient is the least chain length at which the items fit. |
| `Bits.ExcessLaw` | local_lib/uthash.h:949-950 | The excess is the sum over the buckets of the items beyond the ideal length. |
| `Bits.MaskIsMod` | local_lib/uthash.h:441-444 | HASH_TO_BKT: the mask is the remainder modulo the power of two. |
| `Bits.DoubledMask` | local_lib/uthash.h:441-444 | Under the doubled mask an item stays in its bucket modulo the old bucket count. |
| `Bits.CountUp` | local_lib/uthash.h:949-950 | One more item in a bucket raises the excess over the ideal length by one exactly when its count passes it. |
| `Buckets.DoublingSplits` | local_lib/uthash.h:943-963 | Old chain j splits exactly into new chains j and j + n: together they hold its items, no more and no fewer. |
| `Buckets.DoublingReverses` | local_lib/uthash.h:943-963 | Each new chain is what it takes from its one old chain, in reverse order. |
| `Buckets.DistPlaced` | local_lib/uthash.h:943-963 | Redistributing any complete tour of the items leaves each in the bucket its masked hash names, once. |
| `Buckets.PlacedTour` | local_lib/uthash.h:943-946 | Walking chain after chain visits exactly the items of the table, each once. |
| `Buckets.PlacedAdd` | local_lib/uthash.h:862-869 | Pushing an item on the chain its hash names keeps the placement. |
| `Buckets.PlacedRemove` | local_lib/uthash.h:882-895 | Taking an item out of its chain keeps the placement of the others. |
| `Buckets.PlacedCount` | local_lib/uthash.h:533-555 | The chain lengths add up to the number of items. |
| `BucketLinks.PushFront` | local_lib/uthash.h:862-869 | Relinks both directions and the count of one bucket and leaves every other chain as it was. |
| `BucketLinks.DelInBkt` | local_lib/uthash.h:882-895 | Unlinks the item in both directions, lowers the count and keeps every other chain and all multipliers. |
| `BucketLinks.UnlinkHh` | local_lib/uthash.h:886-894 | The chain without the item is linked both ways, also at either end. |
| `BucketLinks.FindInBkt` | local_lib/uthash.h:838-857 | Returns the first item of the chain with the key although the hash values are compared first, or null. |
| `AppOrder.AppendList` | local_lib/uthash.h:289-295 | Appends to the application order and moves the tail. |
| `AppOrder.FindUpperBound` | local_lib/uthash.h:297-304 | Stops at the first element greater than the new one, or at the end. |
| `AppOrder.InsertBefore` | local_lib/uthash.h:378-385 | Links the item in front of a given one, also at the head. |
| `AppOrder.LinkInorder` | local_lib/uthash.h:375-388 | The order is the upper-bound insertion and the tail stays right. |
| `AppOrder.Unlink` | local_lib/uthash.h:472-482 | Unlinks from the application order and repairs head or tail when the item was there. |
| `ListSort.LlSort` | local_lib/utlist.h:111-169 | Leaves the stable sort of the list, null-terminated and of the same nodes, within the comparison bound and in exactly Passes(n, 1) passes. |
| `ListSort.DlSort` | local_lib/utlist.h:175-233 | The same for DL, with every prev link right and head->prev at the tail. |
| `ListSort.CdlSort` | local_lib/utlist.h:238-309 | The same for a ring, closed again in both directions. |
| `ListSort.HashSort` | local_lib/uthash.h:983-1065 | The same for the application order, returning its head and its tail. |
| `ListSort.SortPass` | local_lib/utlist.h:123-162 | One pass rethreads the list into the pairwise merges of its runs, counts them, and makes at most n comparisons. |
| `ListSort.MergeRuns` | local_lib/utlist.h:136-158 | The innermost loop merges the two runs stably in place and makes at most one comparison for each element. |
| `ListSort.MergeNext` | local_lib/utlist.h:137-157 | Each turn outputs the head the stable merge takes next, preferring the first run on ties. |
| `ListSort.CutRun` | local_lib/utlist.h:129-135 | The counting loop stops after insize elements or at the end of the list. |
| `ListSort.PassProgress` | local_lib/utlist.h:163-167 | A pass doubles the sorted blocks, and the list is sorted exactly when a pass needed at most one merge. |
| `StableSorting.StableSortUnique` | local_lib/utlist.h:57-59 | A list is a stable sort of another (sorted, the same elements, equals in their order) if and only if it is the one the sorts compute. |
| `StableSorting.MergeOfStableSorts` | local_lib/utlist.h:137-157 | Merging the stable sorts of two lists gives the stable sort of their concatenation. |
| `StableSorting.PassDoublesBlocks` | local_lib/utlist.h:123-162 | A bottom-up pass turns sorted blocks of length k into sorted blocks of length 2k. |
| `StableSorting.InsertAllLowerSortsReverse` | local_lib/utlist.h:656-683 | Inserting one by one at the lower bound, which places an element before its equals, gives the stable sort of the reversed sequence. |
| `SortCosts.SortIsNLogN` | local_lib/utlist.h:57-59 | The comparison bound of every sort is n * max(1, ceil(log2 n)). |
| `SortCosts.PassesAreLogarithmic` | local_lib/utlist.h:120-167 | The pass count that each sort method ensures is max(1, ceil(log2 n)) from run size 1, and correspondingly less from 2^i on. |
| `SortCosts.MergesPerPass` | local_lib/utlist.h:127-135 | A pass with runs of length k makes ceil(n / 2k) merges. |
| `SortCosts.CeilLog2IsLeast` | local_lib/utlist.h:57-59 | The logarithm in the bound is the least e with n <= 2^e. |
| `ListOps.LlAppend` | local_lib/utlist.h:341-352 | Appends at the end of a null-terminated list. |
| `ListOps.LlDelete` | local_lib/utlist.h:388-402 | Unlinks the element and leaves the list alone if it is not on it. |
| `ListOps.FindLowerBound` | local_lib/utlist.h:372-383 | The last of the leading elements smaller than the given one, null for the front; for null-terminated lists and rings. |
| `ListOps.LlAppendElem` | local_lib/utlist.h:494-504 | Inserts after the element, at the front for null. |
| `ListOps.LlInsertInorder` | local_lib/utlist.h:357-367 | Is the lower-bound insertion. |
| `ListOps.DlPrepend` | local_lib/utlist.h:624-634 | Prepends and keeps the link from head to tail. |
| `ListOps.DlAppend` | local_lib/utlist.h:639-651 | Appends and keeps the link from head to tail. |
| `ListOps.DlConcat` | local_lib/utlist.h:688-701 | Concatenates two lists, either of them possibly empty. |
| `ListOps.DlDelete` | local_lib/utlist.h:706-723 | Deletes the element, also the only one, the head or the tail. |
| `ListOps.DlReplaceElem` | local_lib/utlist.h:753-777 | Puts the new element in the place of the old one. |
| `ListOps.DlPrependElem` | local_lib/utlist.h:782-798 | Inserts in front of the element, at the end for null. |
| `ListOps.DlAppendElem` | local_lib/utlist.h:803-819 | Inserts after the element, at the front for null. |
| `ListOps.DlInsertInorder` | local_lib/utlist.h:656-667 | Is the lower-bound insertion. |
| `ListOps.CdlAppend` | local_lib/utlist.h:863-875 | Appends to a ring, closed in both directions. |
| `ListOps.CdlPrepend` | local_lib/utlist.h:880-892 | Prepends to a ring. |
| `ListOps.CdlDelete` | local_lib/utlist.h:929-938 | Deletes from a ring, also its only element or its head. |
| `ListOps.CdlReplaceElem` | local_lib/utlist.h:983-1001 | Puts the new element in the place of the old one in a ring. |
| `ListOps.CdlPrependElem` | local_lib/utlist.h:1006-1021 | Inserts in front of the element of a ring, at the end for null. |
| `ListOps.CdlAppendElem` | local_lib/utlist.h:1026-1038 | Inserts after the element of a ring, at the front for null. |
| `ListOps.CdlInsertInorder` | local_lib/utlist.h:897-908 | Is the lower-bound insertion. |
| `ListOps.LlInsertAll` | local_lib/utlist.h:357-367 | Inserting the items one by one into an empty list leaves the stable sort of the reversed sequence. |
| `ListOps.DlInsertAll` | local_lib/utlist.h:656-667 | The same for DL. |
| `ListOps.CdlInsertAll` | local_lib/utlist.h:897-908 | The same for a ring. |
| `Kmp.BuildTable` | local_lib/utstring.h:162-198 | Every entry i is the longest border of needle[..i] whose next character differs from needle[i], or -1, and the last entry the plain longest border; at most m failure links, an exact count of at most 2m comparisons in the inner loop, and m - 1 for the entries. |
| `Kmp.BuildTableR` | local_lib/utstring.h:202-238 | The right-to-left table is the mirrored table of the reversed needle, at the same cost. |
| `Kmp.FollowLinks` | local_lib/utstring.h:174-179 | The inner loop ends at the longest border one position further, and each link followed shortens the border. |
| `Kmp.FollowLinksR` | local_lib/utstring.h:214-219 | The same for the mirrored loop. |
| `Kmp.EntryR` | local_lib/utstring.h:220-234 | The entry stored is the mirrored optimised failure. |
| `Kmp.BuildCostly` | local_lib/utstring.h:162-198 | On the needle abaa...a of m > 2 characters the two kinds of comparisons add up to exactly 3m - 5, which exceeds 2m from six characters on. |
| `KmpTheory.CostlyTable` | local_lib/utstring.h:174-177 | The inner loops make 2m - 4 comparisons on that needle. |
| `Kmp.FindWithTable` | local_lib/utstring.h:242-271 | Returns the least match, or -1 exactly when there is none, in at most 2n comparisons and in spite of the early exit. |
| `Kmp.FindWithTableR` | local_lib/utstring.h:275-305 | Returns the greatest match, or -1 exactly when there is none, in at most 2n comparisons. |
| `Kmp.RealignR` | local_lib/utstring.h:290-293 | The inner loop of the search skips no match and moves right by at least as much as it compares. |
| `Kmp.TablesMirror` | local_lib/utstring.h:202-238 | tableR[k] = m - 1 - table'[m - k], where table' is built from the reversed needle. |
| `Kmp.UtString.Find` | local_lib/utstring.h:309-351 | The least match at or after the start, which is position itself or, for a negative position, the length plus it; -1 exactly when there is none or the needle is empty. |
| `Kmp.UtString.FindR` | local_lib/utstring.h:355-393 | The greatest match lying wholly at or before the start, which is position itself or, for a negative position, the length plus it; -1 exactly when there is none or the needle is empty. |
| `Kmp.FromTheEnd` | local_lib/utstring.h:320-327 | Position -k gives in both directions the answer of position length - k: the least occurrence, character for character, among the last k characters, and the greatest one that ends at or before the first of them. |
| `KmpTheory.FailureStep` | local_lib/utstring.h:174-177 | Following a failure link on a mismatch while building skips no border that can be extended, and always gets shorter. |
| `KmpTheory.SearchDone` | local_lib/utstring.h:174-179 | When the inner loop stops, the border found is the longest one of the next prefix. |
| `KmpTheory.StoredEntry` | local_lib/utstring.h:180-194 | The stored entry is the longest border with a differing next character. |
| `KmpTheory.MatchFailureStep` | local_lib/utstring.h:256-259 | Following a failure link on a mismatch while searching skips no match. |
| `KmpTheory.TooShort` | local_lib/utstring.h:254 | The early exit is right: with too few characters left there is no match at all. |
| `KmpTheory.MirrorMatch` | local_lib/utstring.h:275-305 | A match read backwards is a match of the reversed strings at the mirrored place, and conversely. |
| `KmpTheory.EntryExists` | local_lib/utstring.h:162-198 | Every position has a table entry. |
| `KmpTheory.EntryUnique` | local_lib/utstring.h:162-198 | The entry is unique and smaller than its index. |
| `KmpTheory.TableLaw` | local_lib/utstring.h:162-198 | Entry i in characters: a prefix that ends before i and is followed by another character than the one at i, every longer such prefix is followed by the same one, and -1 says that all are. |
| `KmpTheory.LastEntryLaw` | local_lib/utstring.h:190-194 | The last entry is the longest proper border of the whole needle. |
| `MessageQueue.Queue.constructor` | main/mq.c:59-61 | A new queue is empty. |
| `MessageQueue.Queue.IsEmpty` | main/mq.c:64-66 | True exactly when nothing is queued. |
| `MessageQueue.Queue.Get` | main/mq.c:69-82 | Takes the oldest message, or returns null from an empty queue. |
| `MessageQueue.Queue.Put` | main/mq.c:85-89 | Appends the message behind all others. |
| `BridgeModel.RunKeeps` | main/frontend.c:72-99 | In every reachable state a non-empty queue has its callback pending, and accepted = handed over + queued, in both directions. |
| `BridgeModel.StepKeeps` | main/frontend.c:199-243 | Each event keeps both properties from any state that has them. |
| `BridgeModel.WhoDoesWhat` | main/frontend.c:72-99 | Only a writable callback hands messages over and only in its own direction; only an arrival is accepted; no event touches the other direction. |
| `BridgeModel.Arrives` | main/frontend.c:78-81 | An arrival goes to the back of the queue unless it is empty and requests a callback either way; a read without data changes nothing. |
| `BridgeModel.Leaves` | main/frontend.c:206-233 | A writable callback hands over exactly what it takes off the front, up to the first choked write, and another one is requested exactly when something is left; the local one leaves nothing. |
| `BridgeModel.HandedIsSent` | main/frontend.c:199-243 | Over any run the messages handed over are those the writable callbacks sent, in order. |
| `BridgeModel.LocalPending` | main/frontend.c:238-243 | A local callback is pending exactly when something was received since the last one. |
| `BridgeModel.WebPending` | main/frontend.c:206-214 | A web callback is pending exactly when data was read since the last one or the last one left messages behind. |
| `BridgeModel.AcceptedIsOffered` | main/frontend.c:72-83 | A direction has accepted exactly the non-empty messages its events offered, in arrival order. |
| `BridgeModel.DeliveredToWeb` | main/frontend.c:199-234 | What was accepted before a writable callback that finds the pipe free has been handed over once it returns, in order, and stays so. |
| `BridgeModel.DeliveredToLocal` | main/frontend.c:85-99 | The same towards the daemon socket, where the callback always empties the queue. |
| `BridgeModel.SendsUntilChoked` | main/frontend.c:206-221 | A writable callback stops exactly at the first choked write or at the end of the queue. |
| `BridgeModel.RunGrows` | main/frontend.c:199-243 | Nothing handed over is ever taken back or reordered. |
| `BridgeModel.Isolation` | main/frontend.c:199-243 | In the step system each connection ends where its own events alone would have taken it; `Bridge.ServeAll` states it for live sessions. |
| `BridgeModel.WholeBridge` | main/frontend.c:199-243 | From new connections every reachable state of the step system keeps all connections in order, each with just its own messages; `Bridge.ServeAll` states it for live sessions. |
| `Bridge.Session.constructor` | main/backend.c:465-469 | A new connection has two empty queues and no callback pending. |
| `Bridge.Session.PutForWeb` | main/backend.c:353-370 | Refuses an empty message with -1; otherwise queues it behind the spare bytes for the websocket. |
| `Bridge.Session.PutForLocal` | main/backend.c:372-390 | Refuses an empty message with -1; otherwise queues it for the daemon socket. |
| `Bridge.Serve` | main/frontend.c:199-243 | Any run of callbacks on a real session, with both linked queues changed in place, ends where the run of the step system ends; from a new connection no wakeup is lost and every message is conserved. |
| `Bridge.ServeAll` | main/frontend.c:199-243 | Any interleaving of callbacks over any number of live sessions that share no queue and no message: each session goes through the run of its own events, all together through the run of the bridge model, they still share nothing afterwards, and each new session ends in order with exactly its own messages accepted. |
| `Bridge.HandleIn` | main/frontend.c:199-243 | One callback takes its session through its step and leaves every other live session as it was, linked queues included. |
| `Bridge.SameWorld` | main/frontend.c:199-243 | Connections that each go through their own events together go through the interleaved run. |
| `Bridge.Handle` | main/frontend.c:199-243 | The callback of each event takes exactly its step of the model. |
| `Bridge.Session.HasLocal` | main/backend.c:421-428 | True exactly when a message for the daemon socket is queued. |
| `Bridge.Session.HasWeb` | main/backend.c:412-419 | True exactly when a message for the websocket is queued. |
| `Bridge.Session.OnReceive` | main/frontend.c:238-243 | Takes the receive step: the callback is requested even for an empty message, and nothing is handed over. |
| `Bridge.Session.OnRawRead` | main/frontend.c:72-83 | Takes the raw-read step: nothing is queued or requested unless bytes were read, and nothing is handed over. |
| `Bridge.Session.OnLocalWritable` | main/frontend.c:85-99 | Takes the local writable step: the loop empties the queue in order and terminates. |
| `Bridge.Session.OnWebWritable` | main/frontend.c:199-234 | Takes the web writable step and returns -1 exactly when some write came back non-negative and short. |
| `Bridge.Session.WriteNextLocal` | main/frontend.c:90-97 | Hands over exactly the oldest message. |
| `Bridge.Session.WriteNextWeb` | main/frontend.c:217-232 | Hands over exactly the oldest payload, with a length that counts the spare bytes as well. |
| `Bridge.ReportIsExact` | main/frontend.c:226-230 | The test on one write is right if and only if the write did not fail outright; the report of a callback is right if and only if no write failed outright or some write came back non-negative and short. |
| `Bridge.FailedWriteUnreported` | main/frontend.c:226-230 | A callback all of whose writes fail with -1 returns 0, for every LWS_PRE and every queue, although it handed messages over. |
| `SocketTable.SockList.constructor` | main/socklist.c:53-73 | A new table is empty and has the requested capacity. |
| `SocketTable.SockList.AddMap` | main/socklist.c:105-189 | -2 when the table is full, the result of the socket test minus 5 when it fails, -5 when the name is present, and 0 exactly otherwise; only then the parsed pair is inserted in order, every refusal leaves the table as it was. |
| `SocketTable.SockList.AddMaps` | main/main.c:217-219 | Adding a list to an empty table stores the accepted sockets in the order of the list until it is full, and every stored one passes the test. |
| `SocketTable.LoadSockets` | main/main.c:213-219 | The table the program starts with holds exactly the first working socket given for every name. |
| `SocketTable.AcceptedIs` | main/socklist.c:155-168 | The accepted sockets are those that pass the test and are the first with their name to do so. |
| `SocketTable.SockList.Scan` | main/socklist.c:163-175 | The scan stops at the first name that is not smaller. |
| `SocketTable.SockList.ShiftAndStore` | main/socklist.c:169-182 | Shifting in place opens a gap at i and loses nothing. |
| `SocketTable.SockList.Search` | main/socklist.c:243-258 | Returns the index of the entry with the name, or -1 exactly when the name is absent. |
| `SocketTable.SockList.BinarySearch` | main/socklist.c:239-242 | The binary search the comment announces returns the same index as the linear search for every valid table and every name, -1 included. |
| `SocketTable.IndexIsUnique` | main/socklist.c:243-258 | In a valid table any entry with the name is the one the linear search returns. |
| `SocketTable.PresenceAtInsertionPoint` | main/socklist.c:163-175 | Stopping at the first greater entry still decides presence exactly. |
| `SocketTable.InsertKeepsSorted` | main/socklist.c:163-182 | Inserting a new name keeps the table strictly sorted. |
| `SocketTable.SortedUnique` | main/socklist.c:163-182 | A strictly sorted table is determined by its pairs. |
| `SocketTable.InsertCommutes` | main/socklist.c:163-182 | The order in which two sockets are added does not matter. |
| `SocketTable.Bisects` | main/socklist.c:239-242 | One comparison tells on which side of an entry a name that is present lies. |
| `SocketTable.JoinParse` | main/socklist.c:126-152 | Joining what the split at the first colon yields gives the input back, and the path part has no colon. |
| `SocketTable.ParseJoin` | main/socklist.c:126-152 | Splitting undoes joining if and only if the path has no colon. |
| `SocketTable.StrCmpEqual` | main/socklist.c:164-165 | The comparison is zero exactly on equal names. |
| `SocketTable.StrCmpDirection` | main/socklist.c:164-169 | Negative exactly when at the first difference the left name ends or has the smaller character. |
| `SocketTable.StrCmpTransitive` | main/socklist.c:164-169 | The order of names is transitive. |
| `SocketTable.SocketsStayDistinct` | README.md:96 | The documented 1:1 rule survives an insertion if and only if the socket path is new to the table. |
| `SocketTable.SharedSocketAccepted` | main/socklist.c:161-168 | A repeated socket path under a new websocket name is accepted. |
| `RingBuffer.Ring.PushBack` | local_lib/utringbuffer.h:84-89 | Records one more push; a full buffer overwrites its oldest value, and destroys it first if elements have a destructor. |
| `RingBuffer.Ring.constructor` | local_lib/utringbuffer.h:43-48 | An empty buffer of the given capacity. |
| `RingBuffer.WindowMoves` | local_lib/utringbuffer.h:84-89 | A push moves the window of the last n values by one, so stored values are the destroyed ones followed by the held ones. |
| `RingBuffer.Ring.Clear` | local_lib/utringbuffer.h:50-67 | Destroys exactly the held values, oldest first, if elements have a destructor, and forgets them; every value ever stored has then been destroyed once, in order. |
| `RingBuffer.PushKeeps` | local_lib/utringbuffer.h:84-89 | Wrapping at the end keeps slots, index and full flag a picture of the last pushes. |
| `RingBuffer.Ring.EltIsRecent` | local_lib/utringbuffer.h:91-97 | For every index j: the slot of the j-th oldest of the last min(pushes, n) values if there is one, otherwise NULL. |
| `RingBuffer.Ring.FakeOfReal` | local_lib/utringbuffer.h:95-101 | The logical index of the slot of a logical index is that index. |
| `RingBuffer.Ring.RealOfFake` | local_lib/utringbuffer.h:95-101 | The slot of the logical index of a slot is that slot. |
| `RingBuffer.Ring.Neighbours` | local_lib/utringbuffer.h:104-106 | next and prev step through the logical order and undo each other. |
| `RingBuffer.Ring.WalkForward` | local_lib/utringbuffer.h:103-104 | Walking next from NULL to NULL yields every recent value once, oldest first. |
| `RingBuffer.Ring.WalkBackward` | local_lib/utringbuffer.h:105-106 | Walking prev from NULL to NULL yields them newest first. |

## Left out

- libwebsockets, TLS, HTTP serving, `frontend_start`, `frontend_stop` and the service loop: foreign calls; only their callback events appear, in any order.
- `socket`, `connect`, `read`, `write`, `stat` and signals: `sub_testsocket` is a function parameter with its possible results, and what a read or a write returned is an argument of the event.
- Delivery means handed to the writer: the code frees a message whatever the write returned.
- Connection opening, teardown, and what libwebsockets does after a callback returned -1: the model is about a connection while it lives.
- The dict wrapper (`main/backend.c:129-247`): `dict_new` never adds its item to the hash, so there is no index to agree with. Only its iterate-and-delete loop is modelled, on a hash that has items.
- HASH_SELECT (`local_lib/uthash.h:1072-1128`): it links items into the destination without updating its tail, so the invariant does not hold after it.
- The Bloom filter (HASH_BLOOM is not defined in this repository), HASH_REPLACE_INORDER, the HASH_NONFATAL_OOM paths, the NO_DECLTYPE variants and allocation failure.
- Hash function internals: the hash is an arbitrary function of the key. Key and payload of an item are constants, as uthash requires while an item is in a table.
- One class `Item` carries the links of both list libraries, and the merge and the pass shared by the four sort macros are written once, with the end marker and the use of prev links as parameters.
- Machine widths: counts, run sizes, hash values and lengths are unbounded, so wrap-around and the `(int)` casts of `main/socklist.c` and `local_lib/utstring.h` are not captured.
- The remaining members of utlist.h (counting, searching and iteration macros, LL_CONCAT, LL_PREPEND, LL_PREPEND_ELEM, LL_REPLACE_ELEM), `utarray.h`, `utstack.h` and string append and formatting would add only easy members.
- `socklist_newclient`, the constants in `l_type` and `pagesize`, and the init and copy callbacks of the ring buffer: a push stores the value itself.
- Kmp.UtString.Find: does not model a start index before the beginning of the string, where the code reads outside the buffer.
- Kmp.UtString.FindR: does not model a start index behind the end of the buffer, where the code reads outside it.
- SocketTable.SockList.AddMap: requires a ':' in the argument, because the code scans from the position after it before it looks whether there is one (`main/socklist.c:130-132`); allocation failures (-4) and null arguments are not modelled.
- SocketTable.SockList.BinarySearch: the repository only announces this search in a comment; the model writes it out.
- A ring buffer of capacity 0, on which a push writes outside the buffer.
- HashTable.Hash.Fsck: the check is modelled on structures whose forward links can be walked; on others the code does not terminate.
