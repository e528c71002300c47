# ManagedObject, verified

A Dafny model of the four stateful parts of ManagedObject, with proofs of what each of them keeps.

**The collector-aware metadata table** (`Probing`, `MetadataTable`, `TableOps`, `TableRuns`, `TableLaws`,
`HashTableObject`, `StringHash`, `Interning`). An open-addressing table with an odd stride over a power-of-two number
of buckets, tombstones and tagged counters. Its keys may be hashed by address, and between two operations the
collector may move any object and clear any weak slot. The main result is `TableRuns.EveryRun`: from a fresh table of
any requested length, over every interleaving of sets, deletions, lookups, moves and scans of weak keys and values,
the table has the contents and gives the answers of a plain finite map. What that means for a program is said without
the map: `TableLaws.SetThenRef` and `DeleteThenRef` for one operation, and `TableLaws.LastWriteIsRead` for a value
that is still there after any run that leaves it alone. The state is a value (`MetadataTable.Table`), the operations
are functions on it with lemmas saying what they do to the map, and `HashTableObject.HashTable` is the object that the
program mutates: each of its methods is proved to compute the function of the same name, and the assertions of the
source stand in the methods as Dafny assertions.

What is assumed of the collector is exactly this. A location dependency answers "stale" if an object added since the
last reset is not at the address it then had, "not stale" if no collection has run since the reset, and anything
otherwise (the `coin` parameters). A scan hands back NULL for some of the objects that pass its filter. Collections
fall between operations, never inside one. Objects are named by identity, so comparing pointers is comparing names,
and the addresses that a scan rewrites in the buckets are not stored; `Placement` gives the current address of each
object.

Two things that the program is meant to do it does not always do, and the exact conditions are stated. Strings that
compare equal hash alike if and only if no NUL stands before the last character (`StringHash.EqualHashesIff`): the
hash reads every character (`StringHash.OneCharacterTells`), and `strcmp` stops at the NUL. And the deleted counter
can go wrong: a scan of weak values whose filter lets NULL pass counts the tombstones of ordinary deletions a second
time (`TableRuns.NullCountedTwice`). Contents and answers do not depend on the counter, so `TableRuns.EveryRun` holds
under every filter, and the invariant `Core` leaves the counter out; that matters because `CMakeLists.txt:57` selects
the MPS variety without assertions, in which such a program goes on. The counter is right at the end of a run if and
only if every scan that doubled a tombstone was followed by a rehash, which counts afresh
(`TableRuns.CountedIffSettled`); the assertion at the end of a rehash has the same condition
(`TableRuns.RehashAssertionOverRuns`), and that of `table_size` fails once the surplus exceeds the number of live
keys. A table in which nothing is deleted by name always counts right (`Interning.InterningCountsRight`). The methods
of `HashTable` carry the assertions of the source, and so require a table that counts right.

**The linear-probing hash map** (`LinearProbing`, `Sizing`, `HashMap`). No tombstones: removal shifts later entries
back, round the end of the table if need be. `LinearProbing.RemoveKeeps` says that this takes exactly one key out and
leaves every other key reachable, also when failed allocations have let the table become completely full. Occupied
chains alone do not imply that: `LinearProbing.ChainsAloneAreNotEnough` is a full four-slot table with whole chains in
which removing one key loses another. The invariant that makes removal right is the *anchor*, a slot that lies on no
other entry's way; filling a free slot makes that slot an anchor, so every table the operations build has one.
Allocation failures are parameters (`allocOk`), and so is the pointer that a key-duplicating callback returns
(`stored`, NULL when it fails). Under lawful hash and compare functions `put` never answers EADDRNOTAVAIL, in any
state.

**The object format** (`ObjectFormat`, `ObjectLaws`, `ScanEffects`, `Dependents`). A heap region as words, with the
struct layouts of a 64-bit machine. Allocation, forwarding, padding and scanning keep it a row of objects, so that
skipping from the base lands on every boundary and exactly on the limit. What an object holds when it is made
(`ObjectLaws.MadeAsAsked`), which objects count as forwarded after a run (`ObjectLaws.ForwardedExactly`) and what a
scan leaves in every word (`ScanEffects.BucketsScanned`, and for ranges `ScanEffects.GroupScanned`) are stated apart
from the functions that compute it. `ALIGN_OBJ` makes every allocated object at least three words long, so the
two-word forwarding record that the comments of `managed_object_obj.c` provide for is never chosen for an object the
program made (`ObjectFormat.AllocatedIsForwardable`). The one write of the scanner that reaches another object is that
of a splatted slot into the dependent buckets. It keeps the region laid out if the dependent is a buckets object as
long as the scanned one, which the scanner asserts; without that it can overwrite a header
(`ObjectFormat.StrayDependentSpoils`). `Dependents.AssertionNeverFails` shows that the assertion holds in every run of
a program that links buckets of equal length, as `make_table` and `table_rehash` do, under a collector that leaves
linked buckets where they are.

**The mark phase** (`Reachability`, `Mark`). A recursive walk over holders that may share memories and form cycles.
Holders and memories are classes; `Observe` reads their state off as a value, and the walk's invariant is stated on
those values. `Mark.MarkRoot` says exactly which memories end up coloured, and in which colours: a memory that several
holders share gets the shade of the one that comes first in depth-first order (`Mark.Order`). The walk ends on every
graph, and the holders it calls are exactly those reachable through gray memories (`Mark.OrderIsReached`).

Integer widths: sizes and lengths are mathematical integers, with the wrap-around written out where the code relies on
it (`Words.WrapSub` under a mask in the shifting loop, 64-bit vectors in the string hash) and the range stated where
the code depends on it (`Sizing.InRange`, for the `int` shift of `calc_table_size`).

## Model

| member | source | states |
|---|---|---|
| Words.MaskIsMod | src/managed_object_hashmap.c:22 | masking with a power of two minus one is reduction modulo it |
| Words.MaskedDifferenceIsDist | src/managed_object_hashmap.c:149-150 | the wrapped and masked difference of two slot numbers is their distance round the ring |
| Probing.SlotsDistinct | include/managed_object_obj_metadata.h:507-522 | an odd stride over a power-of-two table inspects no bucket twice before it is back at its start |
| Probing.SlotsCover | include/managed_object_obj_metadata.h:507-522 | the search inspects every bucket |
| Probing.FullCycle | include/managed_object_obj_metadata.h:522 | the loop test is met after exactly `length` steps |
| Probing.SlotStepDoesNotWrap | include/managed_object_obj_metadata.h:521 | the index addition stays within an unsigned long for every table that fits in memory |
| Probing.StrideIsShifted | include/managed_object_obj_metadata.h:507 | the stride is the hash without its low eight bits, made odd |
| MetadataTable.FindStops | include/managed_object_obj_metadata.h:500-524 | while a bucket is unused the search ends at its first unused or matching bucket, so a tombstone is never reused |
| MetadataTable.FindFailsIff | include/managed_object_obj_metadata.h:500-524 | the search fails exactly when no bucket is unused, deleted or matching |
| MetadataTable.MissMeansAbsent | include/managed_object_obj_metadata.h:585-602 | if nothing recorded has moved, a search ending at an unused bucket proves the key absent |
| MetadataTable.SizeIsCardinality | include/managed_object_obj_metadata.h:526-534 | used minus deleted is the size of the map if and only if the deleted counter is right, and is otherwise short of it by the surplus |
| TableOps.RehashKeeps | include/managed_object_obj_metadata.h:545-583 | a rehash keeps the map, drops every tombstone, resets the dependency with every key current, and reports the wanted key exactly when it is live |
| TableOps.FillingCopies | include/managed_object_obj_metadata.h:560-576 | during a rehash the search for each live key succeeds, at an unused bucket |
| TableOps.FindKeeps | include/managed_object_obj_metadata.h:590-602 | a lookup, stale or not, keeps invariant and map, finds every present key, and otherwise offers an unused bucket or fails after a rehash |
| TableOps.RefAgrees | include/managed_object_obj_metadata.h:604-614 | a lookup answers what the map holds, NULL when it holds nothing |
| TableOps.TrySetKeeps | include/managed_object_obj_metadata.h:616-633 | an attempt with room fails only when the dependency is stale, and otherwise sets the key in the map |
| TableOps.FullMeansHalf | include/managed_object_obj_metadata.h:635-639 | the comparison on mixed tagged numbers means "half full" at every even length and is always true at length one |
| TableOps.GrowThenSet | include/managed_object_obj_metadata.h:644-648 | after doubling the second attempt always succeeds, so its assertion never fires |
| TableOps.SetAgrees | include/managed_object_obj_metadata.h:641-650 | setting refines setting in the map: an equal stored key keeps its identity, and no key ever gets a second bucket |
| TableOps.DeleteAgrees | include/managed_object_obj_metadata.h:652-665 | deleting refines deleting from the map |
| TableOps.SetSurplus | include/managed_object_obj_metadata.h:616-650 | setting leaves the surplus of the deleted counter as it is, or clears it by a rehash |
| TableOps.DeleteSurplus | include/managed_object_obj_metadata.h:652-665 | deleting does the same |
| TableOps.RehashAssertionIff | include/managed_object_obj_metadata.h:578 | the assertion that the new table holds as many keys as `table_size` finds in the old one holds if and only if the deleted counter is right |
| TableRuns.ScanResult | include/managed_object_obj_metadata.h:217-236 | a scan marks both halves of every splatted slot, counts each in both counters, and changes nothing else |
| TableRuns.ScanKeysKeeps | include/managed_object_obj_metadata.h:211-240 | a scan of weak keys removes exactly the entries whose key died and leaves the counter as right as it was |
| TableRuns.ScanValuesKeeps | include/managed_object_obj_metadata.h:211-240 | a scan of weak values removes exactly the entries whose value came back NULL, whatever the filter lets pass |
| TableRuns.DeletedExactIff | include/managed_object_obj_metadata.h:219-231 | the deleted counter is right after a scan of values if and only if it was before and no tombstone's value is taken for splatted |
| TableRuns.SizeAssertionFailsIff | include/managed_object_obj_metadata.h:526-534 | the assertion of `table_size` fails if and only if the surplus exceeds the number of live keys; after a scan of values of a table that counted right, if and only if more values were taken for splatted than there are live keys |
| TableRuns.NullCountedTwice | include/managed_object_obj_metadata.h:219-231 | one set, one delete and a scan whose filter lets NULL pass leave more deleted than used buckets, against the assertion of `table_size` |
| TableRuns.NewTableIsEmpty | include/managed_object_obj_metadata.h:405-436 | a fresh table satisfies the invariant and stands for the empty map |
| TableRuns.RoundUpIsPow2 | include/managed_object_obj_metadata.h:418-419 | the rounding loop gives a power of two at least the request and less than twice it |
| TableRuns.MoveKeeps | include/managed_object_obj_metadata.h:585-589 | moving any objects keeps the invariant, every key staying reachable from a recorded address |
| TableRuns.StepAgrees | include/managed_object_obj_metadata.h:590-665 | every operation and every act of the collector, whatever its filter, does to the table what it should do to the map |
| TableRuns.RunAgrees | include/managed_object_obj_metadata.h:590-665 | over every run that stores objects or NULL the table and the map have the same contents and give the same answers |
| TableRuns.StepSurplus | include/managed_object_obj_metadata.h:211-240 | an action adds to the surplus exactly the tombstones it doubles, or clears it by a rehash |
| TableRuns.CountedIffSettled | include/managed_object_obj_metadata.h:526-534 | the deleted counter is right at the end of a run if and only if every scan that doubled a tombstone was followed by a rehash |
| TableRuns.RehashAssertionOverRuns | include/managed_object_obj_metadata.h:578 | the assertion of a rehash in the course of a run holds if and only if the run up to there is settled in this sense |
| TableRuns.RejectingNullRunIsSettled | include/managed_object_obj_metadata.h:219-222 | if the filter rejects NULL, no run ever meets the double count |
| TableRuns.EveryRun | include/managed_object_obj_metadata.h:405-436 | from a fresh table of any length, every run under every filter agrees with a map in contents and answers, at most half of the buckets are used, and used minus deleted is the map's size if and only if the run is settled |
| TableLaws.SetThenRef | include/managed_object_obj_metadata.h:604-650 | what is set is read back under every equal key, and every other key is answered as before |
| TableLaws.DeleteThenRef | include/managed_object_obj_metadata.h:604-665 | after a deletion every equal key answers NULL, and every other key is answered as before |
| TableLaws.SetLength | include/managed_object_obj_metadata.h:635-650 | a set doubles a table that is half full or has one bucket, never does more than that, and otherwise changes the length only by way of a rehash |
| TableLaws.MapSetKeys | include/managed_object_obj_metadata.h:622-631 | setting an equal key keeps the stored one, and otherwise adds just the new key |
| TableLaws.ScanKeysRemoves | include/managed_object_obj_metadata.h:217-236 | a scan of weak keys takes out exactly the keys that pass the filter and are dead, the others keeping their values |
| TableLaws.ScanValuesRemoves | include/managed_object_obj_metadata.h:217-236 | a scan of weak values takes out exactly the keys whose value passes the filter and is dead or NULL, the others keeping theirs |
| TableLaws.LastWriteIsRead | include/managed_object_obj_metadata.h:604-665 | the last value set for a key is answered for every equal key after any run of operations on other keys, lookups, moves and scans that leave the stored key and the value alive |
| HashTableObject.HashTable.constructor | include/managed_object_obj_metadata.h:405-436 | builds the empty table at the rounded length |
| HashTableObject.HashTable.BucketsFind | include/managed_object_obj_metadata.h:500-524 | the loop computes the search, and adds the key to the dependency when asked |
| HashTableObject.HashTable.TableSize | include/managed_object_obj_metadata.h:526-534 | answers the number of entries, its assertion never firing |
| HashTableObject.HashTable.CopyEntry | include/managed_object_obj_metadata.h:565-574 | the rehash loop's assertions hold and one pair is copied |
| HashTableObject.HashTable.FillBuckets | include/managed_object_obj_metadata.h:560-576 | the rehash loop moves exactly the live pairs into the fresh buckets |
| HashTableObject.HashTable.TableRehash | include/managed_object_obj_metadata.h:545-583 | the loop computes the rehash into fresh buckets, and its count assertion holds |
| HashTableObject.HashTable.TableFind | include/managed_object_obj_metadata.h:590-602 | computes the lookup with its retry |
| HashTableObject.HashTable.TableRef | include/managed_object_obj_metadata.h:604-614 | answers what the map holds and leaves the map alone |
| HashTableObject.HashTable.TableTrySet | include/managed_object_obj_metadata.h:616-633 | computes the attempt for any table with exact counters, including one with no unused bucket |
| HashTableObject.HashTable.FillBucket | include/managed_object_obj_metadata.h:622-631 | stores the value in the bucket whatever was there, and the key and the counter that an unused, a deleted or a live bucket calls for, its assertion holding |
| HashTableObject.HashTable.TableFull | include/managed_object_obj_metadata.h:635-639 | answers whether at least half the buckets are used, or the length is one |
| HashTableObject.HashTable.TableSet | include/managed_object_obj_metadata.h:641-650 | computes the set; from then on equal keys answer the value and all others what they did |
| HashTableObject.HashTable.SetIfRoom | include/managed_object_obj_metadata.h:644 | the test for a full table and the first attempt, which keep the table in order whether or not they set the key |
| HashTableObject.HashTable.GrowAndSet | include/managed_object_obj_metadata.h:644-648 | the rehash makes room: the assertion after it holds |
| HashTableObject.HashTable.TableDelete | include/managed_object_obj_metadata.h:652-665 | computes the deletion; from then on equal keys answer NULL and all others what they did |
| HashTableObject.HashTable.MarkBucket | include/managed_object_obj_metadata.h:660-663 | turns a bucket and its partner into a tombstone, and counts it |
| HashTableObject.HashTable.InternString | include/managed_object_obj_metadata.h:667-677 | answers the value stored under the name, or stores the name as its own value, on any table |
| HashTableObject.HashTable.Relocate | include/managed_object_obj_metadata.h:585-589 | moving any objects between two operations keeps the table in order and its contents |
| HashTableObject.HashTable.ScanBuckets | include/managed_object_obj_metadata.h:211-236 | the scanner's loop on either bucket object of a table computes the scan of keys or of values |
| StringHash.Hash | include/managed_object_obj_metadata.h:444-461 | the unrolled loop, entered in its middle, reads every character once and in order |
| StringHash.OneCharacterTells | include/managed_object_obj_metadata.h:444-461 | strings of equal length that differ in exactly one character hash apart |
| StringHash.HelloHash | include/managed_object_obj_metadata.h:444-461 | the hash of "hello", statement by statement |
| StringHash.ByeHash | include/managed_object_obj_metadata.h:444-461 | the hashes of "bye" and of one negative character |
| StringHash.EqualMeansSameContentsIff | include/managed_object_obj_metadata.h:491-498 | comparing equal means equal contents for every partner if and only if no NUL stands before the last character |
| StringHash.EqualHashesIff | include/managed_object_obj_metadata.h:444-498 | a string hashes like every string that compares equal to it if and only if no NUL stands before its last character |
| StringHash.EqualStringsMayHashApart | include/managed_object_obj_metadata.h:481-498 | two strings with an embedded NUL that compare equal and hash differently |
| StringHash.StringPolicyIsGood | include/managed_object_obj_metadata.h:481-498 | for strings without embedded NULs comparison is an equivalence that the hash respects |
| StringHash.AddressPolicyIsGood | include/managed_object_obj_metadata.h:468-479 | identity comparison and the hash of the address bytes suit each other |
| StringHash.AddressBytesTell | include/managed_object_obj_metadata.h:468-474 | the eight bytes hashed determine the address |
| Interning.InternAgrees | include/managed_object_obj_metadata.h:667-677 | interning answers the value stored under the name and otherwise adds the name, whatever else the table holds |
| Interning.EventsKeep | include/managed_object_obj_metadata.h:667-682 | over every run of interning, moves and scans under any filter the table agrees with a map in which interning adds a name only if it had no value |
| Interning.EqualStringsShareSymbol | include/managed_object_obj_metadata.h:667-682 | equal strings intern to the same symbol whatever is interned, moved or splatted in between, while that symbol and its key live; on every table, under every filter |
| Interning.FreshTableSharesSymbols | include/managed_object_obj_metadata.h:667-682 | on a table used for interning alone the symbol is moreover a stored string equal to the name |
| Interning.InterningCountsRight | include/managed_object_obj_metadata.h:526-534 | on a table used for interning alone `table_size` is right after every run, under every filter |
| Sizing.CalcBounds | src/managed_object_hashmap.c:38-54 | the result is the least power of two with room for the load and not below the initial size; it always exceeds the size |
| Sizing.ShiftIsDefinedIff | src/managed_object_hashmap.c:50 | the sizes in range are exactly those for which the `int` shift is not reached or is defined |
| Sizing.CalcUnderInit | src/managed_object_hashmap.c:304-311 | another initial size asks for no larger a table than before, or than itself |
| Sizing.ReserveSuffices | src/managed_object_hashmap.c:304-306 | the initial size computed for a capacity is the size wanted for every smaller one |
| LinearProbing.FindDecides | src/managed_object_hashmap.c:94-118 | the search decides membership in both directions and fails only in a completely full table |
| LinearProbing.InsertKeeps | src/managed_object_hashmap.c:338-368 | storing in the slot found adds exactly that pair and leaves a good table with that slot as anchor |
| LinearProbing.RemoveKeeps | src/managed_object_hashmap.c:125-159 | removal takes exactly one key out, keeps every other reachable, and brings nothing from behind the slot to before it; wrapped chains and full tables included |
| LinearProbing.ShiftRepairs | src/managed_object_hashmap.c:139-158 | the shifting loop repairs every chain within as many turns as there are other entries |
| LinearProbing.ChainsAloneAreNotEnough | src/managed_object_hashmap.c:125-159 | in a full table without an anchor, removal can lose a key although all chains are whole |
| LinearProbing.SizeIsCardinality | src/managed_object_hashmap.c:137 | the number of occupied slots is the size of the map |
| HashMap.HashMap.constructor | src/managed_object_hashmap.c:243-254 | the map starts empty, without a table, at the default initial size |
| HashMap.HashMap.EntryFind | src/managed_object_hashmap.c:94-118 | the probing loop computes the search |
| HashMap.HashMap.EntryRemove | src/managed_object_hashmap.c:125-159 | one key leaves the map, and no entry moves from behind the slot to before it |
| HashMap.HashMap.RepairLoop | src/managed_object_hashmap.c:137-158 | the loop with its masked indices computes the removal |
| HashMap.HashMap.Rehash | src/managed_object_hashmap.c:168-216 | any power of two at least the size keeps every pair, every entry finding a slot; a failed allocation changes nothing |
| HashMap.HashMap.ReinsertAll | src/managed_object_hashmap.c:198-209 | the reinsertion loop copies exactly the old contents, its assertion never firing |
| HashMap.HashMap.Reserve | src/managed_object_hashmap.c:296-315 | on success sizes up to the capacity need no rehash from then on, and what earlier reservations made room for still has it, whether this one succeeds, fails or is smaller; on failure nothing changes |
| HashMap.HashMap.Put | src/managed_object_hashmap.c:322-369 | EINVAL for a NULL key or NULL data, EEXIST for a key that is present, and the exact status, table size and contents in every other case, allocation failures included; sizes with room never rehash, and the load bound is kept while allocations succeed |
| HashMap.HashMap.GrowForPut | src/managed_object_hashmap.c:332-336 | growing keeps the contents, and leaves a free slot unless an allocation failed |
| HashMap.HashMap.Get | src/managed_object_hashmap.c:374-387 | answers the data of the equal key, NULL exactly when there is none |
| HashMap.HashMap.Remove | src/managed_object_hashmap.c:393-410 | removes exactly the equal key and answers its data |
| HashMap.HashMap.Clear | src/managed_object_hashmap.c:415-420 | empties the map |
| HashMap.HashMap.Reset | src/managed_object_hashmap.c:425-448 | on success empties the map at its initial size, keeping reserved sizes covered; when the allocation fails the size is zero over the old slots, and the map is in order if and only if it was empty |
| HashMap.HashMap.EntryGetPopulated | src/managed_object_hashmap.c:77-88 | answers the next occupied slot |
| HashMap.HashMap.IterNext | src/managed_object_hashmap.c:477-483 | steps to the next occupied slot |
| HashMap.HashMap.VisitAll | include/managed_object_hashmap.h:32-36 | a plain walk with `iter` and `iter_next` shows every entry of the map exactly once |
| HashMap.HashMap.IterRemove | src/managed_object_hashmap.c:490-500 | removes the current entry and looks again in place |
| HashMap.HashMap.RetainByIterator | src/managed_object_hashmap.c:477-500 | filtering with `iter_remove` and `iter_next` ends and leaves exactly the entries that satisfy the predicate |
| HashMap.HashMap.StepSafely | include/managed_object_hashmap.h:41-42 | steps on when the remembered key is still there, and looks again in place otherwise |
| HashMap.HashMap.RetainByForeachSafe | include/managed_object_hashmap.h:37-42 | a safe loop that removes failing keys by name ends and leaves exactly the entries that satisfy the predicate |
| HashMap.HashMap.Collisions | src/managed_object_hashmap.c:556-582 | for a present key the distance from its home to its slot; for an absent one the table size if every slot is occupied and zero otherwise |
| ObjectFormat.AlignBounds | include/managed_object_obj.h:263-269 | alignment rounds up to the least multiple, and an object always has room for a forwarding record |
| ObjectFormat.AlignMask | include/managed_object_obj.h:264 | masking with the complement of `A - 1` is the arithmetic rounding, for sizes whose sum does not wrap |
| ObjectFormat.ImageIsObject | include/managed_object_obj_metadata.h:376-403 | what each `make_*` writes fits in what it reserves and reads back as one object of that size |
| ObjectLaws.ReservedExactly | include/managed_object_obj.h:263-269 | the number of words that each kind of object takes |
| ObjectLaws.MadeAsAsked | include/managed_object_obj_metadata.h:350-436 | every made object is unpinned and holds its type and fields where the structs have them; fresh buckets have no dependent, counters at zero and every bucket unused |
| ObjectFormat.AllocatedIsForwardable | include/managed_object_obj.h:266-269 | every allocated object is large enough for a forwarding record that stores its size |
| ObjectFormat.ForwardKeeps | src/managed_object_obj.c:185-200 | forwarding keeps the extent and the pinned flag, records the new address, and stays inside the object |
| ObjectLaws.MadeIsNotForwarded | src/managed_object_obj.c:150-160 | `isfwd` answers NULL for everything a program makes |
| ObjectLaws.ScanRangeKeepsForwarded | src/managed_object_obj.c:66-160 | a scan of any range leaves the answer of `isfwd` as it was for every object |
| ObjectLaws.ForwardedExactly | src/managed_object_obj.c:150-223 | after any run `isfwd` answers an address exactly for the objects that were forwarded and not padded over since, and then the latest one |
| ObjectFormat.PadIsObject | src/managed_object_obj.c:212-223 | a padded area is skipped as one object of exactly its size |
| ObjectFormat.PadKeeps | src/managed_object_obj.c:212-223 | padding over a run of objects keeps the region walkable |
| ObjectFormat.WalkLands | src/managed_object_obj.c:113-140 | skipping from the base lands on every boundary and exactly on the limit |
| ObjectFormat.WalkBetween | src/managed_object_obj.c:113-140 | skipping from one boundary to another lands on every boundary in between and exactly on the limit |
| ObjectFormat.LayoutIsUnique | src/managed_object_obj.c:104-112 | a region can be read as a row of objects in at most one way |
| ObjectFormat.ScanObjectKeeps | include/managed_object_obj_metadata.h:210-246 | scanning an object writes only its own dependent or bucket references and counters and slots of buckets, the dependent's among them, and leaves every object's extent and every other object's dependent alone |
| ScanEffects.BucketsScanned | include/managed_object_obj_metadata.h:211-236 | after a scan of buckets each slot holds the old reference if it does not pass, the deleted key if it came back NULL, and the fixed reference otherwise; the slots of its dependent are deleted exactly where its own were splatted, both counters grow by their number, and nothing else changes but the fixed dependent |
| ScanEffects.SelfScanned | include/managed_object_obj_metadata.h:211-236 | for buckets that are their own dependent the slots end up the same, and the counter grows by two for each splatted |
| ScanEffects.OthersScanned | include/managed_object_obj_metadata.h:241-249 | a scan fixes both bucket references of a table object and nothing else of it, and does not change objects of other kinds |
| ScanEffects.GroupScanned | src/managed_object_obj.c:66-101 | scanning a range does to a group of objects that depend only on one another what scanning its members in turn does |
| ScanEffects.LonerScanned | src/managed_object_obj.c:66-101 | scanning a range does to an object that no other depends on, and that depends on no other, what scanning it alone does |
| ScanEffects.PairScanned | src/managed_object_obj.c:66-101 | scanning a range does to two buckets that are each other's dependents what scanning the first and then the second does |
| ObjectFormat.StrayDependentSpoils | include/managed_object_obj_metadata.h:213-231 | with a dependent that is no buckets object of the same length, splatting a slot can leave a region that is no row of objects |
| ObjectFormat.ScanWalksLikeSkip | src/managed_object_obj.c:66-101 | where the scanner's assertion about dependents holds, scanning any range of objects takes the same steps as skipping through it and leaves the whole region laid out the same way |
| ObjectFormat.AlwaysWalkable | src/managed_object_obj.c:66-223 | after any run of allocations, linkings, forwardings, paddings and scans of ranges from the empty region it is walkable by skip, and any range of it by scan |
| Dependents.LinkedMeetsAssertion | include/managed_object_obj_metadata.h:213-216 | buckets linked with equal length meet the scanner's assertion under a scan of any range that leaves their dependents where they are |
| Dependents.AssertionNeverFails | include/managed_object_obj_metadata.h:213-231 | linking only buckets of equal length, or buckets elsewhere, and reclaiming none that others depend on, every run of scans of any ranges goes through without the scanner's assertion failing |
| ObjectFormat.Heap.SkipObject | src/managed_object_obj.c:113-140 | computes where the next object starts, type by type |
| ObjectFormat.Heap.Allocate | src/managed_object_obj.c:627-670 | appends one object and keeps the region laid out |
| ObjectFormat.Heap.ForwardObject | src/managed_object_obj.c:185-200 | overwrites the header in place, its size assertion holding; skip is unchanged and isfwd answers the new address |
| ObjectFormat.Heap.PadArea | src/managed_object_obj.c:212-223 | pads over whole objects in place |
| ObjectFormat.Heap.SetDependent | include/managed_object_obj_metadata.h:424-425 | names the dependent of a buckets object in place and keeps the layout |
| ObjectFormat.Heap.ScanRegion | src/managed_object_obj.c:70-98 | the loop over any range of objects visits exactly their boundaries |
| ObjectFormat.Heap.ScanOne | include/managed_object_obj_metadata.h:211-245 | fixes the references of one object, its assertion about the dependent's length holding |
| ObjectFormat.Heap.ScanBucketSlot | include/managed_object_obj_metadata.h:218-235 | one turn of the bucket loop: the slot keeps its reference, becomes deleted, or holds the fixed reference |
| ObjectFormat.Heap.Splat | include/managed_object_obj_metadata.h:222-234 | the writes for a splatted slot, with those to the dependent |
| Mark.Holder.GetMemory | src/managed_object_heap.cpp:76-91 | creates a gray, empty memory on first use and answers the same one ever after |
| Mark.Holder.Push | src/managed_object_heap.cpp:586-594 | appends a reference and answers its index |
| Mark.Paint | src/managed_object_heap.cpp:289-297 | the statements before the loop, on any sharing of memories: a gray memory becomes White if the holder is deallocated and Black otherwise |
| Mark.MarkFrom | src/managed_object_heap.cpp:289-308 | each call ends, keeps the walk's invariant, visits its holder, undoes no visit, and makes the further calls in depth-first order |
| Mark.MarkSlots | src/managed_object_heap.cpp:298-307 | the loop leaves every reference of the memory visited |
| Mark.MarkingIsExact | src/managed_object_heap.cpp:289-308 | the invariant at the end of a walk determines exactly what was marked |
| Mark.ColorsMean | src/managed_object_heap.cpp:289-297 | a gray memory that ends Black is held by a reached holder that is not deallocated, one that ends White by a reached one that is, one that stays Gray by none; a shared memory gets the colour its first holder calls for |
| Mark.RootDecides | src/managed_object_heap.cpp:289-297 | the root's own gray memory ends White if the root is deallocated and Black if it is not |
| Mark.FirstReferenceFirst | src/managed_object_heap.cpp:298-307 | after the root the walk calls the root's first reference |
| Mark.SlotsInOrder | src/managed_object_heap.cpp:298-307 | all that one reference leads to comes before the references after it |
| Mark.MarkRoot | src/managed_object_heap.cpp:198 | exactly the gray memories of holders reachable through gray memories are coloured, White or Black as the first of its holders in depth-first order is deallocated or not; nothing else changes colour |
| Mark.OrderIsReached | src/managed_object_heap.cpp:289-308 | the holders called in depth-first order are exactly those reachable through gray memories |

## Left out

- MPS itself (arenas, pools, allocation points, roots, threads, messages): only the assumptions above are kept.
- Collections inside a table operation: each operation is atomic with respect to the collector.
- `do_sweep`, `sweep_`, `collect`, `dealloc`: they erase from vectors under live reverse iterators and index by stored index rather than position, so no clean claim is decided by that code.
- "Unreachable means WHITE" and "a live alias means BLACK": not what `mark` computes, since the colour is that of the first holder in depth-first order.
- `values.used` and `values.deleted` as meaningful counts: the program maintains only the counters of the keys.
- Sets with NULL or one of the two identity keys as key: keys are objects.
- `key_free` and `on_realloc`, which call back into the program; `cleanup`, which frees the table; `iter_valid`, which tests whether a position holds a key; `iter_set_data`, which overwrites the data of one entry.
- The mixing inside the Jenkins hashes: `LinearProbing.Policy.hash` stands for the user's hash followed by the secondary one.
- Load factor, mean and variance: floating-point statistics.
- `managed_object_pagelist.h`, the `ManagedObject` wrapper templates, printing, statistics and time conversion.
- The scanner callbacks of scanned pointers: they fix references in the program's own memory.
- ObjectFormat.ImageIsObject: string contents are given as words, because only their number matters to the extent.
- HashMap.HashMap.Put: sizes whose table would need a shift beyond `1 << 30` are excluded by its precondition, because the `int` shift of `calc_table_size` is undefined there (`Sizing.ShiftIsDefinedIff`).
- HashMap.HashMap.GrowForPut: the same sizes are excluded, for the same reason.
- HashMap.HashMap.Reserve: capacities whose table would need such a shift are excluded, for the same reason.
