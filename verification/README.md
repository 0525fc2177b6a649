# ws-benchmark verification

A Dafny model of three parts of the WebSocket benchmark, with proofs of what they promise.

* **The open-addressing hash table** of `src/usockets-tcp/flat_hash_map.h`: Robin Hood insertion with a bounded
  probe length, growth, rehash, both erases, iteration and the map on top of it, over one entries buffer changed
  in place.
* **The echo server's socket buffer** of `src/usockets-tcp/echo_server.cpp`: callbacks over arbitrary chunks and
  short writes.
* **The benchmark client's accounting** of `src/flashws/echo_client.cpp`: connections that die, are reborn and
  share counters, and the payload hash.

## How it is built

`Slots` sees the buffer as a sequence: its in-order items, the collection they form, the map they denote. An empty
slot holds no value at all, so every read of a value carries a proof that it was constructed. `RobinHood` states the
invariant and proves what each slot update does to it. `Crowding` says when the probe bound cannot be met: a set of
keys is `Overcrowded` at a size if some stretch of home slots has more keys than slots within reach. That depends on
the keys and the policy alone, not on the layout or the order of insertion, and it is what the contracts name as the
one reason besides the load to replace the buffer. The sizes that rehash, reserve, shrink_to_fit, the copy and a grow
end on are stated through `LeastBuckets`, the least count that meets a request and the load, not through the rounding
that computes them. `FlatHashTable` is the table as a class; every method is
proved against those functions. Two levels of validity matter: `Valid` (everything in order) and `Loose`
(right values and count, displacements possibly wrong), which is all that holds between a rollback and the grow
after it, and all that rehash relies on.

Sizes are unbounded naturals, the load factor a positive real, and the hash policy a lawful pair of functions; the
home slot is below the bucket count only once a size has been committed, while a reset policy only has to stay in
the three empty slots of the default table. `emplace`, `emplace_new_key`, `grow` and `rehash` are mutually
recursive methods with a termination proof: each grow brings the bucket count nearer to `EnoughBuckets`, which
depends on the elements stored and pending only. The default entries are one array that any number of tables point
at, and no method's frame contains it.

`Bits`, `BitTricks` and `Policies` prove the 64-bit arithmetic on words and connect it with the table: each of the
three policies, over any hash function, is lawful. A word's number is read bit by bit (`Val`). For requests above
2^63 (or above the last listed size), where the code returns a size that is too small, the policy records complete
the function lawfully; `NextPowerOfTwoWraps`, `FibonacciContract`, `PowerOfTwoContract` and `PrimeContract` say
exactly where the code stops covering its request.

`Runs` states the whole-run theorems: any sequence of operations behaves as on a plain map, and tables sharing the
default entries do not affect each other. `EchoServer` and `EchoClient` are step functions with run lemmas, and
classes whose in-place callbacks are proved equal to the steps. The environment appears as parameters: how many
bytes a socket takes, which chunk arrives, which callback comes next, how many sockets the loop still holds.

## Findings

* A writable event that finds a partial message and sends some of it leaves `start_pos` advanced, and the next
  chunk is then copied to `data + size` instead of `data + start_pos + size`. `EarlyWritableCorrupts` is such a
  run, `EarlyPartCorrupts` gives the exact bytes that survive it. If it sends everything buffered, a message is
  counted too early and its rest never goes out (`EarlyFlushMiscounts`, `EarlyFlushStalls`); with no bytes buffered
  it counts a message that was never sent (`EmptyWritableMiscounts`). `WritableHarmless` says exactly which writable
  events leave bytes, bounds and count right.
* The payload hash sees every change of one byte, but two changed bytes can cancel: exactly when the first
  difference, rotated right by 5 for each position between, is the second (`TwoBytesCancelExactly`). For the payload
  digits "00" the bytes 0x10 0x31 are such a change (`TwoBytesMayCancel`). In general a wrong echo of the right
  length passes the check exactly when its difference from the payload hashes to 0 (`CollideExactly`,
  `WrongBytesPassExactly`).
* With the power-of-two policy, and only there, a rehash to one bucket allocates a single bucket
  (`SingleBucket`), and the first insertion into it always grows; a rehash to one bucket stays there exactly when
  nothing is stored (`Rehash`).

## Model

| member | source | states |
|---|---|---|
| RobinHood.ChainIsAdjacent | src/usockets-tcp/flat_hash_map.h:842-866 | the chain condition `d[j] <= d[i] + (j - i)` for all `i <= j` is exactly the neighbour condition `d[i+1] <= d[i] + 1` over the whole buffer, end marker included |
| RobinHood.StopProvesAbsence | src/usockets-tcp/flat_hash_map.h:539-549 | in an ordered buffer, a search from the home slot that stops where the displacement is below the distance proves the key is in no slot |
| RobinHood.RunOccupied | src/usockets-tcp/flat_hash_map.h:856-859 | an element displaced by m implies more than m stored elements: the m slots before it are occupied |
| RobinHood.PutKeepsOrder | src/usockets-tcp/flat_hash_map.h:832-858 | placing or swapping in an entry that is farther from home than the slot's, next to a left neighbour it passed or displaced, keeps the whole invariant |
| RobinHood.CompactingStart | src/usockets-tcp/flat_hash_map.h:687-698 | emptying a range leaves a state from which shifting by min(displacement at the end, length of the range) is right |
| RobinHood.CompactingStep | src/usockets-tcp/flat_hash_map.h:699-706 | one backward move lands on a vacant slot, keeps the items and their order, and leaves the same kind of state with the lesser shift for the next slot |
| RobinHood.CompactingDone | src/usockets-tcp/flat_hash_map.h:699-707 | when the next slot is at its home, vacant or the end marker, the full invariant holds again |
| RobinHood.EmptyOrdered | src/usockets-tcp/flat_hash_map.h:636-640 | vacant slots closed by the end marker are in order, for any policy and size |
| RobinHood.SameKeyKeepsOrder | src/usockets-tcp/flat_hash_map.h:1360-1367 | assigning through the iterator, key unchanged, keeps the invariant |
| Crowding.OrderedHasRoom | src/usockets-tcp/flat_hash_map.h:842-866 | keys stored in order are never overcrowded: no stretch of homes has more keys than it has slots within max_lookups |
| Crowding.FullSlotCrowds | src/usockets-tcp/flat_hash_map.h:856-859 | when the displacement reaches max_lookups, the run up to that slot and the carried element overcrowd their homes: no arrangement could hold these keys at this size |
| Crowding.CrowdingGrows | src/usockets-tcp/flat_hash_map.h:842-866 | adding keys never makes room |
| Sizing.BucketsForExact | src/usockets-tcp/flat_hash_map.h:624-627 | the ceiling that rehash takes is the least bucket count whose load limit admits n elements, both directions |
| Sizing.LeastIs | src/usockets-tcp/flat_hash_map.h:624-627 | the count a rehash rounds its request up to is the least one from the request on that holds the elements within the load factor |
| Sizing.ReserveFits | src/usockets-tcp/flat_hash_map.h:803-806 | what reserve asks for n elements admits n under the load factor and is never a single bucket |
| Sizing.ReserveExact | src/usockets-tcp/flat_hash_map.h:803-806 | what reserve asks for n elements is at most b exactly when b buckets hold n within the load factor and 2n <= b |
| Sizing.ReserveRequest | src/usockets-tcp/flat_hash_map.h:659-664 | reserve(n) with k elements asks for the least count of at least 2n that holds both n and k |
| Sizing.ShrinkRequest | src/usockets-tcp/flat_hash_map.h:732-735 | shrink_to_fit asks for the least count of at least min(2n, present buckets) that holds the n elements |
| Sizing.EnoughNeverGrows | src/usockets-tcp/flat_hash_map.h:797-827 | from an explicit bucket count on, none of the three reasons to grow can apply while at most `total` elements exist; this is the bound the recursion approaches |
| FlatHashTable.Table.constructor | src/usockets-tcp/flat_hash_map.h:300-302 | a new table points at the shared default entries, is valid and empty |
| FlatHashTable.Table.Probe | src/usockets-tcp/flat_hash_map.h:539-549 | the search loop stays in bounds, compares at most max_lookups keys, and either hits the key's slot or proves absence and stops where emplace may go on |
| FlatHashTable.Table.EmplaceWithin | src/usockets-tcp/flat_hash_map.h:575-587 | a present key changes nothing; an absent one adds exactly its pair, keeps the load limit, returns its slot; the buffer is replaced exactly for a new key when there is no bucket or no load left, or when the stored keys and this one are overcrowded at the present size, and then at least doubles; total correctness of the nested recursion for every hash |
| FlatHashTable.Table.EmplaceNewKey | src/usockets-tcp/flat_hash_map.h:823-867 | the same from the slot where the search stopped: grow and retry, plain placement, displacement chain, or rollback then grow and retry, and which of them replace the buffer, both directions |
| FlatHashTable.Table.GrowAndEmplace | src/usockets-tcp/flat_hash_map.h:827-831 | growing and emplacing again adds the pair from the loose state that a rollback leaves, in a new buffer; the retry ends on the size the grow asked for exactly when that size has room for the keys with the new one and the load admits them, else on a larger one |
| FlatHashTable.Table.Place | src/usockets-tcp/flat_hash_map.h:832-837 | constructing in an empty slot below the end marker keeps the invariant and adds one element |
| FlatHashTable.Table.Exchange | src/usockets-tcp/flat_hash_map.h:838-841 | swapping value and displacement with a richer slot keeps the invariant and exchanges exactly those two values |
| FlatHashTable.Table.Displace | src/usockets-tcp/flat_hash_map.h:838-866 | the chain places everything exactly when the stored keys and the new one are not overcrowded, invariant intact and the new key still in the starting slot; else it rolls back with the original collection and the new key in hand; it never touches the end marker |
| FlatHashTable.Table.GiveUp | src/usockets-tcp/flat_hash_map.h:856-864 | reaching the probe bound proves that the keys had no room, and the rollback restores exactly the collection before the insertion |
| FlatHashTable.Table.Rollback | src/usockets-tcp/flat_hash_map.h:859-863 | the swap into the new key's slot restores the collection while that slot's displacement may be wrong (only the loose state holds) |
| FlatHashTable.Table.Grow | src/usockets-tcp/flat_hash_map.h:869-872 | works from the loose state, keeps the collection, restores the invariant; ends on the size asked for, at least twice the buckets and four, exactly when the stored keys have room there, else on a larger one |
| FlatHashTable.Table.RehashWithin | src/usockets-tcp/flat_hash_map.h:624-657 | for any request and from the loose state, the collection and the count are kept and the invariant restored, whatever rehashes are nested in the drain; the size is RehashTarget's exactly when the keys have room there; size 0 means the default table; equal size means no change |
| FlatHashTable.Table.RehashTargetExact | src/usockets-tcp/flat_hash_map.h:624-628 | the size a rehash aims at is the policy's for the least bucket count from the request on that holds the stored elements, or the default table when that count is 0 |
| FlatHashTable.Table.GrownSizeExact | src/usockets-tcp/flat_hash_map.h:869-872 | a grow asks for twice the buckets, and for four at least |
| FlatHashTable.Table.Install | src/usockets-tcp/flat_hash_map.h:635-647 | the fresh buffer is a valid empty table of the new size |
| FlatHashTable.Table.AllocateEmpty | src/usockets-tcp/flat_hash_map.h:636-640 | every slot vacant, the last one the end marker |
| FlatHashTable.Table.Drain | src/usockets-tcp/flat_hash_map.h:648-655 | moving every value while nested rehashes may replace the current buffer ends with exactly the old collection and count; the size is the requested one exactly when all the keys have room there (one bucket takes none), so the load factor never forces a larger one; the shared entries are not written |
| FlatHashTable.Table.ResetToEmptyState | src/usockets-tcp/flat_hash_map.h:882-889 | back to the shared default entries, reached only with nothing stored |
| FlatHashTable.Table.FullRun | src/usockets-tcp/flat_hash_map.h:856-859 | a displacement of max_lookups - 1 takes max_lookups stored elements |
| FlatHashTable.Table.MayGrowBelowEnough | src/usockets-tcp/flat_hash_map.h:827-831 | whenever a grow is triggered the table is below the bound, so growth terminates |
| FlatHashTable.Table.Find | src/usockets-tcp/flat_hash_map.h:539-549 | returns the slot holding the key with its mapped value exactly when the map has it, else end(), after at most max_lookups comparisons |
| FlatHashTable.Table.Emplace | src/usockets-tcp/flat_hash_map.h:575-587 | insertion on the abstract map and the iterator; the buffer is replaced exactly for a new key when there is no bucket or no load left or the keys with the new one are overcrowded; with m the least count from max(4, twice the buckets) on that holds the old elements, the new size is the policy's for m exactly when the keys with the new one have room there and the load admits them, else larger; the load limit is kept |
| FlatHashTable.Table.Rehash | src/usockets-tcp/flat_hash_map.h:624-657 | keeps the map and meets the load limit; with m the least count from the request on that holds the elements, it ends on the default table if m is 0, else on the policy's size for m exactly when the keys have room there and on a larger one otherwise; it leaves the buffer alone exactly when it has that size already and more than one bucket; at size one it stays there exactly when nothing is stored |
| FlatHashTable.Table.Reserve | src/usockets-tcp/flat_hash_map.h:659-664 | keeps the map; it leaves the table alone exactly when n elements fit the load factor and fill at most half of it; else, with m the least count of at least 2n that holds n and the stored elements, it ends on the policy's size for m exactly when the keys have room there; afterwards n elements fit the load factor |
| FlatHashTable.Table.ReservedNeverMustGrow | src/usockets-tcp/flat_hash_map.h:659-664 | after reserve(n), below n elements, neither the load nor the lack of buckets makes an insertion grow; by Emplace, only overcrowded keys can |
| FlatHashTable.Table.RehashForOtherContainer | src/usockets-tcp/flat_hash_map.h:807-810 | keeps the map; with r the least count of at least twice the other's elements that holds them, it rehashes to min(r, the other's buckets), ending on the policy's size for that exactly when the keys have room there |
| FlatHashTable.Table.ShrinkToFit | src/usockets-tcp/flat_hash_map.h:732-735 | keeps the map, meets the load limit; with m the least count of at least min(2 size(), present buckets) that holds the elements, it ends on the policy's size for m exactly when the keys have room there, and leaves the buffer alone exactly when it has that size already; on the default table when empty |
| FlatHashTable.Table.Clear | src/usockets-tcp/flat_hash_map.h:722-730 | empties the map, keeps the buckets, writes nothing in the default table |
| FlatHashTable.Table.SizeIsKeyCount | src/usockets-tcp/flat_hash_map.h:747-750 | num_elements is the number of keys of the map |
| FlatHashTable.Table.AllItems | src/usockets-tcp/flat_hash_map.h:506-537 | the items before end() are all items, as many as size(), and exactly the bindings of the map |
| FlatHashTable.Table.Begin | src/usockets-tcp/flat_hash_map.h:506-513 | the first occupied slot, or end(), with nothing before it; stops on the default table too |
| FlatHashTable.Table.Next | src/usockets-tcp/flat_hash_map.h:473-481 | the next occupied slot or end(), skipping nothing |
| FlatHashTable.Table.ToIterator | src/usockets-tcp/flat_hash_map.h:907-925 | a position is turned into itself or the next value, skipping nothing |
| FlatHashTable.Table.Split | src/usockets-tcp/flat_hash_map.h:473-481 | an iterator splits the in-order items into those before it and those to come, none at end() |
| FlatHashTable.Table.SplitStep | src/usockets-tcp/flat_hash_map.h:473-481 | ++ takes exactly one item from those to come |
| FlatHashTable.Table.PrefixStep | src/usockets-tcp/flat_hash_map.h:473-481 | ++ adds exactly the passed binding, with a key not met before |
| FlatHashTable.Table.Erase | src/usockets-tcp/flat_hash_map.h:670-681 | removes exactly that element from the in-order items and from the map, leaves the slots before it alone, restores the invariant |
| FlatHashTable.Table.DestroyRange | src/usockets-tcp/flat_hash_map.h:687-694 | empties exactly the slots of the range and counts exactly the values that were there |
| FlatHashTable.Table.ShiftBack | src/usockets-tcp/flat_hash_map.h:697-707 | the shrinking num_to_move restores the invariant, keeps items and order, writes only vacant targets, and leaves the element at e where the returned iterator points |
| FlatHashTable.Table.EraseRange | src/usockets-tcp/flat_hash_map.h:683-708 | removes precisely the elements between the iterators, keeps the order of the rest, restores the invariant, returns the position of the element that was at e or end() |
| FlatHashTable.Table.EraseAt | src/usockets-tcp/flat_hash_map.h:670-681 | erase followed by the conversion yields the successor, with everything before it as before |
| FlatHashTable.Table.EraseKey | src/usockets-tcp/flat_hash_map.h:710-720 | removes the key from the map and answers 1 exactly when it was there |
| FlatHashTable.Table.SetValue | src/usockets-tcp/flat_hash_map.h:1360-1367 | assigning through the iterator rebinds that key only |
| FlatHashTable.Table.SetMaxLoadFactor | src/usockets-tcp/flat_hash_map.h:775-778 | changing the load factor changes nothing stored |
| FlatHashTable.Table.Insert | src/usockets-tcp/flat_hash_map.h:588-595 | emplace, together with the account of why the buffer was replaced: since any earlier state, exactly if something was added and what is stored has outgrown that state's buckets |
| FlatHashTable.Table.InsertFrom | src/usockets-tcp/flat_hash_map.h:611-618 | inserting another table's range is map union in which present keys keep their values; the other table may share the default entries; the buffer is replaced exactly when something was added and the result has outgrown it, by load or by overcrowded keys |
| FlatHashMap.At | src/usockets-tcp/flat_hash_map.h:1340-1346 | the mapped value, or the out_of_range case, as the map says |
| FlatHashMap.Index | src/usockets-tcp/flat_hash_map.h:1332-1335 | operator[] binds an absent key to the default value, leaves a present one, and points at the key's slot |
| FlatHashMap.InsertOrAssign | src/usockets-tcp/flat_hash_map.h:1360-1367 | binds the key to the value in any case and says whether it was new |
| FlatHashMap.InsertAll | src/usockets-tcp/flat_hash_map.h:611-622 | inserting a range is one-by-one insertion; the buffer is replaced exactly when something was added and the result has outgrown it; with room reserved for all of it, exactly when the resulting keys are overcrowded at the present size, whatever the order and the layout |
| FlatHashMap.WithAllAt | src/usockets-tcp/flat_hash_map.h:611-618 | a range insertion binds every key of the map and of the range, to the map's value or else to its first in the range |
| FlatHashMap.CopyOf | src/usockets-tcp/flat_hash_map.h:355-361 | the copy denotes the same map with its own buffer, or the default one if empty; its buckets are the policy's for min(the least count of at least twice the elements that holds them, the other's buckets) exactly when the elements do not outgrow them there, else more |
| FlatHashMap.Equals | src/usockets-tcp/flat_hash_map.h:1387-1400 | operator== is true exactly when the two maps are equal, whatever sizes, layouts, policies and histories |
| FlatHashMap.SubmapOfSameSize | src/usockets-tcp/flat_hash_map.h:1387-1400 | one-sided inclusion and equal size make two maps equal |
| FlatHashMap.Visit | src/usockets-tcp/flat_hash_map.h:473-537 | begin/++/end visits each stored pair once, in slot order, in size() steps |
| FlatHashMap.EraseIf | src/usockets-tcp/flat_hash_map.h:670-681 | the loop `it = erase(it)` or `++it` looks at every element once, in order, and leaves exactly those not selected, in order, both directions |
| Runs.Execute | src/usockets-tcp/flat_hash_map.h:539-735 | each operation changes the abstract map and answers as on a plain map |
| Runs.Run | src/usockets-tcp/flat_hash_map.h:539-735 | any sequence of operations answers and ends as on a plain map; with the load factor left alone the load limit holds throughout |
| Runs.RunFromEmpty | src/usockets-tcp/flat_hash_map.h:300-302 | the same from a new table, for every lawful policy and hash |
| Runs.RunDefaultMap | src/usockets-tcp/flat_hash_map.h:268-277 | the same for the default map: fibonacci hashing of any hash function, load factor one half; for requests above 2^63 with the completed policy |
| Runs.RunBeside | src/usockets-tcp/flat_hash_map.h:172-176 | no run on one table changes another one or the shared default entries, even when both start on them |
| Bits.SmearFills | src/usockets-tcp/flat_hash_map.h:221-226 | smearing the highest bit k sets exactly bits 0..k, for every word |
| BitTricks.TableEntry | src/usockets-tcp/flat_hash_map.h:210-227 | the multiplication of each single bit finds its position in the table |
| BitTricks.Log2Correct | src/usockets-tcp/flat_hash_map.h:208-228 | the trick is floor(log2 v) for every 64-bit v but 0 |
| BitTricks.NextPowerOfTwoCorrect | src/usockets-tcp/flat_hash_map.h:253-264 | for 1 <= i <= 2^63 the result is the least power of two that is at least i |
| BitTricks.NextPowerOfTwoWraps | src/usockets-tcp/flat_hash_map.h:253-264 | the result is 0 exactly for i = 0 and i > 2^63 |
| BitTricks.ShiftVal | src/usockets-tcp/flat_hash_map.h:1270-1273 | shifting a word right by s divides its number by 2^s, for every s up to 64 |
| Policies.LookupsFitInt8 | src/usockets-tcp/flat_hash_map.h:797-801 | compute_max_lookups of any 64-bit count is max(4, floor(log2)) and at most 63, so distances fit int8_t |
| Policies.PowerOfTwoContract | src/usockets-tcp/flat_hash_map.h:1244-1258 | up to 2^63 the size covers the request and every hash indexes below it; above, the size is too small |
| Policies.MaskVal | src/usockets-tcp/flat_hash_map.h:1246-1249 | masking with 2^k - 1 is reduction modulo 2^k |
| Policies.FibonacciContract | src/usockets-tcp/flat_hash_map.h:1268-1287 | the size covers the request exactly up to 2^63 and falls back to 2 above; below, it is the least power of two from 2 on that does, the shift is 64 - log2(size), and every hash indexes below the size by the top bits of its product, as a quotient by 2^shift |
| Bits.FibonacciPermutes | src/usockets-tcp/flat_hash_map.h:1270-1273 | multiplying by the constant has an inverse modulo 2^64, so it permutes the words |
| Policies.FibonacciTopBits | src/usockets-tcp/flat_hash_map.h:1270-1273 | the index is the number of 11400714819323198485 * hash divided by 2^shift, for every hash and shift |
| Policies.FibonacciSpreads | src/usockets-tcp/flat_hash_map.h:1270-1273 | every word x is the product of one hash, whose index is x divided by 2^shift |
| Policies.PrimeContract | src/usockets-tcp/flat_hash_map.h:1122-1221 | lower_bound picks the least listed size that covers the request, exactly for requests up to the last one, and the mod function of that same size |
| Policies.FibonacciLawful | src/usockets-tcp/flat_hash_map.h:1268-1295 | the fibonacci policy over any hash is lawful for the table: sizes cover requests, indices stay below the size, the reset index stays in the default table's empty slots; up to 2^63 it is the code's, above it a completion |
| Policies.PowerOfTwoLawful | src/usockets-tcp/flat_hash_map.h:1244-1266 | the same for the power-of-two policy |
| Policies.PrimeLawful | src/usockets-tcp/flat_hash_map.h:1222-1241 | the same for the prime policy over any increasing list, up to its last size |
| Policies.FibonacciSlotIsIndex | src/usockets-tcp/flat_hash_map.h:1268-1287 | up to 2^63 the index a table computes at the new size is the code's index with the very shift that next_size_over returned |
| Policies.FibonacciExact | src/usockets-tcp/flat_hash_map.h:1268-1295 | in numbers, up to 2^63: sizes are least powers of two from 2 on, the index is the product divided by 2^(64 - log2 size), and after a reset by 2^63 |
| Policies.PowerOfTwoExact | src/usockets-tcp/flat_hash_map.h:1244-1266 | in numbers, up to 2^63: sizes are least powers of two, the index is the hash modulo the size, and 0 after a reset |
| Policies.PrimeExact | src/usockets-tcp/flat_hash_map.h:1122-1241 | in numbers, up to the last listed size: sizes are the least listed ones, the index is the hash modulo the size, and 0 after a reset |
| Policies.SingleBucket | src/usockets-tcp/flat_hash_map.h:1254-1285 | the power-of-two policy gives one bucket exactly for the request 1; the fibonacci and prime policies never do |
| EchoServer.WholeKeepsFaith | src/usockets-tcp/echo_server.cpp:165-178 | a whole message in one chunk, with any short write, keeps received = sent + window |
| EchoServer.PartKeepsFaith | src/usockets-tcp/echo_server.cpp:179-194 | so does a part of a message, and the copy stays in bounds |
| EchoServer.FlushKeepsFaith | src/usockets-tcp/echo_server.cpp:107-119 | so does a writable event while draining |
| EchoServer.RunIsFaithful | src/usockets-tcp/echo_server.cpp:107-194 | over every lock-step run: all copies in bounds, sent is a prefix of received, and after each full echo they are equal with one sent-message event per message |
| EchoServer.ConnectionIsFaithful | src/usockets-tcp/echo_server.cpp:107-217 | so it is for every connection from its opening on, whatever the buffer held |
| EchoServer.DataStep | src/usockets-tcp/echo_server.cpp:157-194 | a chunk that ends a message sends as much of it as the socket takes and counts it when that is all; any other chunk sends and counts nothing |
| EchoServer.RunSends | src/usockets-tcp/echo_server.cpp:107-194 | after any lock-step run exactly so many bytes are out: every earlier message, and of the last one, once whole, min(64, the room given since its last chunk) |
| EchoServer.ConnectionSends | src/usockets-tcp/echo_server.cpp:107-217 | on every connection a message is out and counted once the room given from its last chunk on adds up to 64, and before that exactly that room is out of it |
| EchoServer.FlushStep | src/usockets-tcp/echo_server.cpp:107-119 | each writable event while draining leaves exactly that much less, or finishes the message and counts it |
| EchoServer.DrainCompletes | src/usockets-tcp/echo_server.cpp:107-119 | writable events whose room adds up to what is left finish the echo, with exactly one event, at the last of them |
| EchoServer.WritableKeepsFaith | src/usockets-tcp/echo_server.cpp:107-119 | the invariant of the runs survives a writable event exactly when the event is harmless to the echo |
| EchoServer.WritableHarmless | src/usockets-tcp/echo_server.cpp:107-119 | after a writable event, and after any byte the peer may send next, the bytes, bounds and event count are right exactly when a message was draining, or when part of one was buffered and none of it was sent |
| EchoServer.EmptyWritableMiscounts | src/usockets-tcp/echo_server.cpp:107-119 | with no bytes buffered a writable event changes nothing but counts a message that was never sent |
| EchoServer.EarlyFlushMiscounts | src/usockets-tcp/echo_server.cpp:107-119 | outside draining, with room for everything buffered, a message is counted after part of it |
| EchoServer.EarlyFlushStalls | src/usockets-tcp/echo_server.cpp:107-194 | when the rest of that message arrives none of it is sent: it stays buffered with the peer waiting |
| EchoServer.EarlyPartCorrupts | src/usockets-tcp/echo_server.cpp:107-181 | when part of the buffered bytes goes out early, the next byte x keeps the echo right exactly when x equals the stale byte after the window and, if the copy hits the window, the byte it overwrites; any other x corrupts it |
| EchoServer.EarlyWritableCorrupts | src/usockets-tcp/echo_server.cpp:107-181 | a concrete run in which an early writable event makes the third byte overwrite the second |
| EchoServer.Interval.CountStats | src/usockets-tcp/echo_server.cpp:67-104 | every 65536th chunk resets the interval counters and no count is lost over the intervals |
| EchoServer.EchoSocket.constructor | src/usockets-tcp/echo_server.cpp:206-217 | a new connection starts with an empty window |
| EchoServer.EchoSocket.OnData | src/usockets-tcp/echo_server.cpp:157-194 | the in-place callback computes the specified reply, loses no count over the intervals, and leaves each of the four interval counters as counted, or at 0 when a message is complete at a positive multiple of 65536 chunks |
| EchoServer.EchoSocket.EchoWhole | src/usockets-tcp/echo_server.cpp:165-178 | the direct path buffers only what the socket refused |
| EchoServer.EchoSocket.EchoPart | src/usockets-tcp/echo_server.cpp:179-194 | the buffering path sends when the message is complete |
| EchoServer.EchoSocket.OnWritable | src/usockets-tcp/echo_server.cpp:107-119 | the in-place callback sends the window's prefix, counts the event when it empties, and leaves each interval counter as counted, or at 0 as above |
| EchoServer.EchoSocket.CopyIn | src/usockets-tcp/echo_server.cpp:169-181 | memcpy into the fixed buffer replaces exactly that range |
| PayloadHash.HashArr | src/flashws/echo_client.cpp:49-56 | the loop computes the specified hash |
| PayloadHash.HashFront | src/flashws/echo_client.cpp:49-56 | read from the front: each byte enters rotated once for itself and once for every byte after it, and nothing hashes to 0 |
| PayloadHash.RotateIsRotation | src/flashws/echo_client.cpp:53-53 | the two shifts rotate right by 5 |
| PayloadHash.CommonSuffix | src/flashws/echo_client.cpp:49-56 | a common end neither creates nor hides a difference |
| PayloadHash.OneByteIsSeen | src/flashws/echo_client.cpp:49-56 | changing exactly one byte changes the hash, for every buffer and position |
| PayloadHash.HashLinear | src/flashws/echo_client.cpp:49-56 | the hash of a bytewise difference is the difference of the hashes, for all buffers of equal length |
| PayloadHash.CollideExactly | src/flashws/echo_client.cpp:49-56 | buffers of equal length collide exactly when their difference hashes to 0 |
| PayloadHash.DifferenceTravels | src/flashws/echo_client.cpp:49-56 | equal bytes carry a difference of hashes on, rotated right by 5 for each |
| PayloadHash.TwoBytesCancelExactly | src/flashws/echo_client.cpp:49-56 | changing two bytes i < j goes unseen exactly when the difference at i, rotated right by 5(j - i), is the difference at j |
| PayloadHash.TwoBytesMayCancel | src/flashws/echo_client.cpp:49-56 | the digits 00 and the bytes 0x10 0x31 have the same hash |
| EchoClient.StartIsAccounted | src/flashws/echo_client.cpp:463-502 | the initial connections satisfy the account |
| EchoClient.SumUpdate | src/flashws/echo_client.cpp:215-239 | replacing one lineage changes the global sums by that lineage alone |
| EchoClient.SumBound | src/flashws/echo_client.cpp:395-395 | the sum of echoes is at most clients * rebirths * limit, with equality exactly when every lineage is through |
| EchoClient.TotalMeansFinished | src/flashws/echo_client.cpp:180-184 | loop_cnt reaches TOTAL_MSG_CNT exactly when every lineage has finished its last life |
| EchoClient.ReadKeepsAccount | src/flashws/echo_client.cpp:196-301 | a read from a faithful peer keeps both sums and never aborts; it ends the run exactly at the last message of a last life with no socket left: the total check after a non-final message never fires |
| EchoClient.StepKeepsAccount | src/flashws/echo_client.cpp:157-301 | every callback keeps the account and none aborts; EndClient is called exactly from a close callback with all lineages finished, or from the last message of a last life when socket_count is 0 |
| EchoClient.RunKeepsAccount | src/flashws/echo_client.cpp:157-301 | the account (messages echoed, payloads sent, bytes still missing) holds after any interleaving of callbacks |
| EchoClient.FinishedTotals | src/flashws/echo_client.cpp:119-301 | once all are finished exactly TOTAL_MSG_CNT messages were echoed, and bytes sent and bytes received are both TOTAL_MSG_CNT times the payload size |
| EchoClient.EndsComplete | src/flashws/echo_client.cpp:157-301 | if every lineage that goes on has a socket in the loop, EndClient is only called with all lineages finished, exactly TOTAL_MSG_CNT messages echoed, and that many payloads sent and received |
| EchoClient.MessageChecks | src/flashws/echo_client.cpp:207-301 | of a message that came back, a connection's last one is checked for its length, every 16384th other one for its hash, and the rest not at all, whatever the peer sent |
| EchoClient.EchoGoesOut | src/flashws/echo_client.cpp:207-301 | whatever came back, right or wrong, is what goes out next, over a rebirth as well |
| EchoClient.RunCarries | src/flashws/echo_client.cpp:157-301 | a peer that only echoes neither changes nor repairs what a lineage carries, over any run |
| EchoClient.OneWrongByteAborts | src/flashws/echo_client.cpp:257-273 | at a sampled message that is not a connection's last, an echo wrong in one byte is caught |
| EchoClient.WrongBytesPassExactly | src/flashws/echo_client.cpp:257-273 | there an echo of the right length passes exactly when its difference from the payload hashes to 0 |
| EchoClient.ContextClass.constructor | src/flashws/echo_client.cpp:463-502 | initial counters, contexts and payload hash; the account holds |
| EchoClient.ContextClass.OnOpen | src/flashws/echo_client.cpp:100-122 | the first message of a life goes out whole, all of it still missing, and the account of messages and bytes is kept |
| EchoClient.ContextClass.OnRead | src/flashws/echo_client.cpp:187-301 | the in-place callback computes the specified result in every branch; with a faithful peer it keeps the account and ends exactly at the last message of a last life with no socket left |
| EchoClient.ContextClass.Close | src/flashws/echo_client.cpp:172-185 | under the account, the close callback ends the run exactly when every lineage is finished |

## Left out

- Policies.FibonacciLawful: for requests above 2^63, where the code returns a size below the request, the policy
  returns the request itself, so that a table can be stated without a bound on its size.
- Policies.PowerOfTwoLawful: the same completion above 2^63.
- Policies.PrimeLawful: the same completion above the last listed size.
- Runs.RunDefaultMap: uses the completed fibonacci policy, so it says nothing of the code once a table is asked for
  more than 2^63 buckets.
- Allocators, placement new, moves, exceptions, functor storage, iterator constness, swap and the move operations:
  values are plain copies and memory is an array.
- A key_equal coarser than identity: keys that compare equal are the same value. `flat_hash_set` is the case of a
  mapped type with one value.
- Rounding of the float load factor: the factor is a positive real and the ceiling is of the exact quotient.
- 64-bit overflow of sizes inside the table: bucket counts are unbounded there, and the policies' range is stated
  apart.
- The 186 literal mod functions and the primality of the listed sizes: any increasing list from 2 on is covered;
  `keep_in_range` is unused.
- The state of a policy as a stored shift or mod function: a table keeps the committed size, from which the policy
  lemmas derive the shift or modulus.
- Aliasing of an emplace argument with a stored value.
- Clocks, throughput, latency histograms, printing, files and argument parsing.
- The socket, TLS, WebSocket and event-loop libraries: they are the environment that delivers chunks, takes
  prefixes and answers `socket_count`. When the client's `Close` runs the close callback is not relied on.
- Wrap-around of the 64-bit counters of the servers and of the client.
- The connection counters `active_connections` and `active_conns_in_ctx`: one increment and one decrement each.
- What `EndClient` prints and writes once it is called.
- The other servers, `https_client.cpp`, the scripts, notebook, certificates and configuration files.
