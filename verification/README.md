# Verified model of the order-book and feed-capture library

This project models, in Dafny, the C++ core of a low-latency market-data
library and proves what each part promises for every input, every run or every
interleaving. Machine words are naturals below 2^64, and every wrap-around the
code can reach is written out.

| module | part of the library |
|---|---|
| `Words`, `Bytes`, `Circle` | 64-bit words with their bit operations, little-endian bytes, positions on a power-of-two table |
| `OrderIndex` | the bounded open-addressing index with backward-shift deletion |
| `TombstoneIndex` | the tombstone table of the v2, v3 and v4 books, and its comparison with the backshift index |
| `L3` | the order-book contract as a function from a map of live orders and an event to a map of live orders |
| `Digest` | FNV-1a over the canonical byte stream of a book |
| `ReferenceBook` | the v1 book: hash map of orders and two ordered level maps |
| `CachedLadder` | the v3 dense ladders with a cached best price per side |
| `BitmapLadder`, `PackedRecord`, `Ladders` | the 256-price ladder with its occupancy bitmap, the packed order record, both sides of a ladder book |
| `BitmapBook`, `PackedBook` | the v4 book (tombstones) and the v6 book (backshift) over packed records and bitmap ladders |
| `SnapshotCell` | the single-writer, many-reader sequence lock that publishes the best bid and ask |
| `FrameQueue` | the single-producer, single-consumer ring of raw frames |
| `FeedRecovery` | the sequence gate: live, awaiting a snapshot, snapshotting with a replay buffer |
| `L2`, `L2VectorBook`, `L2Variants` | the atomic L2 delta book on sorted vectors, and its ordered-map and dense-ladder variants |
| `Crc`, `CrcRemainder`, `FrameCodec`, `Capture` | CRC-32C and its reading as polynomial division, the raw-frame codec, the self-describing capture file |
| `FixedPoint` | the decimal parser that scales by 10^8 |

Objects the code updates in place are classes over arrays, sequences and maps.
Each method is proved against a mathematical state. The two concurrent protocols
are state machines whose steps are single shared-memory accesses of any thread
in any order. An exception is a `false`, `None` or `Corrupt` result.

Main results:

* **Index.** Both hash tables behave as a bounded map over every history of
  operations, for an arbitrary mixer. Backward-shift deletion keeps every entry
  reachable. The two tables answer a history alike if and only if no insertion
  of a new id meets a full live limit.
* **Books.** What each kind of event does to live ids, orders and levels is stated
  law by law. The v1, v4 and v6 books accept exactly the events of that contract
  that fit them, and then hold exactly its orders. Their best prices, counts and
  digests are functions of the live orders alone, so v6 and v1 in lockstep return
  equal views after every event up to the first that v6 rejects. A rejected event
  leaves a book consistent if and only if it is outside a stated family. Even
  then the index stays a map and a price stays marked in the bitmap exactly when
  its level is nonzero, over every run.
* **Snapshot cell.** Whatever the interleaving, an accepted read is one published
  snapshot, and a reader's snapshots never go back, unless the 64-bit version
  turns all the way round during one read. An execution with that wrap accepts
  a mixture. A read that meets no publication returns the latest snapshot, and
  readers disturb neither the writer nor each other.
* **Frame queue.** In every interleaving the frames popped are a prefix of the
  frames queued, the two sides never touch one slot together, and each call ends
  after a bounded number of its own steps. What a push or a pop ends in is decided
  by the frame, the room offered and the unread frames at its load.
* **Feed gate.** From a successful finish until the next snapshot begins, the
  delivered sequence numbers are last+1, last+2, ... without gap or repeat. Every
  answer in every run is determined by the calls before it: the next number is
  delivered, a later one is a gap, and a snapshot loses no event silently.
* **L2.** A valid vector book accepts a delta exactly when its id is the next one,
  its keys are distinct and the result fits. The result does not depend on the
  order of the changes. After every message of every feed the ladder covers, the
  map and the dense book return the same, and the vector book returns it too
  while it is valid. The messages at which the vector book alone drops out are
  stated exactly.
* **Frames.** The checksum is the remainder modulo the CRC-32C generator of section
  12.1 of RFC 3720. Decoding and encoding are inverse on exactly the frames within the
  payload limit, and every corruption of a frame confined to four adjacent bytes
  is rejected. In a whole file such a corruption, length fields apart, goes
  unnoticed if and only if it changes nothing but topic bytes. A completed
  capture reads back exactly, and no proper prefix of it is readable if and only
  if the record count stays within a fixed bound.
* **Decimals.** A parsed value is the decimal times 10^8, every 64-bit value
  survives printing and parsing, and the exact family of texts on which the
  parser is not exact is stated as arithmetic on the digits.

Where the code and its documents disagree, the model follows the code:

* `specs/packed_order_record_v6.md:10` wants an out-of-range price rejected
  before mutation. The v6 upsert of a live id subtracts its old quantity first.
  `PackedBook.CorruptedBook` drives a book there and `PackedBook.OrderBook.Apply`
  has the exact condition.
* `specs/l3_order_book.md:55` leaves overflowing traces to the generator. The
  books do check for overflow, but not always before they mutate.
* `specs/feed_sequence_recovery_v1.md:25` replays a contiguous buffer and names
  gaps as the only reason to refuse one. A second copy of the largest 64-bit
  number makes a buffer without a gap refused (`FeedRecovery.RepeatedTopIsRefused`).
* `cpp/include/llab/bbo_snapshot.hpp:20` promises one consistent snapshot without
  the wrap-around proviso (`SnapshotCell.WrapMixes`).
* `cpp/include/llab/raw_frame_capture.hpp:18` says an incomplete file is not readable.
  A file cut right after the eight bytes of a record whose number spells the
  completion marker is (`Capture.CutAtMark`).

## Model

| member | source | states |
|---|---|---|
| `Circle.NextByMask` | cpp/include/llab/fixed_order_index.hpp:162-163 | On a power-of-two table, masking `i + 1` is the successor on the circle |
| `Circle.DistByMask` | cpp/include/llab/fixed_order_index.hpp:173-177 | The wrapped unsigned difference, masked, is the number of steps from one slot to the other |
| `OrderIndex.DoublingStops` | cpp/include/llab/fixed_order_index.hpp:59-67 | The sizing loop can stop if and only if the live limit is at most 2^62; above that the capacity shifts to zero for ever |
| `OrderIndex.DoubleUpTo` | cpp/include/llab/fixed_order_index.hpp:62-66 | The loop returns the least power of two, at least 8, that reaches its target |
| `OrderIndex.Capacity` | cpp/include/llab/fixed_order_index.hpp:59-67 | Throws exactly above half the range; otherwise a power of two of at least twice the limit and less than four times it, or 8 |
| `OrderIndex.NewIndex` | cpp/include/llab/fixed_order_index.hpp:72-76 | Fails exactly on capacity overflow, otherwise gives an empty valid index with the stated limit |
| `OrderIndex.HomeIsMixed` | cpp/include/llab/fixed_order_index.hpp:152-155 | The masked home slot is the mixed id modulo the table size |
| `OrderIndex.ProbeHits` | cpp/include/llab/fixed_order_index.hpp:157-171 | In a well-formed table the probe for a stored id stops at its slot, after exactly its circular distance from home plus one slots |
| `OrderIndex.ProbeMisses` | cpp/include/llab/fixed_order_index.hpp:157-171 | In any table that holds a map, the probe for an absent id fails from every starting step |
| `OrderIndex.ProbeDecides` | cpp/include/llab/fixed_order_index.hpp:157-171 | The probe finds the slot and value of an id exactly when the map contains it |
| `OrderIndex.OccupiedIsCardinality` | cpp/include/llab/fixed_order_index.hpp:120-122 | The number of occupied slots is the size of the map held |
| `OrderIndex.SomeSlotFree` | cpp/include/llab/fixed_order_index.hpp:183 | A table with fewer entries than slots has a free slot, which is why the deletion loop stops |
| `OrderIndex.EmptyEndsSearch` | cpp/include/llab/fixed_order_index.hpp:87-93 | The first empty slot on an id's probe path proves the id absent |
| `OrderIndex.FillKeepsWellFormed` | cpp/include/llab/fixed_order_index.hpp:83-91 | Filling the first empty slot on the path keeps every entry reachable and adds exactly that pair |
| `OrderIndex.ShiftStarts` | cpp/include/llab/fixed_order_index.hpp:179-182 | Opening a hole establishes the deletion invariant: only entries whose path passes the hole, at or after the scan position, are cut off |
| `OrderIndex.ShiftMoves` | cpp/include/llab/fixed_order_index.hpp:185-189 | Moving an entry whose path passes the hole keeps the deletion invariant, with the hole where the entry was |
| `OrderIndex.ShiftSkips` | cpp/include/llab/fixed_order_index.hpp:185-189 | Skipping an entry whose path does not pass the hole keeps the deletion invariant |
| `OrderIndex.ShiftEnds` | cpp/include/llab/fixed_order_index.hpp:183-191 | At the first empty slot, vacating the hole leaves a well-formed table holding exactly the remaining pairs |
| `OrderIndex.CollectedIsContents` | cpp/include/llab/fixed_order_index.hpp:128-134 | The occupied slots in array order list each pair of the map once and nothing else |
| `OrderIndex.FixedOrderIndex.constructor` | cpp/include/llab/fixed_order_index.hpp:72-76 | A new index is valid and empty |
| `OrderIndex.FixedOrderIndex.FindSlot` | cpp/include/llab/fixed_order_index.hpp:157-171 | The masked loop computes the probe and the number of slots it visits |
| `OrderIndex.FixedOrderIndex.Decides` | cpp/include/llab/fixed_order_index.hpp:157-171 | In a valid index the slot found holds exactly the map's value, and the end position means absent, id zero included |
| `OrderIndex.FixedOrderIndex.Find` | cpp/include/llab/fixed_order_index.hpp:98-107 | Returns the map's value for the id, or none |
| `OrderIndex.FixedOrderIndex.Assign` | cpp/include/llab/fixed_order_index.hpp:98-101 | Writing through the returned pointer changes that one value and nothing else |
| `OrderIndex.FixedOrderIndex.Insert` | cpp/include/llab/fixed_order_index.hpp:78-96 | Succeeds exactly for a nonzero absent id below the live limit, and then adds exactly that pair |
| `OrderIndex.FixedOrderIndex.Erase` | cpp/include/llab/fixed_order_index.hpp:109-118 | Returns the erased value, or none, and removes exactly that id |
| `OrderIndex.FixedOrderIndex.EraseAt` | cpp/include/llab/fixed_order_index.hpp:179-192 | The backshift loop ends, keeps the table well-formed and removes exactly the id stored at the slot |
| `OrderIndex.FixedOrderIndex.Summarize` | cpp/include/llab/fixed_order_index.hpp:136-150 | The probe counts computed from distances equal the slots lookups actually visit: their number, sum and maximum |
| `OrderIndex.FixedOrderIndex.Entries` | cpp/include/llab/fixed_order_index.hpp:128-134 | The visit lists every pair of the map exactly once |
| `OrderIndex.Replay` | cpp/include/llab/fixed_order_index.hpp:78-118 | Over every history of inserts, finds and erases, answers and contents are those of a bounded map |
| `TombstoneIndex.TombstoneTable.FindSlot` | cpp/src/parity_order_book.cpp:118-129 | Finds exactly the live ids, past tombstones |
| `TombstoneIndex.TombstoneTable.InsertionSlot` | cpp/src/parity_order_book.cpp:131-145 | Gives a reusable slot on the id's path exactly when the id is absent and some slot is not live |
| `TombstoneIndex.TombstoneTable.Place` | cpp/src/parity_order_book.cpp:173-174 | Placing at that slot adds exactly the pair and keeps every live id reachable |
| `TombstoneIndex.TombstoneTable.Bury` | cpp/src/parity_order_book.cpp:179-180 | A tombstone removes exactly the id at the slot and keeps every other id reachable |
| `TombstoneIndex.TombstoneTable.Assign` | cpp/src/parity_order_book.cpp:204-205 | Overwriting a live record changes that one value |
| `TombstoneIndex.TombstoneTable.LiveIds` | cpp/src/bitmap_ladder_order_book.cpp:87-90 | The occupied slots list every live id exactly once |
| `TombstoneIndex.TombstoneTable.Insert` | cpp/src/parity_order_book.cpp:166-175 | Succeeds exactly for an absent id while some slot is not live, and then adds exactly that pair |
| `TombstoneIndex.TombstoneTable.Erase` | cpp/src/parity_order_book.cpp:176-181 | Returns the removed value, or none, and removes exactly that id |
| `TombstoneIndex.PlaceKeeps` | cpp/src/parity_order_book.cpp:166-175 | Filling an empty or tombstone slot on the probe path keeps the table well-formed and adds the pair |
| `TombstoneIndex.BuryKeeps` | cpp/src/parity_order_book.cpp:176-181 | Turning a live slot into a tombstone keeps the table well-formed and removes the pair |
| `TombstoneIndex.FullExactly` | cpp/src/parity_order_book.cpp:131-145 | Every slot is live if and only if the map is as large as the table |
| `TombstoneIndex.LimitsAgree` | cpp/include/llab/fixed_order_index.hpp:80-81 | Two bounded maps with different limits answer a history alike if and only if the smaller limit is never met by a fresh insertion |
| `TombstoneIndex.Replay` | cpp/src/parity_order_book.cpp:118-181 | Over every history of nonzero ids, answers and contents are those of a map bounded by the number of slots |
| `TombstoneIndex.ReplayBoth` | cpp/include/llab/fixed_order_index.hpp:78-118 | The backshift index and the tombstone table answer a history alike if and only if it stays below the live limit, and then hold the same pairs |
| `L3.SumSplits` | specs/l3_order_book.md:62 | A level's aggregate is any one order's share plus the aggregate of the rest |
| `L3.SumIsPositive` | specs/l3_order_book.md:63 | When no live order is empty, a level is nonzero if and only if an order is quoted there |
| `L3.AcceptedKeepsConsistent` | specs/l3_order_book.md:57-65 | Every accepted event leads from a consistent state to a consistent state |
| `L3.RunKeepsConsistent` | specs/l3_order_book.md:57-65 | Every run of accepted events keeps all orders nonzero and all aggregates within 64 bits |
| `L3.BestIsUnique` | specs/l3_order_book.md:64 | The best level of a side is determined by the live orders |
| `L3.BestIsExtreme` | specs/l3_order_book.md:32-33 | The best bid is the highest live bid price, the best ask the lowest live ask price, with the aggregate there |
| `L3.AddTransition` | specs/l3_order_book.md:45 | Exactly when an add is accepted; it adds one id with the given order, raises its level by the quantity and changes no other order or level |
| `L3.CancelTransition` | specs/l3_order_book.md:46 | Exactly when a cancel is accepted, never for the whole quantity; the live ids stay, its order and its level fall by the quantity, nothing else changes |
| `L3.ExecuteTransition` | specs/l3_order_book.md:47 | Exactly when an execution is accepted; the order goes exactly when all of it is executed, its level falls by the quantity, nothing else changes |
| `L3.DeleteTransition` | specs/l3_order_book.md:48-51 | Both kinds of delete take every live id; its level falls by what remained, nothing else changes |
| `L3.ReplaceTransition` | specs/l3_order_book.md:49 | A replace is accepted exactly when a delete and then an add of a different id are, and has their effect |
| `L3.UpsertTransition` | specs/l3_order_book.md:50 | An upsert is an add of a new id, or a delete and an add of a live one, in acceptance and effect, and leaves exactly the given order |
| `L3.RejectedTransition` | cpp/src/order_book.cpp:57-63 | A rejected event changes nothing, except that a replace whose delete half is admissible has deleted |
| `Digest.HashU64` | cpp/src/order_book.cpp:19-23 | The shift loop feeds the eight little-endian bytes of the value to the hash |
| `Digest.FnvValues` | specs/trace_format.md:28 | The published FNV-1a values of the empty input and of one byte |
| `Digest.OneByteShows` | cpp/src/order_book.cpp:14-17 | Streams that differ in one byte have different digests |
| `Digest.FnvConcat` | cpp/src/order_book.cpp:101-128 | Hashing two streams one after the other is hashing their concatenation |
| `Digest.AscendingIsUnique` | specs/trace_format.md:28 | A strictly ascending listing of a set is unique, so the canonical order is one order |
| `Digest.Sort` | cpp/src/order_book.cpp:119 | Distinct ids in any order are sorted into the one ascending listing of their set |
| `Digest.HashOrders` | cpp/src/order_book.cpp:120-126 | The loop hashes every live order, by ascending id, as id, side byte, price and quantity |
| `Digest.CanonicalLayout` | specs/trace_format.md:28 | The stream by byte position: live count, bid levels and ask levels as counted ascending price and aggregate pairs, then orders by ascending id as id, side byte, price and quantity, every number in eight little-endian bytes |
| `Digest.ShowsOneView` | specs/l3_order_book.md:67 | The live orders determine everything a book shows: both best levels, count and digest |
| `ReferenceBook.OrderBook.AddToLevel` | cpp/src/order_book.cpp:184-190 | Raises one level exactly when the sum fits 64 bits, otherwise changes nothing |
| `ReferenceBook.OrderBook.SubtractFromLevel` | cpp/src/order_book.cpp:192-202 | Lowers an existing level by a nonzero amount it can cover and drops it at zero, otherwise changes nothing |
| `ReferenceBook.OrderBook.AddOrder` | cpp/src/order_book.cpp:138-144 | Accepts exactly a nonzero, unused id with a nonzero quantity that fits its level; rejects without effect |
| `ReferenceBook.OrderBook.RemoveOrder` | cpp/src/order_book.cpp:146-153 | Removes exactly a live order and keeps all aggregates equal to their sums |
| `ReferenceBook.OrderBook.SubtractFromOrder` | cpp/src/order_book.cpp:155-168 | Cancel and execute: the exact admissible quantities, removal at zero, aggregates kept |
| `ReferenceBook.OrderBook.UpsertOrder` | cpp/src/order_book.cpp:170-182 | Accepts exactly the admissible upserts; a rejection by overflow always leaves the book inconsistent, any other changes nothing |
| `ReferenceBook.OrderBook.Apply` | cpp/src/order_book.cpp:42-69 | Accepts exactly the contract's events and then holds its orders; a rejection keeps the invariant if and only if it is not an overflowing upsert, and a rejected replace has removed the old order |
| `ReferenceBook.OrderBook.ValidIsConsistent` | specs/l3_order_book.md:57-65 | A valid book represents a consistent state of the contract |
| `ReferenceBook.OrderBook.BestBid` | cpp/src/order_book.cpp:71-77 | The highest quoted bid price with the sum of its orders, or none when no bid is live |
| `ReferenceBook.OrderBook.BestAsk` | cpp/src/order_book.cpp:79-85 | The lowest quoted ask price with the sum of its orders, or none when no ask is live |
| `ReferenceBook.OrderBook.StateDigest` | cpp/src/order_book.cpp:101-128 | The digest is the FNV-1a hash of the canonical stream, a function of the live orders alone |
| `ReferenceBook.OrderBook.Show` | cpp/src/order_book.cpp:71-128 | Best bid, best ask, count and digest together are what the contract says a book with these orders shows |
| `ReferenceBook.PutAggregates` | cpp/src/order_book.cpp:142-143 | Adding an order and raising its level keeps every level the sum of its orders |
| `ReferenceBook.TakeAggregates` | cpp/src/order_book.cpp:161-167 | Reducing an order and its level keeps every level the sum, and the level could always cover it |
| `ReferenceBook.CorruptingEventExists` | cpp/src/order_book.cpp:177-181 | A consistent state and an upsert that overflows it |
| `ReferenceBook.CorruptedBook` | cpp/src/order_book.cpp:170-182 | A new v1 book driven by one accepted add and one rejected upsert ends inconsistent |
| `CachedLadder.NewLadders` | cpp/src/dense_ladder_order_book.cpp:23-28 | Fails exactly for an empty ladder or one that passes the largest price |
| `CachedLadder.Ladders.AddLevel` | cpp/src/dense_ladder_order_book.cpp:183-194 | Raises one level exactly when price and sum fit; both cached bests stay the true extremes |
| `CachedLadder.Ladders.SubtractLevel` | cpp/src/dense_ladder_order_book.cpp:195-204 | Lowers one level; refreshing only when the cached best empties keeps both caches the true extremes |
| `CachedLadder.Ladders.RefreshBest` | cpp/src/dense_ladder_order_book.cpp:205-222 | Recomputes the extreme nonzero price of one side and leaves the other cache alone |
| `BitmapLadder.TopBitIsHighest` | cpp/src/bitmap_ladder_order_book.cpp:150 | 63 minus the leading-zero count is the highest set bit |
| `BitmapLadder.TrailingZerosIsLowest` | cpp/src/bitmap_ladder_order_book.cpp:158 | The trailing-zero count is the lowest set bit |
| `BitmapLadder.SetBit` | cpp/src/bitmap_ladder_order_book.cpp:221 | Or-ing the shifted one sets that bit and no other |
| `BitmapLadder.ClearBit` | cpp/src/bitmap_ladder_order_book.cpp:231 | And-ing the complement clears that bit and no other |
| `BitmapLadder.MarkRaised` | cpp/src/bitmap_ladder_order_book.cpp:220-222 | Raising a level, setting its bit only when it was zero, keeps bit i set if and only if level i is nonzero |
| `BitmapLadder.MarkLowered` | cpp/src/bitmap_ladder_order_book.cpp:229-231 | Lowering a level, clearing its bit only at zero, keeps the same equivalence |
| `BitmapLadder.HighestInWord` | cpp/src/bitmap_ladder_order_book.cpp:147-153 | The top bit of a nonzero word is the highest nonzero level of its 64 prices |
| `BitmapLadder.LowestInWord` | cpp/src/bitmap_ladder_order_book.cpp:155-161 | The low bit of a nonzero word is the lowest nonzero level of its 64 prices |
| `BitmapLadder.Ladder.AddLevel` | cpp/src/bitmap_ladder_order_book.cpp:215-223 | Raises exactly one level when the sum fits, with levels and bitmap in step |
| `BitmapLadder.Ladder.SubtractLevel` | cpp/src/bitmap_ladder_order_book.cpp:224-232 | Lowers exactly one level when it covers a nonzero quantity, with levels and bitmap in step |
| `BitmapLadder.Ladder.Highest` | cpp/src/bitmap_ladder_order_book.cpp:147-153 | The word scan finds the highest nonzero level, or 256 exactly when all are zero |
| `BitmapLadder.Ladder.Lowest` | cpp/src/bitmap_ladder_order_book.cpp:155-161 | The word scan finds the lowest nonzero level, or 256 exactly when all are zero |
| `PackedRecord.RoundTrip` | cpp/include/llab/bitmap_packed_order_book.hpp:32-47 | Packing and unpacking returns side, offset and quantity for every offset below 2^63 |
| `PackedRecord.BooksAdd` | cpp/src/bitmap_packed_order_book.cpp:133-141 | A new record, one raised level and one more live order keep table, ladders and count in agreement |
| `PackedRecord.BooksTake` | cpp/src/bitmap_packed_order_book.cpp:151-163 | A reduced or erased record and one lowered level keep table, ladders and count in agreement |
| `PackedRecord.BooksRemove` | cpp/src/bitmap_packed_order_book.cpp:142-150 | An erased record and its lowered level keep the agreement, and the level always covers the record |
| `PackedRecord.BooksAreConsistent` | specs/l3_order_book.md:57-65 | When table, ladders and count agree, the unpacked orders are consistent, lie on the ladder and are as many as the counter says |
| `PackedRecord.LaddersDetermined` | specs/l3_order_book.md:62 | The records determine both ladders |
| `Ladders.LadderPair.AddLevel` | cpp/src/bitmap_packed_order_book.cpp:176-184 | Raises one level of one side exactly when the price is on the ladder and the sum fits; otherwise changes nothing |
| `Ladders.LadderPair.SubtractLevel` | cpp/src/bitmap_packed_order_book.cpp:185-193 | Lowers one level of one side exactly when the price is on the ladder and the level covers it; otherwise changes nothing |
| `Ladders.BestOnLadder` | cpp/src/bitmap_packed_order_book.cpp:109-132 | The bitmap scan returns the contract's best level of the live orders |
| `Ladders.HashLadder` | cpp/src/bitmap_packed_order_book.cpp:67-78 | Counting and hashing the nonzero levels by offset feeds the canonical level stream of the side |
| `Ladders.SortEntries` | cpp/src/bitmap_packed_order_book.cpp:79-83 | Entries listed in table order come out by ascending id, each with its own record |
| `Ladders.HashEntries` | cpp/src/bitmap_packed_order_book.cpp:79-89 | Hashing the sorted entries feeds the canonical order stream of the unpacked orders |
| `PackedBook.OrderBook.constructor` | cpp/src/bitmap_packed_order_book.cpp:10-14 | A new book is valid and holds no order |
| `PackedBook.NewBook` | cpp/src/bitmap_packed_order_book.cpp:10-14 | Fails exactly on capacity overflow, a price count other than 256, or a range past the largest price |
| `PackedBook.OrderBook.Add` | cpp/src/bitmap_packed_order_book.cpp:133-141 | The exact acceptance condition; a rejection keeps the book intact if and only if it did not reach the index and then overflow its level |
| `PackedBook.OrderBook.Remove` | cpp/src/bitmap_packed_order_book.cpp:142-150 | Removes exactly a live order; otherwise changes nothing |
| `PackedBook.OrderBook.Reduce` | cpp/src/bitmap_packed_order_book.cpp:151-163 | The exact admissible reductions, removal at zero; otherwise changes nothing |
| `PackedBook.OrderBook.Upsert` | cpp/src/bitmap_packed_order_book.cpp:164-175 | The exact acceptance condition, and exactly which rejections leave the book inconsistent |
| `PackedBook.OrderBook.Apply` | cpp/src/bitmap_packed_order_book.cpp:15-40 | Accepts exactly the contract's events whose price is on the ladder and for which the index has room, with the contract's result; a rejection keeps the invariant if and only if it is outside the corrupting family; index and ladders stay intact from any state in which they are |
| `PackedBook.OrderBook.Best` | cpp/src/bitmap_packed_order_book.cpp:109-132 | Returns the contract's best bid or ask |
| `PackedBook.OrderBook.LiveOrderCount` | cpp/src/bitmap_packed_order_book.cpp:47-49 | The counter is the number of live orders |
| `PackedBook.OrderBook.StateDigest` | cpp/src/bitmap_packed_order_book.cpp:59-91 | The digest is the FNV-1a hash of the same canonical stream as v1 |
| `PackedBook.OrderBook.Show` | cpp/src/bitmap_packed_order_book.cpp:41-91 | Best bid, best ask, count and digest together are what the contract says a book with these orders shows |
| `PackedBook.CorruptingEventsExist` | cpp/src/bitmap_packed_order_book.cpp:137-139 | Consistent states with a rejected add and a rejected upsert that corrupt v6, the upsert by a price off the ladder |
| `PackedBook.CorruptedBook` | cpp/src/bitmap_packed_order_book.cpp:133-175 | A new v6 book driven by one accepted add and one rejected event, an overflowing add or an upsert off the ladder, ends inconsistent: its index and ladders are intact and only their agreement is lost |
| `PackedBook.ApplyAny` | cpp/src/bitmap_packed_order_book.cpp:15-40 | Every run of events, corrupting ones included, leaves the index a map and each bitmap marking exactly the nonzero levels of its ladder |
| `PackedBook.Compare` | specs/l3_order_book.md:67 | Books holding the same orders return the same view, and it is the one those orders have to show |
| `PackedBook.Lockstep` | specs/l3_order_book.md:67 | Fed one trace up to the first event v6 cannot take, v6 and v1 return equal views after each event, and the i-th view is what the contract's run of the first i events has to show |
| `BitmapBook.Capacity` | cpp/src/bitmap_ladder_order_book.cpp:17-22 | Doubling the limit is unchecked, so the table can hold the limit if and only if the limit is at most half the range |
| `BitmapBook.SizingStopsExactly` | cpp/src/bitmap_ladder_order_book.cpp:17-22 | Some number of shifts reaches the loop's target if and only if the doubled limit, reduced to 64 bits, is at most 2^63 |
| `BitmapBook.OrderBook.constructor` | cpp/src/bitmap_ladder_order_book.cpp:24-28 | A new book is valid and empty, and its table can hold the limit if and only if the doubling did not overflow |
| `BitmapBook.NewBook` | cpp/src/bitmap_ladder_order_book.cpp:24-28 | Fails exactly for a price count other than 256 or a range past the largest price |
| `BitmapBook.OrderBook.Add` | cpp/src/bitmap_ladder_order_book.cpp:167-177 | The exact acceptance condition; every rejection leaves the book unchanged |
| `BitmapBook.OrderBook.Remove` | cpp/src/bitmap_ladder_order_book.cpp:178-186 | Removes exactly a live order; otherwise changes nothing |
| `BitmapBook.OrderBook.Reduce` | cpp/src/bitmap_ladder_order_book.cpp:187-200 | The exact admissible reductions, removal at zero; otherwise changes nothing |
| `BitmapBook.OrderBook.Upsert` | cpp/src/bitmap_ladder_order_book.cpp:201-214 | The exact acceptance condition; a rejection corrupts if and only if a live id overflows its new level |
| `BitmapBook.OrderBook.Apply` | cpp/src/bitmap_ladder_order_book.cpp:29-54 | Accepts exactly the contract's events that fit ladder and table, with the contract's result; the one family of rejections that corrupts; index and ladders stay intact from any state in which they are |
| `BitmapBook.OrderBook.Best` | cpp/src/bitmap_ladder_order_book.cpp:143-166 | Returns the contract's best bid or ask |
| `BitmapBook.OrderBook.StateDigest` | cpp/src/bitmap_ladder_order_book.cpp:67-100 | The digest is the FNV-1a hash of the same canonical stream as v1 |
| `BitmapBook.OrderBook.Show` | cpp/src/bitmap_ladder_order_book.cpp:55-100 | Best bid, best ask, count and digest together are what the contract says a book with these orders shows |
| `BitmapBook.CorruptingEventExists` | cpp/src/bitmap_ladder_order_book.cpp:210-213 | A consistent state and a rejected upsert that corrupts v4 |
| `BitmapBook.CorruptedBook` | cpp/src/bitmap_ladder_order_book.cpp:201-214 | A new v4 book driven by two accepted adds and one rejected upsert ends inconsistent: its table and ladders are intact and only their agreement is lost |
| `BitmapBook.ApplyAny` | cpp/src/bitmap_ladder_order_book.cpp:29-54 | Every run of events, corrupting ones included, leaves the table a map and each bitmap marking exactly the nonzero levels of its ladder |
| `BitmapBook.ApplyAll` | cpp/src/bitmap_ladder_order_book.cpp:29-54 | Every run of accepted and rejected events without a corrupting one ends in a consistent book with exactly the orders their outcomes leave, and after each event the book shows those orders |
| `SnapshotCell.BeginKeepsInv` | cpp/include/llab/bbo_snapshot.hpp:25 | The version increment that opens a publication keeps the protocol invariant and makes the snapshot the latest of the history |
| `SnapshotCell.StoreKeepsInv` | cpp/include/llab/bbo_snapshot.hpp:26-29 | Each of the four field stores keeps the invariant |
| `SnapshotCell.FinishKeepsInv` | cpp/include/llab/bbo_snapshot.hpp:30 | The store of the even version keeps the invariant, with the fields now the latest snapshot |
| `SnapshotCell.StartKeepsInv` | cpp/include/llab/bbo_snapshot.hpp:34-36 | A reader's first version load keeps the invariant, retrying on odd |
| `SnapshotCell.TakeKeepsInv` | cpp/include/llab/bbo_snapshot.hpp:37-40 | Each field load keeps the invariant |
| `SnapshotCell.CheckIsFaithful` | cpp/include/llab/bbo_snapshot.hpp:41-42 | Equal versions with less than one full turn between them mean the four fields are the snapshot published at the first load |
| `SnapshotCell.CheckKeepsInv` | cpp/include/llab/bbo_snapshot.hpp:41-42 | The second version load keeps the invariant |
| `SnapshotCell.ExecKeepsInv` | cpp/include/llab/bbo_snapshot.hpp:24-43 | Every interleaving of one writer and any number of readers keeps the invariant |
| `SnapshotCell.AcceptedSnapshotsAreFaithful` | cpp/include/llab/bbo_snapshot.hpp:18-21 | In every execution each accepted read is the snapshot current at its start unless the version wrapped fully during it, and a reader's acceptances follow each other in time |
| `SnapshotCell.QuietReadSucceeds` | cpp/include/llab/bbo_snapshot.hpp:33-43 | In every reachable state without a publication under way, a read interleaved with any other readers returns exactly one snapshot, the latest |
| `SnapshotCell.StartDuringPublication` | cpp/include/llab/bbo_snapshot.hpp:34-36 | In every reachable state during a publication, a read that starts returns nothing and changes nothing |
| `SnapshotCell.CheckDecides` | cpp/include/llab/bbo_snapshot.hpp:41-42 | In every reachable state a complete read is accepted if and only if the version made whole turns since its first load, and a read without a version change is accepted with the snapshot current at its start |
| `SnapshotCell.PublishOnce` | cpp/include/llab/bbo_snapshot.hpp:24-31 | An undisturbed publication stores the snapshot and advances the version by two |
| `SnapshotCell.ReadersDoNotDisturb` | cpp/include/llab/bbo_snapshot.hpp:20-21 | In every interleaving the writer and the shared cell do exactly what they do without the readers |
| `SnapshotCell.OtherReadersDoNotDisturb` | cpp/include/llab/bbo_snapshot.hpp:33-43 | A reader gets from any interleaving with other readers what it gets alone |
| `SnapshotCell.PublicationEnds` | cpp/include/llab/bbo_snapshot.hpp:20-31 | A publication is complete with its sixth own step, whatever the readers do between |
| `SnapshotCell.WrapMixes` | cpp/include/llab/bbo_snapshot.hpp:34-42 | An execution with 2^63 publications inside one read accepts a mixture that was never published |
| `FrameQueue.FullExactly` | cpp/include/llab/raw_frame_queue.hpp:49-52 | The full test holds if and only if one slot fewer than all are unread |
| `FrameQueue.PublishKeepsInv` | cpp/include/llab/raw_frame_queue.hpp:58-59 | Storing the write index publishes exactly the completed frame |
| `FrameQueue.FillingKeepsInv` | cpp/include/llab/raw_frame_queue.hpp:54-57 | Writing header, size and bytes one access at a time touches no unread slot |
| `FrameQueue.ConsumeKeepsInv` | cpp/include/llab/raw_frame_queue.hpp:63-80 | Every load of a pop, including its early returns, keeps the invariant |
| `FrameQueue.ReleaseKeepsInv` | cpp/include/llab/raw_frame_queue.hpp:81-82 | Storing the read index releases exactly the slot that was copied out |
| `FrameQueue.ExecKeepsInv` | cpp/include/llab/raw_frame_queue.hpp:42-96 | Every interleaving of one producer and one consumer keeps the invariant |
| `FrameQueue.QueueIsSafe` | cpp/include/llab/raw_frame_queue.hpp:42-83 | In every execution popped frames are a prefix of queued frames, intact and in order, at most slot_count - 1 are unread, no slot is read and written together, full and empty reports were true when decided, a payload reported too large exceeds the capacity, and a pop refused for lack of room met an oldest unread frame larger than the room |
| `FrameQueue.PushDecides` | cpp/include/llab/raw_frame_queue.hpp:42-60 | In every reachable state a push is refused at once exactly beyond the capacity; otherwise, interleaved with any consumer accesses, it ends in Full exactly when its load of the read index finds slot_count - 1 unread, and else in Queued with exactly its frame appended |
| `FrameQueue.PopDecides` | cpp/include/llab/raw_frame_queue.hpp:62-83 | In every reachable state a pop, interleaved with any producer accesses, ends empty exactly when its load of the write index finds none unread, else with exactly the oldest unread frame if it fits the room, else refused with nothing taken |
| `FrameQueue.CallsAreWaitFree` | cpp/include/llab/raw_frame_queue.hpp:42-83 | In every reachable state each step of a call lowers its own remaining work and no step of the other side raises it |
| `FeedRecovery.CheckDecides` | cpp/include/llab/feed_sequence_recovery.hpp:69-79 | On a sorted buffer the wrapping check passes if and only if its numbers are an interval from last+1, with the largest number at most once, and gives the number after it |
| `FeedRecovery.EmitsInOrder` | cpp/include/llab/feed_sequence_recovery.hpp:80-85 | After a passed check the emit loop delivers last+1, last+2, ... once each, from the buffer, and ends at the checked number |
| `FeedRecovery.ContiguousOfPermutation` | cpp/include/llab/feed_sequence_recovery.hpp:62-64 | Acceptance of a buffer does not depend on the order of arrival |
| `FeedRecovery.ContiguousOfSameNumbers` | specs/feed_sequence_recovery_v1.md:25-28 | Acceptance depends only on which numbers arrived, not how often, when the largest number is not repeated |
| `FeedRecovery.SameNumbersDelivered` | specs/feed_sequence_recovery_v1.md:25-28 | Two finishes over the same numbers deliver the same numbers |
| `FeedRecovery.RepeatedTopIsRefused` | cpp/include/llab/feed_sequence_recovery.hpp:71-78 | A repeated largest 64-bit number is refused although one copy is accepted |
| `FeedRecovery.StepKeepsGateOk` | cpp/include/llab/feed_sequence_recovery.hpp:28-57 | Every call keeps the buffer bounded and beyond the snapshot |
| `FeedRecovery.FeedSequenceRecovery.constructor` | cpp/include/llab/feed_sequence_recovery.hpp:16-18 | A new gate awaits a snapshot with an empty buffer |
| `FeedRecovery.FeedSequenceRecovery.OnIncremental` | cpp/include/llab/feed_sequence_recovery.hpp:28-51 | One step of the gate for all three modes, with its result and the event it delivers |
| `FeedRecovery.FeedSequenceRecovery.BeginSnapshot` | cpp/include/llab/feed_sequence_recovery.hpp:53-57 | Starts a snapshot from any mode and empties the buffer |
| `FeedRecovery.FeedSequenceRecovery.FinishSnapshot` | cpp/include/llab/feed_sequence_recovery.hpp:59-90 | Succeeds if and only if the buffer, in arrival order, covers an interval from last+1; then delivers that interval and goes live after it |
| `FeedRecovery.FeedSequenceRecovery.SortReplay` | cpp/include/llab/feed_sequence_recovery.hpp:62-64 | Sorts the used part of the buffer in place, as a permutation |
| `FeedRecovery.OnlyFinishGoesLive` | cpp/include/llab/feed_sequence_recovery.hpp:59-90 | In every run only a successful finish enters live mode, and nothing is delivered except live or by it |
| `FeedRecovery.LiveHasAnOrigin` | cpp/include/llab/feed_sequence_recovery.hpp:86-89 | A live gate was made live by a successful finish with no snapshot begun since |
| `FeedRecovery.DeliveredIsConsecutive` | cpp/include/llab/feed_sequence_recovery.hpp:28-90 | In every run, from a successful finish until the next begin, the delivered numbers are last+1, last+2, ... and a live gate expects the next one |
| `FeedRecovery.LiveUntilGap` | cpp/include/llab/feed_sequence_recovery.hpp:42-51 | In every run a gate is live from a successful finish exactly until a gap is reported or a snapshot begins |
| `FeedRecovery.LiveAnswers` | specs/feed_sequence_recovery_v1.md:15-19 | In every run, with n events delivered since a finish for L: number L+1+n is delivered and answered Apply, a larger one is answered Gap, a smaller one is ignored and changes nothing |
| `FeedRecovery.SilentAfterGap` | specs/feed_sequence_recovery_v1.md:18-19 | In every run nothing is delivered after a gap until the next successful finish |
| `FeedRecovery.WaitingAnswers` | cpp/include/llab/feed_sequence_recovery.hpp:30-31 | In every run a gate that is new, or reported a gap or a full buffer, or failed a finish, answers every event with Gap and every finish with failure until a snapshot begins |
| `FeedRecovery.SnapshotHolds` | specs/feed_sequence_recovery_v1.md:22-24 | In every run the buffer holds exactly the events beyond the snapshot in order of arrival, or there were more than its capacity and the snapshot is given up |
| `FeedRecovery.SnapshotAnswers` | specs/feed_sequence_recovery_v1.md:22-28 | In every run the answer to every event during a snapshot, and the finish succeeds exactly when all events beyond it fit the buffer and are contiguous, and then delivers them |
| `FeedRecovery.Drive` | cpp/include/llab/feed_sequence_recovery.hpp:14-90 | The object driven by any list of calls produces such a run, and the output vector is exactly the delivered events |
| `L2.SidesDetermined` | cpp/include/llab/bybit_l2_order_book.hpp:42-48 | Two valid sides with the same quantity at every price are the same vector |
| `L2.ValidSideMeans` | cpp/include/llab/bybit_l2_order_book.hpp:64-67 | A side is valid exactly when quantities are positive and neighbouring prices descend for bids and ascend for asks |
| `L2.LastChangeWins` | cpp/include/llab/bybit_l2_ordered_map.hpp:15 | The last change to a side and price decides its quantity, and without one it stays |
| `L2.TwoPassesAgree` | cpp/include/llab/bybit_l2_order_book.hpp:30-35 | With distinct keys, removals first and then updates give each price what the changes in order would |
| `L2.PricesAfterAreNonzero` | cpp/include/llab/bybit_l2_order_book.hpp:68-80 | The prices counted for a delta are those with a nonzero quantity after it |
| `L2.ChangeDecides` | cpp/include/llab/bybit_l2_order_book.hpp:81-88 | With distinct keys every change decides the quantity at its price |
| `L2.OrderIsIrrelevant` | cpp/include/llab/bybit_l2_order_book.hpp:30-33 | A permutation of a delta with distinct keys has the same effect at every price |
| `L2VectorBook.LowerBound` | cpp/include/llab/bybit_l2_order_book.hpp:83 | The search splits the sorted side into prices strictly better and not better than the given one |
| `L2VectorBook.OrderBook.ValidLevels` | cpp/include/llab/bybit_l2_order_book.hpp:64-67 | Accepts exactly the sides with nonzero quantities in strict price order |
| `L2VectorBook.OrderBook.ApplySnapshot` | cpp/include/llab/bybit_l2_order_book.hpp:23-27 | Accepts exactly a nonzero id with two valid sides within the limit; otherwise the book is invalidated |
| `L2VectorBook.OrderBook.DeltaFits` | cpp/include/llab/bybit_l2_order_book.hpp:68-80 | The running counts decide exactly whether keys are distinct and both sides fit after the delta |
| `L2VectorBook.OneMoreChange` | cpp/include/llab/bybit_l2_order_book.hpp:73-77 | A change to an untouched price alters the resulting size by minus one, zero or one as the counters do |
| `L2VectorBook.FitsExactly` | cpp/include/llab/bybit_l2_order_book.hpp:68-80 | A delta passes the gate exactly when no level is named twice and the two sides it leads to are within the limit |
| `L2VectorBook.OrderBook.ApplyChange` | cpp/include/llab/bybit_l2_order_book.hpp:81-88 | Sets one price to its quantity, keeps the side sorted, and fails exactly on an insertion into a full side |
| `L2VectorBook.OrderBook.RemovalPass` | cpp/include/llab/bybit_l2_order_book.hpp:34 | The removals always succeed and zero exactly their prices |
| `L2VectorBook.OrderBook.UpdatePass` | cpp/include/llab/bybit_l2_order_book.hpp:35 | After a passed size check the updates never meet a full side |
| `L2VectorBook.RoomForInsert` | cpp/include/llab/bybit_l2_order_book.hpp:30-35 | Whenever the second pass inserts, the side is below the limit |
| `L2VectorBook.OrderBook.ApplyDelta` | cpp/include/llab/bybit_l2_order_book.hpp:28-37 | Accepted exactly when the book is valid, the id is the successor without wrap, keys are distinct and both sides fit; then each price has the quantity of its change or its old one |
| `L2VectorBook.DeltaIgnoresOrder` | cpp/include/llab/bybit_l2_order_book.hpp:30-33 | A delta and any permutation of it lead to the same vectors |
| `L2VectorBook.GateIgnoresOrder` | cpp/include/llab/bybit_l2_order_book.hpp:68-80 | A delta is accepted if and only if every permutation of it is |
| `L2VectorBook.OrderBook.Best` | cpp/include/llab/bybit_l2_order_book.hpp:39-40 | The front level is the best nonzero price, none exactly when the side has no level |
| `L2Variants.OrderedMapBook.ApplySnapshot` | cpp/include/llab/bybit_l2_ordered_map.hpp:7 | Accepts exactly a nonzero id with nonzero quantities; accepted or not, each price holds the last quantity given before the first empty level |
| `L2Variants.OrderedMapBook.ApplyDelta` | cpp/include/llab/bybit_l2_ordered_map.hpp:8 | Accepts exactly the successor id, modulo 2^64, and applies the changes in order; a refusal keeps the levels |
| `L2Variants.OrderedMapBook.Best` | cpp/include/llab/bybit_l2_ordered_map.hpp:10-11 | The end of the map is the best nonzero price |
| `L2Variants.DenseLadderBook.Set` | cpp/include/llab/bybit_l2_dense_ladder.hpp:25 | Sets exactly one price of one side when it is on the ladder |
| `L2Variants.DenseLadderBook.ApplySnapshot` | cpp/include/llab/bybit_l2_dense_ladder.hpp:10-13 | Accepts exactly a nonzero id with nonzero quantities on the ladder; with all prices on the ladder, accepted or not, each price holds the last quantity given before the first empty level |
| `L2Variants.DenseLadderBook.ApplyDelta` | cpp/include/llab/bybit_l2_dense_ladder.hpp:14-18 | Accepts exactly the successor id, modulo 2^64, with all prices on the ladder, and applies the changes in order |
| `L2Variants.DenseLadderBook.Best` | cpp/include/llab/bybit_l2_dense_ladder.hpp:20-21 | The scan finds the best nonzero price |
| `L2Variants.BestOfAll` | cpp/include/llab/bybit_l2_order_book.hpp:39-40 | The map and the dense book return the same level; the vector book returns it too, its own best nonzero level, while it is valid, and none otherwise |
| `L2Variants.BestOfIsExtreme` | cpp/include/llab/bybit_l2_order_book.hpp:39-40 | The best bid is the highest price with a quantity, the best ask the lowest |
| `L2Variants.FollowsOne` | cpp/include/llab/bybit_l2_order_book.hpp:23-37 | A book and a message determine the next book |
| `L2Variants.SnapshotAll` | cpp/include/llab/bybit_l2_order_book.hpp:23-27 | A snapshot keeps the map and dense books equal, and invalidates the vector book alone exactly when its id and quantities are nonzero and a side is too long or not strictly sorted |
| `L2Variants.DeltaAll` | cpp/include/llab/bybit_l2_order_book.hpp:28-37 | A delta keeps the map and dense books equal, and invalidates a valid vector book alone exactly when its id is the successor modulo 2^64 and either the old id is the largest, a key repeats or a side would not fit |
| `L2Variants.Feed` | cpp/include/llab/bybit_l2_order_book.hpp:23-40 | Over every feed on the ladder, after each message: the map and dense books return the same flag and best levels; the vector book returns those of the one book the messages lead to, equal to the others while it is valid; it drops out alone exactly at the stated messages; and the others' flag is a function of ids and empty levels alone |
| `L2Variants.Diverging` | cpp/include/llab/bybit_l2_order_book.hpp:71-72 | New books driven by one snapshot and a delta that names a price twice: the vector book returns nothing, the map and dense books the second quantity |
| `Crc.StepIsLinear` | cpp/include/llab/raw_frame_record.hpp:40-42 | One bit step of the register commutes with exclusive or |
| `Crc.StepsAreInjective` | cpp/include/llab/raw_frame_record.hpp:40-42 | No number of bit steps merges two 32-bit registers |
| `Crc.RegisterAtOnce` | cpp/include/llab/raw_frame_record.hpp:38-43 | Feeding bytes one by one equals mixing in their little-endian number at once and then stepping |
| `Crc.ShortBurstShows` | cpp/include/llab/raw_frame_record.hpp:36-45 | From one register, two different strings of at most four bytes never meet |
| `Crc.BurstShows` | cpp/include/llab/raw_frame_record.hpp:36-45 | Strings that differ only within four adjacent bytes leave different registers |
| `Crc.ChecksumMatchesResidue` | cpp/include/llab/raw_frame_record.hpp:90 | A four-byte trailer equals the checksum if and only if feeding it too leaves the fixed residue |
| `CrcRemainder.GeneratorBits` | cpp/include/llab/raw_frame_record.hpp:41 | The reflected constant is the generator listed by its powers, without the leading one |
| `CrcRemainder.RemainderIsUnique` | cpp/include/llab/raw_frame_record.hpp:36-45 | Division by the generator leaves one remainder |
| `CrcRemainder.RegisterIsRemainder` | cpp/include/llab/raw_frame_record.hpp:38-43 | The register after any bytes is the remainder of the message times x^32, with the initial register added to its leading terms |
| `CrcRemainder.ChecksumIsRemainder` | cpp/include/llab/raw_frame_record.hpp:36-45 | The checksum is the inverted remainder of the message with its first 32 bits inverted |
| `Crc.Crc32c` | cpp/include/llab/raw_frame_record.hpp:36-45 | The masked loop computes the complemented register of the reflected polynomial |
| `FrameCodec.AppendLe` | cpp/include/llab/raw_frame_record.hpp:47-52 | Appends exactly the little-endian bytes of the value |
| `Bytes.LeAt` | cpp/include/llab/raw_frame_record.hpp:49-51 | Byte i of the little-endian form is the value divided by 256^i, modulo 256 |
| `FrameCodec.ReadLittleEndian` | cpp/include/llab/raw_frame_record.hpp:54-61 | Or-ing shifted bytes gives the number those bytes denote |
| `FrameCodec.EncodeRawFrame` | cpp/include/llab/raw_frame_record.hpp:63-75 | The appending code produces that frame |
| `FrameCodec.DecodeRawFrame` | cpp/include/llab/raw_frame_record.hpp:83-103 | The length, size and checksum tests followed by the field reads compute the specified decoding |
| `FrameCodec.RoundTrip` | cpp/include/llab/raw_frame_record.hpp:63-103 | Decoding an encoded record gives it back exactly when its payload is within the limit, and nothing otherwise |
| `FrameCodec.DecodedIsEncoded` | cpp/include/llab/raw_frame_record.hpp:83-103 | Every byte string that decodes is the encoding of what it decodes to |
| `FrameCodec.BurstIsRejected` | cpp/include/llab/raw_frame_record.hpp:83-92 | A decodable frame changed only within four adjacent bytes, length field included, never decodes |
| `FrameCodec.SingleByteIsRejected` | cpp/include/llab/raw_frame_record.hpp:83-92 | Changing any one byte of an encoded frame makes it undecodable |
| `Capture.Writer.constructor` | cpp/include/llab/raw_frame_capture.hpp:29-44 | A new file holds magic, topic length and topic |
| `Capture.Writer.Append` | cpp/include/llab/raw_frame_capture.hpp:46-51 | Adds exactly one frame, refused exactly after close |
| `Capture.Writer.Close` | cpp/include/llab/raw_frame_capture.hpp:53-62 | Adds the completion marker once; closing again changes nothing |
| `Capture.RecordAll` | cpp/include/llab/raw_frame_capture.hpp:29-62 | A whole recording produces the completed file, and is refused exactly for an empty or over-long topic |
| `Capture.Reader.ReadHeader` | cpp/include/llab/raw_frame_capture.hpp:73-97 | Reading magic, topic length, topic and trailer from the stream succeeds exactly for the files the format specification opens, and ends at the first record |
| `Capture.OpenReader` | cpp/include/llab/raw_frame_capture.hpp:73-98 | Gives a reader at the first record exactly for the files that open, none for every other file |
| `Capture.Reader.Next` | cpp/include/llab/raw_frame_capture.hpp:102-119 | Reading header and payload from the stream, with every limit and overrun check, decoding and comparing the index gives the specified item, and advances past exactly that frame |
| `Capture.ReadsFrames` | cpp/include/llab/raw_frame_capture.hpp:102-119 | Frames numbered consecutively up to the data end are all read, in order |
| `Capture.ReadWasFrames` | cpp/include/llab/raw_frame_capture.hpp:102-119 | Whatever is read to the end is byte for byte the frames of the records returned |
| `Capture.ReadBack` | cpp/include/llab/raw_frame_capture.hpp:73-119 | Reading a file with the reader object gives the records of the specification or fails |
| `Capture.ReadIsWritten` | cpp/include/llab/raw_frame_capture.hpp:73-119 | Every readable file is the completed recording of the topic and records returned |
| `Capture.WrittenIsRead` | cpp/include/llab/raw_frame_capture.hpp:29-119 | A completed recording reads back exactly if and only if records are numbered from zero and payloads within the limit |
| `Capture.RecordAndRead` | cpp/include/llab/raw_frame_capture.hpp:29-119 | Writer and reader run one after the other return topic and records under exactly that condition and an admissible topic |
| `Capture.CorruptionIsNoticed` | cpp/include/llab/raw_frame_capture.hpp:73-119 | A completed recording changed within four adjacent bytes, length fields apart, is still readable if and only if nothing but topic bytes changed, and then reads as the same records under the changed topic |
| `Capture.TopicIsNotChecked` | cpp/include/llab/raw_frame_capture.hpp:83-85 | Changing any topic byte of any readable recording goes unnoticed |
| `Capture.PrefixNeedsMark` | cpp/include/llab/raw_frame_capture.hpp:18-22 | A readable proper prefix must end where a record number spells the completion marker |
| `Capture.CutAtMark` | cpp/include/llab/raw_frame_capture.hpp:21-22 | Above that record count the file cut there is readable |
| `Capture.TruncationIsNoticed` | cpp/include/llab/raw_frame_capture.hpp:18-22 | No proper prefix of a completed recording is readable if and only if its record count is at most the number the marker spells |
| `FixedPoint.ParseFixed` | cpp/include/llab/bybit_v5_l2_decoder.hpp:33-58 | The character loops compute the specification: wrapping accumulation, at most eight fraction digits, final range check |
| `FixedPoint.WellFormedIsDecimal` | cpp/include/llab/bybit_v5_l2_decoder.hpp:34-53 | The texts looked into are exactly whole digits, optionally followed by a point and at most eight digits |
| `FixedPoint.ExactMeans` | cpp/include/llab/bybit_v5_l2_decoder.hpp:54-57 | For w.f with k fraction digits, the scaled value times 10^k is the digits of w and f read as one number, times 10^8 |
| `FixedPoint.ParseMeans` | cpp/include/llab/bybit_v5_l2_decoder.hpp:33-58 | A text of another form is rejected; a decimal whose whole part fits 64 bits gives its value times 10^8 exactly when that fits |
| `FixedPoint.AccumulatesExactly` | cpp/include/llab/bybit_v5_l2_decoder.hpp:38-43 | A whole part below 2^64 is never refused and never altered |
| `FixedPoint.AccumulatesModulo` | cpp/include/llab/bybit_v5_l2_decoder.hpp:38-43 | The accumulator is the number modulo 2^64, and the loop refuses if and only if before some digit the number so far, modulo 2^64, exceeds a tenth of the range |
| `FixedPoint.RangeCheckIsExact` | cpp/include/llab/bybit_v5_l2_decoder.hpp:55-57 | The division guard rejects if and only if the scaled value does not fit |
| `FixedPoint.ParsesExactly` | cpp/include/llab/bybit_v5_l2_decoder.hpp:33-58 | The result is the exact scaled value, or a rejection, if and only if the text is not one whose whole part is 2^64 or more, passes the guard before each digit, and leaves a remainder modulo 2^64 that with the fraction fits 64 bits |
| `FixedPoint.NineteenDigitsAreExact` | cpp/include/llab/bybit_v5_l2_decoder.hpp:38-43 | Texts with at most nineteen whole digits are always parsed exactly |
| `FixedPoint.PrintedIsParsed` | cpp/include/llab/bybit_v5_l2_decoder.hpp:33-58 | Every printed whole number whose scaled value fits is parsed back |
| `FixedPoint.FixedRoundTrip` | cpp/include/llab/bybit_v5_l2_decoder.hpp:33-58 | Every 64-bit count of 1e-8, printed with eight fraction digits, is parsed back |
| `FixedPoint.WrapIsAccepted` | cpp/include/llab/bybit_v5_l2_decoder.hpp:38-43 | The four twenty-digit texts just past 2^64 are accepted with a small wrong value |

## Left out

- OrderIndex.Capacity: live limits between 2^62 and 2^63 are excluded, because the sizing loop never ends for them; `OrderIndex.DoublingStops` states that.
- OrderIndex.NewIndex: excludes the same limits, for the same reason.
- PackedBook.NewBook: excludes the same limits, for the same reason.
- BitmapBook.Capacity: excludes the limits whose doubled 64-bit value exceeds 2^63, for which the loop never ends; `BitmapBook.SizingStopsExactly` states that.
- BitmapBook.NewBook: excludes the same limits.
- BitmapLadder.Ladder.AddLevel: takes a nonzero quantity, because every caller has rejected zero; the same holds for `Ladders.LadderPair.AddLevel` and `CachedLadder.Ladders.AddLevel`.
- PackedBook.Lockstep: stops at the first event v6 cannot take; after a corrupting event only the parts are followed (`PackedBook.ApplyAny`), not what the book shows.
- TombstoneIndex.Replay: ids are nonzero, because the books reject id zero before they reach the table.
- Capture.Writer.constructor: takes an admissible topic; `Capture.RecordAll` has the refusal.
- Capture.Reader.Next: says nothing of the stream position after it has thrown, and reading stops there.
- Capture.CorruptionIsNoticed: leaves out changed length fields, of the topic and of the frames, because they make the reader check other bytes and whether it notices depends on those.
- SnapshotCell.AcceptedSnapshotsAreFaithful: memory is sequentially consistent, so acquire, release and relaxed orderings are not told apart.
- FrameQueue.QueueIsSafe: memory is sequentially consistent in the same way; the header is one access and the payload one access per byte.
- FeedRecovery.ContiguousOfSameNumbers: needs the largest 64-bit number not to be repeated; `FeedRecovery.RepeatedTopIsRefused` shows why.
- The SplitMix64 mixer is an arbitrary function in every index result, so nothing is said about how well it spreads ids.
- FNV-1a collisions: equal books have equal digests, and streams that differ in one byte do not; nothing more is claimed of the converse.
- `std::sort`, `std::map`, `std::unordered_map` and `std::lower_bound` are taken by what they guarantee (a sorted permutation, ordered keys, a map, the split point).
- The sorted level vectors of v2, the complete v2, v3 and v5 books: their table, ladders and records are modelled here as parts, the rest would repeat v4 and v6.
- The L2 depth sum, top-level spans and L2 digest.
- JSON decoding, feed subscription, network and TLS, the asynchronous recorder thread.
- The file system: partial files, renaming, overwriting and write errors; a capture is the bytes written.
- Exception classes and messages.
- Latency metrics, feature and label extraction, benchmarks, allocation behaviour, the Rust versions.
