# ninjabook order books, modelled in Dafny

ninjabook keeps a limit order book for one instrument from a stream of market-data events.
An event is either a depth update or a trade:

- A depth update sets the size resting at a price. A size of zero removes the level.
- A trade consumes size at a price.

The library ships three books that share one interface. Each exposes `process`,
`process_stream_bbo`, `best_bid`/`best_ask`, the top levels of each side, `midprice` and
`weighted_midprice`:

- **the map book** (`src/orderbook.rs`): each side is a `BTreeMap` from an integer price tick to a
  level. A best-bid/best-ask tracker is updated by a one-sided rule, and is rescanned only when a
  removal takes away the best price.
- **the fixed book** (`src/fixed_orderbook.rs`): each side is a 100-slot `Buffer` of levels,
  kept best first. Empty slots hold NaN. A quarter-step search finds a price. Insertion shifts the
  run of levels after the slot; removal moves the hole back past that run. The best is re-read
  from the first slot.
- **the naive book** (`src/naive_orderbook.rs`): each side is a `Vec` of levels kept in ascending
  price order, searched linearly and re-sorted after each upsert. It is the reference
  implementation.

The model also covers two shared pieces:

- `Level` (`src/level.rs`): its constructors, ordering and equality.
- `Event` (`src/event.rs`): its tick quantisation `price_ticks`, and the map decoder
  `visit_map`, modelled as a fold over a sequence of key/value pairs.

How the model is built:

- Prices and sizes are exact reals. A NaN empty slot is the `Empty` slot of `FixedBuffer.Slot`.
- Timestamps, sequence numbers and tick keys are `u64` values. The saturating float-to-integer
  cast is written out as `Events.TruncU64`.
- The books are immutable datatypes, and every operation is a function from book to book.
- The fixed buffer's three loops are also written as methods whose loop invariants tie them to
  the functional definitions: the search, the shifting insert, and the remove with its
  `move_back` pass.

Modules, one per file:

- `Wrappers`: `Option`/`Result`.
- `Seqs`: `Min`, `Reverse`, `Take` and the facts about them that the books share.
- `Events`.
- `Levels`.
- `MapBook`.
- `NaiveBook`.
- `FixedBuffer`.
- `FixedBook`.
- `Agreement`: proves that the fixed book and the naive book hold the same levels after any depth
  update, as long as the fixed side has room.

## Model

| member | source | states |
|---|---|---|
| Events.TruncU64 | src/event.rs:20 | the `as u64` cast: negative values give 0, values beyond the range give `u64::MAX`, and in range the result is the whole part (r <= x < r + 1) |
| Events.TruncU64Monotone | src/event.rs:20 | the cast is monotone, so larger prices never get smaller tick keys |
| Events.PriceTicks | src/event.rs:19-21 | for a positive tick size and an in-range quotient, the key is the number of whole ticks: key * tick <= price < (key + 1) * tick |
| Events.AsFlag | src/event.rs:67-71 | a flag value decodes to false exactly when it is 0 and to true exactly when it is 1; anything else leaves it unset |
| Events.Finish | src/event.rs:102-116 | the event is built exactly when all six fields are set, and it carries their values; otherwise the error names the first unset field in the order timestamp, seq, is_trade, is_buy, price, size |
| Events.StepEffect | src/event.rs:49-99 | one loop step: an unknown key changes nothing, a key whose field is set is a duplicate-field error, and otherwise the value either fails to read or sets (or, for a bad flag, leaves unset) the field |
| Events.ScanAppend | src/event.rs:49-100 | the loop over a concatenation is the loop over the second part started where the first ended, and an error in the first part ends it |
| Events.UnknownKeySkipped | src/event.rs:95-98 | removing a pair with an unknown key never changes the decoding |
| Events.DuplicateReportedAtRepeat | src/event.rs:51-94 | a known key seen again while its field is set ends decoding with a duplicate-field error for that key, whatever follows |
| Events.UnrecognisedFlagLeavesFieldUnset | src/event.rs:63-82 | a flag value other than 0 or 1 leaves the flag unset, so the same key may be supplied again without a duplicate error |
| Events.ScanSound | src/event.rs:49-100 | every field the loop sets was set beforehand or supplied by some pair |
| Events.VisitMapSound | src/event.rs:38-117 | a decoded event's every field is a value some pair supplied for that key |
| Events.ScanComplete | src/event.rs:49-100 | a record with no repeated known key and readable values never fails in the loop, and sets exactly the fields it names |
| Events.VisitMapComplete | src/event.rs:38-117 | such a record that names all six fields decodes, and each field of the event comes from the record |
| Levels.New | src/level.rs:12-14 | the level carries the given price and size |
| Levels.Minimum | src/level.rs:16-21 | size 0 and a price at or below every price a double can hold |
| Levels.Maximum | src/level.rs:23-28 | size 0 and a price at or above every price a double can hold |
| Levels.Cmp | src/level.rs:31-45 | levels are ordered by price, then by size; Equal exactly when both fields are equal |
| Levels.EqIsIdentity | src/level.rs:47-51 | level equality and a comparison of Equal both coincide with identity of the two levels |
| Levels.CmpIsTotalOrder | src/level.rs:31-45 | the comparison is antisymmetric, transitive and total, so the `unwrap` in `cmp` never fails on these values |
| Levels.FromEvent | src/level.rs:61-68 | the level takes the event's price and size |
| Levels.Midpoint | src/orderbook.rs:197-204 | the midprice is equidistant from the best bid and the best ask |
| Levels.WeightedMid | src/orderbook.rs:206-215 | the division by the summed sizes is non-finite exactly when the sizes sum to zero; otherwise the value times that sum is the cross-weighted numerator |
| Levels.WeightedMidBetween | src/orderbook.rs:206-215 | with positive sizes the weighted midprice is finite and lies between the two prices |
| Levels.TicksMonotone | src/orderbook.rs:106 | counting whole ticks with a positive inverse tick size never gives a higher price fewer ticks |
| MapBook.New | src/orderbook.rs:16-26 | an empty book whose inverse tick size is the reciprocal of the tick size, with both gate fields 0 |
| MapBook.BestFirst | src/orderbook.rs:187-195 | every key of a side exactly once, strictly from best to worst: descending for bids, ascending for asks |
| MapBook.PriceKeyMonotone | src/orderbook.rs:106 | with the intended key, a higher price never gets a lower tick |
| MapBook.PriceKeySeparatesTicks | src/orderbook.rs:106 | with the intended key, prices at least one tick apart get different keys |
| MapBook.Process | src/orderbook.rs:73-85 | an event older on both timestamp and sequence leaves the book unchanged; otherwise the book takes its timestamp and sequence and applies the trade or the depth update |
| MapBook.GateCanMoveTimestampBackwards | src/orderbook.rs:73-85 | because the gate needs both counts to be older, an event older in timestamp alone is admitted and moves the timestamp backwards |
| MapBook.ProcessStreamBbo | src/orderbook.rs:87-102 | processes the event, and reports the new best pair exactly when either best changed |
| MapBook.ProcessLvl2 | src/orderbook.rs:104-159 | a depth event changes only its own side, as the side's depth update at the intended key, the whole number of ticks in the price; gate fields and tick size stay |
| MapBook.ProcessLvl2AsWritten | src/orderbook.rs:104-159 | the same update at the key line 106 computes, `price * tick_size` ticks |
| MapBook.DepthUpdate | src/orderbook.rs:104-159 | removal: a missing key changes nothing, otherwise the key is deleted and the best is rescanned only when it had the removed price. Upsert: the key is added or its size replaced, no other key changes, and the best becomes the event's level when none existed or the price is at least as good |
| MapBook.RemovalKeepsBestConsistent | src/orderbook.rs:109-116 | when the tracked best is the side's extreme level, it still is after a removal |
| MapBook.UpsertKeepsBestConsistent | src/orderbook.rs:118-130 | when the tracked best is the extreme level, every level sits under its own price's key, and the event's price is the price already stored at its key (if any), both still hold after an upsert |
| MapBook.UpsertKeepsOnGrid | src/orderbook.rs:106-121 | every level still sits under the key of its own price after any upsert: a new key stores the event's level, and a second price inside a held tick keeps the stored price |
| MapBook.UpsertKeepsExtreme | src/orderbook.rs:118-130 | when the tracked best is the extreme level, every level sits under its own price's key, and the event's price is the price already stored at its key (if any), the one-sided rule leaves the best the extreme level after an upsert |
| MapBook.SecondPriceInTickLeavesBestUnheld | src/orderbook.rs:104-130 | without that last hypothesis the rule fails: with tick 0.01, a bid at 16.004 on a held 16.001 keeps the stored price yet becomes the best, and a later removal at that tick leaves an empty side with a best |
| MapBook.DepthUpdateKeepsBestConsistent | src/orderbook.rs:104-159 | an admitted depth event whose price is the price already stored at its key (if any) keeps the best of its side equal to that side's extreme level, on a side whose levels sit under their own keys |
| MapBook.DepthEventUpdatesItsSide | src/orderbook.rs:73-85 | an admitted depth event replaces only its own side's levels and best, and leaves the other side alone |
| MapBook.ProcessTrade | src/orderbook.rs:161-177 | a trade changes only its side's levels, as the trade update at the intended key, and never the best |
| MapBook.ProcessTradeAsWritten | src/orderbook.rs:161-177 | the trade at the key line 168 computes, `price * tick_size` ticks: only its side's levels change, never the best |
| MapBook.TradeKeepsOnGrid | src/orderbook.rs:168-176 | a trade adds no key and leaves every level under the key of its own price |
| MapBook.TradeKeyAsWrittenHitsOtherLevel | src/orderbook.rs:168 | with a tick of 0.01 and a bid at 16.0, a trade at 7.0 as written consumes the 16.0 level, stored under the same key 0; at the intended key 700 it finds nothing and the bid stays |
| MapBook.TradeUpdate | src/orderbook.rs:170-176 | a missing key changes nothing; a trade at least the resting size deletes the level; a smaller one reduces its size by the traded amount |
| MapBook.TradeCanLeaveBestStale | src/orderbook.rs:161-177 | a trade that exhausts the best bid leaves a best bid the side no longer holds |
| MapBook.RemovalIdempotent | src/orderbook.rs:109-116 | removing a price twice leaves the book as removing it once |
| MapBook.Top | src/orderbook.rs:187-195 | at most n levels; they are the levels of a side's best n keys, best first, and no omitted key beats an included one |
| MapBook.TopKeys | src/orderbook.rs:187-195 | the first n keys best first: each held, strictly ordered, and better than every key left out |
| MapBook.Midprice | src/orderbook.rs:197-204 | a midprice exists exactly when both bests do, and it is their midpoint |
| MapBook.WeightedMidprice | src/orderbook.rs:206-215 | a weighted midprice exists exactly when both bests do, and it is the size-weighted mid of the two |
| MapBook.KeyAsWrittenMergesLevels | src/orderbook.rs:106 | with the key as written and a tick of 0.01, bids at 16.0 and 7.0 land under one key 0, and the book shows one level, at the first bid's price 16.0, with the later size |
| MapBook.KeyKeepsLevelsApart | src/orderbook.rs:106 | with the intended key the same two bids are two levels, best first, as the test at src/orderbook.rs:223-260 expects |
| MapBook.TwoKeysBestFirst | src/orderbook.rs:187-195 | a bid side holding exactly two keys lists the higher one first |
| MapBook.TopOfTwoBids | src/orderbook.rs:187-191 | a bid side holding exactly two keys shows both levels, the higher key first |
| NaiveBook.PositionOf | src/naive_orderbook.rs:61 | no index exactly when no level has the price; otherwise the first index holding it |
| NaiveBook.RemoveAt | src/naive_orderbook.rs:62 | `Vec::remove`: the levels before the index stay and the ones after move down one place |
| NaiveBook.InsertByPrice | src/naive_orderbook.rs:80-81 | one step of the stable sort: the same levels plus the new one, as a multiset |
| NaiveBook.InsertKeepsSorted | src/naive_orderbook.rs:80-81 | inserting into a sorted vector keeps it sorted |
| NaiveBook.SortByPrice | src/naive_orderbook.rs:80-81 | the result is sorted by price and is a permutation of the input |
| NaiveBook.SortOfSortedIsIdentity | src/naive_orderbook.rs:80-81 | sorting an already sorted vector changes nothing, because the sort is stable |
| NaiveBook.SortAfterPushIsInsertAtRank | src/naive_orderbook.rs:65-81 | pushing a new price onto an ascending vector and sorting puts it at its rank |
| NaiveBook.InsertKeepsAscending | src/naive_orderbook.rs:80-81 | inserting a new price into a strictly ascending vector keeps it strictly ascending |
| NaiveBook.InsertByPriceAtRank | src/naive_orderbook.rs:80-81 | into a strictly ascending vector a new price goes after every cheaper level and before every dearer one |
| NaiveBook.UpsertNewPriceSorts | src/naive_orderbook.rs:64-82 | on a side with a best, an upsert at a price not held pushes the level and sorts |
| NaiveBook.New | src/naive_orderbook.rs:16-25 | both sides empty, no bests, gate fields 0 |
| NaiveBook.Process | src/naive_orderbook.rs:27-39 | an event older on either count leaves the book unchanged; otherwise the book takes its timestamp and sequence and applies it |
| NaiveBook.ProcessStreamBbo | src/naive_orderbook.rs:41-55 | processes the event, and reports the new best pair exactly when either best changed |
| NaiveBook.ProcessLvl2 | src/naive_orderbook.rs:57-110 | only the event's side changes, as the depth update says |
| NaiveBook.DepthUpdate | src/naive_orderbook.rs:57-110 | removal deletes the first level at the price and never moves the best. An upsert overwrites or appends the level, and moves the best by the one-sided rule. The vector is re-sorted only when a best already existed |
| NaiveBook.ProcessTrade | src/naive_orderbook.rs:112-126 | a trade changes only its side's levels and never the best |
| NaiveBook.TradeUpdate | src/naive_orderbook.rs:118-125 | a missing price changes nothing; a trade at least the resting size removes the first level at it; a smaller one reduces its size |
| NaiveBook.TopNBids | src/naive_orderbook.rs:136-138 | at most n levels, read from the back of the vector |
| NaiveBook.TopNAsks | src/naive_orderbook.rs:140-142 | at most n levels, read from the front of the vector |
| NaiveBook.TopNBidsDescend | src/naive_orderbook.rs:136-138 | on a strictly ascending book the top bids come out in strictly descending price |
| NaiveBook.Midprice | src/naive_orderbook.rs:144-150 | a midprice exists exactly when both bests do, and it is their midpoint |
| NaiveBook.WeightedMidprice | src/naive_orderbook.rs:152-160 | a weighted midprice exists exactly when both bests do, and it is the size-weighted mid of the two |
| NaiveBook.RemoveAtKeepsAscending | src/naive_orderbook.rs:60-63 | removing a level keeps a strictly ascending side strictly ascending |
| NaiveBook.UpsertKeepsAscending | src/naive_orderbook.rs:64-82 | an upsert followed by the sort keeps a side strictly ascending |
| NaiveBook.ReplaceKeepsAscending | src/naive_orderbook.rs:65-66 | overwriting a level with one at the same price keeps a side strictly ascending |
| NaiveBook.DepthUpdateKeepsSideInv | src/naive_orderbook.rs:57-110 | a depth update keeps a side strictly ascending, and keeps a side without a best empty (which is why skipping the sort is safe) |
| NaiveBook.TradeUpdateKeepsAscending | src/naive_orderbook.rs:112-126 | a trade keeps a side strictly ascending |
| NaiveBook.ProcessKeepsInv | src/naive_orderbook.rs:27-39 | every event keeps both sides strictly ascending, and keeps a side without a best empty |
| NaiveBook.AscendingPositionIsUnique | src/naive_orderbook.rs:61 | on a strictly ascending side the position found is the only index holding the price |
| NaiveBook.RemovalContents | src/naive_orderbook.rs:60-63 | after a removal, a level is held exactly when it was held before and is not at the event's price |
| NaiveBook.UpsertContents | src/naive_orderbook.rs:64-82 | after an upsert, a level is held exactly when it is the event's level or a previously held level at another price |
| NaiveBook.SortKeepsMembers | src/naive_orderbook.rs:80-81 | the sort neither adds nor drops a level |
| NaiveBook.UpsertedMembers | src/naive_orderbook.rs:65-69 | overwriting or pushing keeps the levels at other prices and adds the event's level |
| NaiveBook.RemovalIdempotent | src/naive_orderbook.rs:60-63 | removing a price twice leaves the book as removing it once |
| NaiveBook.TradeCanLeaveBestStale | src/naive_orderbook.rs:112-126 | a trade that exhausts the best bid leaves a best bid the side no longer holds |
| NaiveBook.RemovalCanLeaveBestStale | src/naive_orderbook.rs:60-63 | removing the best bid leaves the best unchanged, so the book reports a price it no longer holds |
| FixedBuffer.New | src/fixed_orderbook.rs:204-208 | every slot is empty |
| FixedBuffer.WellFormedShape | src/fixed_orderbook.rs:204-328 | a well-formed buffer is full up to its count and empty after it |
| FixedBuffer.OccupiedIsFilled | src/fixed_orderbook.rs:139-169 | in a well-formed buffer the full slots are exactly the leading run |
| FixedBuffer.FilledIsRanked | src/fixed_orderbook.rs:204-328 | the levels of a well-formed buffer run strictly from best to worst |
| FixedBuffer.Locate | src/fixed_orderbook.rs:216-236 | the search over [left, right) answers Found only at a slot holding the target, and otherwise a slot within the bracket |
| FixedBuffer.Narrow | src/fixed_orderbook.rs:217-231 | one probe a quarter of the way in: a hit only at a slot holding the target, otherwise a strictly smaller bracket inside the old one |
| FixedBuffer.LocateMissIsInsertionPoint | src/fixed_orderbook.rs:216-236 | on a well-formed buffer a miss lands where the target belongs: every slot before holds a better level and every slot after is empty or worse |
| FixedBuffer.LocateMissBefore | src/fixed_orderbook.rs:216-236 | when every probe that sends the search right has only better slots before it, every slot before a miss is better |
| FixedBuffer.LocateMissAfter | src/fixed_orderbook.rs:216-236 | when every probe that sends the search left has only empty or worse slots from it on, so does a miss |
| FixedBuffer.SearchFor | src/fixed_orderbook.rs:210-266 | Found names a slot holding the target; on a well-formed buffer Found happens exactly when some slot holds it, and a miss is the insertion point |
| FixedBuffer.FindIndex | src/fixed_orderbook.rs:210-266 | the quarter-step loop computes the same answer as the search |
| FixedBuffer.FullBufferSearchReturnsCapacity | src/fixed_orderbook.rs:233-236 | on a full buffer whose levels all beat the target, the search answers one past the last slot |
| FixedBuffer.InsertAt | src/fixed_orderbook.rs:308-323 | the level goes to the index; the run of full slots from there moves up one place, dropping off the end; slots before the index and after the run stay |
| FixedBuffer.Insert | src/fixed_orderbook.rs:308-323 | the replace loop computes that insertion |
| FixedBuffer.InsertKeepsWellFormed | src/fixed_orderbook.rs:308-323 | inserting at the insertion point keeps the buffer well formed, and puts the level at its rank, keeping the first 100 levels |
| FixedBuffer.RankedInsert | src/fixed_orderbook.rs:308-323 | a level placed after the better levels and before the worse ones keeps a sequence strictly ranked |
| FixedBuffer.RemoveAt | src/fixed_orderbook.rs:268-290 | the slots after the index up to the next empty slot move down one place, and the hole ends up at the end of that run |
| FixedBuffer.Remove | src/fixed_orderbook.rs:268-290 | emptying the slot and swapping the hole back computes that removal, and the removed slot is returned |
| FixedBuffer.RemoveKeepsWellFormed | src/fixed_orderbook.rs:282-290 | removing a held level keeps the buffer well formed and takes exactly that level out |
| FixedBuffer.RankedRemove | src/fixed_orderbook.rs:282-290 | dropping one level keeps a sequence strictly ranked |
| FixedBuffer.Modify | src/fixed_orderbook.rs:325-328 | the level at the index takes the new size and keeps its price; nothing else changes |
| FixedBuffer.ModifyKeepsWellFormed | src/fixed_orderbook.rs:325-328 | changing a held level's size keeps the buffer well formed and changes only that size |
| FixedBuffer.First | src/fixed_orderbook.rs:292-298 | the intended `first`: a level exactly when the first slot holds one |
| FixedBuffer.FirstIsBest | src/fixed_orderbook.rs:292-298 | on a well-formed buffer that level beats every other level, and no level means an empty side |
| FixedBuffer.FirstAsWritten | src/fixed_orderbook.rs:292-298 | `first` as written: it reports nothing exactly when the first slot holds a level priced 0.0 |
| FixedBuffer.FirstAsWrittenAgrees | src/fixed_orderbook.rs:292-298 | `first` as written reads the best correctly exactly when the first slot holds a level not priced 0.0 |
| FixedBuffer.FirstAsWrittenMisreports | src/fixed_orderbook.rs:292-298 | an empty side is reported as a level, and a level priced 0.0 as no level |
| FixedBuffer.Top | src/fixed_orderbook.rs:139-169 | for n > 0, the first n levels of the full slots in slot order; for n = 0 nothing when the first slot is empty, otherwise every level, since the length check follows the push |
| FixedBuffer.RankedPrefixIsWellFormed | src/fixed_orderbook.rs:204-328 | a ranked run of levels followed by empty slots is a well-formed buffer holding exactly that run |
| FixedBook.New | src/fixed_orderbook.rs:24-33 | both buffers empty and well formed, no bests, gate fields 0 |
| FixedBook.Process | src/fixed_orderbook.rs:35-48 | an event older on either count leaves the book unchanged; otherwise the book takes its timestamp and sequence and applies it |
| FixedBook.ProcessStreamBbo | src/fixed_orderbook.rs:50-65 | processes the event, and reports the new best pair exactly when either best changed |
| FixedBook.ProcessLvl2 | src/fixed_orderbook.rs:67-108 | only the event's side changes, as the depth update says |
| FixedBook.DepthUpdate | src/fixed_orderbook.rs:67-108 | removal deletes the slot found and re-reads the best only when the removed price was the best's; an upsert modifies or inserts and then re-reads the best from the first slot with the corrected `first`; a full side drops a new level that ranks last |
| FixedBook.DepthUpdateAsWritten | src/fixed_orderbook.rs:67-108 | the depth update as written: the same buffer edits, the best re-read by `first` as written after every upsert and after removing the best's price, a NaN best never re-read on removal, and a new level with no slot left is an out-of-bounds write |
| FixedBook.DepthUpdateAsWrittenAgrees | src/fixed_orderbook.rs:67-108 | away from the out-of-bounds insert, the update as written edits the buffer as the guarded one does; where it re-reads the best, the bests agree exactly when the first slot then holds a level not priced 0.0, and otherwise they always agree |
| FixedBook.RemovingOnlyBidLeavesNanBest | src/fixed_orderbook.rs:71-79 | on a new book, a bid at 16.0 and then its removal leave the best bid as written at the NaN-priced empty slot, which equals nothing, not even itself, so a best-pair comparison always reports a change; the guarded update leaves no best bid |
| FixedBook.InsertAsWritten | src/fixed_orderbook.rs:81-83 | the insert as written is out of bounds exactly when the search answers one past the last slot |
| FixedBook.FullSideInsertOutOfBounds | src/fixed_orderbook.rs:81-83 | on a full side, a new price worse than every level makes the insert as written write out of bounds |
| FixedBook.DepthUpdateKeepsWellFormed | src/fixed_orderbook.rs:67-108 | a depth update keeps the buffer well formed; the held levels change exactly as a removal, a size change or an insertion at rank |
| FixedBook.FoundUpdateKeepsWellFormed | src/fixed_orderbook.rs:71-84 | at a held price, a removal takes out that level and an upsert changes only its size, and the buffer stays well formed |
| FixedBook.VacantUpdateKeepsWellFormed | src/fixed_orderbook.rs:71-84 | at a price not held, no level has the price, a removal changes nothing, and an upsert inserts at rank keeping the first 100 |
| FixedBook.RemovalLeavesPriceUnheld | src/fixed_orderbook.rs:71-79 | after a removal on a well-formed side no slot holds the removed price |
| FixedBook.UnlistedPriceUnheld | src/fixed_orderbook.rs:204-328 | a well-formed buffer holds no price its ranked levels do not list |
| FixedBook.ProcessTrade | src/fixed_orderbook.rs:110-129 | a trade changes only its side's buffer and never the best |
| FixedBook.TradeUpdate | src/fixed_orderbook.rs:110-129 | a miss changes nothing; a trade at least the resting size removes the slot; a smaller one reduces its size |
| FixedBook.TradeUpdateKeepsWellFormed | src/fixed_orderbook.rs:110-129 | a trade keeps the buffer well formed |
| FixedBook.ProcessKeepsInv | src/fixed_orderbook.rs:35-48 | every event keeps both buffers well formed |
| FixedBook.DepthUpdateKeepsBestFirst | src/fixed_orderbook.rs:67-108 | when the best is the first slot's level, a depth update keeps it so |
| FixedBook.TradeCanLeaveBestStale | src/fixed_orderbook.rs:110-129 | a trade that exhausts the best bid leaves a best bid the side no longer holds |
| FixedBook.RemovalIdempotent | src/fixed_orderbook.rs:71-79 | removing a price twice leaves the book as removing it once |
| FixedBook.TopBids | src/fixed_orderbook.rs:139-154 | for n > 0, the first n levels held; on a well-formed side these are the n best bids, strictly best first. For n = 0, nothing when the first slot is empty and every held level otherwise |
| FixedBook.TopAsks | src/fixed_orderbook.rs:155-169 | for n > 0, the first n levels held; on a well-formed side these are the n best asks, strictly best first. For n = 0, nothing when the first slot is empty and every held level otherwise |
| FixedBook.Midprice | src/fixed_orderbook.rs:171-178 | a midprice exists exactly when both bests do, and it is their midpoint |
| FixedBook.WeightedMidprice | src/fixed_orderbook.rs:180-189 | a weighted midprice exists exactly when both bests do, and it is the size-weighted mid of the two |
| Agreement.AskBufferAscends | src/fixed_orderbook.rs:239-266 | a well-formed ask buffer holds its levels in the naive book's strictly ascending order |
| Agreement.BidBufferAscendsReversed | src/fixed_orderbook.rs:216-236 | a well-formed bid buffer, read from the back, holds its levels in strictly ascending order |
| Agreement.VacantIsBetween | src/fixed_orderbook.rs:210-266 | a miss of the search sits inside the ranked levels, after the better ones and before the worse ones |
| Agreement.AsksAgree | src/naive_orderbook.rs:84-107 | on the ask side, while the buffer has room and the naive side has a best, a depth update leaves the fixed and naive books holding the same levels |
| Agreement.BidsAgree | src/naive_orderbook.rs:59-82 | on the bid side, under the same conditions, the fixed buffer's levels are the naive bid vector read from the back |
| Agreement.AsksAgreeOnFound | src/naive_orderbook.rs:84-107 | at a held ask price, the naive book removes that level or changes only its size, as the fixed buffer does |
| Agreement.AsksAgreeOnVacant | src/naive_orderbook.rs:84-107 | at an ask price not held, the naive book keeps its levels on a removal and puts the new level at its rank on an upsert |
| Agreement.BidsAgreeOnFound | src/naive_orderbook.rs:59-82 | at a held bid price, the reversed naive vector loses that level or changes only its size |
| Agreement.BidsAgreeOnVacant | src/naive_orderbook.rs:59-82 | at a bid price not held, the reversed naive vector keeps its levels on a removal and gains the new level at its rank on an upsert |
| Agreement.InsertBidAtRank | src/naive_orderbook.rs:64-81 | pushing a new bid onto the naive vector and sorting places it after the cheaper bids, the mirror of its rank in the fixed buffer |

## Left out

- Floating point is not modelled. Prices and sizes are exact reals, so rounding in `price / tick`, in the midprices and in `level.size -= event.size` is not represented.
- NaN is not modelled. A NaN price never reaches a level, and NaN-valued empty slots are the `Empty` slot. `partial_cmp` returning `None` is not modelled, so the `unwrap` panics in `Ord for Level` and in the naive sort are out of reach.
- Levels.WeightedMid: an infinity and a NaN are both `NonFinite`, and the sign of an infinity is not kept.
- `process_raw` and `process_stream_bbo_raw` (src/orderbook.rs:29-71) are not modelled separately. They only build an `Event` from their arguments and call `process` / `process_stream_bbo`.
- The serde and CSV plumbing around `visit_map` (`deserialize`, `expecting`, `MapAccess`) is not modelled. Keys and values are given as a sequence of pairs, and a value the field's type cannot read becomes `InvalidValue`.
- `Display for Level` is not modelled, because it only formats text.
- `Default` implementations are not modelled, because they only call `new`.
- `Level::empty` (src/fixed_orderbook.rs:206) is not part of this model. It is not defined in src/level.rs, and the buffer code treats it as a NaN-priced level, which is the `Empty` slot here.
- `Buffer::get` / `get_mut` (src/fixed_orderbook.rs:300-306) are unchecked indexing. They are modelled as sequence indexing. The one out-of-range use is reported as a finding.
- `Buffer::remove` sets only the price to NaN, so the hole keeps its old size. No reader looks at the size of an empty slot, so that stale size is not modelled.
- `move_back` (src/fixed_orderbook.rs:268-280) has no member of its own. It is part of `FixedBuffer.Remove`.
- MapBook.New: requires a positive tick size, because the inverse `1.0 / tick_size` of a zero or negative tick is an infinity or a negative key scale that the real-valued model does not represent.
- MapBook.WeightedMidprice, NaiveBook.WeightedMidprice, FixedBook.WeightedMidprice: they state only that the result is `WeightedMid` of the two bests. Its meaning is stated on `Levels.WeightedMid`.
- python/src/lib.rs is not part of this model. It is the Python binding, with its own copy of the map book.
- The benchmark comparing the books and the hello-world example program are not part of this model.
- MapBook.Process: depth updates and trades use the intended tick key, the whole number of ticks in the price, not the `price * tick_size` key of src/orderbook.rs:106 and :168 (the first finding). The as-written updates are `MapBook.ProcessLvl2AsWritten` and `MapBook.ProcessTradeAsWritten`.
- MapBook.ProcessTrade: trades at the intended tick key, where src/orderbook.rs:168 uses `price * tick_size` ticks; `MapBook.ProcessTradeAsWritten` is the trade as written.
- MapBook.ProcessLvl2: updates at the intended tick key, where src/orderbook.rs:106 uses `price * tick_size` ticks; `MapBook.ProcessLvl2AsWritten` is the update as written.
- FixedBook.DepthUpdate: re-reads the best with the corrected `First`, not `first` as written (the second finding). As written, an empty side's best is the NaN-priced slot, so after the last level on a side is removed `midprice` and `weighted_midprice` give NaN once the other side has a best, and `process_stream_bbo` reports a change after every event, because NaN equals nothing. A first level priced 0.0 reads as no best. `FixedBook.DepthUpdateAsWritten` and `FixedBook.RemovingOnlyBidLeavesNanBest` show the update as written; the book-level `process`, `midprice` and stream are not restated over it.
- FixedBook.ProcessLvl2: inherits the corrected best re-read of `FixedBook.DepthUpdate`.
- FixedBook.Process: inherits the corrected best re-read of `FixedBook.DepthUpdate`.
- FixedBook.ProcessStreamBbo: inherits the corrected best re-read of `FixedBook.DepthUpdate`.
- DepthUpdateKeepsBestConsistent: holds only for an event whose price is the price already stored at its tick (if any). The source accepts a second price inside a held tick, which breaks the best-of rule; `MapBook.SecondPriceInTickLeavesBestUnheld` shows it.
- UpsertKeepsBestConsistent: the same hypothesis as `DepthUpdateKeepsBestConsistent`, for the same reason.
- UpsertKeepsExtreme: the same hypothesis, and it needs every level under its own key (`OnGrid`), since the best is compared by price while the extreme is chosen by key.
- Agreement.AsksAgree, Agreement.BidsAgree: they cover only a side that has room and a naive side that already has a best. A full fixed side drops levels the naive book keeps. A naive side without a best skips its sort, as the source does.

## Findings

| source | as written | input that shows it | evidently intended | confidence | as-written member | corrected member |
|---|---|---|---|---|---|---|
| src/orderbook.rs:106 | `price_ticks(self.inv_tick_size)` passes the inverse tick size to a function that divides by its argument, so the key is `price * tick_size` truncated | `Orderbook::new(0.01)`, then bids at 16.0 and 7.0: both keys are 0, so the book shows one level, at the first bid's price 16.0 with the later size, where the test at src/orderbook.rs:223-260 expects two levels | the key is the number of whole ticks, `price * inv_tick_size` truncated, as the binding's own `price_ticks` multiplies (python/src/lib.rs:361-362) | not executed | MapBook.KeyAsWrittenMergesLevels | MapBook.KeyKeepsLevelsApart |
| src/fixed_orderbook.rs:292-298 | `first` tests `price != 0.0` instead of testing for NaN | an empty side gives `Some` of the NaN-priced empty slot; a level at price 0.0 gives `None` | a level exactly when the first slot holds one | not executed | FixedBuffer.FirstAsWrittenMisreports | FixedBuffer.FirstIsBest |
| src/fixed_orderbook.rs:81-83 | a miss on a full buffer makes the search return `Err(100)`, and `insert(100, ..)` writes past the end through `get_unchecked_mut` | 100 bids at prices 200.0 down to 101.0, then a bid at 100.0 with a non-zero size | the level that would rank 101st is dropped, leaving the buffer well formed | not executed | FixedBook.FullSideInsertOutOfBounds | FixedBook.DepthUpdateKeepsWellFormed |
