# Verified models of the market-data forwarders

The repository receives exchange feeds, decodes and filters quotes, and hands them on. This
project models the parts whose correctness rests on an invariant and proves those invariants
with Dafny. `dafny verify dfyconfig.toml` checks everything.

| modules | what they model |
|---|---|
| `Wrappers` | the Option datatype |
| `Bytes`, `Words` | little-endian loads and stores, byte swaps, 64-bit wrap-around and masks |
| `RingMachine`, `RingRuns`, `RingHistory`, `RingBuffer` | the lock-free ring: every atomic access and every slot field is a step of its own; what one thread alone achieves and what overlapping producers do; what becomes of every message begun and what a popped slot holds; the class is the same ring while one thread at a time is inside |
| `Calendar`, `EpochTime`, `TradingDays`, `WeekNumber` | dates as `yyyymmdd` in `uint32_t`, tied to one day ordinal; epoch table, trading-day searches and listings, week numbers by section 2.2.10 of ISO 8601:2004 |
| `Lv2Stream`, `Lv2Handler` | reassembly of level-2 messages from TCP segments |
| `TlvMerge` | the tag-driven merge of level-1 messages into the standing quote |
| `InstMaps`, `QuoteFilter` | the sorted vector used as a map, and the filter over two feeds, in its cached and its explicit-map form |
| `ShmLog` | the append log in shared memory, its walker, dump and load |
| `Keystream` | the DCE decoder that derives its key from one 290-byte message |
| `PoolMachine`, `ThreadPool` | the thread pool with its condition variable, and the class whose methods are its atomic sections |

How the models are built: an operation that updates state in place is a method of a class with
the source's fields, proved against a function or a step of the model; the properties are
lemmas about that function or about all runs of that machine. Shared-memory protocols are step
relations, and their theorems speak of every interleaving.

## What the proofs show about the code

- The ring is first-in first-out without loss in every run if and only if it has at most one
  producer thread (`FifoExactlyWhen`); with more it is so while pushes do not overlap. Two
  overlapping producers can deliver one message twice and another never, because the slot is
  written before the compare-exchange claims it. Two receiver threads push into one ring at
  dz_gfex_md/src/dz_gfex_md.cpp:693 and 1516.
- `getTomorrow` and `getYesterday` are exact on all valid dates but the last one of 32 bits
  and the first of year 1. The week-day formula fails only for the year 0.
- Level-2 delivery does not depend on segmentation under three conditions on cuts;
  `CutDeliversExactlyWhen` says for a single cut exactly when it does no harm. The arm of the
  length function for 200-byte messages compares a string of one character with two-letter
  names, so it never answers 200.
- A level-2 volume below -1 makes pushed volumes run backwards: the filter sees the value
  extended to 64 bits, the ring the value cut to 32. From -1 up every run is monotone.
- The record loop of the level-1 merge ends if and only if every record reached has one of the
  two known widths.
- `GenKey_290` finds the sender's key if and only if the message has the assumed plaintext
  bytes. The high byte of the length is not among them: its key byte is overwritten later.
- `waitForAllDone` tests only that the queue is empty. With any number of workers but none it
  can return before the last task has begun (`WaitIsReliableExactlyWhen`), and at a moment when
  `m_atomic` is 0, so that testing the counter as well would not repair it.
- `stop` never resets the terminate flag, so a pool that is started again runs nothing, and a
  caller that waits for a queue left non-empty by `stop` waits for ever.
- Workers and waiting callers share one condition, and `notify_one` may wake a caller that goes
  straight back to sleep. No task is stranded by that: while the pool has workers, is not
  terminated and has a task queued, some worker is awake, and more than five worker steps per
  worker are enough for the oldest task to be taken.

## Model

| member | source | states |
|---|---|---|
| RingMachine.MaskIsModulo | dz_gfex_md/src/ringbuffer.h:154-158 | the mask of a wrapped 64-bit index is the true count modulo the ring size |
| RingMachine.FullIsTrueLength | dz_gfex_md/src/ringbuffer.h:160-162 | the wrapped subtraction decides fullness by the true length, across any number of wraps |
| RingMachine.StepKeepsInv | dz_gfex_md/src/ringbuffer.h:172-253 | every single step of producer or consumer, spurious CAS failures included, keeps window, counters, copies and history in agreement while pushes do not overlap |
| RingMachine.FifoAndNoLoss | dz_gfex_md/src/ringbuffer.h:172-253 | in every run with non-overlapping pushes the popped slots deliver the front of what was pushed, in order, and the rest sits whole in the live window |
| RingMachine.CompleteMessagesArriveExactly | dz_gfex_md/src/ringbuffer.h:183-194 | when each push stores every field, each popped slot equals the pushed message of the same number |
| RingMachine.SingleProducerIsSerialised | nano_febao_dce/src/ringbuffer.h:120-222 | with at most one producer thread pushes never overlap, so the results above need no further assumption |
| RingMachine.WriterAndReaderUseDifferentSlots | dz_gfex_md/src/ringbuffer.h:179-250 | the slot being written is never the slot being copied |
| RingMachine.OnlyFreshCommits | dz_gfex_md/src/ringbuffer.h:189-194 | a compare-exchange on the wrapped index succeeds only on the count it had loaded, and then there is room |
| RingMachine.OccupancyIsBounded | dz_gfex_md/src/ringbuffer.h:175-202 | with any number of overlapping producers and stale loads the ring never overfills, and the two indices count the successful pushes and pops, as long as no push in progress is overtaken by almost 2^64 others |
| RingMachine.ShortRunsAreNotLapped | dz_gfex_md/src/ringbuffer.h:175-202 | a run of at most 2^64 minus the ring size pushes meets that assumption, so its occupancy is bounded outright |
| RingRuns.FifoExactlyWhen | dz_gfex_md/src/ringbuffer.h:172-253 | every run with n producer threads hands out the front of what was pushed, in order, if and only if n is at most 1, for every ring size and slot layout |
| RingRuns.RaceDeliversTheWrongMessage | dz_gfex_md/src/ringbuffer.h:179-194 | for any two messages and two or more producers a run in which the consumer gets the second where the first was pushed |
| RingRuns.OverlappingProducersLoseAMessage | dz_gfex_md/src/ringbuffer.h:179-194 | for any two messages and two or more producers a run in which one is delivered twice and the other never, at every ring size from two |
| RingHistory.EveryBegunMessageIsPushed | dz_gfex_md/src/ringbuffer.h:172-233 | over every run of any number of producers, overlapping or not, what a producer begins to push it commits, in order and once, up to the one message in progress: a full ring or a failed exchange never drops one |
| RingHistory.BegunMessagesArrive | nano_febao_dce/src/ringbuffer.h:120-244 | with one producer the popped slots are the first begun messages, each in its place, in every stored field that no pass takes anew |
| RingHistory.PoppedSlotsAreExact | nano_febao_dce/src/ringbuffer.h:131-141 | a popped slot is field by field what its push stored, and in a field that push leaves alone what the push one lap earlier left |
| RingRuns.FillSlot | dz_gfex_md/src/ringbuffer.h:181-187 | a pass that is not disturbed stores each field of the message and leaves the other fields of the slot alone |
| RingRuns.AloneAPushCompletes | dz_gfex_md/src/ringbuffer.h:175-202 | wherever a producer is inside push, however stale its index, moving alone on a ring with room it commits its message |
| RingRuns.AloneAPopSucceeds | dz_gfex_md/src/ringbuffer.h:235-253 | a consumer that moves alone on a ring that is not empty takes exactly the oldest slot |
| RingMachine.RegistersTellTheTruth | dz_gfex_md/src/ringbuffer.h:154-162 | what full, empty, length and slot tests on the wrapped registers say is true of the unbounded counters |
| RingMachine.QuietPush | dz_gfex_md/src/ringbuffer.h:179-194 | filling the free slot disturbs no live message, and committing it extends the pushed history |
| RingBuffer.LockFreeRingBuffer.constructor | dz_gfex_md/src/ringbuffer.h:144-165 | a new ring is empty and satisfies the invariant |
| RingBuffer.LockFreeRingBuffer.PushOnce | dz_gfex_md/src/ringbuffer.h:172-204 | one pass of the retry loop pushes the message exactly when the ring has room and the exchange does not fail spuriously; otherwise the history stays as it was |
| RingBuffer.LockFreeRingBuffer.TryPop | dz_gfex_md/src/ringbuffer.h:235-253 | succeeds exactly when something is left, and then returns the oldest message not yet popped |
| RingBuffer.LockFreeRingBuffer.Size | dz_gfex_md/src/ringbuffer.h:263-268 | the number of messages pushed and not popped |
| Calendar.DateOrderIsOrdinalOrder | qx_commom/tradingtime.h:594-625 | comparing two dates as `yyyymmdd` numbers, as the listing loops do, is comparing their day ordinals |
| Calendar.DayOfYearIsOffset | qx_commom/tradingtime.h:307-317 | getDayOfYear is the distance from 1 January |
| Calendar.TomorrowIsNextDay | qx_commom/tradingtime.h:426-447 | getTomorrow gives a valid date whose ordinal is one more |
| Calendar.YesterdayIsPreviousDay | qx_commom/tradingtime.h:449-468 | getYesterday gives a valid date whose ordinal is one less |
| Calendar.YesterdayUndoesTomorrow | qx_commom/tradingtime.h:426-468 | getYesterday(getTomorrow(d)) is d |
| Calendar.TomorrowUndoesYesterday | qx_commom/tradingtime.h:426-468 | getTomorrow(getYesterday(d)) is d |
| Calendar.NeighboursExistExactlyWhen | qx_commom/tradingtime.h:426-468 | the successor is right on every valid date but 4294961231, the predecessor on every one but 10101 |
| Calendar.LastDateWraps | qx_commom/tradingtime.h:445-446 | the successor of 4294961231 wraps in uint32_t to 2805, which is no date |
| Calendar.WeekDayIsOrdinalModulo7 | qx_commom/tradingtime.h:405-415 | the week-day formula is the ordinal modulo 7, Monday 1 to Sunday 7, on every valid date |
| Calendar.YearZeroWeekDaysAreWrong | qx_commom/tradingtime.h:409-413 | in year 0 the decremented unsigned year wraps and consecutive days get week days 6 and 3 |
| EpochTime.TableIsRegular | qx_commom/tradingtime.h:323-394 | the 70 table entries follow one formula and no other year has one |
| EpochTime.EpochDay | qx_commom/tradingtime.h:401 | the ordinal from which the seconds are counted is that of 1 January 1970 |
| EpochTime.MkTimeCountsSeconds | qx_commom/tradingtime.h:321-403 | getMkTime is 86400 times the days since 1970, minus 28800, plus the time of day, exactly for the years 1971 to 2040; other years have no value |
| TradingDays.NothingBetweenNeighbours | qx_commom/tradingtime.h:426-447 | no valid date lies strictly between a date and its getTomorrow |
| TradingDays.NothingBetweenBackwards | qx_commom/tradingtime.h:449-468 | no valid date lies strictly between a date and its getYesterday |
| TradingDays.CodedTestIsRight | qx_commom/tradingtime.h:418-424 | on every valid date isTradingDay holds if and only if the ordinal falls on Monday to Friday and the date is no holiday |
| TradingDays.GetNextTradingDay | qx_commom/tradingtime.h:470-478 | terminates with the least trading day after the date, for any finite holiday set |
| TradingDays.GetLastTradingDate | qx_commom/tradingtime.h:480-488 | terminates with the greatest trading day before the date |
| TradingDays.GetNearestTradingDay | qx_commom/tradingtime.h:628-645 | the nearest trading day on or after, or on or before, the date, by the sign of direction |
| TradingDays.LastOfNextIsNearestBefore | qx_commom/tradingtime.h:470-488 | the last trading day before the next one is the nearest one on or before the date, hence the date itself when it trades |
| TradingDays.ThreeFreeDaysHoldATradingDay | qx_commom/tradingtime.h:418-424 | three consecutive days that are no holidays contain a trading day, so the searches have an answer |
| TradingDays.DaysFromIsTheRange | qx_commom/tradingtime.h:617-625 | the natural-day listing is strictly increasing and holds exactly the valid dates in range, also when the end is no date |
| TradingDays.ListingsAreExact | qx_commom/tradingtime.h:594-608 | the trading-day listing is strictly increasing and holds exactly the trading days in range |
| TradingDays.GenNatureDay | qx_commom/tradingtime.h:617-625 | the loop terminates and lists the dates of the range |
| TradingDays.GenTradingDay | qx_commom/tradingtime.h:594-608 | the loop terminates and lists what GenNatureDay lists, filtered by isTradingDay |
| WeekNumber.WeekIsUnique | qx_commom/tradingtime.h:530-592 | the Thursday rule determines year and number, and the number is 1 to 53 |
| WeekNumber.WeekFromIsThursdayRule | qx_commom/tradingtime.h:552-590 | the case analysis on week days and day numbers is the Thursday rule, spill into both neighbour years included |
| WeekNumber.WeekFromIsThursday | qx_commom/tradingtime.h:552-590 | for every valid date the case analysis gives the year and week of its Thursday |
| WeekNumber.GetWeekNumber | qx_commom/tradingtime.h:530-592 | the returned year and number are those of the Thursday of the date's Monday-to-Sunday week |
| Lv2Stream.ClassifierLengths | dz_gfex_md/src/dz_gfex_md.cpp:415-451 | the answers are 0 or one of seven lengths, none above 676 and never 200 |
| Lv2Stream.ClassifierAnswers | dz_gfex_md/src/dz_gfex_md.cpp:415-451 | the classifier answers n if and only if the first eight bytes are, by a table of head bytes and sizes, the head of a message of n bytes, and 0 if and only if they are none |
| Lv2Stream.HandleKeepsFit | dz_gfex_md/src/dz_gfex_md.cpp:347-412 | after any segment half and missing sizes are both zero or add up to a recognised length, below the buffer size |
| Lv2Stream.RunKeepsFit | dz_gfex_md/src/dz_gfex_md.cpp:323-412 | the same after any sequence of segments |
| Lv2Stream.ScanDelivers | dz_gfex_md/src/dz_gfex_md.cpp:366-386 | from a head on, the loop delivers the whole frames of a segment and holds the last part |
| Lv2Stream.JunkIsDropped | dz_gfex_md/src/dz_gfex_md.cpp:351-386 | bytes behind the last whole frame that are six or fewer, or start with no head, are dropped and not held |
| Lv2Stream.RunSplits | dz_gfex_md/src/dz_gfex_md.cpp:330-413 | handling two lists of segments one after the other is handling their concatenation |
| Lv2Stream.ShortSegmentsLeaveNoTrace | dz_gfex_md/src/dz_gfex_md.cpp:351 | a segment of six bytes or fewer changes nothing, wherever it comes in a run |
| Lv2Stream.DeliveryIgnoresSegmentation | dz_gfex_md/src/dz_gfex_md.cpp:330-451 | for all allowed cuts the delivered messages are exactly the frames of the stream, as the table of heads has them, in order, and only the last started frame is held |
| Lv2Stream.CutDeliversExactlyWhen | dz_gfex_md/src/dz_gfex_md.cpp:351-412 | a frame in two segments is delivered whole, with nothing left over, if and only if both parts are longer than 6 bytes, the first starts, by the table of heads, a message of the frame's length and the second none |
| Lv2Stream.HeadClearsPending | dz_gfex_md/src/dz_gfex_md.cpp:389-396 | a segment that starts with a head is handled as if nothing had been held |
| Lv2Stream.LostContinuationLosesOneFrame | dz_gfex_md/src/dz_gfex_md.cpp:387-411 | when a continuation is lost and the stream resumes at a head, exactly the cut frame is missing and no mixed message is delivered, wherever the resumed stream stops |
| Lv2Handler.Reassembler.constructor | dz_gfex_md/src/dz_gfex_md.cpp:323-326 | the buffer starts empty |
| Lv2Handler.Reassembler.HoldHalf | dz_gfex_md/src/dz_gfex_md.cpp:377-383 | the last bytes of a segment are held with the number of bytes still missing |
| Lv2Handler.Reassembler.DropHalf | dz_gfex_md/src/dz_gfex_md.cpp:389-396 | the held half is given up |
| Lv2Handler.Reassembler.CompleteHalf | dz_gfex_md/src/dz_gfex_md.cpp:398-410 | the held half and the missing bytes are delivered as one message |
| Lv2Handler.Reassembler.Lv2Handler | dz_gfex_md/src/dz_gfex_md.cpp:330-413 | the loop over buffer and pointers terminates, stays inside the buffer, and delivers and holds what the handler function of one segment says |
| Bytes.SwapOfLoadIsBE | dz_gfex_md/src/dz_gfex_md.h:410-423 | loading a word and swapping its bytes gives the big-endian value of the bytes |
| TlvMerge.LoopEndsExactlyWhen | dz_gfex_md/src/dz_gfex_md.cpp:1407-1471 | the record loop ends if and only if every record it reaches has d_type 0x0800 or 0x0400 |
| TlvMerge.AdvanceIsAnnounced | dz_gfex_md/src/dz_gfex_md.cpp:1463-1470 | the pointer moves 14 bytes for d_type bytes 00 08, 10 for 00 04, and not at all for any other |
| TlvMerge.ToInt32Carries | dz_gfex_md/src/dz_gfex_md.cpp:1418-1420 | the stored open interest is the int32_t congruent to the big-endian payload modulo 2^32 |
| TlvMerge.CarriesOneValue | dz_gfex_md/src/dz_gfex_md.cpp:1418-1420 | a payload carries one value, which below 2^31 is the big-endian number itself |
| TlvMerge.AssignHitsOneField | dz_gfex_md/src/dz_gfex_md.cpp:1409-1447 | a record sets the field of its tag to the value its payload carries and leaves every other field |
| TlvMerge.MergeOfEncoded | dz_gfex_md/src/dz_gfex_md.cpp:1407-1471 | over the bytes of a list of well-formed records the loop ends and assigns them one after the other |
| TlvMerge.LastRecordWins | dz_gfex_md/src/dz_gfex_md.cpp:1393-1471 | after any sequence of messages each field holds the one value that the last record with its tag carries, or its initial value |
| TlvMerge.Quota.AssignField | dz_gfex_md/src/dz_gfex_md.cpp:1409-1447 | one turn's assignments in place are those of the model, the other fields unchanged |
| TlvMerge.Quota.MergeBody | dz_gfex_md/src/dz_gfex_md.cpp:1407-1471 | the loop in place, with the remaining length as measure, leaves the merged quote |
| InstMaps.KeysCollideExactlyWhen | qx_commom/inst_map.h:92-108 | NUL-free names share a key if and only if their first 16 bytes agree |
| InstMaps.LowerBoundSplits | qx_commom/inst_map.h:70-75 | the halving search splits a sorted vector into smaller keys and keys not smaller |
| InstMaps.FindMissesNothing | qx_commom/inst_map.h:67-83 | a hit has the key, and on a sorted vector there is a hit if and only if the key is present |
| InstMaps.WriteRefines | qx_commom/inst_map.h:77-80 | a write through the returned pointer updates the map at that key only |
| InstMaps.StepRefinesMap | qx_commom/inst_map.h:43-83 | each operation on the vector does to the map what it should, and finds what the map holds |
| InstMaps.RunRefinesMap | qx_commom/inst_map.h:43-108 | any interleaving of adding fresh keys, sorting, and finding and writing on a sorted vector refines a finite map |
| InstMaps.InstMap.InitOnce | qx_commom/inst_map.h:51-57 | appends a zero-initialised item |
| InstMaps.InstMap.Sort | qx_commom/inst_map.h:59-64 | the vector becomes a sorted permutation of itself |
| InstMaps.InstMap.Lookup | qx_commom/inst_map.h:66-83 | the search loop returns the position the search function gives |
| InstMaps.InstMap.Write | qx_commom/inst_map.h:66-83 | a find followed by a write through the pointer is one step of the machine |
| QuoteFilter.QuotaInfo.IsValidQuota | dz_gfex_md/src/dz_gfex_md.cpp:717-744 | verdict and new cache of the in-place filter, as a function of the old cache and the quote |
| QuoteFilter.VerdictByHistory | dz_gfex_md/src/dz_gfex_md.cpp:717-744 | each verdict in terms of all accepted quotes: time error if one was later, volume error if one was larger, repeat if it says what the last level-2 quote said within 1e-8, else accepted |
| QuoteFilter.AcceptedExactlyWhen | dz_gfex_md/src/dz_gfex_md.cpp:478-693 | over every run an event is accepted if and only if it passes the 15:00 and price-limit gate and the history has no objection, and pushed if and only if it also offers a volume on some side or is of level 1 |
| QuoteFilter.PushedVolumeIsTruncated | dz_gfex_md/src/dz_gfex_md.cpp:588-693 | the pushed volume is the 32-bit word congruent to the event's |
| QuoteFilter.NoRepeatedLevel1 | dz_gfex_md/src/dz_gfex_md.cpp:729-733 | over every run no accepted level-1 quote repeats the accepted level-2 quote directly before it, also when that one was dropped later |
| QuoteFilter.PushesAreMonotone | dz_gfex_md/src/dz_gfex_md.cpp:588-693 | pushed quotes never go back in time or volume when no level-2 volume is below -1 |
| QuoteFilter.NegativeVolumeRunsBack | dz_gfex_md/src/dz_gfex_md.cpp:588-693 | for each level-2 volume below -1 a run of two accepted quotes whose pushed volumes decrease |
| QuoteFilter.MonotoneExactlyWhen | dz_gfex_md/src/dz_gfex_md.cpp:588-693 | a negative level-2 volume is harmless in every run if and only if it is -1 |
| QuoteFilter.QuotaMerge.IsValidQuota | nano_febao_gfex/src/gfex_nano.cpp:241-275 | verdict and new map of the explicit-map filter |
| QuoteFilter.FreshVectorAgrees | qx_commom/inst_map.h:43-57 | a freshly filled and sorted vector agrees with the empty map |
| QuoteFilter.UnknownInstrumentIsIgnored | dz_gfex_md/src/dz_gfex_md.cpp:468-471 | a quote for an instrument that is not in the vector gets no verdict and changes nothing |
| QuoteFilter.SameVerdicts | dz_gfex_md/src/dz_gfex_md.cpp:717-744 | cached and explicit-map filter give the same verdicts on every sequence of quotes with level other than 0, for names that 16 bytes tell apart |
| QuoteFilter.LevelZeroForgets | dz_gfex_md/src/dz_gfex_md.cpp:720-738 | in any known instrument a quote of level 0 makes the cached form accept a later time reversal that the map form refuses |
| QuoteFilter.FormsAgreeExactlyWhen | dz_gfex_md/src/dz_gfex_md.cpp:720-738 | for any non-empty set of known instruments, allowing one more level besides 1 and 5 keeps the two forms in agreement if and only if it is not 0 |
| ShmLog.AppendAddsOneRecord | qx_commom/share_memery_sv.h:165-178 | an append is refused exactly when the record does not fit; otherwise the log holds the same records and the new one |
| ShmLog.RunHoldsAccepted | qx_commom/share_memery_sv.h:165-178 | after any sequence of appends to an empty log it holds exactly the accepted records, within its capacity |
| ShmLog.PayloadLength | qx_commom/share_memery_sv.h:166-175 | the bytes of the records are the sum of one plus each record's size, which is the used size behind the header |
| ShmLog.LogIsLaidOut | qx_commom/share_memery_sv.h:165-178 | the bytes of a log: total size, used size and count as little-endian words at 0, 8 and 16, the records from 96 on |
| ShmLog.AppendTouchesNothingElse | qx_commom/share_memery_sv.h:171-176 | an append changes the size and count words and the bytes of its record, no others |
| ShmLog.TagsHaveTheirSizes | qx_commom/data_type_def.h:23-295 | the walker's step for each tag is the sum of the packed fields of its type, and every other tag is unknown |
| ShmLog.WalkRecoversExactlyWhen | qx_commom/share_memery_sv.h:373-543 | walking item_count records by tag recovers the list if and only if every record has a known tag and that tag's size |
| ShmLog.WalkEndsAtUnknownTag | qx_commom/share_memery_sv.h:375-543 | a record with an unknown tag ends the walk: exactly the records before it are written |
| ShmLog.LoadAfterDump | qx_commom/share_memery_sv.h:180-203 | a dump loads wherever it fits, holds the same records and leaves the rest of the segment; total_size is right afterwards if and only if the capacities are equal |
| ShmLog.SharedMemoryManager.constructor | qx_commom/share_memery_sv.h:102-119 | a new segment is an empty log |
| ShmLog.SharedMemoryManager.StoreField | qx_commom/share_memery_sv.h:113-115 | storing one header word leaves the others |
| ShmLog.SharedMemoryManager.AppendData | qx_commom/share_memery_sv.h:165-178 | the in-place append is the model's append, and a refused one changes no byte |
| ShmLog.SharedMemoryManager.DumpToFile | qx_commom/share_memery_sv.h:180-188 | the file holds the first used_size bytes |
| ShmLog.SharedMemoryManager.LoadFromFile | qx_commom/share_memery_sv.h:190-203 | a file larger than total_size is refused without a change; otherwise it overwrites the front |
| Keystream.SentIsXor | gz_dce_udp/src/gz_dce_md.cpp:619-623 | decrypt is the sender's XOR with a key of 64 bytes |
| Keystream.DecryptsExactlyWhereKeysAgree | gz_dce_udp/src/gz_dce_md.cpp:619-623 | byte i of a message of any length comes back if and only if both keys agree at i modulo 64 |
| Keystream.DecryptUndoesEncrypt | gz_dce_udp/src/gz_dce_md.cpp:619-623 | decrypt with the same key gives back every message |
| Keystream.SourcesCoverTheKey | gz_dce_udp/src/gz_dce_md.cpp:631-725 | the assignments cover all 64 key positions, each from a byte enciphered with it |
| Keystream.LearntInOrder | gz_dce_udp/src/gz_dce_md.cpp:631-725 | the assignments in their order give the key described position by position, whatever the array held, byte 1 overwritten from byte 193 included |
| Keystream.GenKeyFindsKeyExactlyWhen | gz_dce_udp/src/gz_dce_md.cpp:625-731 | the generated key is the sender's if and only if the plaintext has the assumed length byte, date, DBL_MAX bytes and zeros |
| Keystream.WrongByteRecurs | gz_dce_udp/src/gz_dce_md.cpp:619-725 | byte i of a later message comes out right if and only if the assumption about the one byte behind its key byte held |
| Keystream.OneMessageTells | gz_dce_udp/src/gz_dce_md.cpp:619-731 | any later message of 64 bytes or more comes out right if and only if all assumptions held |
| Keystream.SilentWithoutKey | gz_dce_udp/src/gz_dce_md.cpp:744-746 | before the first 290-byte message nothing is published and nothing changes |
| Keystream.KeyIsForGood | gz_dce_udp/src/gz_dce_md.cpp:736-742 | once generated the key never changes, over any feed |
| Keystream.DecoderRefinesPlainFeed | gz_dce_udp/src/gz_dce_md.cpp:734-898 | over every feed, after the first 290-byte message with the assumed bytes the receiver publishes exactly the quotes due, message by message, from the plaintexts |
| Keystream.PlainRunIsDue | gz_dce_udp/src/gz_dce_md.cpp:750-896 | due are: for 370 bytes of a subscribed instrument the message itself, for 366 the message with the last level-1 part before it, for anything else nothing |
| Keystream.CodeIsTheNameField | gz_dce_udp/src/gz_dce_md.h:159-170 | the instrument of a message is its bytes from 38 on up to the first NUL, at most 16 |
| Keystream.CacheIsLastLevel1 | gz_dce_udp/src/gz_dce_md.cpp:754-865 | the level-1 part that level-2 quotes carry is the last level-1 message of the instrument |
| Keystream.QxMdMgr.constructor | gz_dce_udp/src/gz_dce_md.h:290-291 | the key starts as zeros and not ready |
| Keystream.QxMdMgr.Decrypt | gz_dce_udp/src/gz_dce_md.cpp:619-623 | the loop writes the XOR with the repeated key and no byte beyond it |
| Keystream.QxMdMgr.GenKey290 | gz_dce_udp/src/gz_dce_md.cpp:625-731 | the array in place becomes the generated key and the flag is set |
| Keystream.QxMdMgr.DecodeMsg | gz_dce_udp/src/gz_dce_md.cpp:734-898 | gate, decryption and cache in place take the step of the model |
| PoolMachine.StepKeepsInv | qx_commom/threadpool.h:53-149 | every step of every thread keeps order, conservation, counter and wake-up invariants |
| PoolMachine.ReachableInv | qx_commom/threadpool.h:53-149 | they hold in every reachable state |
| PoolMachine.TasksAreConserved | qx_commom/threadpool.h:85-127 | submitted tasks are exactly queued, in flight and returned, and leave the queue first in first out |
| PoolMachine.TakenAtMostOnce | qx_commom/threadpool.h:112-127 | a task taken from the queue is in one worker's hands or returned, once; any other is in neither |
| PoolMachine.CounterIsExact | qx_commom/threadpool.h:136-144 | m_atomic is the number of workers between increment and decrement, and tasks in flight never exceed the workers |
| PoolMachine.AllReturnedExactlyWhen | qx_commom/threadpool.h:102-108 | all tasks are done if and only if the queue is empty and no worker holds one |
| PoolMachine.WaitIsReliableExactlyWhen | qx_commom/threadpool.h:102-108 | for a pool only ever given n workers, every return of waitForAllDone in every run finds all tasks done if and only if n is 0 |
| PoolMachine.WaitCanReturnEarly | qx_commom/threadpool.h:102-108 | for every number of workers from one a run in which waitForAllDone returns while the only task has not begun and m_atomic is 0 |
| PoolMachine.QueuedTaskIsTaken | qx_commom/threadpool.h:97-149 | in every run without stop, from any state with a queued task and workers, more than five worker steps per worker take the oldest task, whichever threads notify_one wakes |
| PoolMachine.QueuedTaskIsOnItsWay | qx_commom/threadpool.h:97-127 | while a task is queued some worker is awake, and its next step takes the oldest task or brings it nearer to the queue |
| PoolMachine.NoCallerIsForgotten | qx_commom/threadpool.h:102-147 | when the queue is empty and no worker is engaged, no caller is left asleep |
| PoolMachine.LastWorkerWakesEverybody | qx_commom/threadpool.h:143-146 | a worker that has counted itself off wakes everybody exactly if no worker is counted and nothing is queued |
| PoolMachine.TerminateIsFinal | qx_commom/threadpool.h:53-127 | once terminate is set no run takes another task, also after a new start, and a caller waiting on a non-empty queue never returns |
| PoolMachine.StopReturnsQuiet | qx_commom/threadpool.h:60-70 | when stop returns every task that was taken has returned and the counter is 0 |
| PoolMachine.JoinIsNeverStuck | qx_commom/threadpool.h:60-66 | while stop joins, the thread it waits for can take a step and is not asleep |
| PoolMachine.WorkersRunOut | qx_commom/threadpool.h:131-149 | after terminate the workers take at most six steps each in any run without a new start, so the joins end |
| ThreadPool.ThreadPool.constructor | qx_commom/threadpool.h:25 | a new pool is in the machine's first state |
| ThreadPool.ThreadPool.SetThreadNum | qx_commom/threadpool.h:31-38 | init is refused exactly when threads exist |
| ThreadPool.ThreadPool.GetJobNum | qx_commom/threadpool.h:47-50 | the tasks submitted and not yet taken |
| ThreadPool.ThreadPool.Start | qx_commom/threadpool.h:73-83 | start creates the set number of workers exactly when there are none, and keeps the terminate flag |
| ThreadPool.ThreadPool.Exec | qx_commom/threadpool.h:85-99 | the task joins the end of the queue and one sleeper at most is woken |
| ThreadPool.ThreadPool.Get | qx_commom/threadpool.h:112-127 | the critical section of get returns the oldest task exactly when not terminated and the queue is not empty |
| ThreadPool.ThreadPool.Run | qx_commom/threadpool.h:131-149 | each step of the worker loop in place is the machine's step |
| ThreadPool.ThreadPool.RunTurn | qx_commom/threadpool.h:131-149 | a turn of the loop that finds a task takes the oldest one, returns it and leaves counter and thread as before |
| ThreadPool.ThreadPool.RunAlone | qx_commom/threadpool.h:131-149 | the loop of one thread, while no other moves, runs every queued task in order and then sleeps |
| ThreadPool.ThreadPool.WaitForAllDone | qx_commom/threadpool.h:102-108 | the call is over exactly when the queue is empty |
| ThreadPool.ThreadPool.BeginStop | qx_commom/threadpool.h:53-58 | sets terminate and wakes every sleeper |
| ThreadPool.ThreadPool.FinishStop | qx_commom/threadpool.h:60-70 | joins the threads in order and leaves no thread and no task in flight |

## Left out

- RingMachine.FifoAndNoLoss: assumes that pushes do not overlap; FifoExactlyWhen says for which numbers of producer threads it holds outright.
- RingMachine.OccupancyIsBounded: assumes that no push in progress is overtaken by 2^64 minus the ring size or more other pushes.
- RingBuffer.LockFreeRingBuffer.PushOnce: one pass with no other thread inside the ring; interleavings are in RingMachine, on values.
- RingBuffer.LockFreeRingBuffer.TryPop: with no producer inside the ring, and for the fields that the message stores; exact contents are in RingHistory.
- RingBuffer.LockFreeRingBuffer.Size: of a ring with no other thread inside.
- Ring: the sequence counter, the blocking pop, and size() read by a third thread, which may see an index pair that was never current.
- Ring: hardware memory ordering; atomics are sequentially consistent steps, slot writes and copies are not atomic.
- TradingDays.GenTradingDay: ends from 4294961231 up are excluded; past that date the uint32_t wraps to month 28 and the month table is read out of bounds.
- TradingDays.GetNextTradingDay: assumes that a later trading day exists; without one the loop runs off the 32-bit calendar.
- TradingDays.GetLastTradingDate: assumes that an earlier trading day exists, for the same reason at year 1.
- TradingDays.GetNearestTradingDay: the system date that replaces a zero argument is a parameter.
- Calendar: years before 1 and the mktime, localtime and system-clock helpers; the contents of the holiday list.
- Lv2Stream.DeliveryIgnoresSegmentation: a frame in three or more segments is not covered, because a middle segment shorter than the missing bytes makes the code copy beyond it.
- Lv2Handler.Reassembler.Lv2Handler: assumes that a continuation brings the missing bytes and that 8 bytes are readable behind a segment; the address filters at the top are left out.
- Level-1 stream: the resynchronisation in OnData_lv1, one of whose arms does not advance.
- TlvMerge.Quota.MergeBody: assumes that the widths are known, which is when the loop ends at all, and that 14 bytes are readable behind the body; the time string and the code lookup before the loop are left out.
- QuoteFilter: the decoding of level-2 depth volumes and the swap of sides at a price limit happen before or after the filter and are inputs here; a price is a real or not a number, infinities are left out.
- QuoteFilter.QuotaInfo.IsValidQuota: runs are serialised per instrument; two feeds racing on one cache entry are left out.
- InstMaps.InstMap.Sort: std::sort is modelled by an insertion, as any permutation that sorts.
- DCE variants of the filter in nano_febao_dce and the one in nano_api_gfex, which update their caches by other rules.
- ShmLog.AppendAddsOneRecord: a body of 2^63 bytes or more is excluded; sizes are otherwise computed modulo 2^64 as in the code.
- ShmLog: attaching and removing segments, file errors, the text that the walker writes, and setComplete, which compares the flag where it seems meant to assign it.
- Keystream.QxMdMgr.GenKey290: each run of consecutive assignments is one loop over its bytes; the date is a parameter.
- Keystream.QxMdMgr.DecodeMsg: the cache is a finite map, as InstMaps justifies, and holds whole messages where the code copies fields; price and time conversion, the sink and the remote-key mode are left out.
- PoolMachine: tasks that throw, the futures, the destructor and getThreadNum; start and stop are called by one thread.
- PoolMachine.AllReturnedExactlyWhen: speaks of states; what returns of waitForAllDone find is WaitIsReliableExactlyWhen.
- PoolMachine.QueuedTaskIsTaken: counts worker steps, not time; when the scheduler lets workers step is not modelled.
- Sockets, vendor interfaces, configuration, logging and delay statistics.
