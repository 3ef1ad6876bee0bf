# Verified models of the Cascoda SDK's stateful core

This project models the parts of the SDK whose correctness rests on state and arithmetic rather than on hardware, and
proves what they promise. `dafny verify dfyconfig.toml` checks all of it.

* **The settings store** (`cascoda_settings.c`). A settings area is an append-only log in NOR flash; flash cells only
  lose bits until their page is erased. The model has three levels. A `Log` is the sequence of records an area holds
  (`SettingsLog`), with the list of values each key has (`SettingsView`), compaction (`Compaction`), and whole runs
  (`SettingsRuns`). An `Image` is the raw content of the flash: `Area` says that the bytes of an area parse exactly into
  the flag word, the chain of records and erased cells, and `Boots` says which area and which log start-up recovers
  (`BootImage`, `StoreImages`, `VectorWrite`). The classes `FlashDevice.Flash` and `SettingsStore.Store` are the code
  itself: byte cells that writes AND into, the base and used cursors, and the scans and copy loops. Every method of
  `Store` is proved against the functions on logs, and the device keeps a ghost history of the image behind every
  written word and every erased page, so that "a power cut at any word" is a statement about every element of it.
* **External-flash jobs** (`cascoda_external_flash.c`, `cascoda_hash.c`): the erase planner (`EraseCover`, `EraseJob`),
  the CRC-32 check job and the page-program job (`FlashJobs`), and the nibble-table CRC against its bit-by-bit definition
  (`Crc32`).
* **The tasklet scheduler** (`cascoda_tasklet.c`, `cascoda_time.c`): a linked list of nodes in the heap, sorted on a
  clock that wraps (`TaskletTime`, `Tasklets`).
* **The radio dispatch core**: the receive ring as a state machine over interrupts, dispatcher steps and re-entrant calls
  (`RxFifo`), the table of outstanding requests (`RequestCache`), and the transmit-power limit on channel 26 (`TxPower`).
* **Encodings**: the in-place filter of the scan confirm and its walker (`ScanConfirm`), and the KNX two-octet float
  (`KnxFloat`; DPT 9 in section 3.10 of KNX Standard 03/07/02).

## Where the code does not do what one would expect

The model follows the code. In these places a naive statement is false; the exact condition is proved, and a witness
given.

* The copy loop of a compaction counts the header as copied but compares with the payload length, so a record whose
  padded length is 4 or 8 modulo 256 loses its last 4 or 8 octets (`Compaction.CopiedWhole`; witness
  `Compaction.LossyWitness`).
* A compaction looks for later *live* index-0 records while a lookup restarts at *any* index-0 record. The lists survive
  if and only if every live record hidden by a later index-0 record is also superseded by a live one
  (`Compaction.CompactionExact`). Deleting element 0 can break that shape, in exactly one situation
  (`SettingsRuns.DeleteFirstShape`), and then deleted keys get old values back (`SettingsRuns.StaleValuesReturn`; two adds
  and a set lead there, `SettingsRuns.StaleWitness`).
* A vector write stores the concatenation if and only if every fragment with payload behind it reaches the next word
  boundary (`VectorWrite.ReachingIsConcat`; witness `VectorWrite.NotReachingTears`), and writes past its own record if and
  only if its last fragment ends behind the padded length (`VectorWrite.StoreWithin`; witness `StoreImages.OverrunHits`).
* A check job that is broken off leaves what it has read in a static accumulator, and the next verdict is about that and
  the next range together (`FlashJobs.CheckJob.RunToCompletion`, `FlashJobs.StaleAccumulator`; witness
  `FlashJobs.BrokenOff`).
* A page-program chunk of a multiple of 256 octets is cast to length 0. A write job never ends if and only if its limit
  and page are at least 256 octets and that much payload is left in some page, or its limit is 0
  (`FlashJobs.StuckChunk`, `FlashJobs.WriteJob.RunStuck`).
* The timeout of a request is counted from the last decay before it was added, so it is never late but can be early
  (`RequestCache.Cache.Decay`; witness `RequestCache.EarlyTimeout`).
* A KNX mantissa that rounds up to 2048 is stored as 0 (`KnxFloat.BoundExact`; witness `KnxFloat.OverflowWitness`).

## Model

| member | source | states |
|---|---|---|
| `SettingsLog.AlignIsMask` | cascoda-util/src/cascoda_settings.c:141-144 | the round-up used throughout the model is the 16-bit addition of 3 with the two low bits masked off, wrap-around included |
| `Bytes.AndBit` | posix/ca821x-posix/source/util/cascoda-flash.c:309-311 | the AND a flash write performs leaves exactly the bits set in both octets |
| `SettingsLog.OctetBits` | cascoda-util/src/cascoda_settings.c:100-106 | each decoded flag of a record is one bit of its flag octet, raised by being cleared |
| `SettingsLog.OctetClear` | cascoda-util/src/cascoda_settings.c:610-618 | ANDing a flag octet with one that has some flags raised raises exactly those flags and changes no other |
| `SettingsLog.BytesInjective` | cascoda-util/src/cascoda_settings.c:119-125 | the octets at an address determine the record stored there |
| `SettingsLog.LogUnique` | cascoda-util/src/cascoda_settings.c:407-426 | an area parses into at most one chain of records followed by erased cells |
| `BootImage.BootsUnique` | cascoda-util/src/cascoda_settings.c:384-426 | a flash image determines the area start-up selects and the log it finds there |
| `SettingsView.AppendLive` | cascoda-util/src/cascoda_settings.c:549-567 | a completed record with the index-0 flag makes its key's list that one value, one without it extends the list, and no other key's list moves |
| `SettingsView.AppendPartial` | cascoda-util/src/cascoda_settings.c:476-486 | a record that is begun but not complete shows nothing, and hides the list of its own key only if it carries the index-0 flag |
| `SettingsView.DeleteVisible` | cascoda-util/src/cascoda_settings.c:594-623 | the delete scan with its promotion of element 1 removes exactly one position from the visible list, at every prefix of the log |
| `SettingsView.RemoveAtExact` | cascoda-util/src/cascoda_settings.c:606-611 | removing element i from a list leaves the elements ahead of it and those behind it, in order; for -1 nothing is left, for any other index everything |
| `SettingsView.DeleteRefines` | cascoda-util/src/cascoda_settings.c:581-630 | Delete(i) removes exactly element i (everything for -1) from its key's list and leaves the lists of all other keys alone |
| `Compaction.CopiedLengthMod` | cascoda-util/src/cascoda_settings.c:239-260 | the copy loop leaves behind the padded length mod 256 if that is 1 to 8, and nothing otherwise |
| `Compaction.CopiedWhole` | cascoda-util/src/cascoda_settings.c:239-260 | a record's value survives the copy loop if and only if its padded length mod 256 is 0 or above 8, or what is left behind is all 0xFF |
| `Compaction.LossyWitness` | cascoda-util/src/cascoda_settings.c:241-242 | for every other length there is a payload that compaction destroys |
| `Compaction.CompactShrinks` | cascoda-util/src/cascoda_settings.c:263-265 | compaction never needs more room than the log it compacts |
| `Compaction.CompactIdempotent` | cascoda-util/src/cascoda_settings.c:169-284 | compacting a compacted log changes nothing |
| `Compaction.KeptAreSeen` | cascoda-util/src/cascoda_settings.c:198-222 | after compaction every kept record of a key is visible |
| `Compaction.ShapeKeeps` | cascoda-util/src/cascoda_settings.c:198-222 | for a key in shape, the visible records after compaction are the copies of those visible before, in order |
| `Compaction.CompactionExact` | cascoda-util/src/cascoda_settings.c:198-222 | compaction keeps the number of visible records of a key, and the copy of each of them, if and only if the key is in shape |
| `Compaction.CompactionPreserves` | cascoda-util/src/cascoda_settings.c:169-284 | compaction keeps a key's list of values if and only if the key is in shape and the copy loop keeps every visible value |
| `SettingsRuns.ShapeByLastGroup` | cascoda-util/src/cascoda_settings.c:198-222 | a key is in shape if and only if its last index-0 record is live or no live record lies before it |
| `SettingsRuns.VisibleGroup` | cascoda-util/src/cascoda_settings.c:468-486 | the visible records of a key are exactly the live ones from its last index-0 record on, each at its running index |
| `SettingsRuns.DeleteFirstShape` | cascoda-util/src/cascoda_settings.c:594-623 | Delete(0) keeps a key in shape if and only if not (its list has one element while a superseded group has a second live record) |
| `SettingsRuns.StaleValuesReturn` | cascoda-util/src/cascoda_settings.c:614-619 | in that one case the list is empty after the delete and non-empty again after the next compaction |
| `SettingsRuns.StaleWitness` | cascoda-util/src/cascoda_settings.c:549-567 | adding two values and then setting one leads into that case, from an empty store, for any values |
| `SettingsRuns.DeleteOtherShape` | cascoda-util/src/cascoda_settings.c:594-623 | every other delete keeps every key in shape |
| `SettingsRuns.PartialKeepsShape` | cascoda-util/src/cascoda_settings.c:311-328 | a record that was cut off keeps the shape unless it hides live records |
| `SettingsRuns.RunKeepsShape` | cascoda-util/src/cascoda_settings.c:549-630 | over every run of sets and adds, successful, with compaction or refused, and of deletes without such a Delete(0) on the key, the key stays in shape |
| `SettingsRuns.AllowedRunExact` | cascoda-util/src/cascoda_settings.c:549-630 | those are all such runs: a run leaves the key in shape at every point if and only if it has no such Delete(0) |
| `SettingsRuns.QuietKeyKeepsShape` | cascoda-util/src/cascoda_settings.c:549-630 | a key that is only set, added to, emptied or deleted from at elements other than 0 is in shape after every run, whatever happens to other keys |
| `SettingsRuns.ApplyKeepsShape` | cascoda-util/src/cascoda_settings.c:549-630 | of all operations on a key in shape, exactly a Delete(0) in that one situation takes it out of shape |
| `SettingsRuns.RunRefines` | cascoda-util/src/cascoda_settings.c:549-630 | every such run is, key by key, the same run on plain lists: each get finds an element if and only if the plain list has it, with the same length and the same octets up to those a compaction of that length loses |
| `SettingsRuns.CompactAgrees` | cascoda-util/src/cascoda_settings.c:169-284 | compaction of a key in shape keeps the number of its values, the length of each, and all octets but those the copy loop loses |
| `SettingsRuns.SafeWhole` | cascoda-util/src/cascoda_settings.c:239-260 | what a compaction keeps of a value is all of it exactly for a lossless length, and otherwise its padded length rounded down to a multiple of 256 |
| `SettingsRuns.RunValue` | cascoda-util/src/cascoda_settings.c:549-630 | over every such run a get of a value of lossless length returns exactly that value, whatever else the store holds |
| `StoreImages.SetLists` | cascoda-util/src/cascoda_settings.c:549-554 | after a completed set the key has the one value and every other key its list, up to the octets a compaction loses if there was one |
| `StoreImages.AddLists` | cascoda-util/src/cascoda_settings.c:556-567 | after a completed add the key has the value added, and every other key its list, likewise |
| `StoreImages.SameMeans` | cascoda-util/src/cascoda_settings.c:169-284 | lists that are the same up to what a compaction loses agree in number, in every length, and in every value of lossless length; without a compaction they are equal |
| `VectorWrite.StoreIsProgram` | cascoda-util/src/cascoda_settings.c:334-354 | the word-aligned write of a fragment, padded with 0xFF, stores it where the writer stands and alters no other cell |
| `VectorWrite.ReachingIsConcat` | cascoda-util/src/cascoda_settings.c:330-355 | if every fragment with payload behind it reaches the next word boundary, the loop is one contiguous write of the concatenation |
| `VectorWrite.NotReachingTears` | cascoda-util/src/cascoda_settings.c:342-354 | if some fragment does not, an all-zero payload of these lengths is not stored as its concatenation |
| `VectorWrite.StoreWithin` | cascoda-util/src/cascoda_settings.c:330-355 | the writer changes nothing outside the stretch from its start to the end of its last non-empty fragment |
| `VectorWrite.StopReached` | cascoda-util/src/cascoda_settings.c:330-355 | an all-zero payload clears the last cell of that stretch, so it is exact |
| `VectorWrite.ReachingStop` | cascoda-util/src/cascoda_settings.c:330-355 | fragments that reach end right behind their concatenation |
| `VectorWrite.SumIsConcat` | cascoda-util/src/cascoda_settings.c:297 | the summed lengths are the length of the concatenation |
| `FlashDevice.Flash.Write` | posix/ca821x-posix/source/util/cascoda-flash.c:298-318 | a write ANDs the data into the addressed cells inside the chip and changes nothing else; the image behind every whole word on the chip, and the last one, is recorded, and no other |
| `FlashDevice.Flash.ErasePage` | posix/ca821x-posix/source/util/cascoda-flash.c:258-289 | erasing sets exactly the cells of the page that holds the address to 0xFF, and does nothing for an address past the chip |
| `FlashDevice.Flash.Read` | posix/ca821x-posix/source/util/cascoda-flash.c:320-331 | a read returns the addressed cells inside the chip |
| `SettingsStore.Store.InitSettings` | cascoda-util/src/cascoda_settings.c:151-167 | the area is erased and holds only the flag word; every image on the way changes this area only, and never leaves it marked in use if the word is another |
| `SettingsStore.Store.GetRelativeAddress` | cascoda-util/src/cascoda_settings.c:452-491 | a lookup succeeds if and only if the list has that element, and then gives the payload address and length of its record |
| `SettingsStore.Store.Get` | cascoda-util/src/cascoda_settings.c:493-526 | Get(i) returns element i of the key's list, cut to the caller's buffer, and reports not-found exactly beyond the list |
| `SettingsStore.Store.RaiseFlag` | cascoda-util/src/cascoda_settings.c:610-618 | writing the whole header back over flash raises one flag of one record; every other byte and every offset stays, and every image on the way boots into the changed log |
| `SettingsStore.Store.DeleteSetting` | cascoda-util/src/cascoda_settings.c:581-630 | the log becomes the deleted log; SUCCESS is returned if and only if the list changed, NOT_FOUND otherwise; every image on the way boots into a log in the middle of the scan |
| `SettingsStore.Store.WriteFragment` | cascoda-util/src/cascoda_settings.c:332-355 | one fragment is stored with its two writes, both of which stay inside the fragment's place |
| `SettingsStore.Store.WriteFragments` | cascoda-util/src/cascoda_settings.c:330-355 | the loop stores the fragments one behind another, and no image on the way differs outside the stretch up to its last non-empty fragment |
| `SettingsStore.Store.AppendBlock` | cascoda-util/src/cascoda_settings.c:325-365 | a record the writer keeps to its place is appended behind the log, and every image on the way boots into the old log plus a torn header, an incomplete record, or the record |
| `SettingsStore.Store.SupersededLater` | cascoda-util/src/cascoda_settings.c:201-222 | the inner scan of a compaction finds a later live index-0 record of the same key if and only if there is one |
| `SettingsStore.Store.CopyBlock` | cascoda-util/src/cascoda_settings.c:231-260 | the copy loop, with its 16-bit counter, transfers the header and exactly the octets the model's copy keeps, inside the new record's place |
| `SettingsStore.Store.SwapNext` | cascoda-util/src/cascoda_settings.c:189-276 | one pass of the outer loop extends the new area by exactly what compaction keeps of that record, while the old area keeps booting; the test for an erased block never fires inside the log |
| `SettingsStore.Store.SwapSettingsBlock` | cascoda-util/src/cascoda_settings.c:169-284 | the other area becomes the active one and holds the compacted log; the room left is returned; every image on the way boots into the old log in the old area or the compacted one in the new |
| `SettingsStore.Store.AddSettingVector` | cascoda-util/src/cascoda_settings.c:286-369 | NO_BUFFER is returned if and only if the record does not fit even after a compaction, and then the log is left compacted; otherwise, for every vector the writer keeps to its place, the record is appended, after a compaction if it does not fit with a byte to spare, and every image on the way is a stage of that |
| `SettingsStore.Store.SetSetting` | cascoda-util/src/cascoda_settings.c:549-554 | a successful set is the run step Set on the log: the key's list is the one value, and the other keys keep theirs; a refused one is only a compaction; every image on the way is a stage of it |
| `SettingsStore.Store.AddSetting` | cascoda-util/src/cascoda_settings.c:556-567 | a successful add is the run step Add on the log, with the index-0 flag exactly if the list was empty: the key's list has the value added, and the other keys keep theirs; a refused one is only a compaction; every image on the way is a stage of it |
| `SettingsStore.Store.AddVector` | cascoda-util/src/cascoda_settings.c:569-579 | the same for the record the writer makes of a vector; for fragments that reach it is the run step Add of their concatenation |
| `SettingsStore.Store.Init` | cascoda-util/src/cascoda_settings.c:372-427 | on any image, start-up selects the first area in use, formats the second if neither is, changes nothing otherwise, and puts the cursor where the chain of begun headers ends; from an image that boots it recovers base, used and log |
| `StoreImages.WalkLog` | cascoda-util/src/cascoda_settings.c:407-426 | on an image that boots the chain of begun headers ends exactly with the log |
| `StoreImages.WalkStops` | cascoda-util/src/cascoda_settings.c:407-426 | on any image the start-up scan ends only at a header that is not begun or outside the area |
| `SettingsStore.Store.Wipe` | cascoda-util/src/cascoda_settings.c:632-636 | wiping leaves the active area active and its log empty |
| `StoreImages.RewriteHeader` | cascoda-util/src/cascoda_settings.c:610-618 | rewriting a header with more flags raised turns the image of a log into the image of the log with that record changed, and is done with the header's first word |
| `StoreImages.VectorRecReaching` | cascoda-util/src/cascoda_settings.c:330-355 | for fragments that reach, the record the writer leaves is the record of their concatenation |
| `StoreImages.VectorRecTorn` | cascoda-util/src/cascoda_settings.c:342-354 | for others an all-zero payload is stored as something else |
| `StoreImages.OverrunHits` | cascoda-util/src/cascoda_settings.c:342-354 | a vector the writer does not keep to its place clears, with an all-zero payload, a cell behind its record |
| `StoreImages.CopyLoopStops` | cascoda-util/src/cascoda_settings.c:239-260 | the loop's counter ends where the model's copied length says, for every padded length |
| `StoreImages.SwapEnd` | cascoda-util/src/cascoda_settings.c:278-279 | writing InUse over InSwap and then NotUse over InUse clears bits only; after the first of them exactly one area boots, after the second the new one |
| `StoreImages.PowerCutInSwap` | cascoda-util/src/cascoda_settings.c:384-426 | cut anywhere in a compaction, start-up finds every key that was in shape in shape, with the same values up to the octets the copy loop loses |
| `StoreImages.PowerCutInAppend` | cascoda-util/src/cascoda_settings.c:303-365 | cut at any word of an append, start-up finds every list unchanged, the value in its key's list only, or what an index-0 record replaces hidden; keys stay in shape unless live records got hidden |
| `StoreImages.PowerCutInAdd` | cascoda-util/src/cascoda_settings.c:556-567 | an interrupted add is all or nothing, key by key: exactly so without a compaction, and for keys in shape up to the octets a compaction loses with one; a key in shape stays in shape |
| `StoreImages.PowerCutInSet` | cascoda-util/src/cascoda_settings.c:549-554 | an interrupted set leaves its key with the old values, none, or the new one, and every other key alone |
| `StoreImages.PowerCutInDelete` | cascoda-util/src/cascoda_settings.c:581-630 | an interrupted delete leaves every other key alone, and its own key's list as it was or without the element, or, for -1, some last stretch of it, on whatever image it was cut |
| `StoreImages.CutBeforePromotion` | cascoda-util/src/cascoda_settings.c:607-619 | cut between the two writes of a Delete(0), the key is in shape if and only if no superseded group of it has a second live record |
| `EraseCover.GreedyExact` | baremetal/cascoda-bm-driver/source/cascoda_external_flash.c:73-136 | choosing the largest aligned block at each step erases every sector of the run once and no other |
| `EraseCover.NoStraddle` | baremetal/cascoda-bm-driver/source/cascoda_external_flash.c:73-110 | no aligned block inside the run crosses the end of the largest first block |
| `EraseCover.GreedyMinimal` | baremetal/cascoda-bm-driver/source/cascoda_external_flash.c:201-215 | no cover of the same sectors by aligned 4K, 32K, 64K or chip erases has fewer commands |
| `EraseJob.StepIsLargest` | baremetal/cascoda-bm-driver/source/cascoda_external_flash.c:73-136 | the address and mask tests pick the largest aligned block that stays in range, and the new start lies exactly behind it |
| `EraseJob.PlanExact` | baremetal/cascoda-bm-driver/source/cascoda_external_flash.c:201-215 | a job on [start, end) erases each 4 KB sector that meets it exactly once, and nothing else |
| `EraseJob.PlanMinimal` | baremetal/cascoda-bm-driver/source/cascoda_external_flash.c:201-215 | and uses the fewest commands of all exact covers |
| `EraseJob.Job.Helper` | baremetal/cascoda-bm-driver/source/cascoda_external_flash.c:295-324 | one call issues one command of the plan, or reports; a refusal by the chip or the scheduler is reported at once and ends the job |
| `EraseJob.Job.RunToCompletion` | baremetal/cascoda-bm-driver/source/cascoda_external_flash.c:159-215 | the job terminates, has issued exactly its plan, and reports success once |
| `Crc32.NibbleIsFour` | cascoda-util/src/cascoda_hash.c:43-58 | a table look-up is four steps of the reflected shift register, from every 32-bit state |
| `Crc32.UpdateSplit` | cascoda-util/src/cascoda_hash.c:103-114 | streaming over any split equals one pass |
| `Crc32.UpdateInjective` | cascoda-util/src/cascoda_hash.c:103-114 | different start states stay different over every message |
| `Crc32.Stream` | cascoda-util/src/cascoda_hash.c:103-114 | the two look-ups per octet compute the bit-by-bit CRC-32 of section 8 of RFC 1952, from any state |
| `Crc32.Hash` | cascoda-util/src/cascoda_hash.c:93-101 | the one-shot hash is the complemented CRC-32 of the data |
| `Crc32.CheckValue` | cascoda-util/src/cascoda_hash.c:93-101 | the checksum of the digits 1 to 9 is 0xCBF43926 |
| `FlashJobs.CheckJob.Helper` | baremetal/cascoda-bm-driver/source/cascoda_external_flash.c:364-406 | one call rejects an oversized range, reads the next stretch into what is pending, or gives the verdict on what is pending and resets the accumulator; a refusal is reported and leaves what was read pending |
| `FlashJobs.CheckJob.RunToCompletion` | baremetal/cascoda-bm-driver/source/cascoda_external_flash.c:259-281 | a job of at most one page without refusals reports exactly once, SUCCESS if the CRC-32 of everything read since the last verdict, its own range last, is the given one, and FAIL if not, and resets the accumulator |
| `FlashJobs.StaleAccumulator` | baremetal/cascoda-bm-driver/source/cascoda_external_flash.c:366-391 | octets left pending do no harm if and only if they lead the accumulator back to its start value |
| `FlashJobs.BrokenOff` | baremetal/cascoda-bm-driver/source/cascoda_external_flash.c:364-406 | a job refused after its first read makes the next job report a failure for the true checksum |
| `FlashJobs.WritePlanExact` | baremetal/cascoda-bm-driver/source/cascoda_external_flash.c:331-337 | the program instructions of a job that does not stick write exactly the data, without gap or overlap |
| `FlashJobs.WritePlanFits` | baremetal/cascoda-bm-driver/source/cascoda_external_flash.c:333-335 | no instruction is empty, too long or across a page; each starts where the one before ended, and all but the last are at the limit or end their page |
| `FlashJobs.WriteJob.RunToCompletion` | baremetal/cascoda-bm-driver/source/cascoda_external_flash.c:326-362 | a job that does not stick terminates, has issued exactly that plan, and reports success once |
| `FlashJobs.WriteJob.RunStuck` | baremetal/cascoda-bm-driver/source/cascoda_external_flash.c:326-362 | a job that sticks stays scheduled and reports nothing, however often it is called back |
| `FlashJobs.WriteJob.CallStuck` | baremetal/cascoda-bm-driver/source/cascoda_external_flash.c:227-245 | where it sticks, a call programs no octets and changes nothing |
| `FlashJobs.StuckChunk` | baremetal/cascoda-bm-driver/source/cascoda_external_flash.c:334-335 | for every start, length, limit and page size: a job comes to an instruction of no octets if and only if its limit is 0, or limit and page are at least 256 and 256 octets or more are to be written in the first page or behind it |
| `TaskletTime.TrueTimes` | cascoda-util/src/cascoda_tasklet.c:48-57 | for true times less than 2^31 apart, read off a clock that wraps at 2^32, time-to-event is the true time until then, or 0, and `TIME_Cmp` (cascoda_time.c, lines 34-45) has the true sign |
| `TaskletTime.WindowOrder` | cascoda-util/src/cascoda_tasklet.c:48-57 | inside half a clock period, both comparisons are those of the distances from its start |
| `TaskletTime.PlaceSorts` | cascoda-util/src/cascoda_tasklet.c:91-101 | the insertion scan stops behind exactly the strictly earlier tasklets, so equal times end up behind the new one and order is kept |
| `TaskletTime.DuePrefix` | cascoda-util/src/cascoda_tasklet.c:162-173 | the due tasklets of a sorted list are a prefix: those not later than now |
| `TaskletTime.TimelyInsert` | cascoda-util/src/cascoda_tasklet.c:76-108 | a request strictly later than now is always accepted and queues behind everything due |
| `Tasklets.Scheduler.ScheduleAbs` | cascoda-util/src/cascoda_tasklet.c:76-108 | every request for a true time not before now and less than 2^31 ahead is accepted unless the tasklet is queued, and every one as little before now refused; the list stays acyclic and duplicate-free, scheduled means reachable, and a new node goes in at the place of its time; refused requests change nothing |
| `Tasklets.Scheduler.Cancel` | cascoda-util/src/cascoda_tasklet.c:128-155 | cancel removes exactly its node and keeps the rest of the list |
| `Tasklets.Scheduler.GetTimeToNext` | cascoda-util/src/cascoda_tasklet.c:162-173 | the true time to the first node, 0 if it is due, across a clock wrap too, or not-found exactly if there is none |
| `Tasklets.Scheduler.Process` | cascoda-util/src/cascoda_tasklet.c:175-197 | it terminates and fires exactly the tasklets due at entry, each once, in list order, except those a callback before them cancelled, whatever later tasklets the callbacks schedule |
| `Tasklets.FiringAll` | cascoda-util/src/cascoda_tasklet.c:175-197 | if no callback cancels, all due tasklets fire |
| `Tasklets.LeftOne` | cascoda-util/src/cascoda_tasklet.c:128-155 | of a single waiting tasklet nothing is left exactly if a request cancels it |
| `Tasklets.LeftJoin` | cascoda-util/src/cascoda_tasklet.c:128-155 | what is left of the waiting tasklets is what is left of each stretch of them, in order |
| `Tasklets.CancelledNeverFires` | cascoda-util/src/cascoda_tasklet.c:189-193 | a due tasklet that the first one's callback cancels does not fire |
| `RxFifo.Receiver.GetFreeBuf` | baremetal/cascoda-bm-core/source/cascoda_spi.c:201-216 | a slot is allocated if and only if one is free; the stored messages stay as they are |
| `RxFifo.Receiver.PeekNonEmpty` | baremetal/cascoda-bm-core/source/cascoda_spi.c:218-228 | a peek gives the oldest stored message, never the slot being filled, and refuses exactly if the only slot in use may be being filled |
| `RxFifo.Receiver.DequeueFullBuf` | baremetal/cascoda-bm-core/source/cascoda_spi.c:230-240 | exactly the oldest message leaves the ring |
| `RxFifo.Receiver.IsFifoAlmostFull` | baremetal/cascoda-bm-core/source/cascoda_spi.c:123-139 | without a synchronous wait, almost full means at most the reserved number of slots is free; with one, full |
| `RxFifo.Receiver.Enter` | baremetal/cascoda-bm-core/source/cascoda_dispatch.c:567-572 | a re-entrant dispatch is refused and changes nothing |
| `RxFifo.Receiver.Occur` | baremetal/cascoda-bm-core/source/cascoda_dispatch.c:564-579 | what each interrupt, call or loop step does to arrivals, deliveries, the transfer flags and the dispatcher's place in its loop, in any state |
| `RxFifo.Receiver.Interleave` | baremetal/cascoda-bm-core/source/cascoda_dispatch.c:564-579 | over every interleaving of interrupts, loop steps and re-entrant calls, what was delivered is a prefix of what arrived, nothing is lost, and the water mark is the occupancy |
| `RxFifo.Receiver.DispatchAll` | baremetal/cascoda-bm-core/source/cascoda_dispatch.c:572-579 | an uninterrupted dispatch terminates and, with no exchange in progress, delivers everything that arrived |
| `RequestCache.DeltaIsTrue` | baremetal/cascoda-bm-core/source/cascoda_dispatch.c:172 | the 32-bit difference of two clock readings is the true elapsed time if less than a period passed |
| `RequestCache.Cache.AddItem` | baremetal/cascoda-bm-core/source/cascoda_dispatch.c:146-165 | the first free slot takes the request with the full allowance, or the table is full and unchanged |
| `RequestCache.Cache.RemoveItem` | baremetal/cascoda-bm-core/source/cascoda_dispatch.c:127-143 | the first matching active entry is deactivated, or nothing matches and nothing changes |
| `RequestCache.Cache.Purge` | baremetal/cascoda-bm-core/source/cascoda_dispatch.c:90-113 | the table ends up empty, with one confirm for each active entry in table order |
| `RequestCache.Cache.Decay` | baremetal/cascoda-bm-core/source/cascoda_dispatch.c:168-195 | with no flush active, a direct request tracked for more than 500 ms makes the call report TIMEOUT; unless a decay gave up half-way before, it reports TIMEOUT exactly if for some direct request more than 500 ms have passed since the last full decay before it was added; the new table is given entry by entry |
| `RequestCache.EarlyTimeout` | baremetal/cascoda-bm-core/source/cascoda_dispatch.c:168-195 | a request added 500 ms after the last decay times out 1 ms later |
| `RequestCache.Cache.FlushFix` | baremetal/cascoda-bm-core/source/cascoda_dispatch.c:198-215 | the flush confirms every active entry, empties the table and restarts the clock; a nested flush does nothing to the table |
| `RequestCache.ConfirmPerEntry` | baremetal/cascoda-bm-core/source/cascoda_dispatch.c:103-112 | each kind and handle is confirmed exactly as many times as it has active entries |
| `RequestCache.ConfirmsJoin` | baremetal/cascoda-bm-core/source/cascoda_dispatch.c:103-112 | the confirms of one stretch of the table come ahead of those of the next |
| `TxPower.Dispatcher.SetTxPower` | ca821x-api/source/ca821x_api.c:1393-1427 | the register decodes to the sign-extended request clamped to -1..9, and is the least value that does |
| `TxPower.Dispatcher.CheckChannel` | baremetal/cascoda-bm-core/source/cascoda_dispatch.c:369-392 | entering and leaving channel 26 adjusts the register so that the limit holds on the new channel |
| `TxPower.Dispatcher.Execute` | baremetal/cascoda-bm-core/source/cascoda_dispatch.c:307-359 | every successful command keeps the register at min(4, clamped power) on channel 26 and at the clamped power elsewhere; a raw register value goes through as it is, except 0x10 and above on channel 26, which becomes 0x0C |
| `TxPower.Dispatcher.Run` | baremetal/cascoda-bm-core/source/cascoda_dispatch.c:307-392 | so does every run of commands, and on channel 26 the register never decodes to more than 4 dBm |
| `TxPower.RoundTrip` | ca821x-api/source/ca821x_api.c:1332-1391 | decoding an encoded power clamps it to -1..9, and encoding a decoded register value gives the least value that decodes the same |
| `TxPower.Table` | ca821x-api/source/ca821x_api.c:1334-1361 | the eleven register values, one for each power from -1 to 9 |
| `ScanConfirm.Confirm.VerifyResults` | ca821x-api/source/ca821x_api.c:1536-1577 | the list is left holding exactly the descriptors of link quality above 75, in order, with count and length to match, and NO_BEACON exactly if filtering emptied a SUCCESS or LIMIT_REACHED result; other modes and scan types change nothing |
| `ScanConfirm.SlackBound` | ca821x-api/source/ca821x_api.c:1567 | the copies read at most twice as far as the list reaches |
| `ScanConfirm.FilterExact` | ca821x-api/source/ca821x_api.c:1551-1571 | after the filter a descriptor is in the list as often as before if its link quality is above 75, and not at all otherwise |
| `ScanConfirm.FilterJoin` | ca821x-api/source/ca821x_api.c:1551-1571 | what is kept of a list is what is kept of its parts, in order |
| `ScanConfirm.Confirm.RemoveFirst` | ca821x-api/source/ca821x_api.c:1566-1570 | the overlong copy towards the front removes exactly one descriptor from the list |
| `ScanConfirm.Confirm.GetDescriptor` | ca821x-api/source/ca821x_api_helper.c:98-122 | the walker finds descriptor i if and only if there is one, at the place where it is stored |
| `ScanConfirm.Confirm.FilterThenGet` | ca821x-api/source/ca821x_api_helper.c:98-122 | after the filter the walker returns the i-th survivor |
| `KnxFloat.Encode` | baremetal/cascoda-bm-devboard/source/knx_click_handlers.c:99-145 | the shift loops terminate and pack the rounded mantissa, the number of halvings and the sign |
| `KnxFloat.ExponentFits` | baremetal/cascoda-bm-devboard/source/knx_click_handlers.c:116-134 | the exponent fits its four bits if and only if the value is in range |
| `KnxFloat.DecodeEncoded` | baremetal/cascoda-bm-devboard/source/knx_click_handlers.c:148-174 | decoding gives back mantissa times two to the exponent, or 0 if rounding overflowed the mantissa |
| `KnxFloat.BoundExact` | baremetal/cascoda-bm-devboard/source/knx_click_handlers.c:99-174 | decode(encode(v)) is within half a step of v if and only if rounding did not overflow the mantissa, and exact for exponent 0 |
| `KnxFloat.OverflowWitness` | baremetal/cascoda-bm-devboard/source/knx_click_handlers.c:136-139 | 4095 is encoded as 0, and no smaller value overflows |
| `KnxFloat.DecodedExact` | baremetal/cascoda-bm-devboard/source/knx_click_handlers.c:99-174 | the value of each of the 65536 numbers is encoded without error |
| `KnxFloat.KnownNumbers` | baremetal/cascoda-bm-devboard/source/knx_click_handlers.c:139-142 | the ends of the range, 0, the least steps and 2048 have the encodings the format gives them |
| `KnxFloat.OrderPreserved` | baremetal/cascoda-bm-devboard/source/knx_click_handlers.c:99-174 | encoding preserves order among all values in range that do not overflow |

## Left out

- SettingsStore.Store.AddSettingVector: makes no promise about the flash after a successful write of more than 0xFFF4 octets, whose padded length plus header leaves 16 bits, or of a vector that writes past its record, which StoreImages.OverrunHits shows to destroy cells behind it. AppendBlock, SetSetting, AddSetting and AddVector share this.
- Tasklets.Scheduler.Process: the clock reading is fixed during one call; callbacks are given as the schedule and cancel calls they make, every schedule strictly later than that reading and inside one window.
- FlashJobs.CheckJob.RunToCompletion: needs the range to lie on the chip and the read limit to fit the 128-octet read buffer, as the code does.
- FlashJobs.WriteJob.RunToCompletion: needs a page size above 0, by which the code divides.
- ScanConfirm.Confirm.VerifyResults: needs the buffer to be readable as far as the copies go, because each runs past the list's end by the length of what was kept so far; the copy is modelled as running forward.
- RequestCache.Cache.Decay: the clock must be read at least once in a period of 2^32 ms.
- RequestCache.Cache.Purge: the confirm callbacks add no entry; the radio commands around a flush are not modelled.
- TxPower.Dispatcher.constructor: the register is taken to decode to 9 dBm at start, as chip initialisation is not part of this model; the branch for MAC_MPW devices is left out.
- The `reserved` field of a record is never initialised by the code; it is a parameter of the operations.
- Power cuts inside a wipe, inside one flash word, and half-way through a page erase.
- A device with a single flash page, on which there is no second area and no compaction.
- The bodies of the flash, SPI and board support functions, beyond cells that AND and pages that erase; flash wear.
- Electrical timing of the SPI exchange, the sync chain, and the messages themselves; only slots, arrival and delivery are modelled, and not the read that is retried after a stall.
- The PCPS and mixed-direct workarounds, chip register initialisation, the request wrappers and the 8212 dispatcher: field copying and fixed register writes.
- The KNX converters that scale sensor readings before encoding, the FNV hash, printing, OCF applications and examples.
