# Verified model of the micro:bit runtime's storage stack and state machines

This project models the flash storage of codal-microbit-v2 from the NOR cells up to the
key/value rows of the data log, the file system beside it, and four smaller state machines
whose correctness is not visible in one function body. Check it with
`dafny verify dfyconfig.toml` (Dafny 4.11).

## What is modelled

**The data log** (`Nor`, `UsbFlash`, `FSCache`, `LogFormat`, `LogAge`, `LogClear`, `MicroBitLog`,
`LogText`, `Csv`, `LogRows`). Programming ANDs bytes into flash, erasing sets a block to 0xFF. The
flash disk keeps, as ghost state, every image it has passed through: one after each word programmed
and each block erased. Those are the states a power failure can leave. The log runs on the modelled
block cache, which runs on the modelled disk, so the main results span all layers:

- *Crash safety.* In every image of a `LogString` the log holds the old text and a prefix of
  the new line (its contract), and what `Init` recovers from such an image is exactly that
  text (`CrashRecovery`, `Mount`). The invariant needs nothing of the journal but that each
  slot reads as at most the true length: torn, blank, stale and wrapped slots all do,
  because bits only clear, and digits over digits only get smaller. Every such image is
  recognised at power-up (`PowerUpFinds`), and its headings are intact; a failure while
  headings are stored leaves a rest of the old or a beginning of the new (`HeadingTear`).
  A failure in `Clear` leaves the old log and headings as they were, no log, or an empty one
  (`Clear`, `ClearingOutcome`). Each of these disks meets the requirement of `Init`
  (`Startable`), so sessions and power failures can follow one another (`PowerUp`).
- *Cache coherence.* A resident block equals the flash it caches. On a new journal page the log
  erases the whole flash page but blanks only its first cached block. The cache is coherent
  afterwards if and only if every other cached block of the page was blank (`BlankedExact`,
  `EraseJournalPage`); `StaleBlock` is a cache for which it is not. The model lets cached journal
  blocks lag behind flash by set bits there, and crash safety holds all the same.
- *Runs.* A block that lags is never read or written by the journal again: each journal entry comes
  with a data block that is used after it, there are only four slots, and so it is evicted while
  the head is still in the first block of its page (`LagBound`, `LagGrows`, `HeadsApart`). The
  invariant `Orderly` says this together with: exactly one journal entry is live, at the head.
  `Clear` and `Mount` (of a clean journal) establish it and every `LogString`, and so every row,
  keeps it, as long as the cache's 16-bit counter has not wrapped. `OldAfterWrap` shows what the
  wrap does to least recent use. Recovery from such a journal walks fewer than 256 bytes.
- *Rows.* What a session prints parses back to its headings and rows, behind the lines that were
  there before (`ContentsRead`, `RowShape`); if power failed inside a line, the first new line
  continues that one. What a power failure in a row leaves is `RowImage`; new columns are on flash
  before their heading line is complete in the text, never after it (`HeadingsAhead`).
- *Headings.* What is on flash is tracked through every change of headings and every power failure
  (`HeadingsAt`, `Replaced`), and a later `Init` finds exactly that (`HeadingsUnique`,
  `LoadColumns`, `RestartAfterRow`, `RestartAfterChange`). The first change after `Clear` is stored.
  The first change after `Init` is stored if and only if there were headings before, or no trace of
  any (`FirstChange`). Later changes often are not: see below.

**Flash primitives.** `FlashWrite` is the byte-granular writer for code flash with its scratch
page, `UsbFlash` the partial-page erase and the 64-byte fragments. Both have exact final
contents, frame conditions, and the exact condition under which they do what they promise.

**The file system** (`FileTable`, `FileSystem`, `TableRecycle`, `FileFlash`). Files are chains of
blocks in a table whose every life-cycle step only clears bits. Append and read are refinements of
byte sequences; chains stay disjoint, acyclic and terminated; blocks are conserved.
`TableRecycle` is the page recycler on flash, on top of `FlashWrite`. `FileFlash` shows that the
steps which `FileSystem` takes on values are what these two do to the bytes. Which blocks a
recycling of the whole table erases, and which block is taken next, is exact.

**Smaller machines.** `Synth` proves that the sound of a sequence of effects, looping ones
included, does not depend on the sizes of the buffers it is pulled into, when each effect step
is called, and what each sample is: a replay of the calls with nothing but the effect's own
functions (`Sounds`, `Performs`). `Radio` runs the receive queues with the radio interrupt between any two steps of the
idle loop, over an explicit heap in which freed addresses come back. `Compass` is the hill climb of
the calibrator, `Sleep` the tick accounting of deep sleep over a 32-bit counter.

## Where the code falls short of its description

Each of these has its exact condition and an input that fails.

- The flash manager's `erase` adds address and length in 32 bits. If the sum wraps to a place on the
  disk, a range behind it is accepted, and exactly then the promise is not kept (`EraseKept`); `EraseAccepted` has
  a range that is left alone and one of which only the wrapped part is erased. A sum of zero, as of
  `erase(0, 0)`, puts the end above every block, and the loop never ends (`EndlessErase`).
- A journal page erase leaves stale blocks in the cache (`BlankedExact`, `StaleBlock`); they are
  harmless until the counter wraps (see *Runs*).
- The results of the writes that store headings are ignored, and the length of the headings is not
  updated. Headings that were zeroed by a change which a power failure cut short are never stored
  again until the log is cleared (`FirstChange`, `HeadingsLost`). After `Clear`, columns added
  behind those of the first row are not stored (`LaterColumnsLost`). After `Init`, a second change
  leaves the columns of the first change alone, unless the new text happens to clear bits of them only
  (`ThirdColumns`, `OneColumnOfThree`). `Replaced` has what is stored in all cases.
- Headings that lost their beginning may give the same column twice (`ColumnsAfter`, `SameKeyTwice`).
- A power failure between storing headings and completing their line leaves new columns over an old
  heading line; the rows of the next session do not match it (`HeadingsAhead`).
- `recv` of a datagram into a buffer copies out of bounds exactly if the length byte does not cover
  the header, or counts more than a payload and the buffer is longer than one (`DatagramRecvInto`,
  `BadLengths`); the form that returns a packet, exactly if it counts more (`DatagramRecv`).
- `FSCache` can evict a pinned block, exactly if it is in slot 0 and no unpinned slot is older
  (`PinnedVictim`, `PinnedEvicted`).
- `flash_write` loses what lies behind the page end, exactly if an erase was needed and it
  differed (`WriteExact`, `WriteCutShort`); a scratch page equal to the target loses the rest of
  the page, exactly if it was not blank (`ScratchOnTarget`, `ScratchLoses`).
- The scan of `getFreeBlock` runs off the table for want of a modulo (`RunsOnAgrees`, `RunsPast`).
  The file system model follows the comment and wraps at the table's end.
- `getFreeBlock` never offers the block it allocated last, even if it is the only free one: it
  returns 0 if and only if no other block is unused or deleted (`GetFreeBlock`, `LastBlockUnseen`).
- `recycleFileTable` makes every deleted entry unused, but does not erase every deleted block. The
  table's last page is recycled in the walk if a block on it is deleted, and the walk no longer sees
  the entries on it as deleted. A page behind it is passed over exactly if this happens and all of
  its deleted blocks have their entries there (`RecycleFileTable`, `Refreshed`, `DeletedKept`).
- `approximateCentre` returns the origin if no round improves on the centre of mass, also when
  that was perfect (`ApproximateCentre`, `PerfectCentreLost`).
- The ticks to sleep wrap to an enormous number exactly if twice the time to power down does not
  fit before the wake-up time. As wake-ups closer than 100 ms are refused, powering down has to
  take about 50 ms for that (`TotalTicksUnderflow`, `EnormousSleep`).
- `writeNum` ends its digits with a zero byte, so the newlines of the metadata block that the
  header file shows are not there; `LogFormat.MetaBytes` has what is written.

What an operation does to flash is stated in bytes and addresses, besides by the specification it
is proved against: the text that is cleaned (`CleanedTo`), a formatted disk (`FormattedBytes`),
where the log begins (`AfterHeader`), a row that ended (`RowEnded`), a recycled page (`PageRebuilt`).

Proof helpers that say nothing about the program have no row below.

## Model

| member | source | states |
|---|---|---|
| Nor.ClearsIsAnd | source/FSCache.cpp:138-143 | the test made before a write is the one under which ANDing the new byte into flash yields the new byte |
| Nor.BurnIsOverwrite | source/FSCache.cpp:132-144 | programming is plain assignment if and only if every new byte only clears bits |
| Nor.BurnTwice | source/MicroBitUSBFlashManager.cpp:326-350 | programming two adjacent pieces is programming their concatenation |
| UsbFlash.EraseEndBound | source/MicroBitUSBFlashManager.cpp:417-420 | the last block erased is the one that holds the byte before the end of the range; how much lies behind the range in it |
| UsbFlash.EndlessErase | source/MicroBitUSBFlashManager.cpp:420-454 | if the end of the range is computed as zero, as for an erase of nothing at address 0, no block is behind the bound, and neither is the next one after any: the loop does not end |
| UsbFlash.EraseKept | source/MicroBitUSBFlashManager.cpp:409-414 | erase does what it promises, blank the range and nothing else or refuse a range that is not on the disk, if and only if the end as computed in 32 bits is beyond the disk or the true end is not |
| UsbFlash.EraseAccepted | source/MicroBitUSBFlashManager.cpp:409-414 | two ranges behind the disk that are accepted: 0x180 words at 0xFFFFFC00 are left alone, of 0x40000001 words at 0 only the first is erased |
| UsbFlash.UsbFlash.Write | source/MicroBitUSBFlashManager.cpp:309-371 | fragmented writing equals one contiguous write, word by word |
| UsbFlash.UsbFlash.TransactWrite | source/MicroBitUSBFlashManager.cpp:332-338 | one fragment programmed word by word, with every intermediate disk |
| UsbFlash.UsbFlash.EraseBlocks | source/MicroBitUSBFlashManager.cpp:438-454 | the blocks visited are exactly those between the bounds, with every intermediate disk |
| UsbFlash.UsbFlash.Plan | source/MicroBitUSBFlashManager.cpp:417-428 | block bounds around the range, and what must be put back before and behind it, in whole words |
| UsbFlash.UsbFlash.Save | source/MicroBitUSBFlashManager.cpp:422-435 | what the slow path reads is everything of the erased blocks that lies outside the range; a read that starts behind the disk yields nothing |
| UsbFlash.UsbFlash.Erase | source/MicroBitUSBFlashManager.cpp:400-483 | for every 32-bit address and length whose computed end is not zero: a range whose computed end is behind the disk is refused with nothing changed; if the sum did not wrap, exactly the range is blank and every other byte as before; if it did, the disk is as before |
| UsbFlash.UsbFlash.EraseWrapped | source/MicroBitUSBFlashManager.cpp:416-483 | the accepted range is erased exactly, also if its ends lie within blocks; a whole block takes a single step |
| UsbFlash.EraseUndone | source/MicroBitUSBFlashManager.cpp:475-480 | if the end has wrapped, at most the one block that holds both ends is erased, and the saved ends put all of it back |
| UsbFlash.EraseRestored | source/MicroBitUSBFlashManager.cpp:475-480 | rewriting both saved ends after the block erase leaves only the range erased |
| UsbFlash.MultiplesOfFour | source/MicroBitUSBFlashManager.cpp:427-434 | the saved ends are whole words whenever address and length are |
| UsbFlash.BurnImagesConcat | source/MicroBitUSBFlashManager.cpp:326-350 | fragmentation does not change the sequence of disks a write passes through |
| UsbFlash.BurnImagesAre | source/MicroBitUSBFlashManager.cpp:326-350 | a write passes through one disk for each word, in order, with the words up to it written |
| UsbFlash.BurnImagesTorn | source/MicroBitUSBFlashManager.cpp:309-371 | every disk a write passes through has a prefix of the data written and nothing else |
| FSCache.FSCache.Clear | source/FSCache.cpp:45-59 | no block is resident afterwards, so the cache agrees with any flash |
| FSCache.FSCache.GetCacheEntry | source/FSCache.cpp:255-267 | finds the first resident slot for the address and stamps it, and changes nothing else |
| FSCache.FSCache.Victim | source/FSCache.cpp:221-235 | the scan's choice of slot, tied to the specification whose properties VictimChoice and PinnedVictim state |
| FSCache.FSCache.CachePage | source/FSCache.cpp:212-248 | the block is resident afterwards, no block is resident twice, every resident block still equals flash, and at most this block is new |
| FSCache.FSCache.Erase | source/FSCache.cpp:64-76 | only the cached copy of the block becomes blank |
| FSCache.FSCache.Pin | source/FSCache.cpp:182-193 | the block is resident and pinned; the table is otherwise as after paging it in |
| FSCache.FSCache.Unpin | source/FSCache.cpp:198-206 | no resident entry of the block is pinned; nothing else of the table changes |
| FSCache.FSCache.Read | source/FSCache.cpp:82-104 | returns exactly the flash bytes of the range, over any number of blocks; rejects a range that ends at or behind the flash end |
| FSCache.FSCache.Validate | source/FSCache.cpp:122-149 | the first pass passes if and only if every new byte of every block only clears bits of flash |
| FSCache.FSCache.Compare | source/FSCache.cpp:132-144 | comparing against the cached page decides about flash, also where the page may lag |
| FSCache.FSCache.Write | source/FSCache.cpp:114-177 | all or nothing: flash becomes the plain byte update exactly when every byte only clears bits; otherwise no flash byte has changed, even if the last block is at fault; coherence is kept and every intermediate disk is a torn write |
| FSCache.FSCache.Store | source/FSCache.cpp:161-170 | write-through of one segment in whole words: the padding bytes are programmed over themselves |
| FSCache.FSCache.WriteThrough | source/FSCache.cpp:151-174 | the second pass writes the whole range and keeps every resident block equal to flash |
| FSCache.PagedSlot | source/FSCache.cpp:212-248 | paging in changes one slot, and no other slot holds the block |
| FSCache.PagedWellFormed | source/FSCache.cpp:237-247 | no block becomes resident twice, and pages keep the block size |
| FSCache.PagedSynced | source/FSCache.cpp:237-247 | a freshly loaded block equals flash and the others still do |
| FSCache.PaddedBurn | source/FSCache.cpp:161-170 | programming the word-aligned page range equals programming the unaligned data alone |
| FSCache.StoreSynced | source/FSCache.cpp:166-170 | after a write-through every resident block agrees with the new flash |
| FSCache.StoreTorn | source/FSCache.cpp:169-170 | every disk the aligned write passes through is a torn write of the unaligned data |
| FSCache.BlankedSynced | source/MicroBitLog.cpp:633-636 | a flash page erase with only its first cached block blanked leaves the page's other cached blocks lagging by set bits only, and all others exact, also when blocks lagged before |
| FSCache.BlankedExact | source/MicroBitLog.cpp:624-637 | a coherent cache is coherent after such an erase if and only if every other cached block of the page was blank |
| FSCache.StaleBlock | source/MicroBitLog.cpp:624-637 | a coherent cache that is not coherent after it: one block inside the page, cached with zeros |
| FSCache.UnseenErase | source/MicroBitLog.cpp:599-606 | erasing a page of which no block is cached keeps the cache coherent |
| FSCache.VictimChoice | source/FSCache.cpp:221-235 | an empty slot if there is one, else a slot that no unpinned slot is older than |
| FSCache.PinnedVictim | source/FSCache.cpp:222-235 | with all slots in use a pinned block is evicted if and only if it is in slot 0 and no unpinned slot is older: the scan starts there without looking at the flag |
| FSCache.PinnedEvicted | source/FSCache.cpp:222-235 | two slots in use with a pinned block in the first: paging in another block evicts it |
| FSCache.PagedTraced | source/FSCache.cpp:212-248 | paging in a block makes it newer than all others, and of the blocks that stay none loses one that was newer, until the counter wraps |
| FSCache.NewerBound | source/FSCache.cpp:212-248 | fewer blocks than slots are newer than a resident one |
| FSCache.LruDistance | source/FSCache.cpp:212-248 | without pins and before the 16-bit counter wraps, a block untouched while as many distinct others as there are slots are touched is not resident |
| FSCache.OldAfterWrap | source/FSCache.cpp:212-248 | with the counter about to wrap, three distinct others go through two slots and the old block is still resident |
| LogText.CleanBuffer | source/MicroBitLog.cpp:529-552 | a cleaned copy, byte by byte: tabs, the bytes of arrows and, if asked for, commas and newlines become underscores and all others stay; nothing exactly when every byte stays |
| LogText.CleanBytes | source/MicroBitLog.cpp:529-552 | cleaned text in bytes: no 09, no 2D 2D 3E, no 2C or 0A if separators are to go; every other byte outside an arrow stays, and all the rest are 5F |
| LogText.CleanIsClean | source/MicroBitLog.cpp:517-528 | cleaned text has nothing left to clean, and clean text is left alone |
| LogFormat.WriteNum | source/MicroBitLog.cpp:40-51 | the eight hexadecimal digits of the number, most significant first |
| LogFormat.DigitBytes | source/MicroBitLog.cpp:109-114 | digits in either case have their values, and reading stops at anything else |
| LogFormat.LastDigit | source/MicroBitLog.cpp:109-114 | a number is 16 times what is before its last digit, and the digit |
| LogFormat.DigitsAre | source/MicroBitLog.cpp:40-51 | digits are written in upper case |
| LogFormat.HexRoundTrip | source/MicroBitLog.cpp:40-51 | reading back what was written gives the number |
| LogFormat.DigitMonotone | source/MicroBitLog.cpp:589-649 | programming one digit over another never raises its value |
| LogFormat.HexRunMonotone | source/MicroBitLog.cpp:109-114 | digit by digit smaller text reads as a smaller number |
| LogFormat.ZeroTear | inc/MicroBitLog.h:165-168 | zeroing an entry, cut short anywhere, leaves an entry that reads as at most the log's length |
| LogFormat.EntryTear | source/MicroBitLog.cpp:639-642 | writing an entry, cut short anywhere, over any slot whose bits permit it leaves an entry that reads as at most the log's length |
| LogFormat.MetaRoundTrip | source/MicroBitLog.cpp:738-763 | a geometry stored by clear is found again by isPresent |
| LogFormat.StartPlace | source/MicroBitLog.cpp:200-203 | for every page size the metadata are on the first page boundary at or behind byte 2048, also if that is one, and the journal a page behind |
| LogFormat.MetaText | source/MicroBitLog.cpp:233-243 | the metadata block in bytes: version, newline, and the end of the log and the start of its data as 0x, eight digits and a zero byte each |
| LogFormat.EmptyLog | source/MicroBitLog.cpp:235-247 | a formatted disk is an empty log with one live journal entry |
| LogFormat.ScanBound | source/MicroBitLog.cpp:98-117 | whatever the journal holds, the scan yields at most the true length |
| LogFormat.WalkStops | source/MicroBitLog.cpp:119-129 | the walk to the first blank byte ends at the true end from any start at or before it |
| LogFormat.RecoveryExact | source/MicroBitLog.cpp:90-129 | scan and walk together find the exact end of the log, for every journal a power failure can leave |
| LogFormat.EraseAhead | source/MicroBitLog.cpp:598-606 | erasing the page after the one the log ends in keeps the log |
| LogFormat.DataTear | source/MicroBitLog.cpp:608-615 | writing a chunk of data, cut short anywhere, leaves a log that is longer by the prefix written |
| LogFormat.JournalErase | source/MicroBitLog.cpp:624-637 | erasing a journal page keeps the log |
| LogFormat.EntryHolds | source/MicroBitLog.cpp:639-649 | writing or zeroing a journal slot, cut short anywhere, keeps the log and its length |
| LogFormat.CleanScan | source/MicroBitLog.cpp:98-117 | from a journal with one live entry the scan finds exactly that entry |
| LogFormat.CleanRecovery | source/MicroBitLog.cpp:90-129 | after a clean stop recovery restores head and end, and walks fewer than 256 bytes |
| LogFormat.NextSlotPlace | source/MicroBitLog.cpp:621-637 | the next slot lies behind the head in its page, or starts a journal page, wrapping round at the end |
| LogFormat.CleanStep | source/MicroBitLog.cpp:617-649 | moving the live entry on keeps exactly one live entry, over page ends and wrap-around, given two journal pages; both slot writes only clear bits |
| LogFormat.NewEntryFound | source/MicroBitLog.cpp:98-117 | from a journal with two live entries the scan finds the newer, also if the journal has begun again at its first slot |
| LogFormat.UpdateCut | source/MicroBitLog.cpp:639-649 | power fails between the two writes of a journal update: init finds the new entry |
| MicroBitLog.HeadingReplaced | source/MicroBitLog.cpp:467-488 | zeros over as much of the old headings as is known of them, the new ones behind if flash takes them: what the headings are then |
| LogFormat.HeadingZeroed | source/MicroBitLog.cpp:485-486 | any number of zeros over headings is accepted, and leaves the rest of them |
| LogFormat.HeadingTaken | source/MicroBitLog.cpp:487 | new headings are accepted over what is there if and only if they set no bit of it, and what is behind them stays |
| LogFormat.HeadingsUnique | source/MicroBitLog.cpp:131-146 | which headings init finds is determined by the flash |
| LogFormat.FirstChange | source/MicroBitLog.cpp:467-488 | the first change after init is stored if and only if there were headings, or no zeroed ones |
| MicroBitLog.HeadingsRefused | source/MicroBitLog.cpp:467-488 | zeros with no headings behind them: new headings are refused, and nothing changes |
| MicroBitLog.HeadingsLost | source/MicroBitLog.cpp:467-488 | power fails when the old headings are zeroed and the new ones not begun: from then on no headings are stored |
| LogAge.LagBound | source/MicroBitLog.cpp:617-637 | a block that lags and is still cached is fewer journal entries old than the cache has slots |
| LogAge.LagKept | source/MicroBitLog.cpp:558-660 | reading and writing elsewhere makes no lagging block younger |
| LogAge.LagGrows | source/MicroBitLog.cpp:608-622 | a line that makes a journal entry due also makes every lagging block older by a data block |
| LogAge.FilledBlock | source/MicroBitLog.cpp:608-622 | a line that crosses a 256-byte boundary touches the block it began in, which is then full and was not before |
| LogAge.NoLag | source/MicroBitLog.cpp:617-637 | once no block of the erased page is cached, the cache is exact everywhere |
| LogClear.ClearingOutcome | source/MicroBitLog.cpp:76-188 | whatever disk a power failure in clear leaves, init finds the old log with its text and headings, also if it had another geometry, or no log, or an empty one; its requirement is met in each case |
| LogClear.PagesClearing | source/MicroBitLog.cpp:226-228 | while pages are erased in order, the old log is whole until its metadata page goes, and then there is no log |
| LogClear.MetaTorn | source/MicroBitLog.cpp:233-243 | metadata cut short before the end of their last number are not recognised; with that number whole, the log is recognised, empty and without headings |
| LogClear.EntryTorn | source/MicroBitLog.cpp:245-247 | a first journal entry cut short anywhere leaves an empty log |
| MicroBitLog.CrashRecovery | source/MicroBitLog.cpp:76-129 | for every disk a power failure during logString can leave, init recovers the old text and a prefix of the line, and nothing else |
| MicroBitLog.PowerUpFinds | source/MicroBitLog.cpp:738-763 | every such disk is recognised at power-up with the same geometry, so that init's requirement is met |
| MicroBitLog.HeadingTear | source/MicroBitLog.cpp:486-488 | each torn write of the heading block is again a heading block: of a rest of the old text, or of a beginning of the new text over it; for any bounds the session may have of the old text |
| MicroBitLog.HeadingsSurvive | source/MicroBitLog.cpp:558-649 | no power failure during logString changes the headings |
| MicroBitLog.ShortLineFits | source/MicroBitLog.cpp:568-577 | lines shorter than a page by four bytes meet logString's requirement at every length of the log |
| MicroBitLog.ChunkSurvives | source/MicroBitLog.cpp:608-615 | all torn writes of a data chunk are logs of the old text and a prefix of the chunk |
| MicroBitLog.EntrySurvives | source/MicroBitLog.cpp:639-649 | all torn writes of a journal slot are logs of the same text |
| MicroBitLog.HeadingSurvives | source/MicroBitLog.cpp:486-488 | all torn writes of the heading block are logs of the same text |
| MicroBitLog.HeadsApart | source/MicroBitLog.cpp:617-649 | while blocks lag, the head stays in the first block of its page, away from them; a page ends only after all of them were evicted |
| MicroBitLog.JournalPageErased | source/MicroBitLog.cpp:624-637 | the log, and what of the cache is exact, over the erase of a journal page; exact everywhere if and only if no stale block was cached |
| MicroBitLog.StillUncached | source/MicroBitLog.cpp:608-609 | writing log data brings no block of the next journal page into the cache |
| MicroBitLog.MicroBitLog.constructor | source/MicroBitLog.cpp:56-71 | after power-up nothing is cached or initialised, and no headings are known |
| MicroBitLog.MicroBitLog.AppendChunk | source/MicroBitLog.cpp:592-615 | a turn of the write loop appends up to the page end, the next page being blank when it is entered; every power failure in it leaves the old text and a prefix of the chunk |
| MicroBitLog.MicroBitLog.EraseNextPage | source/MicroBitLog.cpp:598-606 | the page erased is blank, holds nothing of the log, and is not cached |
| MicroBitLog.MicroBitLog.Append | source/MicroBitLog.cpp:589-615 | the whole line is appended; every power failure on the way leaves the old text and a prefix of the line |
| MicroBitLog.MicroBitLog.AdvanceHead | source/MicroBitLog.cpp:617-637 | the head moves to the next slot, on an erased page if it is a new one; no power failure changes the text; lagging blocks stay away from both slots |
| MicroBitLog.MicroBitLog.EraseJournalPage | source/MicroBitLog.cpp:624-637 | the page is blank; from an exact cache, it is coherent afterwards if and only if no other cached block of the page differed from blank |
| MicroBitLog.MicroBitLog.UpdateJournal | source/MicroBitLog.cpp:617-649 | one live entry, for the current length, before and after; no power failure in it changes the text; lagging blocks remain old enough for the next slot |
| MicroBitLog.MicroBitLog.JournalEnd | source/MicroBitLog.cpp:617-650 | the live entry records the length rounded down to 256 also when no new one is written; lagging blocks remain old enough |
| MicroBitLog.MicroBitLog.LogString | source/MicroBitLog.cpp:558-660 | a line is refused whole if it does not fit, else its text is appended with tabs and the bytes of arrows as underscores and all others as they are; every disk it passes through holds the old text and a prefix of the line; headings are the same on all of them, as is everything behind the page the log ends on; a log in good order, with one live journal entry and no stale block in the head's way, is so afterwards until the cache counter wraps, so over every run; the FULL marker is written exactly if the bits permit it |
| MicroBitLog.MicroBitLog.StoreLine | source/MicroBitLog.cpp:579-650 | a line that fits is appended and journaled, whatever lags in the cache |
| MicroBitLog.MicroBitLog.MarkFull | source/MicroBitLog.cpp:571-572 | the word FUL is written exactly if the bits there permit it, and changes neither text, headings nor journal |
| MicroBitLog.MarkedBytes | source/MicroBitLog.cpp:571-572 | what is on flash in bytes after the marker is written: F, U, L, or what was there |
| MicroBitLog.MicroBitLog.WriteBehind | source/MicroBitLog.cpp:571-572 | a write behind the log's end is invisible to recovery at every step |
| MicroBitLog.MicroBitLog.Refuse | source/MicroBitLog.cpp:569-577 | a refused line leaves text, headings and journal as they were; the marker is written once |
| MicroBitLog.MicroBitLog.Clear | source/MicroBitLog.cpp:195-262 | an empty log in good order with no headings, whatever the disk held; metadata on the first page boundary at or behind byte 2048, the data six pages up to four bytes before the last page; every byte of the disk; every power failure on the way leaves the old log, no log, or an empty one |
| MicroBitLog.MicroBitLog.Format | source/MicroBitLog.cpp:226-247 | erase, header, metadata and first entry, each on blank flash, give the formatted disk, through images that hold the old log, none, or an empty one |
| MicroBitLog.FormattedParts | source/MicroBitLog.cpp:220-247 | on a formatted disk the header is readable, the FULL marker is gone, and nothing behind the erased part has changed otherwise |
| MicroBitLog.FormattedIs | source/MicroBitLog.cpp:220-247 | a formatted disk byte by byte: header, metadata, a zero entry, blanks up to the end of the first data page, zeros for the marker, and nothing else changed |
| MicroBitLog.MicroBitLog.EraseTo | source/MicroBitLog.cpp:226-228 | the erase loop blanks everything up to the end of the first data page |
| MicroBitLog.MicroBitLog.IsPresent | source/MicroBitLog.cpp:738-763 | decides, in bytes, whether the metadata block on the first page boundary at or behind byte 2048 has the version of a log, and loads its geometry |
| MicroBitLog.MicroBitLog.ScanJournal | source/MicroBitLog.cpp:98-117 | the journal loop computes the specified scan, through the cache |
| MicroBitLog.MicroBitLog.WalkData | source/MicroBitLog.cpp:119-129 | the data loop stops at the first blank byte |
| MicroBitLog.MicroBitLog.Mount | source/MicroBitLog.cpp:82-129 | from any log that a power failure can leave, all of its text is found again and the cache is coherent; a log with a clean journal is in good order |
| MicroBitLog.HeadOfClean | source/MicroBitLog.cpp:98-117 | the head the scan finds is that of the one live entry |
| MicroBitLog.MicroBitLog.LoadHeadings | source/MicroBitLog.cpp:131-157 | finds exactly the heading text behind the zeroed old ones |
| MicroBitLog.MicroBitLog.KnownAt | source/MicroBitLog.cpp:131-152 | what init knows of the headings are bounds from which every change is tracked, also if it found zeros and no headings |
| MicroBitLog.MicroBitLog.StoreHeadings | source/MicroBitLog.cpp:467-488 | what becomes of the headings on flash, for every change of a session, and that the session keeps track of it; text and journal unaffected at every step; what a power failure leaves of the headings; good order is kept |
| MicroBitLog.MicroBitLog.WriteHeadings | source/MicroBitLog.cpp:485-487 | the zeros are written, and the text behind them if and only if flash takes it; every disk on the way |
| MicroBitLog.MicroBitLog.Init | source/MicroBitLog.cpp:76-188 | an existing log comes back with its geometry, text and headings, the disk unchanged, and in good order if its journal was clean; where its headings are is known for every disk; otherwise an empty one is made, every byte of the disk known, through disks a clear may leave; the geometry begins right behind the header in both cases |
| Csv.SplitJoin | source/MicroBitLog.cpp:475-480 | splitting a joined line at its separators gives back the fields |
| Csv.LineOf | source/MicroBitLog.cpp:475-511 | a line in bytes: the fields with 2C between them and 0A at the end |
| Csv.ParseRender | source/MicroBitLog.cpp:475-511 | what was printed parses back to the same lines and fields |
| Csv.ParseOnto | source/MicroBitLog.cpp:475-511 | the same behind any text: lines start afresh if the text is empty or ends in a newline, else the first continues its last line |
| Csv.JoinClean | source/MicroBitLog.cpp:582-584 | cleaning a printed line does not change it: separators never complete an arrow |
| Csv.LineClean | source/MicroBitLog.cpp:582-584 | logString stores a printed line byte for byte |
| Csv.TerminatedParts | source/MicroBitLog.cpp:159-169 | the separators overwritten by zero bytes leave the keys as C strings, in order |
| Csv.ColumnsBefore | source/MicroBitLog.cpp:159-181 | of headings that break off anywhere, the complete keys are found |
| Csv.ColumnsAfter | source/MicroBitLog.cpp:159-181 | of headings that lost their beginning, the keys behind it are found and a rest of the one it went through |
| LogRows.LoggedRepresents | source/MicroBitLog.cpp:388-402 | setting or adding a column keeps the columns equal to the values logged in the row |
| LogRows.LinesRead | source/MicroBitLog.cpp:464-511 | every session's printed text parses back to its heading lines and rows |
| LogRows.ChangedColumns | source/MicroBitLog.cpp:464-490 | the flag for changed headings is set if and only if the columns differ from those of the latest heading |
| LogRows.LatestHeading | source/MicroBitLog.cpp:464-490 | the headings in force are those of the last heading printed, or those there were at the start |
| LogRows.SomeValue | source/MicroBitLog.cpp:417-426 | a row counts as having data if and only if some value logged is not empty |
| LogRows.ClosedEnds | source/MicroBitLog.cpp:408-520 | what ending a row prints: the row if some value is not empty, with the stamp, and a heading before it if the columns have changed |
| LogRows.RowShape | source/MicroBitLog.cpp:464-511 | a row has as many fields as the latest heading above it, and its field under a key is the last value logged for it, or empty |
| LogRows.HeadingPrinted | source/MicroBitLog.cpp:475-490 | printing the headings appends them as a line and makes them the ones rows are read under |
| LogRows.RowPrinted | source/MicroBitLog.cpp:494-511 | printing a row appends one line that reads as the values of the row |
| LogRows.RowLog.ContentsRead | source/MicroBitLog.cpp:408-520 | the log parses to what was there when the session began and then all entries made, the first of them glued to a line that was cut short, if any; unless the log is full |
| LogRows.RowLog.AddHeading | source/MicroBitLog.cpp:679-708 | a column is added, in front or behind all others, unless its key exists |
| LogRows.RowLog.SetTimeStamp | source/MicroBitLog.cpp:272-306 | a new timestamp column goes in front while nothing was written; no value changes, and no other column moves |
| LogRows.RowLog.BeginRow | source/MicroBitLog.cpp:330-346 | an open row is ended, with the same guarantees as endRow; the new row has no values |
| LogRows.RowLog.LogData | source/MicroBitLog.cpp:367-402 | afterwards the row maps the key to the value, both with tabs, arrows, commas and newlines as underscores, other keys as before; a new column goes behind the others and none moves; a row is opened if none was |
| LogRows.RowLog.EndRow | source/MicroBitLog.cpp:408-520 | appends a row if and only if some value logged is not empty: every key with its value, and the timestamp's with the stamp; before it a heading if and only if the columns differ from those of the latest heading; wherever logString takes the lines; what becomes of changed headings on flash, and on every disk on the way together with the text; unchanged ones stay; every power failure leaves the old text and a prefix of the lines; good order is kept; reports a full log |
| LogRows.RowLog.ShortLinesFit | source/MicroBitLog.cpp:568-577 | heading and row lines shorter than a page by four bytes are always taken, wherever the log ends |
| LogRows.RestartAfterRow | source/MicroBitLog.cpp:76-188 | power fails in a row with unchanged headings: init finds the same headings, and the old text and part of what was printed; its requirement is met |
| LogRows.RestartAfterChange | source/MicroBitLog.cpp:76-188 | power fails in a row with new headings: init finds a rest of the old or a beginning of the new ones, and the new ones if it finds any of the lines printed; its requirement is met |
| LogRows.HeadingsAhead | source/MicroBitLog.cpp:467-490 | on such a disk, with headings that flash takes, they differ from the last heading line in the text if and only if the new line is not complete and the headings are no longer the old ones |
| LogRows.ColumnsStored | source/MicroBitLog.cpp:159-181 | headings that were stored whole give back their columns |
| LogRows.SameKeyTwice | source/MicroBitLog.cpp:159-181 | two distinct keys of which the first lost its first byte become the same column twice |
| LogRows.LaterColumnsLost | source/MicroBitLog.cpp:467-488 | after clear, columns added behind those first stored are not stored, for all columns |
| LogRows.ThirdColumns | source/MicroBitLog.cpp:467-488 | after init, the first change that adds columns is stored; a second leaves those columns alone, unless its text clears bits of them only |
| LogRows.OneColumnOfThree | source/MicroBitLog.cpp:467-488 | columns a, then a and b, then a, b and c: the next session finds b |
| LogRows.StartLog | source/MicroBitLog.cpp:56-188 | the log comes up on any disk of the kind that sessions and power failures leave, with exactly what is there |
| LogRows.PowerUp | source/MicroBitLog.cpp:56-188 | a session begins with the text and the columns that are on the disk |
| LogRows.GrowsJoin | source/MicroBitLog.cpp:408-520 | lines printed one after the other: every image on the way holds the first text and a prefix of all of them |
| LogRows.RowLog.PrintLine | source/MicroBitLog.cpp:475-480 | the loop builds the fields with a comma between each two and a newline behind |
| LogRows.RowLog.LoadColumns | source/MicroBitLog.cpp:148-177 | whatever headings are stored, each key that a separator ends becomes a column, in order, without a value; the session is in order if no key comes twice |
| LogRows.RowLog.TerminateHeadings | source/MicroBitLog.cpp:159-169 | counts the columns as the text has them |
| LogRows.RowLog.ReadColumns | source/MicroBitLog.cpp:174-181 | each C string becomes the key of its column |
| LogRows.RowLog.Clear | source/MicroBitLog.cpp:208-262 | no columns but the timestamp's, no open row, an empty log with no headings and a clean journal |
| FlashWrite.MicroBitFlash.NeedErase | source/MicroBitFlash.cpp:99-110 | true if and only if some bit would have to be set |
| FlashWrite.MicroBitFlash.FlashBurn | source/MicroBitFlash.cpp:158-195 | whole words ANDed into memory, one after the other |
| FlashWrite.MicroBitFlash.BurnRange | source/MicroBitFlash.cpp:254-274 | the byte loop programs the buffer where it lies and what was there elsewhere, in whole words |
| FlashWrite.MicroBitFlash.Preserve | source/MicroBitFlash.cpp:240-249 | the page is copied to the scratch page and erased |
| FlashWrite.MicroBitFlash.FlashWrite | source/MicroBitFlash.cpp:214-277 | memory ends up as the specification Written, on both paths and with the extra trailing word; a misaligned scratch page is refused |
| FlashWrite.WriteExact | source/MicroBitFlash.cpp:226-274 | the range equals the buffer if and only if no erase was needed, or the range ends on its page, or what lies behind the page was there already |
| FlashWrite.WriteCutShort | source/MicroBitFlash.cpp:226-274 | four bytes over the end of a zeroed page: what lies behind the end is not written |
| FlashWrite.WriteKeeps | source/MicroBitFlash.cpp:226-274 | every byte outside the range and the scratch page is kept |
| FlashWrite.WrittenAt | source/MicroBitFlash.cpp:226-274 | memory after a write that needed an erase, byte by byte: the buffer as far as the page goes, the page's copy or blanks in the scratch page, all else as before |
| FlashWrite.ScratchCopy | source/MicroBitFlash.cpp:240-249 | after an erase, the scratch page holds what the page held |
| FlashWrite.BytesOnPage | source/MicroBitFlash.cpp:226-236 | how much of the buffer goes on the page: all of it, or as much as is left of the page |
| FlashWrite.ScratchOnTarget | source/MicroBitFlash.cpp:240-249 | with the target page as scratch, the rest of the page survives if and only if it was blank |
| FlashWrite.ScratchLoses | source/MicroBitFlash.cpp:240-249 | one byte on a zeroed page that is its own scratch page: the byte beside it is lost |
| FlashWrite.InPlace | source/MicroBitFlash.cpp:254-274 | without an erase the surrounding bytes are programmed over themselves |
| FlashWrite.Rebuilt | source/MicroBitFlash.cpp:240-274 | with an erase the page is its old content with the buffer in it |
| FlashWrite.SetsNoBit | source/MicroBitFlash.cpp:101-108 | the source's test and the cache's test of a byte agree |
| FileTable.LifeCycle | inc/MicroBitFileSystem.h:48-50 | unused to anything, end marker to any block number, anything to deleted: each only clears bits |
| FileTable.RecycleNeedsErase | source/MicroBitFileSystem.cpp:503-511 | making an entry unused again needs an erase unless it already was |
| FileTable.EraseFreeBytes | source/MicroBitFlash.cpp:99-110 | the test on table words is the one flash_write makes on their bytes |
| FileTable.ChainsDisjoint | source/MicroBitFileSystem.cpp:1193-1202 | no two files share a block and no chain repeats one |
| FileTable.Conservation | source/MicroBitFileSystem.cpp:1193-1202 | reserved, chained, unused and deleted blocks always add up to the file system's size |
| FileTable.Formatted | source/MicroBitFileSystem.cpp:250-262 | a fresh table is well formed, with the root directory as its only chain |
| FileTable.Started | source/MicroBitFileSystem.cpp:672-697 | a free block becomes a file of one block, in no other chain |
| FileTable.Extended | source/MicroBitFileSystem.cpp:1193-1202 | linking a free block behind the last keeps all chains disjoint, acyclic and terminated |
| FileTable.Removed | source/MicroBitFileSystem.cpp:1333-1341 | deleting a chain frees exactly its blocks and keeps all others |
| FileTable.UpcycledOk | source/MicroBitFileSystem.cpp:534-555 | recycling deleted entries keeps every chain |
| FileTable.RunsOnAgrees | source/MicroBitFileSystem.cpp:45-55 | the scan as written, without a modulo, finds what the documented round robin finds if and only if an unused entry lies between the last block and the table's end, or nothing behind the table looks like one, or the scan starts over |
| FileTable.RunsPast | source/MicroBitFileSystem.cpp:45-55 | a table with one unused block before the last one allocated: the scan as written takes a block number behind the table |
| FileTable.LastBlockUnseen | source/MicroBitFileSystem.cpp:45-55 | a well-formed table whose one free block is the one allocated last: the scan finds nothing |
| FileSystem.FileSystem.constructor | source/MicroBitFileSystem.cpp:250-275 | formatting yields a well-formed table, each entry written without an erase: the table's blocks chained, an empty root directory behind them, all else unused |
| FileSystem.FileSystem.CalculateFileTableSize | source/MicroBitFileSystem.cpp:336-343 | the fewest blocks that hold an entry for every block, less than the whole |
| FileSystem.FileSystem.FileTableWrite | source/MicroBitFileSystem.cpp:401-405 | sets an entry; callable only where no erase is needed |
| FileSystem.FileSystem.RecyclePage | source/MicroBitFileSystem.cpp:465-524 | every byte of a free block of the page is 0xFF afterwards and all other blocks are as before; of the table exactly the deleted entries in the page's table blocks change, to unused |
| FileSystem.FileSystem.RecycleFileTable | source/MicroBitFileSystem.cpp:534-555 | exactly the deleted entries of the table change, to unused; the free blocks of each page recycled are erased and no other; which pages those are; all chains and their contents stay |
| FileSystem.FileSystem.RecycleDeleted | source/MicroBitFileSystem.cpp:534-550 | the pages recycled in the walk are those on which a block is deleted and its entry not yet recycled |
| FileSystem.SeenDeleted | source/MicroBitFileSystem.cpp:538-549 | no deleted block lies on a page before the last of the table, one on that page is always seen, and behind it that page has been recycled if and only if a block on it is deleted |
| FileSystem.DeletedKept | source/MicroBitFileSystem.cpp:538-549 | a table with two deleted blocks of which one is not erased: the other one is on the page of its entry |
| FileSystem.WalkRecycles | source/MicroBitFileSystem.cpp:538-549 | recycling the page of a deleted block leaves table and blocks as the walk up to it should |
| FileSystem.FileSystem.GetFreeBlock | source/MicroBitFileSystem.cpp:38-72 | the block found is unused and the next such behind the one allocated last, going round; or there is none and it is the deleted one furthest on; never the block allocated last; 0 if and only if no other block is unused or deleted, with nothing changed; contents of all files kept |
| FileSystem.FileSystem.TakenUnused | source/MicroBitFileSystem.cpp:45-55 | the first unused block of the scan is the nearest behind the last one allocated, going round |
| FileSystem.FileSystem.TakenDeleted | source/MicroBitFileSystem.cpp:45-60 | the last deleted block of the scan is the furthest from it |
| FileSystem.FileSystem.Locate | source/MicroBitFileSystem.cpp:1076-1092 | the block found is the one that holds the position, or ends at it |
| FileSystem.FileSystem.Grow | source/MicroBitFileSystem.cpp:1193-1206 | the chain is one block longer, or nothing was free and it is as before; contents kept |
| FileSystem.FileSystem.WriteBuffer | source/MicroBitFileSystem.cpp:1154-1214 | append: the content becomes the old content and exactly the part of the buffer reported, even if allocation fails part-way; other files untouched |
| FileSystem.FileSystem.CopyBuffer | source/MicroBitFileSystem.cpp:1180-1206 | segment by segment, growing the chain as needed; stops early only if nothing is free |
| FileSystem.FileSystem.Read | source/MicroBitFileSystem.cpp:1060-1126 | returns exactly the slice of the content from the seek position, and moves it |
| FileSystem.FileSystem.Seek | source/MicroBitFileSystem.cpp:1001-1035 | the position is set if and only if it lies within the file |
| FileSystem.FileSystem.CreateFile | source/MicroBitFileSystem.cpp:658-699 | an empty file on a block of its own, or nothing changes |
| FileSystem.FileSystem.Remove | source/MicroBitFileSystem.cpp:1333-1341 | terminates; exactly the file's blocks become deleted |
| FileSystem.FileSystem.OthersContent | source/MicroBitFileSystem.cpp:1154-1214 | no operation on one file changes what another holds |
| FileSystem.SegmentWritten | source/MicroBitFileSystem.cpp:1184-1191 | a segment in the last block extends the content by it |
| FileSystem.SliceOfBlock | source/MicroBitFileSystem.cpp:1101-1121 | the bytes of a block of the chain are the corresponding bytes of the content |
| TableRecycle.EntryRecycled | source/MicroBitFileSystem.cpp:496-511 | in a table block exactly the deleted entries change, to unused |
| TableRecycle.BlockRecycled | source/MicroBitFileSystem.cpp:472-517 | each block of the page becomes what it should: blank if its entry is free, the old bytes if not, in the table unused entries for deleted ones |
| TableRecycle.RecycledOutcome | source/MicroBitFileSystem.cpp:472-517 | a recycled block byte by byte |
| TableRecycle.PageOutcome | source/MicroBitFileSystem.cpp:465-524 | a recycled page byte by byte, and nothing beside it changes |
| TableRecycle.Recycler.CopyEntries | source/MicroBitFileSystem.cpp:496-511 | entries that are not deleted are copied; the blank scratch supplies the rest |
| TableRecycle.Recycler.RecycleBlock | source/MicroBitFileSystem.cpp:465-524 | on flash, in bytes: a block with an entry 00 00 or FF FF is 0xFF throughout, every other block behind the table keeps its bytes, a table block keeps all entries but deleted ones; the scratch page is blank again, and no other byte changes |
| TableRecycle.Recycler.Refresh | source/MicroBitFileSystem.cpp:519-522 | erase, copy back and erase of the scratch page put the copy in place |
| FileFlash.BlockWritten | source/MicroBitFileSystem.cpp:1184-1191 | flash_write on a range within a block changes the used part of that block as the file system model says, and no other block in use and no table entry |
| FileFlash.EntryWritten | source/MicroBitFileSystem.cpp:401-405 | flash_write on a table entry that as a number needs no erase sets that entry, and nothing else; a block that comes into use has no used bytes yet |
| FileFlash.EntryClears | source/MicroBitFlash.cpp:99-110 | a table entry can take a value without an erase if and only if its two bytes can take the bytes of the value |
| FileFlash.PageRecycled | source/MicroBitFileSystem.cpp:465-524 | what recycleBlock does to the bytes of a page is what the file system model does to table and used parts of blocks |
| FileFlash.ContentOnFlash | source/MicroBitFileSystem.cpp:1094-1121 | each byte of a file is the byte of flash at its place in the block that its chain gives |
| Synth.SamplesPerStep | source/SoundEmojiSynthesizer.cpp:182 | over the reals the source's product truncates to count * k / steps |
| Synth.StepEndFacts | source/SoundEmojiSynthesizer.cpp:233-238 | step ends rise with the step and never pass the end of the effect |
| Synth.EarlyEnd | source/SoundEmojiSynthesizer.cpp:233-238 | only the last step ends at the end |
| Synth.EffectRun | source/SoundEmojiSynthesizer.cpp:271-285 | an effect takes one step if it is due, and then is not overdue |
| Synth.TurnRun | source/SoundEmojiSynthesizer.cpp:240-286 | each turn of the loop makes progress and steps exactly the effects that are due, in order |
| Synth.RestSchedule | source/SoundEmojiSynthesizer.cpp:224-288 | from any state exactly the samples left come out, and each step left is called exactly once, where it ends: by numbers of samples and steps alone |
| Synth.RestSounds | source/SoundEmojiSynthesizer.cpp:224-288 | replayed with nothing but the functions of the effect, what is left of it gives the voice and position that the synthesizer ends with, and each sample is the tone at its position with the volume made so far |
| Synth.TurnSounds | source/SoundEmojiSynthesizer.cpp:270-285 | the calls of a turn leave the voice that the functions called make |
| Synth.WrapFacts | source/SoundEmojiSynthesizer.cpp:264-266 | the position comes back into the range of the tone by whole widths, and no further than that |
| Synth.RestCount | source/SoundEmojiSynthesizer.cpp:224-288 | as many samples come out as are left |
| Synth.ScheduleAt | source/SoundEmojiSynthesizer.cpp:233-238 | step k of an effect is called behind count * k / steps samples, the last behind all of them, and there are exactly as many as steps |
| Synth.BufferIndependence | source/SoundEmojiSynthesizer.cpp:190-310 | two runs from the same state, pulled into buffers of any sizes, over any number of effects and loops: the samples and calls of one are a prefix of the other's, and a run that came to its end has all of them |
| Synth.ScriptSplit | source/SoundEmojiSynthesizer.cpp:154-186 | what is scripted after some effects is the script from the state they leave |
| Synth.ScriptPerforms | source/SoundEmojiSynthesizer.cpp:154-186 | the script of a sequence is the sound of its effects one by one: each with its own frequency and volume, position and parameters going on, and as many samples as it lasts |
| Synth.AlongJoin | source/SoundEmojiSynthesizer.cpp:190-310 | two stretches of play, one from where the other ended, make one |
| Synth.FollowsUnique | source/SoundEmojiSynthesizer.cpp:138-186 | which effects follow in a sequence is determined, but for how many |
| Synth.SoundEmojiSynthesizer.NextSoundEffect | source/SoundEmojiSynthesizer.cpp:138-186 | the next effect of the sequence, or the first again if it loops, set up with its own frequency and volume, from its first steps; or nothing to play, from position 0 |
| Synth.SoundEmojiSynthesizer.Play | source/SoundEmojiSynthesizer.cpp:99-127 | a sequence starts with its first effect |
| Synth.SoundEmojiSynthesizer.WriteSamples | source/SoundEmojiSynthesizer.cpp:244-268 | samples move from what is left to the buffer until the step or the buffer ends |
| Synth.SoundEmojiSynthesizer.RunEffects | source/SoundEmojiSynthesizer.cpp:270-285 | the loop over the effects performs one turn of calls, and leaves the voice that the functions called make of it |
| Synth.SoundEmojiSynthesizer.RenderEffect | source/SoundEmojiSynthesizer.cpp:224-287 | terminates; what came out and what is left make up what was left before |
| Synth.SoundEmojiSynthesizer.Pull | source/SoundEmojiSynthesizer.cpp:190-310 | terminates for every buffer size and every sequence, looping ones included; samples and calls so far and what is left make up the script of the effects begun, which follow in order; the buffer holds the samples and then silence, only behind the end of all of them; empty exactly if silence is to be and no sample came out |
| Synth.SoundEmojiSynthesizer.PullAll | source/SoundEmojiSynthesizer.cpp:190-310 | any number of pulls of any sizes go along one script, so that BufferIndependence applies to their traces |
| Radio.ListAppend | source/MicroBitRadio.cpp:196-208 | the buffer is linked behind the last one |
| Radio.ListTail | source/MicroBitRadio.cpp:464-465 | unlinking the head leaves the rest of the list |
| Radio.HeldOn | source/MicroBitRadio.cpp:176-216 | no allocated buffer is lost when one is received |
| Radio.HeldOff | source/MicroBitRadio.cpp:455-472 | nor when one is taken off the queue |
| Radio.MicroBitRadio.QueueRxBuf | source/MicroBitRadio.cpp:176-216 | a packet is accepted at the tail if there is room and memory, else dropped with the queue unchanged; the hardware's buffer is never on a list |
| Radio.MicroBitRadio.FindLast | source/MicroBitRadio.cpp:202-206 | the walk ends at the last buffer and counts the steps to it |
| Radio.MicroBitRadio.Interrupts | source/MicroBitRadio.cpp:57-94 | any number of interrupts only appends, leaves every buffer held elsewhere alone, and puts the hardware's old buffer first on an empty queue |
| Radio.MicroBitRadio.Recv | source/MicroBitRadio.cpp:455-472 | the packet taken is the head of the queue, the oldest accepted and not yet taken, whatever interrupts come |
| Radio.MicroBitRadio.FileDatagram | source/MicroBitRadioDatagram.cpp:173-204 | filed behind the others, or dropped exactly if five are waiting |
| Radio.MicroBitRadio.DatagramReceived | source/MicroBitRadioDatagram.cpp:173-204 | the head packet leaves the receive queue and becomes the last datagram filed, unless dropped |
| Radio.MicroBitRadio.EventReceived | source/MicroBitRadioEvent.cpp:145-155 | the head packet leaves the queue and is freed |
| Radio.MicroBitRadio.IdleTurn | source/MicroBitRadio.cpp:404-433 | for every interleaving with interrupts, exactly one packet is taken per turn, in arrival order, and ends in exactly one place: filed if it is a datagram and fewer than five wait, else freed; queue depth equals list length, at most 4, and at most 5 datagrams wait; no buffer is lost track of |
| Radio.MicroBitRadio.FreeUnknown | source/MicroBitRadio.cpp:426-432 | the address comparison frees the packet if and only if no service has taken it, even though freed addresses are reused |
| Radio.MicroBitRadio.TakeDatagram | source/MicroBitRadioDatagram.cpp:72-74 | the datagram filed first of those not yet delivered is taken off the queue |
| Radio.MicroBitRadio.DatagramRecv | source/MicroBitRadioDatagram.cpp:93-107 | datagrams reach the application in the order filed, each once; the bytes copied are those the length byte counts, and lie in the payload if and only if it is at most 35 |
| Radio.MicroBitRadio.DatagramRecvInto | source/MicroBitRadioDatagram.cpp:67-84 | the longest prefix that fits is copied; the copy lies in the payload if and only if the length byte is at least 3, and at most 35 or the buffer at most 32 bytes; a negative buffer length is refused |
| Radio.BadLengths | source/MicroBitRadioDatagram.cpp:76-79 | a length byte of 2 and one of 36 for which a copy of the whole body is out of bounds |
| Compass.MeasureScore | source/MicroBitCompassCalibrator.cpp:102-120 | the difference between the furthest and the closest sample: some two samples differ by it, and none by more |
| Compass.DistanceIs | source/MicroBitCompassCalibrator.cpp:102-120 | the squared distance by its coordinates: symmetric, and zero for the same point only |
| Compass.ScoreIs | source/MicroBitCompassCalibrator.cpp:102-120 | the score is the greatest difference between the squared distances of two samples |
| Compass.ScoreZero | source/MicroBitCompassCalibrator.cpp:102-120 | zero if and only if all samples are equally far away |
| Compass.ClimbRound | source/MicroBitCompassCalibrator.cpp:255-277 | the result is no worse than any of the 27 points around c, and a change is an improvement to one of them |
| Compass.SumConcat | source/MicroBitCompassCalibrator.cpp:236-246 | the coordinates of samples add up, one by one |
| Compass.CentreIs | source/MicroBitCompassCalibrator.cpp:236-246 | each coordinate of the first centre is the sum of the samples', divided by their number and cut off towards zero |
| Compass.ApproximateCentre | source/MicroBitCompassCalibrator.cpp:228-284 | terminates for every input; a local optimum better than the centre of mass, unless the climb is stuck, and then the origin |
| Compass.NotStuck | source/MicroBitCompassCalibrator.cpp:266-272 | one better point in the first rounds is enough |
| Compass.PerfectStart | source/MicroBitCompassCalibrator.cpp:279-280 | samples on a sphere around their centre of mass are always stuck |
| Compass.PerfectCentreLost | source/MicroBitCompassCalibrator.cpp:231-280 | two samples for which a perfect centre is given up for a point with score 440000 |
| Sleep.SystemTimer.WaitForInterrupt | source/MicroBitPowerManager.cpp:799-805 | time passes as far as the compare register and the interrupt say, and the register follows it modulo 2^32 |
| Sleep.CounterDifference | source/MicroBitPowerManager.cpp:805-808 | the difference of two readings is the elapsed time, across the wrap-around; likewise from a reading to a compare value set ahead of it |
| Sleep.Until | source/MicroBitPowerManager.cpp:799-805 | a compare value set from an earlier reading is reached when it should be |
| Sleep.TotalTicksUnderflow | source/MicroBitPowerManager.cpp:670-779 | for a wake-up that canDeepSleep admits, the sleep is the intended one if and only if twice the power-down time and the latency fit before it; else powering down took 49,994 ticks or more and the sleep wraps |
| Sleep.EnormousSleep | source/MicroBitPowerManager.cpp:670-779 | a wake-up in 100 ms with 50 ms of powering down gives 2^64 - 13 ticks |
| Sleep.DeepSleep | source/MicroBitPowerManager.cpp:784-822 | sleepTicks equals the true time since tickStart; a timed sleep woken only by its timer ends no earlier than planned and less than a million ticks late; it is over if and only if the time has come or the last wake was another interrupt |

## Left out

- LogString: requires that the line fits or that the log has reached its last page; otherwise the FULL marker would bring a page that is still to be erased into the cache. `ShortLineFits` shows that lines of up to a page less four bytes always meet this.
- Refuse: as LogString, requires that no page of the log is left to erase.
- MarkFull: as LogString, requires that no page of the log is left to erase.
- WriteBehind: as LogString, requires that no page of the log is left to erase.
- EndRow: requires that logString takes the lines, as above, and that new headings fit the metadata page, which the source does not check.
- BeginRow: as EndRow, for the row it ends.
- StoreHeadings: requires that the headings fit the metadata page, as EndRow.
- LoadColumns: for columns with the same key twice, rows are not modelled any further.
- LogData: keys and values are C strings without the byte 0xFF, which the log could not tell from blank flash; characters are taken as unsigned.
- SetTimeStamp: the heading and the stamp's text are parameters; formatting the time is not modelled.
- Init: a disk with valid metadata holds a log in some state that the log's own steps and power failures produce. `strtoul` is modelled for what the log stores: no sign, no leading space, an optional `0x`.
- Clear: the USB configuration and the remount are not modelled.
- Erase: every transfer succeeds, and a read that starts behind the disk yields nothing. An end that is computed as zero is excluded, because the loop does not end then (see `EndlessErase`).
- Write: every transfer to the flash chip succeeds.
- TransactWrite: the transfer succeeds.
- EraseBlocks: every transfer succeeds.
- GetFreeBlock: wraps at the end of the table as its comment says; `RunsOnAgrees` says when the loop as written agrees.
- WriteBuffer: append only (seek equals length); a mid-file overwrite that crosses a block allocates and is not a splice. The write-back cache has size 0 by default.
- CreateFile: the directory entry is not modelled.
- Remove: the directory entry and the descriptor are not modelled.
- RecycleBlock: the scratch page is given blank and disjoint; `getFreePage`'s choice of it is not modelled, nor is the recycling of directory blocks.
- RecyclePage: as RecycleBlock.
- FlashWrite: memory extends four bytes behind the range, which the source reads.
- Pull: without a stop request; tone and effect functions are abstract and floats are reals. With nothing to play, the source reads the duration of an effect that is not there; the model takes it as not negative.
- IdleTurn: an immediate listener that itself receives packets while an unknown protocol is announced is not modelled.
- EventReceived: the event that is fired is not modelled.
- ApproximateCentre: distances are integers, not floats. Sample3D's distance function is not part of the repository; the sum of squared differences is assumed.
- DeepSleep: each wake comes less than 1,000,000 ticks after its compare; the loop is reached before the first compare is due; the 64-bit sum does not wrap.
- `MicroBitLog::invalidate`, serial mirroring, fibers, locks and events: calls are sequential.
- Directory slots, path lookup, open file ids, `close` and `flush` of the file system.
- I2C transactions, SoftDevice and NVMC register waits: hardware.
- `spherify`, the calibration game, the mixer and all sensor, display and BLE code.
