/** MicroBitLog: the journalled append-only log, over the block cache and the flash disk. */
module MicroBitLog {
  import opened Arith
  import opened Nor
  import opened UsbFlash
  import opened FSCache
  import opened LogFormat
  import opened LogText
  import opened LogAge
  import opened LogClear

  const CACHE_BLOCKS: nat := 4
  const FULL_MARK: seq<bv8> := [0x46, 0x55, 0x4C]

  /** The disk with the FULL marker behind the log's end, where the bits there permit it. */
  ghost function MarkedFull(disk: seq<bv8>, g: Geo): seq<bv8>
    requires g.end + 4 <= |disk|
  {
    if ClearsAll(disk, g.end + 1, FULL_MARK) then Overwrite(disk, g.end + 1, FULL_MARK) else disk
  }

  /** "FUL" behind the byte at end, all of it if flash takes it and else none, and no other byte. */
  ghost predicate SaysFull(disk: seq<bv8>, disk': seq<bv8>, end: nat)
    requires end + 4 <= |disk|
  {
    && |disk'| == |disk|
    && (forall i :: 0 <= i < |disk| && !(end < i < end + 4) ==> disk'[i] == disk[i])
    && if Clears(disk[end + 1], 0x46) && Clears(disk[end + 2], 0x55) && Clears(disk[end + 3], 0x4C) then
         disk'[end + 1] == 0x46 && disk'[end + 2] == 0x55 && disk'[end + 3] == 0x4C
       else
         disk'[end + 1] == disk[end + 1] && disk'[end + 2] == disk[end + 2] && disk'[end + 3] == disk[end + 3]
  }

  lemma MarkedBytes(disk: seq<bv8>, g: Geo)
    requires g.end + 4 <= |disk|
    ensures SaysFull(disk, MarkedFull(disk, g), g.end)
  {
    var a := g.end + 1;
    assert ClearsAll(disk, a, FULL_MARK) <==>
      Clears(disk[a + 0], FULL_MARK[0]) && Clears(disk[a + 1], FULL_MARK[1]) && Clears(disk[a + 2], FULL_MARK[2]);
  }

  /** Where the erase loop of clear stops. */
  function EraseTop(limit: nat, page: nat): nat
    requires page > 0
  {
    RoundDown(limit, page) + page
  }

  ghost predicate ErasedTo(disk: seq<bv8>, before: seq<bv8>, top: nat)
  {
    top <= |before| && disk == Erased(before, 0, top)
  }

  /** The whole disk after clear: a zeroed end word, then blank up to top, then header,
      metadata and one journal entry. */
  ghost predicate IsFormatted(disk: seq<bv8>, before: seq<bv8>, g: Geo, header: seq<bv8>, top: nat)
  {
    && g.end + 4 <= |before| && top <= |before| && |header| <= |before| && g.start + META_SIZE <= |before|
    && g.journal + ENTRY_SIZE <= |before|
    && disk == Overwrite(Overwrite(Overwrite(Erased(Burn(before, g.end, [0, 0, 0, 0]), 0, top), 0, header), g.start,
                                   MetaBytes(g.data, g.end)), g.journal, Hex(0, ENTRY_SIZE))
  }

  /** The header is readable, and what lies behind the erased part is untouched but for the
      word of the FULL marker, which is gone either way. */
  lemma FormattedParts(disk: seq<bv8>, before: seq<bv8>, g: Geo, header: seq<bv8>, top: nat)
    requires IsFormatted(disk, before, g, header, top) && |header| <= g.start <= g.start + META_SIZE <= g.journal
             && g.journal + ENTRY_SIZE <= top
    ensures |disk| == |before| && disk[..|header|] == header
    ensures forall i :: top <= i < |disk| && !(g.end <= i < g.end + 4) ==> disk[i] == before[i]
    ensures forall i :: g.journal + ENTRY_SIZE <= i < top ==> disk[i] == BLANK
    ensures forall i :: g.end <= i < g.end + 4 && g.journal + ENTRY_SIZE <= i ==>
              disk[i] == if i < top then BLANK else 0
  {
    hide MetaBytes, Hex, Overwrite;
    forall i | g.end <= i < g.end + 4 ensures Burn(before, g.end, [0, 0, 0, 0])[i] == 0 {
      AndZero(before[i]);
    }
  }

  /** The disk after clear, in bytes: the header, the metadata, one entry for length zero, and
      blanks behind them up to the end of the page that limit is on; from there on nothing has
      changed but the word of the FULL marker. */
  ghost predicate FormattedBytes(disk: seq<bv8>, before: seq<bv8>, g: Geo, header: seq<bv8>, limit: nat)
  {
    && |disk| == |before| && 2048 == |header| <= |disk| && disk[..2048] == header
    && g.start + 40 <= g.journal && g.journal + 8 <= limit <= |disk| && g.end + 4 <= |disk|
    && disk[g.start..g.start + 40] == MetaBytes(g.data, g.end)
    && disk[g.journal..g.journal + 8] == [0x30, 0x30, 0x30, 0x30, 0x30, 0x30, 0x30, 0x30]
    && exists top: nat :: limit < top <= limit + g.page && BlankUpTo(disk, before, g, top)
  }

  ghost predicate BlankUpTo(disk: seq<bv8>, before: seq<bv8>, g: Geo, top: nat)
  {
    && |disk| == |before| && top <= |disk| && g.page > 0 && top % g.page == 0
    && (forall i :: 2048 <= i < top && !(g.start <= i < g.start + 40) && !(g.journal <= i < g.journal + 8) ==>
        disk[i] == 0xFF)
    && (forall i :: top <= i < |disk| ==> disk[i] == if g.end <= i < g.end + 4 then 0 else before[i])
  }

  lemma FormattedIs(disk: seq<bv8>, before: seq<bv8>, g: Geo, header: seq<bv8>, limit: nat)
    requires g.page > 0 && |header| == HEADER_SIZE <= g.start && g.start + META_SIZE <= g.journal
             && g.journal + ENTRY_SIZE <= limit <= |disk| == |before| && g.end + 4 <= |disk|
    requires IsFormatted(disk, before, g, header, EraseTop(limit, g.page))
    ensures FormattedBytes(disk, before, g, header, limit)
  {
    var top := EraseTop(limit, g.page);
    EraseTopPlace(limit, g.page);
    FormattedParts(disk, before, g, header, top);
    FormattedRest(disk, before, g, header, top);
    ZeroEntry();
    hide IsFormatted, MetaBytes, Hex, EraseTop;
    assert BlankUpTo(disk, before, g, top);
  }

  lemma ZeroEntry()
    ensures Hex(0, ENTRY_SIZE) == [0x30, 0x30, 0x30, 0x30, 0x30, 0x30, 0x30, 0x30]
  {
    assert Hex(0, 4) == [0x30, 0x30, 0x30, 0x30];
    assert Hex(0, 6) == [0x30, 0x30, 0x30, 0x30, 0x30, 0x30];
  }

  lemma EraseTopPlace(limit: nat, page: nat)
    requires page > 0
    ensures limit < EraseTop(limit, page) <= limit + page && EraseTop(limit, page) % page == 0
  {
    RoundedDown(limit, page);
    OffsetStep(RoundDown(limit, page), page, page);
    OffsetIsMod(EraseTop(limit, page), page);
  }

  lemma FormattedRest(disk: seq<bv8>, before: seq<bv8>, g: Geo, header: seq<bv8>, top: nat)
    requires IsFormatted(disk, before, g, header, top) && |header| <= g.start && g.start + META_SIZE <= g.journal
             && g.journal + ENTRY_SIZE <= top
    ensures |disk| == |before| && disk[g.start..g.start + META_SIZE] == MetaBytes(g.data, g.end)
    ensures disk[g.journal..g.journal + ENTRY_SIZE] == Hex(0, ENTRY_SIZE)
    ensures forall i :: |header| <= i < top && !(g.start <= i < g.start + META_SIZE)
                        && !(g.journal <= i < g.journal + ENTRY_SIZE) ==>
              disk[i] == BLANK
  {
    hide MetaBytes, Hex, Burn;
  }

  lemma AndZero(b: bv8)
    ensures And(b, 0) == 0
  {}

  /** Of the page at p, at most the first block is cached. */
  ghost predicate Uncached(blocks: set<nat>, p: nat, page: nat)
  {
    forall b :: b in blocks ==> !(p + BLOCK <= b && b + BLOCK <= p + page)
  }

  /** If the slot after head starts a page, no block of that page but the first is cached. */
  ghost predicate NextUncached(blocks: set<nat>, g: Geo, head: nat)
    requires g.page > 0
  {
    Offset(SlotAddress(g, head + 1), g.page) == 0 ==> Uncached(blocks, SlotAddress(g, NextSlot(g, head)), g.page)
  }

  /** img is a log that holds text and then a prefix of line, with nothing after it. */
  ghost predicate Survives(img: seq<bv8>, g: Geo, text: seq<bv8>, line: seq<bv8>)
  {
    exists n :: 0 <= n <= |line| && HoldsLog(img, g, text + line[..n])
  }

  /** Power may fail in any of the images from position lo on. */
  ghost predicate AllSurvive(images: seq<seq<bv8>>, lo: nat, g: Geo, text: seq<bv8>, line: seq<bv8>)
  {
    forall k :: lo <= k < |images| ==> Survives(images[k], g, text, line)
  }

  /** Metadata and headings are untouched. */
  ghost predicate SameBelow(disk: seq<bv8>, disk': seq<bv8>, g: Geo)
  {
    |disk| == |disk'| && forall i :: 0 <= i < g.journal && i < |disk| ==> disk'[i] == disk[i]
  }

  /** Metadata and headings are untouched in all images from position lo on. */
  ghost predicate AllBelow(images: seq<seq<bv8>>, lo: nat, disk: seq<bv8>, g: Geo)
  {
    forall k :: lo <= k < |images| ==> SameBelow(disk, images[k], g)
  }

  lemma TornBelow(images: seq<seq<bv8>>, lo: nat, disk: seq<bv8>, g: Geo, a: nat, data: seq<bv8>)
    requires g.journal <= a && a + |data| <= |disk| && AllTorn(images, lo, disk, a, data)
    ensures AllBelow(images, lo, disk, g)
  {
    forall k | lo <= k < |images| ensures SameBelow(disk, images[k], g) {
      assert TornOverwrite(images[k], disk, a, data);
    }
  }

  lemma BelowData(disk: seq<bv8>, disk': seq<bv8>, g: Geo)
    requires |disk| == |disk'| && g.journal <= g.data <= |disk| && disk[..g.data] == disk'[..g.data]
    ensures SameBelow(disk, disk', g)
  {
    assert forall i :: 0 <= i < g.journal ==> disk'[i] == disk'[..g.data][i] == disk[..g.data][i] == disk[i];
  }

  lemma BelowTwice(disk: seq<bv8>, disk1: seq<bv8>, disk2: seq<bv8>, g: Geo)
    requires SameBelow(disk, disk1, g) && SameBelow(disk1, disk2, g)
    ensures SameBelow(disk, disk2, g)
  {}

  /** Behind the page that a log of len bytes ends on, nothing has changed. */
  ghost predicate SameBeyond(disk: seq<bv8>, disk': seq<bv8>, g: Geo, len: nat)
  {
    |disk'| == |disk| && (g.page > 0 ==> forall i :: PageEnd(g, g.data + len) <= i < |disk| ==> disk'[i] == disk[i])
  }

  lemma BeyondTwice(disk: seq<bv8>, disk1: seq<bv8>, disk2: seq<bv8>, g: Geo, len: nat)
    requires SameBeyond(disk, disk1, g, len) && SameBeyond(disk1, disk2, g, len)
    ensures SameBeyond(disk, disk2, g, len)
  {
    hide PageEnd;
  }

  lemma BeyondLater(disk: seq<bv8>, disk': seq<bv8>, g: Geo, len: nat, len': nat)
    requires SameBeyond(disk, disk', g, len) && len <= len'
    ensures SameBeyond(disk, disk', g, len')
  {
    if g.page > 0 {
      PagesRise(g.data + len, g.data + len', g.page);
    }
    hide RoundDown;
  }

  lemma PagesRise(x: nat, y: nat, page: nat)
    requires page > 0 && x <= y
    ensures RoundDown(x, page) <= RoundDown(y, page)
  {
    RoundedDown(x, page);
    UnitAbove(y, RoundDown(x, page), page);
  }

  lemma BeyondWrite(disk: seq<bv8>, g: Geo, len: nat, a: nat, data: seq<bv8>)
    requires a + |data| <= |disk| && (g.page > 0 ==> a + |data| <= PageEnd(g, g.data + len))
    ensures SameBeyond(disk, Overwrite(disk, a, data), g, len)
  {
    hide PageEnd;
  }

  /** The page that the log ends on reaches behind its end. */
  lemma PageReaches(g: Geo, len: nat)
    requires g.page > 0
    ensures g.data + len < PageEnd(g, g.data + len)
  {
    RoundedDown(g.data + len, g.page);
  }

  /** What an operation on a log of text does to flash: every disk it passes through holds the
      text and a prefix of line, and metadata and headings stay as they were. */
  ghost predicate Kept(images: seq<seq<bv8>>, disk: seq<bv8>, images': seq<seq<bv8>>, disk': seq<bv8>,
                       g: Geo, text: seq<bv8>, line: seq<bv8>)
  {
    && images <= images' && AllSurvive(images', |images|, g, text, line)
    && AllBelow(images', |images|, disk, g) && SameBelow(disk, disk', g)
    && SameBeyond(disk, disk', g, |text| + |line|)
  }

  lemma KeptNothing(images: seq<seq<bv8>>, disk: seq<bv8>, g: Geo, text: seq<bv8>, line: seq<bv8>)
    ensures Kept(images, disk, images, disk, g, text, line)
  {}

  lemma KeptOne(images: seq<seq<bv8>>, disk: seq<bv8>, disk': seq<bv8>, g: Geo, text: seq<bv8>, line: seq<bv8>)
    requires HoldsLog(disk', g, text) && SameBelow(disk, disk', g) && SameBeyond(disk, disk', g, |text| + |line|)
    ensures Kept(images, disk, images + [disk'], disk', g, text, line)
  {
    hide HoldsLog;
    assert text + line[..0] == text;
    assert Survives(disk', g, text, line);
  }

  lemma KeptTorn(images: seq<seq<bv8>>, disk: seq<bv8>, images': seq<seq<bv8>>, g: Geo, text: seq<bv8>, line: seq<bv8>,
                 a: nat, data: seq<bv8>)
    requires images <= images' && AllSurvive(images', |images|, g, text, line)
    requires g.journal <= a && a + |data| <= |disk| && AllTorn(images', |images|, disk, a, data)
    requires g.page > 0 ==> a + |data| <= PageEnd(g, g.data + |text| + |line|)
    ensures Kept(images, disk, images', Overwrite(disk, a, data), g, text, line)
  {
    hide AllSurvive, PageEnd;
    assert g.data + (|text| + |line|) == g.data + |text| + |line|;
    BeyondWrite(disk, g, |text| + |line|, a, data);
    TornBelow(images', |images|, disk, g, a, data);
  }

  /** Two operations within the same line. */
  lemma KeptTwice(images: seq<seq<bv8>>, disk: seq<bv8>, images1: seq<seq<bv8>>, disk1: seq<bv8>,
                  images2: seq<seq<bv8>>, disk2: seq<bv8>, g: Geo, text: seq<bv8>, line: seq<bv8>)
    requires Kept(images, disk, images1, disk1, g, text, line) && Kept(images1, disk1, images2, disk2, g, text, line)
    ensures Kept(images, disk, images2, disk2, g, text, line)
  {
    hide Survives, SameBelow, SameBeyond;
    BeyondTwice(disk, disk1, disk2, g, |text| + |line|);
    forall k | |images| <= k < |images2| ensures Survives(images2[k], g, text, line) && SameBelow(disk, images2[k], g) {
      if k < |images1| {
        assert images2[k] == images1[k];
      } else {
        BelowTwice(disk, disk1, images2[k], g);
      }
    }
    BelowTwice(disk, disk1, disk2, g);
  }

  /** The next part of a line. */
  lemma KeptJoin(images: seq<seq<bv8>>, disk: seq<bv8>, images1: seq<seq<bv8>>, disk1: seq<bv8>,
                 images2: seq<seq<bv8>>, disk2: seq<bv8>, g: Geo, text: seq<bv8>, line: seq<bv8>, done: nat, n: nat)
    requires done + n <= |line| && Kept(images, disk, images1, disk1, g, text, line)
    requires Kept(images1, disk1, images2, disk2, g, text + line[..done], line[done..done + n])
    ensures Kept(images, disk, images2, disk2, g, text, line)
  {
    hide Survives, SameBelow, SameBeyond;
    assert |text + line[..done]| + |line[done..done + n]| == |text| + done + n;
    BeyondLater(disk1, disk2, g, |text| + done + n, |text| + |line|);
    forall k | |images1| <= k < |images2| ensures Survives(images2[k], g, text, line) {
      SurvivesLater(images2[k], g, text, line, done, n);
    }
    hide AllBelow;
    KeptTwice(images, disk, images1, disk1, images2, disk2, g, text, line);
  }

  /** An operation after a line has been stored. */
  lemma KeptAfter(images: seq<seq<bv8>>, disk: seq<bv8>, images1: seq<seq<bv8>>, disk1: seq<bv8>,
                  images2: seq<seq<bv8>>, disk2: seq<bv8>, g: Geo, text: seq<bv8>, line: seq<bv8>)
    requires Kept(images, disk, images1, disk1, g, text, line)
             && Kept(images1, disk1, images2, disk2, g, text + line, [])
    ensures Kept(images, disk, images2, disk2, g, text, line)
  {
    hide Kept;
    assert text + line[..|line|] == text + line && line[|line|..|line|] == [];
    KeptJoin(images, disk, images1, disk1, images2, disk2, g, text, line, |line|, 0);
  }

  /** After a power failure while line was being logged, what init recovers is the old text
      and a prefix of the line. */
  lemma CrashRecovery(img: seq<bv8>, g: Geo, text: seq<bv8>, line: seq<bv8>)
    requires Survives(img, g, text, line)
    ensures g.data <= g.end <= |img| && g.data + Scan(img, g, 0, Found(0, 0, false)).value <= g.end
    ensures var len := RecoveredEnd(img, g) - g.data;
            |text| <= len <= |text| + |line| && LogInv(img, g, len) && Text(img, g, len) == text + line[..len - |text|]
  {
    hide HoldsLog, LogInv, Text, RecoveredEnd, Scan;
    var n :| 0 <= n <= |line| && HoldsLog(img, g, text + line[..n]);
    RecoveredWhole(img, g, text + line[..n]);
    PartOfLine(text, line, n, RecoveredEnd(img, g) - g.data);
  }

  lemma PartOfLine(text: seq<bv8>, line: seq<bv8>, n: nat, len: nat)
    requires n <= |line| && len == |text + line[..n]|
    ensures |text| <= len <= |text| + |line| && text + line[..len - |text|] == text + line[..n]
  {}

  /** Every such disk is recognised at power-up, with the same geometry. */
  lemma PowerUpFinds(img: seq<bv8>, g: Geo, text: seq<bv8>, line: seq<bv8>)
    requires Survives(img, g, text, line) && g.start == StartAddress(g.page) && |img| < 0x1_0000_0000
    ensures g.page > 0 && StartAddress(g.page) + META_SIZE <= |img| && Present(img, g.page) && ReadGeo(img, g.page) == g
    ensures exists n :: 0 <= n <= |line| && HoldsLog(img, g, text + line[..n])
  {
    var n :| 0 <= n <= |line| && HoldsLog(img, g, text + line[..n]);
    hide StartAddress, MetaBytes, JournalOk, Offset, StrToUl;
    MetaRoundTrip(img, g);
  }

  /** The journal of a log that was left in good order. */
  ghost predicate CleanBefore(disk: seq<bv8>, g: Geo, len: nat)
  {
    && g.page > 0 && g.journal + 2 * g.page <= g.data <= |disk| <= 0x1_0000_0000
    && exists head: nat :: SlotAddress(g, head) + ENTRY_SIZE <= g.data && CleanJournal(disk, g, head, len)
  }

  /** The scan finds the live entry of such a journal. */
  lemma HeadOfClean(disk: seq<bv8>, g: Geo, len: nat)
    requires LogInv(disk, g, len)
    ensures var a := SlotAddress(g, Scan(disk, g, 0, Found(0, 0, false)).head);
            CleanBefore(disk, g, len) ==> CleanJournal(disk, g, (a - g.journal) / ENTRY_SIZE, len)
  {
    hide CleanJournal, LogInv, Scan, SlotAddress, Recorded;
    if CleanBefore(disk, g, len) {
      var head: nat :| SlotAddress(g, head) + ENTRY_SIZE <= g.data && CleanJournal(disk, g, head, len);
      SlotAt(g, head);
      CleanRecovery(disk, g, head, len);
      HeadAddress(g, head);
    }
  }

  lemma SlotAt(g: Geo, s: nat)
    ensures SlotAddress(g, s) == g.journal + ENTRY_SIZE * s
  {}

  lemma RecoveredWhole(img: seq<bv8>, g: Geo, whole: seq<bv8>)
    requires HoldsLog(img, g, whole)
    ensures g.data <= g.end <= |img| && g.data + Scan(img, g, 0, Found(0, 0, false)).value <= g.end
    ensures RecoveredEnd(img, g) - g.data == |whole| && LogInv(img, g, |whole|) && Text(img, g, |whole|) == whole
  {
    RecoveryExact(img, g, |whole|);
    hide Scan, JournalOk, Offset;
  }

  /** A line of n bytes fits behind x, or no page of the log is left to erase. */
  ghost predicate Takes(g: Geo, x: nat, n: nat)
  {
    n <= g.end - x || (g.page > 0 && PageEnd(g, x) >= g.end)
  }

  /** Where the log ends after such a line: if it does not fit, none of it is stored. */
  function EndAfter(g: Geo, x: nat, n: nat): nat
  {
    if n <= g.end - x then x + n else x
  }

  /** LogString's requirement holds for every line shorter than a page by at least four bytes. */
  lemma ShortLineFits(g: Geo, capacity: nat, x: nat, n: nat)
    requires GeoOk(g, capacity) && g.data <= x <= g.end && n + 4 <= g.page
    ensures Takes(g, x, n)
  {
    RoundedDown(x, g.page);
    OffsetStep(RoundDown(x, g.page), g.page, g.page);
    if PageEnd(g, x) < g.end {
      MultiplesApart(PageEnd(g, x), capacity, g.page);
      OffsetStep(PageEnd(g, x), g.page, g.page);
      if PageEnd(g, x) + g.page < capacity {
        MultiplesApart(PageEnd(g, x) + g.page, capacity, g.page);
      }
    }
  }

  lemma SurvivesLater(img: seq<bv8>, g: Geo, text: seq<bv8>, line: seq<bv8>, done: nat, n: nat)
    requires done + n <= |line| && Survives(img, g, text + line[..done], line[done..done + n])
    ensures Survives(img, g, text, line)
  {
    var part := line[done..done + n];
    var k :| 0 <= k <= n && HoldsLog(img, g, text + line[..done] + part[..k]);
    assert text + line[..done] + part[..k] == text + line[..done + k];
  }

  /** Torn writes of a chunk of data survive. */
  lemma ChunkSurvives(images: seq<seq<bv8>>, lo: nat, disk: seq<bv8>, g: Geo, text: seq<bv8>, chunk: seq<bv8>)
    requires HoldsLog(disk, g, text) && Writable(disk, g, |text|, chunk) && g.data + |text| + |chunk| <= |disk|
    requires AllTorn(images, lo, disk, g.data + |text|, chunk)
    ensures AllSurvive(images, lo, g, text, chunk)
    ensures HoldsLog(Overwrite(disk, g.data + |text|, chunk), g, text + chunk)
  {
    hide HoldsLog, Overwrite, Writable;
    forall k | lo <= k < |images| ensures Survives(images[k], g, text, chunk) {
      assert TornOverwrite(images[k], disk, g.data + |text|, chunk);
      var j :| 0 <= j <= |chunk| && images[k] == Overwrite(disk, g.data + |text|, chunk[..j]);
      ChunkHolds(disk, g, text, chunk, j);
    }
    ChunkHolds(disk, g, text, chunk, |chunk|);
    assert chunk[..|chunk|] == chunk;
  }

  lemma ChunkHolds(disk: seq<bv8>, g: Geo, text: seq<bv8>, chunk: seq<bv8>, j: nat)
    requires HoldsLog(disk, g, text) && Writable(disk, g, |text|, chunk) && j <= |chunk|
             && g.data + |text| + |chunk| <= |disk|
    ensures HoldsLog(Overwrite(disk, g.data + |text|, chunk[..j]), g, text + chunk[..j])
  {
    hide LogInv, Text, Overwrite, Writable, PageEnd;
    DataTear(disk, g, |text|, chunk, j);
  }

  class MicroBitLog {
    const flash: UsbFlash
    const cache: FSCache
    var geo: Geo             // startAddress, journalStart, dataStart and logEnd
    var journalHead: nat
    var dataEnd: nat
    var full: bool
    var initialized: bool
    var headingStart: nat
    var headingLength: nat
    ghost var contents: seq<bv8>  // the text logged so far

    /** Power-up: nothing is known and the cache is empty. */
    constructor (flash: UsbFlash)
      requires flash.Valid() && Offset(flash.capacity, BLOCK) == 0
      ensures this.flash == flash && !initialized && !full && headingStart == headingLength == 0
      ensures cache.cache.Length == 4 && cache.blockSize == 256
      ensures cache.flash == flash && cache.blockSize == BLOCK && cache.Valid() && fresh(cache) && fresh(cache.cache)
      ensures PoweredUp()
    {
      this.flash := flash;
      cache := new FSCache(flash, BLOCK, CACHE_BLOCKS);
      geo, journalHead, dataEnd, full, initialized := Geo(0, 0, 0, 0, 0), 0, 0, false, false;
      headingStart, headingLength := 0, 0;
    }

    ghost predicate Valid()
      reads this, flash, cache, cache.cache
    {
      && cache.flash == flash && cache.blockSize == BLOCK && cache.Valid() && flash.blockSize == geo.page
      && cache.cache.Length == CACHE_BLOCKS
      && geo.journal <= cache.laxLo <= cache.laxHi <= geo.data
      && HoldsLog(flash.disk, geo, contents) && dataEnd == geo.data + |contents|
      && geo.journal <= journalHead && journalHead + ENTRY_SIZE <= geo.data && Entries(journalHead - geo.journal)
      && NoneAhead(Residents(cache.cache[..]), geo, dataEnd)
    }

    /** One turn of the write loop of logString: up to the end of the page, erasing the next
        page first when this one will be filled. */
    method AppendChunk(data: seq<bv8>) returns (lengthToWrite: nat)
      requires Valid() && data != [] && |data| <= geo.end - dataEnd
      requires forall i :: 0 <= i < |data| ==> data[i] != BLANK
      modifies this`dataEnd, this`contents, flash, cache`operationCount, cache`wrapped, cache.cache
      ensures Valid() && 0 < lengthToWrite <= |data| && dataEnd == old(dataEnd) + lengthToWrite
      ensures contents == old(contents) + data[..lengthToWrite]
      ensures Kept(old(flash.images), old(flash.disk), flash.images, flash.disk, geo, old(contents),
                   data[..lengthToWrite])
      ensures SameTo(old(flash.disk), flash.disk, geo.data)
      ensures Stepped(old(cache.State()), cache.State(), BlocksOf(old(dataEnd), lengthToWrite, BLOCK),
                      BlocksOf(old(dataEnd), lengthToWrite, BLOCK))
    {
      hide HoldsLog, PageEnd, Residents, WellFormed, Synced, Offset, NoneAhead, Kept, SameTo, Stepped, BlocksOf,
           Writable, Entries, Words;
      PageOf(flash.disk, geo, contents);
      var spaceOnPage := geo.page - Offset(dataEnd, geo.page);
      lengthToWrite := Min(|data|, spaceOnPage);
      ghost var images, disk, text, chunk := flash.images, flash.disk, contents, data[..lengthToWrite];
      if spaceOnPage <= |data| && dataEnd + spaceOnPage < geo.end {
        EraseNextPage(dataEnd + spaceOnPage, chunk);
      } else {
        KeptNothing(images, disk, geo, text, chunk);
        SameItself(disk, geo, text);
      }
      ghost var images1, disk1 := flash.images, flash.disk;
      ChunkWritable(disk1, geo, text, data, lengthToWrite);
      WriteChunk(data[..lengthToWrite]);
      KeptTwice(images, disk, images1, disk1, flash.images, flash.disk, geo, text, chunk);
      SameTwice(disk, disk1, flash.disk, geo.data);
    }

    method WriteChunk(chunk: seq<bv8>)
      requires Valid() && Writable(flash.disk, geo, |contents|, chunk)
      modifies this`dataEnd, this`contents, flash, cache`operationCount, cache`wrapped, cache.cache
      ensures Valid() && dataEnd == old(dataEnd) + |chunk| && contents == old(contents) + chunk
      ensures Kept(old(flash.images), old(flash.disk), flash.images, flash.disk, geo, old(contents), chunk)
      ensures SameTo(old(flash.disk), flash.disk, geo.data)
      ensures Stepped(old(cache.State()), cache.State(), BlocksOf(old(dataEnd), |chunk|, BLOCK),
                      BlocksOf(old(dataEnd), |chunk|, BLOCK))
    {
      hide HoldsLog, PageEnd, Residents, WellFormed, Synced, Offset, Overwrite, ClearsAll, AllTorn, Kept, NoneAhead,
           Writable, BlocksOf, SameTo, Stepped, Entries, Words;
      ghost var disk, images, s, x := flash.disk, flash.images, cache.State(), dataEnd;
      TailClears(disk, geo, contents, chunk);
      var r := cache.Write(dataEnd, chunk);
      assert flash.disk == Overwrite(disk, x, chunk);
      ChunkKept(images, disk, flash.images, geo, contents, x, chunk);
      ResidentsStill(s, cache.State(), geo, x, |chunk|);
      dataEnd, contents := dataEnd + |chunk|, contents + chunk;
    }

    method EraseNextPage(nextPage: nat, ghost line: seq<bv8>)
      requires Valid() && nextPage == PageEnd(geo, dataEnd) < geo.end && nextPage <= dataEnd + |line|
      modifies flash
      ensures Valid()
      ensures Kept(old(flash.images), old(flash.disk), flash.images, flash.disk, geo, contents, line)
      ensures BlankBetween(flash.disk, nextPage, nextPage + geo.page)
      ensures SameTo(old(flash.disk), flash.disk, geo.data)
    {
      hide HoldsLog, PageEnd, Residents, WellFormed, Synced, Offset, Erased, Overwrite, Kept, NoneAhead, SameTo,
           BlankBetween, Entries;
      ghost var disk, images := flash.disk, flash.images;
      AheadErased(disk, geo, contents, nextPage);
      NextPageUnseen(cache.cache[..], geo, dataEnd, nextPage, disk, cache.laxLo, cache.laxHi);
      NextPageOnly(disk, geo, contents, nextPage, line);
      flash.ErasePage(nextPage);
      KeptOne(images, disk, flash.disk, geo, contents, line);
    }

    /** Formats the disk: erases the header, metadata, journal and first data page (or all of
        the log), and writes header, metadata and a journal entry for an empty log. */
    method Clear(header: seq<bv8>, fullErase: bool)
      requires cache.flash == flash && cache.blockSize == BLOCK && flash.Valid() && cache.cache.Length == CACHE_BLOCKS
      requires |header| == HEADER_SIZE && GeoOk(NewGeo(flash.blockSize, flash.capacity), flash.capacity)
      modifies this`geo, this`journalHead, this`dataEnd, this`contents, this`full, this`initialized, this`headingStart,
               this`headingLength
      modifies flash, cache`operationCount, cache`wrapped, cache`laxLo, cache`laxHi, cache.cache
      ensures Valid() && Coherent() && CleanLog() && initialized && !full && (!cache.wrapped ==> Orderly())
      ensures geo == NewGeo(flash.blockSize, flash.capacity) && contents == []
      ensures AfterHeader(geo) && geo.page == flash.blockSize && geo.data == geo.start + 5 * geo.page
              && geo.end == flash.capacity - geo.page - 4
      ensures HeadingsKnown(0, []) && headingStart == 0
      ensures IsFormatted(flash.disk, old(flash.disk), geo, header,
                          EraseTop(if fullErase then geo.end else geo.data, geo.page))
      ensures FormattedBytes(flash.disk, old(flash.disk), geo, header, if fullErase then geo.end else geo.data)
      ensures old(flash.images) <= flash.images && AllClearing(flash.images, |old(flash.images)|, old(flash.disk), geo)
    {
      hide AllClearing, SameLog, Offset, GeoOk, LogInv, CleanJournal, StartAddress, BlankBetween, Residents, Synced,
           WellFormed, MetaBytes, Words, NewGeo, HoldsLog, HeadingBlock, Entries, IsFormatted, EraseTop, Burn,
           AfterHeader, FormattedBytes;
      ghost var images, before := flash.images, flash.disk;
      Reset();
      MarkEnd();
      ghost var images1 := flash.images;
      Format(header, if fullErase then geo.end else geo.data, before);
      ClearingJoin(flash.images, images1, |images|, before, geo);
      initialized := true;
      FormattedLog();
      StartAfterHeader(geo.page);
      FormatRoom(geo, flash.capacity);
      FormattedIs(flash.disk, before, geo, header, if fullErase then geo.end else geo.data);
    }

    /** The fields of an empty log. */
    method Reset()
      requires flash.Valid() && GeoOk(NewGeo(flash.blockSize, flash.capacity), flash.capacity)
      modifies this`geo, this`journalHead, this`dataEnd, this`contents, this`full, this`headingStart, this`headingLength
      ensures geo == NewGeo(flash.blockSize, flash.capacity) && geo.page == flash.blockSize
              && GeoOk(geo, flash.capacity)
      ensures geo.start == StartAddress(geo.page) && geo.journal + 2 * geo.page <= geo.data < geo.end
              && geo.data == geo.start + 5 * geo.page
      ensures AfterHeader(geo) && geo.end == flash.capacity - geo.page - 4
      ensures journalHead == geo.journal && dataEnd == geo.data && contents == [] && !full
              && headingStart == headingLength == 0
    {
      NewGeoPages(flash.blockSize, flash.capacity);
      StartPlace(NewGeo(flash.blockSize, flash.capacity));
      JournalRoom(NewGeo(flash.blockSize, flash.capacity), flash.capacity);
      hide GeoOk, NewGeo, Offset, StartAddress, AfterHeader;
      geo := NewGeo(flash.blockSize, flash.capacity);
      journalHead, dataEnd, contents, full := geo.journal, geo.data, [], false;
      headingStart, headingLength := 0, 0;
    }

    /** A formatted disk is a log in good order. */
    lemma FormattedLog()
      requires Cleared() && LogInv(flash.disk, geo, 0) && CleanJournal(flash.disk, geo, 0, 0)
               && geo.journal + 2 * geo.page <= geo.data
      requires BlankBetween(flash.disk, geo.start + META_SIZE, geo.journal)
      requires forall b :: b in Residents(cache.cache[..]) ==> b < geo.data
      requires journalHead == geo.journal && dataEnd == geo.data && contents == [] && headingStart == headingLength == 0
      requires !cache.wrapped ==> Timely()
      ensures Valid() && Coherent() && CleanLog() && HeadingsKnown(0, []) && (!cache.wrapped ==> Orderly())
    {
      hide Offset, GeoOk, LogInv, CleanJournal, BlankBetween, Residents, Synced, WellFormed, HoldsLog, HeadingBlock,
           Entries, InOrder, AgedBy;
      MetaRoom(geo, flash.capacity);
      JournalRoom(geo, flash.capacity);
      ExactSynced(cache.cache[..], flash.disk, geo.journal, 0);
      Formatted(flash.disk, geo);
      NoHeadings(flash.disk, geo);
      NotLagging(cache.cache[..], geo, cache.laxLo, dataEnd, Offset(journalHead, geo.page));
    }

    /** Empties the cache, erases up to the limit, and writes header, metadata and the first
        entry. */
    method Format(header: seq<bv8>, limit: nat, ghost before: seq<bv8>)
      requires cache.flash == flash && cache.blockSize == BLOCK && flash.Valid() && cache.cache.Length == CACHE_BLOCKS
      requires geo.page == flash.blockSize && GeoOk(geo, flash.capacity)
      requires |before| == |flash.disk| && geo.end + 4 <= |before| && flash.disk == Burn(before, geo.end, [0, 0, 0, 0])
      requires geo.data <= limit <= geo.end
      requires |header| == HEADER_SIZE && geo.start == StartAddress(geo.page) && journalHead == geo.journal
      requires geo.data == geo.start + 5 * geo.page && SameLog(flash.disk, before, geo)
      modifies flash, cache`operationCount, cache`wrapped, cache`laxLo, cache`laxHi, cache.cache
      ensures old(flash.images) <= flash.images && AllClearing(flash.images, |old(flash.images)|, before, geo)
      ensures Cleared() && LogInv(flash.disk, geo, 0) && CleanJournal(flash.disk, geo, 0, 0)
      ensures BlankBetween(flash.disk, geo.start + META_SIZE, geo.journal)
      ensures forall b :: b in Residents(cache.cache[..]) ==> b < geo.data
      ensures !cache.wrapped ==> Timely()
      ensures IsFormatted(flash.disk, before, geo, header, EraseTop(limit, geo.page))
    {
      hide AllClearing, SameLog, Offset, GeoOk, LogInv, CleanJournal, StartAddress, BlankBetween, Residents, Synced,
           WellFormed, MetaBytes, Words, Overwrite, Hex, EraseTop, Burn, InOrder;
      FormatRoom(geo, flash.capacity);
      FormatBlocks(geo, flash.capacity);
      StartAfterHeader(geo.page);
      cache.laxLo, cache.laxHi := geo.journal, geo.journal;
      cache.Clear();
      ghost var images := flash.images;
      EraseTo(limit, before);
      ghost var images1 := flash.images;
      WriteHeader(header, before);
      ghost var images2 := flash.images;
      ClearingJoin(images2, images1, |images|, before, geo);
      WriteMeta(before);
      ghost var images3 := flash.images;
      ClearingJoin(images3, images2, |images|, before, geo);
      WriteFirstEntry(before);
      ClearingJoin(flash.images, images3, |images|, before, geo);
    }

    /** The FULL marker's word; the cache is cleared right after. */
    method MarkEnd()
      requires flash.Valid() && GeoOk(geo, flash.capacity)
      modifies flash
      ensures flash.Valid() && geo.end + 4 <= |old(flash.disk)|
              && flash.disk == Burn(old(flash.disk), geo.end, [0, 0, 0, 0])
      ensures old(flash.images) <= flash.images && AllClearing(flash.images, |old(flash.images)|, old(flash.disk), geo)
      ensures SameLog(flash.disk, old(flash.disk), geo)
    {
      hide GeoOk, Offset, AllClearing, SameLog, Burn, BurnImages, Words;
      EndWords(geo, flash.capacity);
      EndClearing(flash.images, flash.disk, geo, [0, 0, 0, 0]);
      flash.Write(geo.end, [0, 0, 0, 0]);
    }

    ghost predicate Cleared()
      reads this, flash, cache, cache.cache
    {
      && cache.flash == flash && cache.blockSize == BLOCK && cache.Valid() && flash.blockSize == geo.page
      && cache.cache.Length == CACHE_BLOCKS
      && cache.laxLo == cache.laxHi == geo.journal && GeoOk(geo, flash.capacity)
    }

    method EraseTo(limit: nat, ghost before: seq<bv8>)
      requires Cleared() && Residents(cache.cache[..]) == {} && geo.data <= limit <= geo.end
      requires geo.start == StartAddress(geo.page) && SameLog(flash.disk, before, geo) && |before| == flash.capacity
      modifies flash
      ensures Cleared() && BlankBetween(flash.disk, 0, geo.data + geo.page)
      ensures ErasedTo(flash.disk, old(flash.disk), EraseTop(limit, geo.page))
      ensures old(flash.images) <= flash.images && AllClearing(flash.images, |old(flash.images)|, before, geo)
    {
      hide Offset, Residents, WellFormed, Synced, GeoOk, ErasedTo, Erased, Clearing, SameLog, StartAddress, EraseTop,
           BlankBetween, Overwrite;
      var p := 0;
      ghost var marked, images := flash.disk, flash.images;
      EmptyCache(cache.cache[..], BLOCK, marked, geo.journal, geo.journal);
      EraseRoom(geo, flash.capacity, p, limit);
      NoneErased(marked, geo.page);
      while p <= limit
        invariant Cleared() && Offset(p, geo.page) == 0 && p <= limit + geo.page
        invariant ErasedTo(flash.disk, marked, p)
        invariant images <= flash.images && AllClearing(flash.images, |images|, before, geo)
        decreases limit + geo.page - p
      {
        EraseRoom(geo, flash.capacity, p, limit);
        ErasedMore(flash.disk, marked, p, geo.page);
        EmptyCache(cache.cache[..], BLOCK, Erased(flash.disk, p, geo.page), geo.journal, geo.journal);
        flash.ErasePage(p);
        p := p + geo.page;
        PageCleared(flash.disk, marked, before, geo, p);
      }
      EraseRoom(geo, flash.capacity, p, limit);
      EraseTopIs(p, limit, geo.page);
      ErasedBlank(flash.disk, marked, p, geo.data + geo.page);
    }

    method WriteHeader(header: seq<bv8>, ghost before: seq<bv8>)
      requires Cleared() && Residents(cache.cache[..]) == {} && |header| == HEADER_SIZE
               && geo.start == StartAddress(geo.page)
      requires BlankBetween(flash.disk, 0, geo.data + geo.page)
      modifies flash
      ensures Cleared() && BlankBetween(flash.disk, geo.start, geo.data + geo.page)
      ensures flash.disk == Overwrite(old(flash.disk), 0, header)
      ensures old(flash.images) <= flash.images && AllClearing(flash.images, |old(flash.images)|, before, geo)
    {
      hide Offset, Residents, WellFormed, Synced, StartAddress, AllClearing, Burn, BurnImages, Overwrite, GeoOk, Words,
           ClearsAll, BlankBetween;
      StartAfterHeader(geo.page);
      HeaderPlace(flash.disk, geo, header);
      HeaderClearing(flash.images, flash.disk, before, geo, header);
      EmptyCache(cache.cache[..], BLOCK, Burn(flash.disk, 0, header), geo.journal, geo.journal);
      BlankTakes(flash.disk, 0, geo.data + geo.page, 0, header);
      BurnIsOverwrite(flash.disk, 0, header);
      BlankAfter(flash.disk, geo, header);
      flash.Write(0, header);
    }

    method WriteMeta(ghost before: seq<bv8>)
      requires Cleared() && Residents(cache.cache[..]) == {} && BlankBetween(flash.disk, geo.start, geo.data + geo.page)
      requires geo.page > 0 && geo.start == StartAddress(geo.page) && geo.data == geo.start + 5 * geo.page
      modifies flash, cache`operationCount, cache`wrapped, cache.cache
      ensures Cleared() && BlankBetween(flash.disk, geo.start + META_SIZE, geo.data + geo.page)
      ensures flash.disk == Overwrite(old(flash.disk), geo.start, MetaBytes(geo.data, geo.end))
      ensures flash.disk[geo.start..geo.start + META_SIZE] == MetaBytes(geo.data, geo.end)
      ensures forall b :: b in Residents(cache.cache[..]) ==> b < geo.journal
      ensures old(Timely()) && !cache.wrapped ==> Timely()
      ensures old(cache.wrapped) ==> cache.wrapped
      ensures old(flash.images) <= flash.images && AllClearing(flash.images, |old(flash.images)|, before, geo)
    {
      var dataStart := WriteNum(geo.data);
      var logEnd := WriteNum(geo.end);
      var metaData := VERSION + HEX_PREFIX + logEnd + [0] + HEX_PREFIX + dataStart + [0];
      assert metaData == MetaBytes(geo.data, geo.end);
      JournalRoom(geo, flash.capacity);
      BlankTakes(flash.disk, geo.start, geo.data + geo.page, geo.start, metaData);
      ghost var disk, images := flash.disk, flash.images;
      hide AllClearing, StartAddress, Offset, Residents, WellFormed, Synced, MetaBytes, Hex, Overwrite, BlankBetween,
           ClearsAll, AllTorn, InOrder, Stepped;
      ghost var s := cache.State();
      var r := cache.Write(geo.start, metaData);
      MetaClearing(flash.images, |images|, disk, before, geo, metaData);
      StepBelow(s, cache.State(), geo.start, |metaData|, if r == Done then BlocksOf(geo.start, |metaData|, BLOCK)
                else {}, geo.journal);
    }

    method WriteFirstEntry(ghost before: seq<bv8>)
      requires Cleared() && BlankBetween(flash.disk, geo.start + META_SIZE, geo.data + geo.page)
      requires geo.page > 0 && geo.start == StartAddress(geo.page) && geo.data == geo.start + 5 * geo.page
      requires journalHead == geo.journal
      requires flash.disk[geo.start..geo.start + META_SIZE] == MetaBytes(geo.data, geo.end)
      requires forall b :: b in Residents(cache.cache[..]) ==> b < geo.journal
      modifies flash, cache`operationCount, cache`wrapped, cache.cache
      ensures Cleared() && LogInv(flash.disk, geo, 0) && CleanJournal(flash.disk, geo, 0, 0)
      ensures BlankBetween(flash.disk, geo.start + META_SIZE, geo.journal)
      ensures forall b :: b in Residents(cache.cache[..]) ==> b < geo.data
      ensures flash.disk == Overwrite(old(flash.disk), geo.journal, Hex(0, ENTRY_SIZE))
      ensures old(flash.images) <= flash.images && AllClearing(flash.images, |old(flash.images)|, before, geo)
      ensures old(Timely()) && !cache.wrapped ==> Timely()
      ensures old(cache.wrapped) ==> cache.wrapped
    {
      var je := WriteNum(0);
      JournalRoom(geo, flash.capacity);
      ghost var disk := flash.disk;
      BlankTakes(disk, geo.start + META_SIZE, geo.data + geo.page, geo.journal, je);
      FirstEntry(disk, geo, je);
      ghost var images := flash.images;
      hide AllClearing, StartAddress, Offset, Residents, WellFormed, Synced, MetaBytes, Hex, Overwrite, BlankBetween,
           ClearsAll, AllTorn, LogInv, CleanJournal, InOrder, Stepped;
      ghost var s := cache.State();
      var r := cache.Write(journalHead, je);
      EntryClearing(flash.images, |images|, disk, before, geo, je);
      StepBelow(s, cache.State(), journalHead, |je|, if r == Done then BlocksOf(journalHead, |je|, BLOCK)
                else {}, geo.data);
    }

    /** Ready to mount: the cache has seen nothing since power-up. */
    ghost predicate PoweredUp()
      reads this, flash, cache, cache.cache
    {
      && cache.flash == flash && cache.blockSize == BLOCK && cache.Valid() && cache.laxLo == cache.laxHi
      && cache.cache.Length == CACHE_BLOCKS && Residents(cache.cache[..]) == {} && !cache.wrapped && Timely()
    }

    /** Whether the metadata block describes a log; if so its geometry is loaded. */
    method IsPresent() returns (present: bool)
      requires flash.Valid() && StartAddress(flash.blockSize) + META_SIZE <= |flash.disk|
      modifies this`geo
      ensures present == Present(flash.disk, flash.blockSize) && geo == ReadGeo(flash.disk, flash.blockSize)
      ensures AfterHeader(geo) && geo.page == flash.blockSize && geo.start + META_SIZE <= |flash.disk|
      ensures var meta := flash.disk[geo.start..geo.start + META_SIZE];
              && geo.data == StrToUl(meta[29..39]) && geo.end == StrToUl(meta[18..28])
              && (present <==>
                  && meta[..17] == [0x55, 0x42, 0x49, 0x54, 0x5F, 0x4C, 0x4F, 0x47, 0x5F, 0x46, 0x53, 0x5F, 0x56,
                                    0x5F, 0x30, 0x30, 0x31]
                  && geo.start + 2 * geo.page <= geo.data < geo.end < |flash.disk|)
    {
      hide Offset, RoundDown, StrToUl, StartAddress;
      var pageSize := flash.blockSize;
      var startAddress := StartAddress(pageSize);
      var metaData := flash.disk[startAddress..startAddress + META_SIZE];
      var dataStart, logEnd := StrToUl(metaData[29..39]), StrToUl(metaData[18..28]);
      geo := Geo(pageSize, startAddress, startAddress + pageSize, dataStart, logEnd);
      StartPlace(geo);
      hide AfterHeader;
      present := dataStart >= startAddress + 2 * pageSize && dataStart < logEnd && logEnd < |flash.disk|
          && metaData[..17] == VERSION[..17];
    }

    /** The journal scan of init. */
    method ScanJournal() returns (ghost f: Found)
      requires PoweredUp() && GeoOk(geo, |flash.disk|)
      modifies this`journalHead, this`dataEnd, cache`operationCount, cache`wrapped, cache.cache
      ensures cache.Valid() && forall b :: b in Residents(cache.cache[..]) ==> b < geo.data
      ensures !cache.wrapped ==> Timely()
      ensures f == Scan(flash.disk, geo, 0, Found(0, 0, false))
      ensures journalHead == SlotAddress(geo, f.head) && journalHead + ENTRY_SIZE <= geo.data
              && dataEnd == geo.data + f.value
    {
      hide GeoOk, Residents, WellFormed, Synced, Offset, StrToUl, BlocksOf, InOrder, Scan, Only, Slot;
      JournalRoom(geo, |flash.disk|);
      journalHead, dataEnd := geo.journal, geo.data;
      f := Found(0, 0, false);
      var journalEntryAddress, valid := journalHead, false;
      ghost var s := 0;
      while journalEntryAddress < geo.data
        invariant cache.Valid() && cache.laxLo == cache.laxHi
        invariant forall b :: b in Residents(cache.cache[..]) ==> b < geo.data
        invariant !cache.wrapped ==> Timely()
        invariant journalEntryAddress == SlotAddress(geo, s) <= geo.data
        invariant journalHead == SlotAddress(geo, f.head) && journalHead + ENTRY_SIZE <= geo.data
        invariant dataEnd == geo.data + f.value && valid == f.valid
        invariant Scan(flash.disk, geo, s, f) == Scan(flash.disk, geo, 0, Found(0, 0, false))
      {
        SlotBelow(geo, |flash.disk|, s);
        ScanStep(flash.disk, geo, s, f);
        var j := ReadEntry(journalEntryAddress, s);
        if Only(j, 0xFF) && valid {
          break;
        }
        if !Only(j, 0x00) {
          journalHead, dataEnd, valid := journalEntryAddress, geo.data + StrToUl(j), true;
          f := Found(s, StrToUl(j), true);
        }
        s := s + 1;
        journalEntryAddress := journalEntryAddress + ENTRY_SIZE;
      }
      ScanEnd(flash.disk, geo, s, f);
    }

    method ReadEntry(address: nat, ghost s: nat) returns (j: seq<bv8>)
      requires cache.flash == flash && cache.blockSize == BLOCK && cache.Valid() && cache.laxLo == cache.laxHi
      requires address == SlotAddress(geo, s) && address + ENTRY_SIZE <= geo.data < |flash.disk|
      requires forall b :: b in Residents(cache.cache[..]) ==> b < geo.data
      modifies cache`operationCount, cache`wrapped, cache.cache
      ensures cache.Valid() && j == Slot(flash.disk, geo, s)
      ensures forall b :: b in Residents(cache.cache[..]) ==> b < geo.data
      ensures (old(cache.wrapped) ==> cache.wrapped) && (old(Timely()) && !cache.wrapped ==> Timely())
    {
      hide Residents, WellFormed, Synced, Offset, Stepped, InOrder;
      ghost var before := cache.State();
      var r;
      r, j := cache.Read(address, ENTRY_SIZE);
      StepBelow(before, cache.State(), address, ENTRY_SIZE, BlocksOf(address, ENTRY_SIZE, BLOCK), geo.data);
    }

    /** Walks the data from the recorded end to the first unused byte. */
    method WalkData(ghost value: nat)
      requires cache.flash == flash && cache.blockSize == BLOCK && cache.Valid() && cache.laxLo == cache.laxHi
      requires geo.data <= dataEnd == geo.data + value <= geo.end < |flash.disk| - 1
      requires forall b :: b in Residents(cache.cache[..]) ==> b < geo.data
      requires !cache.wrapped ==> Timely()
      modifies this`dataEnd, cache`operationCount, cache`wrapped, cache.cache
      ensures cache.Valid() && dataEnd == Walk(flash.disk, geo.data + value, geo.end)
      ensures forall b :: b in Residents(cache.cache[..]) ==> b <= dataEnd
      ensures !cache.wrapped ==> Timely()
    {
      hide Residents, WellFormed, Synced, Offset, Stepped, InOrder;
      while dataEnd < geo.end
        invariant geo.data + value <= dataEnd <= geo.end && cache.Valid() && cache.laxLo == cache.laxHi
        invariant Walk(flash.disk, dataEnd, geo.end) == Walk(flash.disk, geo.data + value, geo.end)
        invariant forall b :: b in Residents(cache.cache[..]) ==> b <= dataEnd
        invariant !cache.wrapped ==> Timely()
      {
        ghost var s := cache.State();
        var r, d := cache.Read(dataEnd, 1);
        StepBelow(s, cache.State(), dataEnd, 1, BlocksOf(dataEnd, 1, BLOCK), dataEnd + 1);
        if d[0] == 0xFF {
          break;
        }
        dataEnd := dataEnd + 1;
      }
    }

    /** Loads an existing log: whatever state a power failure left it in, the end of the data
        is found exactly. */
    method Mount(ghost g: Geo, ghost text: seq<bv8>)
      requires PoweredUp() && flash.blockSize == g.page && geo == g && HoldsLog(flash.disk, g, text)
      modifies this`journalHead, this`dataEnd, this`contents, cache`operationCount, cache`wrapped, cache`laxLo,
               cache`laxHi, cache.cache
      ensures Valid() && geo == g && contents == text && Coherent() && cache.laxLo == cache.laxHi == geo.journal
      ensures journalHead == SlotAddress(geo, Scan(flash.disk, g, 0, Found(0, 0, false)).head)
      ensures CleanBefore(flash.disk, g, |text|) ==> CleanLog() && (!cache.wrapped ==> Orderly())
      ensures !cache.wrapped ==> Timely()
    {
      hide HoldsLog, Synced, Residents, Offset, Scan, PageEnd, WellFormed, CleanBefore, GeoOk, InOrder, Entries,
           NoneAhead, RecoveredEnd, Walk;
      Mountable(flash.disk, g, text);
      ghost var f := ScanJournal();
      WalkData(f.value);
      contents := text;
      MountedSynced(cache.cache[..], flash.disk, cache.laxLo, geo);
      NoneBehind(Residents(cache.cache[..]), geo, dataEnd);
      cache.laxLo, cache.laxHi := geo.journal, geo.journal;
      SlotEntries(geo, f.head);
      MountedClean();
    }

    /** The head found by the scan is that of the one live entry, if there is one. */
    lemma MountedClean()
      requires LogInv(flash.disk, geo, |contents|) && cache.laxLo == cache.laxHi
      requires journalHead == SlotAddress(geo, Scan(flash.disk, geo, 0, Found(0, 0, false)).head)
      requires !cache.wrapped ==> Timely()
      ensures CleanBefore(flash.disk, geo, |contents|) ==> CleanLog() && (!cache.wrapped ==> Orderly())
    {
      hide CleanJournal, LogInv, Scan, AgedBy, LagAt, InOrder, Offset, CleanBefore;
      HeadOfClean(flash.disk, geo, |contents|);
      CleanSlots(flash.disk, geo, |contents|);
      if geo.page > 0 {
        NotLagging(cache.cache[..], geo, cache.laxLo, dataEnd, Offset(journalHead, geo.page));
      }
    }

    /** Every resident block equals the flash it caches, in the journal too. */
    ghost predicate Coherent()
      reads cache, cache.cache, cache.flash
    {
      Synced(cache.cache[..], cache.flash.disk, 0, 0)
    }

    /** No pins, and the cache's counter is ahead of all stamps. */
    ghost predicate Timely()
      reads cache, cache.cache
    {
      InOrder(cache.cache[..], cache.operationCount)
    }

    /** Blocks may lag on the journal head's page only, behind its first block, and are older
        than k bytes' worth of journal entries. */
    ghost predicate Lags(x: nat, k: nat)
      reads this`geo, this`journalHead, cache, cache.cache
    {
      geo.page > 0 && LagAt(geo, cache.laxLo, cache.laxHi, journalHead)
          && AgedBy(cache.cache[..], geo, cache.laxLo, cache.laxHi, x, k)
    }

    /** A log in good order, and a cache that will not get in its way: blocks that lag behind
        flash are evicted before the journal reaches them. */
    ghost predicate Orderly()
      reads this, flash, cache, cache.cache
    {
      CleanLog() && Timely() && Lags(dataEnd, Offset(journalHead, geo.page))
    }

    /** Writes a journal slot through the cache. The source ignores the result: a refused
        entry leaves the journal as it was. */
    method WriteEntry(address: nat, entry: seq<bv8>, ghost s: nat) returns (r: Result)
      requires Valid() && address == SlotAddress(geo, s) && address + ENTRY_SIZE <= geo.data && Entry(entry, |contents|)
      modifies flash, cache`operationCount, cache`wrapped, cache.cache
      ensures Valid()
      ensures Kept(old(flash.images), old(flash.disk), flash.images, flash.disk, geo, contents, [])
      ensures flash.disk == if r == Done then Overwrite(old(flash.disk), address, entry) else old(flash.disk)
      ensures cache.Strict(address, ENTRY_SIZE) && ClearsAll(old(flash.disk), address, entry) ==> r == Done
      ensures Stepped(old(cache.State()), cache.State(), BlocksOf(address, ENTRY_SIZE, BLOCK), {})
    {
      hide HoldsLog, PageEnd, Residents, WellFormed, Synced, Offset, Overwrite, ClearsAll, AllTorn, Kept, NoneAhead,
           BlocksOf, Words, Entry, SlotAddress, Stepped, Entries;
      ghost var disk, images, before := flash.disk, flash.images, cache.State();
      SlotRoom(disk, geo, contents, s, entry);
      r := cache.Write(address, entry);
      StillNoneAhead(before, cache.State(), geo, dataEnd, address, ENTRY_SIZE,
                     if r == Done then BlocksOf(address, ENTRY_SIZE, BLOCK) else {});
      if r == Done {
        EntryKept(images, disk, flash.images, geo, contents, s, entry);
      } else {
        KeptNothing(images, disk, geo, contents, []);
      }
    }

    /** The lax region is given up once no block of it is cached any more. */
    ghost method DropLag()
      requires Valid()
      modifies cache`laxLo, cache`laxHi
      ensures Valid() && (cache.laxLo == cache.laxHi || !Avoids(Residents(cache.cache[..]), cache.laxLo, cache.laxHi))
      ensures cache.laxLo == cache.laxHi || (cache.laxLo == old(cache.laxLo) && cache.laxHi == old(cache.laxHi))
    {
      hide HoldsLog, Synced, Residents, Offset, PageEnd, WellFormed, GeoOk, Entries, NoneAhead, Avoids;
      JournalStart(flash.disk, geo, contents);
      if Avoids(Residents(cache.cache[..]), cache.laxLo, cache.laxHi) {
        NoLag(cache.cache[..], flash.disk, cache.laxLo, cache.laxHi, geo.journal);
        cache.laxLo, cache.laxHi := geo.journal, geo.journal;
      }
    }

    /** Moves on to the next journal slot, and erases its page if that is a new one. Only the
        first cached block of the page is blanked, so its other blocks may lag from here on;
        they are gone when the head reaches them. */
    method AdvanceHead(ghost head: nat)
      requires Valid() && journalHead == SlotAddress(geo, head)
      modifies this`journalHead, flash, cache`operationCount, cache`wrapped, cache`laxLo, cache`laxHi, cache.cache
      ensures Valid() && journalHead == SlotAddress(geo, NextSlot(geo, head))
      ensures flash.disk == Prepared(old(flash.disk), geo, head)
      ensures Kept(old(flash.images), old(flash.disk), flash.images, flash.disk, geo, contents, [])
      ensures old(Lags(dataEnd, Offset(journalHead, geo.page) + ENTRY_SIZE))
              && geo.journal + 2 * geo.page <= geo.data ==>
                cache.Strict(journalHead, ENTRY_SIZE) && cache.Strict(old(journalHead), ENTRY_SIZE)
      ensures old(Lags(dataEnd, Offset(journalHead, geo.page) + ENTRY_SIZE)) ==>
                Lags(dataEnd, Offset(journalHead, geo.page))
      ensures (old(cache.wrapped) ==> cache.wrapped) && (old(Timely()) && !cache.wrapped ==> Timely())
      ensures old(cache.laxLo == cache.laxHi && NextUncached(Residents(cache.cache[..]), geo, head)) ==>
                cache.laxLo == cache.laxHi
    {
      hide HoldsLog, Offset, Synced, Residents, NoneAhead, PageEnd, Kept, Erased, Entries, SamePage, WellFormed, AgedBy,
           InOrder, GeoOk, LagAt, Uncached;
      HeadPlace(flash.disk, geo, contents, head);
      KeptNothing(flash.images, flash.disk, geo, contents, []);
      ghost var lags := Lags(dataEnd, Offset(journalHead, geo.page) + ENTRY_SIZE);
      DropLag();
      NotLagging(cache.cache[..], geo, cache.laxLo, dataEnd, Offset(journalHead, geo.page) + ENTRY_SIZE);
      if lags {
        HeadsApart(geo, |flash.disk|, cache.cache[..], cache.laxLo, cache.laxHi, head, dataEnd);
      }
      journalHead := journalHead + ENTRY_SIZE;
      if Offset(journalHead, geo.page) == 0 {
        if journalHead == geo.data {
          journalHead := geo.journal;
        }
        UncachedNotStale(cache.cache[..], flash.disk, geo, contents, journalHead);
        EraseJournalPage();
        StrictAfter(geo, cache.laxLo, cache.laxHi, journalHead, SlotAddress(geo, head));
      }
    }

    method EraseJournalPage()
      requires Wired() && geo.page > 0 && HoldsLog(flash.disk, geo, contents)
      requires geo.journal <= journalHead && journalHead + geo.page <= geo.data && Offset(journalHead, geo.page) == 0
      requires Entries(journalHead - geo.journal)
      modifies flash, cache`operationCount, cache`wrapped, cache`laxLo, cache`laxHi, cache.cache
      ensures Wired() && HoldsLog(flash.disk, geo, contents)
      ensures flash.disk == Erased(old(flash.disk), journalHead, geo.page)
      ensures Kept(old(flash.images), old(flash.disk), flash.images, flash.disk, geo, contents, [])
      ensures Residents(cache.cache[..]) == old(Residents(cache.cache[..]))
      ensures (old(cache.wrapped) ==> cache.wrapped) && (old(Timely()) && !cache.wrapped ==> Timely())
      ensures old(cache.laxLo == cache.laxHi) ==> Lags(dataEnd, 0)
      ensures old(cache.laxLo == cache.laxHi) ==>
                (Coherent() <==> NoneStale(old(cache.cache[..]), journalHead, geo.page))
      ensures old(cache.laxLo == cache.laxHi) && NoneStale(old(cache.cache[..]), journalHead, geo.page) ==>
                cache.laxLo == cache.laxHi
    {
      hide HoldsLog, Offset, Synced, Residents, Erased, Blanked, WellFormed, Entries, NoneStale, Kept, SameBelow, GeoOk,
           InOrder, Traced, AgedBy, LagAt;
      ghost var t, count, disk, images, lo, hi := cache.cache[..], cache.operationCount, flash.disk, flash.images,
          cache.laxLo, cache.laxHi;
      ghost var lax := LaxAfter(t, geo, lo, hi, journalHead);
      JournalPageErased(t, count, disk, geo, contents, lo, hi, journalHead, dataEnd);
      ghost var s := cache.State();
      cache.Erase(journalHead);
      StepOrder(s, cache.State(), {journalHead}, {});
      flash.ErasePage(journalHead);
      cache.laxLo, cache.laxHi := lax.0, lax.1;
      KeptOne(images, disk, flash.disk, geo, contents, []);
    }

    ghost predicate Wired()
      reads this, flash, cache, cache.cache
    {
      && cache.flash == flash && cache.blockSize == BLOCK && cache.Valid() && flash.blockSize == geo.page
      && cache.cache.Length == CACHE_BLOCKS && geo.journal <= cache.laxLo <= cache.laxHi <= geo.data
    }

    /** The journal part of logString: a new entry for the current length, then zero the old one. */
    method UpdateJournal(ghost head: nat, ghost len: nat)
      requires Valid() && journalHead == SlotAddress(geo, head)
      modifies this`journalHead, flash, cache`operationCount, cache`wrapped, cache`laxLo, cache`laxHi, cache.cache
      ensures Valid() && journalHead == SlotAddress(geo, NextSlot(geo, head))
      ensures Kept(old(flash.images), old(flash.disk), flash.images, flash.disk, geo, contents, [])
      ensures old(Lags(dataEnd, Offset(journalHead, geo.page) + ENTRY_SIZE))
              && geo.journal + 2 * geo.page <= geo.data ==>
                CleanJournal(old(flash.disk), geo, head, len) ==>
                      CleanJournal(flash.disk, geo, NextSlot(geo, head), |contents|)
      ensures old(Lags(dataEnd, Offset(journalHead, geo.page) + ENTRY_SIZE) && Timely())
              && geo.journal + 2 * geo.page <= geo.data ==>
                !cache.wrapped ==> Timely() && Lags(dataEnd, Offset(journalHead, geo.page))
      ensures old(cache.wrapped) ==> cache.wrapped
      ensures old(cache.laxLo == cache.laxHi && NextUncached(Residents(cache.cache[..]), geo, head)) ==>
                cache.laxLo == cache.laxHi
    {
      hide HoldsLog, Offset, Synced, Residents, NoneAhead, PageEnd, Kept, Overwrite, Entry, CleanJournal, WellFormed,
           SlotAddress, NextSlot, Hex, Prepared, ClearsAll, Entries, NextUncached, InOrder, AgedBy, LagAt, Stepped,
           BlocksOf, GeoOk;
      ghost var disk, images := flash.disk, flash.images;
      EntryReady(disk, geo, contents, head, dataEnd);
      CleanReady(disk, geo, contents, head, len);
      var oldJournalHead := journalHead;
      AdvanceHead(head);
      ghost var disk1, images1, s := flash.disk, flash.images, cache.State();
      var entry := WriteNum((dataEnd - geo.data) / BLOCK * BLOCK);
      ReplaceEntry(journalHead, entry, NextSlot(geo, head), oldJournalHead, head);
      KeptTwice(images, disk, images1, disk1, flash.images, flash.disk, geo, contents, []);
      StrictKept(s, cache.State(), geo, cache.laxLo, cache.laxHi, journalHead, ENTRY_SIZE, oldJournalHead, ENTRY_SIZE,
                 dataEnd, Offset(journalHead, geo.page));
    }

    /** Writes the new entry, then zeros the old one. */
    method ReplaceEntry(address: nat, entry: seq<bv8>, ghost s: nat, oldAddress: nat, ghost head: nat)
      requires Valid() && address == SlotAddress(geo, s) && address + ENTRY_SIZE <= geo.data && Entry(entry, |contents|)
      requires oldAddress == SlotAddress(geo, head) && oldAddress + ENTRY_SIZE <= geo.data && Entry(Zeros(), |contents|)
      modifies flash, cache`operationCount, cache`wrapped, cache.cache
      ensures Valid()
      ensures Kept(old(flash.images), old(flash.disk), flash.images, flash.disk, geo, contents, [])
      ensures Stepped(old(cache.State()), cache.State(),
                      BlocksOf(address, ENTRY_SIZE, BLOCK) + BlocksOf(oldAddress, ENTRY_SIZE, BLOCK), {})
      ensures |entry| == ENTRY_SIZE && address + ENTRY_SIZE <= |old(flash.disk)|
              && oldAddress + ENTRY_SIZE <= |old(flash.disk)|
      ensures cache.Strict(address, ENTRY_SIZE) && cache.Strict(oldAddress, ENTRY_SIZE) ==>
                ClearsAll(old(flash.disk), address, entry) ==>
                ClearsAll(Overwrite(old(flash.disk), address, entry), oldAddress, Zeros()) ==>
                flash.disk == Overwrite(Overwrite(old(flash.disk), address, entry), oldAddress, Zeros())
    {
      hide HoldsLog, Offset, Synced, Residents, NoneAhead, PageEnd, Kept, Overwrite, Entry, WellFormed, SlotAddress,
           ClearsAll, Entries, GeoOk, Stepped, BlocksOf;
      EntryFits(flash.disk, geo, contents, entry);
      ghost var disk, images, before := flash.disk, flash.images, cache.State();
      var r := WriteEntry(address, entry, s);
      ghost var disk1, images1, s1 := flash.disk, flash.images, cache.State();
      r := WriteEntry(oldAddress, Zeros(), head);
      KeptTwice(images, disk, images1, disk1, flash.images, flash.disk, geo, contents, []);
      StepsJoin(before, s1, cache.State(), BlocksOf(address, ENTRY_SIZE, BLOCK), {},
                BlocksOf(oldAddress, ENTRY_SIZE, BLOCK), {});
    }

    ghost function HeadSlot(): nat
      reads this`journalHead, this`geo
    {
      if journalHead < geo.journal then 0 else (journalHead - geo.journal) / ENTRY_SIZE
    }

    /** Exactly one journal entry is live; it is at journalHead and records the length. */
    ghost predicate CleanLog()
      reads this`geo, this`journalHead, this`contents, flash
    {
      geo.page > 0 && geo.journal + 2 * geo.page <= geo.data <= |flash.disk|
          && CleanJournal(flash.disk, geo, HeadSlot(), |contents|)
    }

    /** Where the next headings will be stored, counted from the place of the first. */
    function HeadingOffset(): int
      reads this`geo, this`headingStart
    {
      if headingStart == 0 then 0 else headingStart - HeadingBase(geo)
    }

    /** What this session knows of the headings on flash: they begin at headingStart, unless it
        found zeros and no text behind them, and looks for none. */
    ghost predicate HeadingsAt(z: nat, h: seq<bv8>)
      reads this`geo, this`headingStart, this`headingLength, flash
    {
      && HeadingBlock(flash.disk, geo, z, h)
      && (HeadingOffset() == z || (HeadingOffset() == headingLength == 0 && h == []))
    }

    /** The headings on flash are those this session found and has not changed yet. */
    ghost predicate HeadingsKnown(z: nat, h: seq<bv8>)
      reads this`geo, this`headingStart, this`headingLength, flash
    {
      && HeadingBlock(flash.disk, geo, z, h) && headingLength == |h|
      && headingStart == (if h == [] then 0 else HeadingBase(geo) + z)
    }

    /** So Replaced tells what the first change makes of them, with these bounds. */
    lemma KnownAt(z: nat, h: seq<bv8>)
      requires HeadingsKnown(z, h)
      ensures HeadingsAt(z, h) && HeadingOffset() == (if h == [] then 0 else z) && headingLength == |h|
    {
      hide HeadingBlock;
    }

    /** The part of init that finds the heading text: after leading zeros, up to a blank. */
    method LoadHeadings(ghost z: nat, ghost h: seq<bv8>) returns (headers: seq<bv8>)
      requires Valid() && cache.laxLo == cache.laxHi && HeadingBlock(flash.disk, geo, z, h) && headingStart == 0
      modifies this`headingStart, this`headingLength, cache`operationCount, cache`wrapped, cache.cache
      ensures Valid() && headers == h && headingLength == |h|
      ensures headingStart == if h == [] then 0 else HeadingBase(geo) + z
      ensures (old(cache.wrapped) ==> cache.wrapped) && (old(Timely()) && !cache.wrapped ==> Timely())
    {
      hide HoldsLog, Residents, WellFormed, Synced, Offset, NoneAhead, Entries, GeoOk, HeadingBlock, InOrder;
      HeadingPlace(flash.disk, geo, contents);
      HeadingText(flash.disk, geo, z, h);
      var start := SkipZeros(z, h);
      var end := FindBlank(start, z, h);
      headingLength := end - start;
      headers := [];
      if headingLength > 0 {
        headingStart := start;
        headers := ReadText(start, headingLength);
      }
    }

    method SkipZeros(ghost z: nat, ghost h: seq<bv8>) returns (start: nat)
      requires Valid() && cache.laxLo == cache.laxHi && HeadingBlock(flash.disk, geo, z, h)
      modifies cache`operationCount, cache`wrapped, cache.cache
      ensures Valid() && start == HeadingBase(geo) + z
      ensures (old(cache.wrapped) ==> cache.wrapped) && (old(Timely()) && !cache.wrapped ==> Timely())
    {
      hide HoldsLog, Residents, WellFormed, Synced, Offset, NoneAhead, Entries, GeoOk, HeadingBlock, InOrder;
      HeadingText(flash.disk, geo, z, h);
      start := HeadingBase(geo);
      var c := ReadByte(start);
      while c == 0
        invariant HeadingBase(geo) <= start <= HeadingBase(geo) + z && Valid() && cache.laxLo == cache.laxHi
        invariant c == flash.disk[start]
        invariant (old(cache.wrapped) ==> cache.wrapped) && (old(Timely()) && !cache.wrapped ==> Timely())
        decreases HeadingBase(geo) + z - start
      {
        HeadingByte(flash.disk, geo, z, h, start);
        start := start + 1;
        c := ReadByte(start);
      }
      HeadingByte(flash.disk, geo, z, h, start);
    }

    method FindBlank(start: nat, ghost z: nat, ghost h: seq<bv8>) returns (end: nat)
      requires Valid() && cache.laxLo == cache.laxHi && HeadingBlock(flash.disk, geo, z, h)
               && start == HeadingBase(geo) + z
      modifies cache`operationCount, cache`wrapped, cache.cache
      ensures Valid() && end == start + |h|
      ensures (old(cache.wrapped) ==> cache.wrapped) && (old(Timely()) && !cache.wrapped ==> Timely())
    {
      hide HoldsLog, Residents, WellFormed, Synced, Offset, NoneAhead, Entries, GeoOk, HeadingBlock, InOrder;
      HeadingText(flash.disk, geo, z, h);
      end := start;
      var c := ReadByte(end);
      while c != 0xFF
        invariant start <= end <= start + |h| && Valid() && cache.laxLo == cache.laxHi
        invariant c == flash.disk[end]
        invariant (old(cache.wrapped) ==> cache.wrapped) && (old(Timely()) && !cache.wrapped ==> Timely())
        decreases start + |h| - end
      {
        HeadingByte(flash.disk, geo, z, h, end);
        end := end + 1;
        c := ReadByte(end);
      }
      HeadingByte(flash.disk, geo, z, h, end);
    }

    method ReadByte(address: nat) returns (c: bv8)
      requires Valid() && cache.laxLo == cache.laxHi && address < geo.journal
      modifies cache`operationCount, cache`wrapped, cache.cache
      ensures Valid() && address < |flash.disk| && c == flash.disk[address]
      ensures (old(cache.wrapped) ==> cache.wrapped) && (old(Timely()) && !cache.wrapped ==> Timely())
    {
      var d := ReadText(address, 1);
      c := d[0];
    }

    method ReadText(address: nat, len: nat) returns (d: seq<bv8>)
      requires Valid() && cache.laxLo == cache.laxHi && address + len <= geo.journal
      modifies cache`operationCount, cache`wrapped, cache.cache
      ensures Valid() && address + len <= |flash.disk| && d == flash.disk[address..address + len]
      ensures (old(cache.wrapped) ==> cache.wrapped) && (old(Timely()) && !cache.wrapped ==> Timely())
    {
      hide HoldsLog, Residents, WellFormed, Synced, Offset, NoneAhead, Entries, GeoOk, BlocksOf, Stepped, InOrder,
           PageEnd;
      HeadingPlace(flash.disk, geo, contents);
      ghost var s := cache.State();
      var r;
      r, d := cache.Read(address, len);
      StillNoneAhead(s, cache.State(), geo, dataEnd, address, len, BlocksOf(address, len, BLOCK));
    }

    method WriteHeading(address: nat, text: seq<bv8>) returns (r: Result)
      requires Valid() && HeadingBase(geo) <= address && address + |text| < geo.journal
      modifies flash, cache`operationCount, cache`wrapped, cache.cache
      ensures Valid() && old(flash.images) <= flash.images
      ensures AllSurvive(flash.images, |old(flash.images)|, geo, contents, [])
      ensures address + |text| <= |old(flash.disk)|
              && flash.disk == Overwrite(old(flash.disk), address, Taken(old(flash.disk), address, text))
              && AllTorn(flash.images, |old(flash.images)|, old(flash.disk), address,
                         Taken(old(flash.disk), address, text))
      ensures SameAbove(old(flash.disk), flash.disk, geo)
      ensures Stepped(old(cache.State()), cache.State(), BlocksOf(address, |text|, BLOCK), {})
    {
      hide HoldsLog, PageEnd, Residents, WellFormed, Synced, Offset, Overwrite, ClearsAll, AllTorn, AllSurvive,
           NoneAhead, BlocksOf, Words, Entries, GeoOk, Stepped, SameAbove;
      ghost var disk, s := flash.disk, cache.State();
      HeadingPlace(disk, geo, contents);
      TopKept(disk, geo, address, text);
      NoTears(flash.images, disk, address);
      r := cache.Write(address, text);
      StillNoneAhead(s, cache.State(), geo, dataEnd, address, |text|, if r == Done then BlocksOf(address, |text|, BLOCK)
                     else {});
      if r == Done {
        HeadingSurvives(flash.images, |old(flash.images)|, disk, geo, contents, address, text);
      } else {
        NoImages(flash.images, geo, contents);
      }
    }

    /** The part of endRow that stores new headings: zeros over the old ones, the new text
        behind them. The results of the writes are ignored, and headingLength is not updated, as
        in the source; Replaced says what this makes of the headings. */
    method StoreHeadings(h: seq<bv8>, ghost z: nat, ghost h0: seq<bv8>)
      requires Valid() && Storable(h)
      requires (if headingStart == 0 then HeadingBase(geo) else headingStart) + headingLength + |h| < geo.journal
      requires headingStart == 0 || HeadingBase(geo) <= headingStart
      modifies this`headingStart, flash, cache`operationCount, cache`wrapped, cache.cache
      ensures Valid() && old(flash.images) <= flash.images
      ensures AllSurvive(flash.images, |old(flash.images)|, geo, contents, [])
      ensures old(HeadingsAt(z, h0)) ==>
                var (z1, h1) := Replaced(z, h0, old(HeadingOffset()), headingLength, h); HeadingsAt(z1, h1)
      ensures old(HeadingsAt(z, h0)) ==>
                AllHeadings(flash.images, |old(flash.images)|, geo, z, h0, old(HeadingOffset()), headingLength, h)
      ensures SameAbove(old(flash.disk), flash.disk, geo)
      ensures headingStart == HeadingBase(geo) + old(HeadingOffset()) + headingLength
      ensures old(Orderly()) && !cache.wrapped ==> Orderly()
      ensures old(cache.wrapped) ==> cache.wrapped
    {
      hide HoldsLog, PageEnd, Residents, WellFormed, Synced, Offset, AllSurvive, NoneAhead, Entries, GeoOk, Overwrite,
           HeadingBlock, HeadingBase, AllHeadings, TwoTorn, Stepped, BlocksOf, SameAbove, CleanJournal, LagAt, AgedBy,
           InOrder, ClearsAll, ContainsOnly, Taken, Replaced, Storable;
      ghost var disk, images, s, at := flash.disk, flash.images, cache.State(), HeadingOffset();
      HeadingPlace(disk, geo, contents);
      var start := if headingStart == 0 then HeadingBase(geo) else headingStart;
      var zeros := seq(headingLength, i => 0 as bv8);
      AllZero(zeros);
      WriteHeadings(start, zeros, h);
      HeadingTears(flash.images, |images|, disk, flash.disk, geo, z, h0, at, start, zeros, h);
      CleanAbove(disk, flash.disk, geo, HeadSlot(), |contents|);
      StrictKept(s, cache.State(), geo, cache.laxLo, cache.laxHi, start, |zeros|, start + |zeros|, |h|, dataEnd,
                 Offset(journalHead, geo.page));
      headingStart := start + |zeros|;
    }

    method WriteHeadings(start: nat, zeros: seq<bv8>, h: seq<bv8>)
      requires Valid() && HeadingBase(geo) <= start && start + |zeros| + |h| < geo.journal && ContainsOnly(zeros, 0)
      modifies flash, cache`operationCount, cache`wrapped, cache.cache
      ensures Valid() && old(flash.images) <= flash.images
      ensures AllSurvive(flash.images, |old(flash.images)|, geo, contents, [])
      ensures SameAbove(old(flash.disk), flash.disk, geo)
      ensures geo.journal <= |old(flash.disk)|
              && flash.disk == Rewritten(old(flash.disk), start, zeros, h)
              && TwoTorn(flash.images, |old(flash.images)|, old(flash.disk), start, zeros, h)
      ensures Stepped(old(cache.State()), cache.State(),
                      BlocksOf(start, |zeros|, BLOCK) + BlocksOf(start + |zeros|, |h|, BLOCK), {})
    {
      hide HoldsLog, PageEnd, Residents, WellFormed, Synced, Offset, ClearsAll, AllSurvive, NoneAhead, Entries, GeoOk,
           Overwrite, AllTorn, TwoTorn, Stepped, BlocksOf, SameAbove, ContainsOnly;
      HeadingPlace(flash.disk, geo, contents);
      ghost var lo, disk, s := |flash.images|, flash.disk, cache.State();
      ZeroClears(disk, start, zeros);
      var r := WriteHeading(start, zeros);
      ghost var mid, disk1, s1 := flash.images, flash.disk, cache.State();
      r := WriteHeading(start + |zeros|, h);
      AllSurviveTwice(flash.images, mid, lo, geo, contents, []);
      AboveTwice(disk, disk1, flash.disk, geo);
      StepsJoin(s, s1, cache.State(), BlocksOf(start, |zeros|, BLOCK), {}, BlocksOf(start + |zeros|, |h|, BLOCK), {});
      TwoTornJoin(flash.images, mid, lo, disk, start, zeros, h);
    }

    /** Power-up: loads the log that is there, with its headings, or formats the disk. */
    method Init(header: seq<bv8>, ghost g: Geo, ghost text: seq<bv8>, ghost z: nat,
                ghost h: seq<bv8>) returns (headers: seq<bv8>)
      requires PoweredUp() && !initialized && headingStart == headingLength == 0
      requires |header| == HEADER_SIZE && GeoOk(NewGeo(flash.blockSize, flash.capacity), flash.capacity)
      requires Startable(flash.disk, flash.blockSize, g, text, z, h)
      modifies this, flash, cache`operationCount, cache`wrapped, cache`laxLo, cache`laxHi, cache.cache
      ensures Valid() && Coherent() && initialized && AfterHeader(geo) && geo.page == flash.blockSize
      ensures if old(Present(flash.disk, flash.blockSize)) then contents == text && headers == h
              else contents == [] && headers == []
      ensures if old(Present(flash.disk, flash.blockSize)) then HeadingsKnown(z, h) else HeadingsKnown(0, [])
      ensures old(Present(flash.disk, flash.blockSize)) ==>
                geo == g && flash.disk == old(flash.disk) && flash.images == old(flash.images) && full == old(full)
      ensures !old(Present(flash.disk, flash.blockSize)) ==> geo == NewGeo(flash.blockSize, flash.capacity) && !full
      ensures !old(Present(flash.disk, flash.blockSize)) ==>
                FormattedBytes(flash.disk, old(flash.disk), geo, header, geo.data)
                && old(flash.images) <= flash.images
                && AllClearing(flash.images, |old(flash.images)|, old(flash.disk), geo)
      ensures old(Present(flash.disk, flash.blockSize)) ==> CleanBefore(flash.disk, g, |text|) ==>
                CleanLog() && (!cache.wrapped ==> Orderly())
      ensures !old(Present(flash.disk, flash.blockSize)) ==> CleanLog() && (!cache.wrapped ==> Orderly())
    {
      hide StartAddress, Offset, StrToUl, Residents, Synced, HoldsLog, HeadingBlock, WellFormed, NoneAhead, Entries,
           GeoOk, CleanBefore, CleanJournal, InOrder, AgedBy, LagAt, IsFormatted, AfterHeader, FormattedBytes,
           AllClearing;
      var present := IsPresent();
      headers := [];
      if present {
        Mount(g, text);
        headers := LoadHeadings(z, h);
        initialized := true;
        ExactSynced(cache.cache[..], flash.disk, geo.journal, 0);
        MountedOrder();
      } else {
        Clear(header, false);
      }
    }

    /** Reading the headings leaves the log in order. */
    lemma MountedOrder()
      requires cache.laxLo == cache.laxHi
      ensures CleanLog() && Timely() ==> Orderly()
    {
      hide CleanJournal, InOrder, LagAt, AgedBy;
      if geo.page > 0 {
        NotLagging(cache.cache[..], geo, cache.laxLo, dataEnd, Offset(journalHead, geo.page));
      }
    }

    /** The write loop of logString. */
    method Append(data: seq<bv8>)
      requires Valid() && |data| <= geo.end - dataEnd
      requires forall i :: 0 <= i < |data| ==> data[i] != BLANK
      modifies this`dataEnd, this`contents, flash, cache`operationCount, cache`wrapped, cache.cache
      ensures Valid() && contents == old(contents) + data && dataEnd == old(dataEnd) + |data|
      ensures Kept(old(flash.images), old(flash.disk), flash.images, flash.disk, geo, old(contents), data)
      ensures SameTo(old(flash.disk), flash.disk, geo.data)
      ensures Stepped(old(cache.State()), cache.State(), BlocksOf(old(dataEnd), |data|, BLOCK),
                      BlocksOf(old(dataEnd), |data|, BLOCK))
    {
      hide HoldsLog, PageEnd, Residents, WellFormed, Synced, Offset, NoneAhead, Kept, SameTo, Stepped, BlocksOf,
           Entries, Words;
      ghost var text, disk, images, s, x := contents, flash.disk, flash.images, cache.State(), dataEnd;
      KeptNothing(images, disk, geo, text, data);
      SameItself(disk, geo, text);
      NoStep(s, x, |data|, BLOCK);
      var done := 0;
      while done < |data|
        invariant 0 <= done <= |data| && Valid() && contents == text + data[..done] && dataEnd == x + done
        invariant Kept(images, disk, flash.images, flash.disk, geo, text, data)
        invariant SameTo(disk, flash.disk, geo.data)
        invariant Stepped(s, cache.State(), BlocksOf(x, |data|, BLOCK), BlocksOf(x, done, BLOCK))
      {
        ghost var images1, disk1, s1 := flash.images, flash.disk, cache.State();
        var rest := data[done..];
        var n := AppendChunk(rest);
        LinePart(data, done, n);
        KeptJoin(images, disk, images1, disk1, flash.images, flash.disk, geo, text, data, done, n);
        SameTwice(disk, disk1, flash.disk, geo.data);
        NextStep(s, s1, cache.State(), x, |data|, done, n, BLOCK);
        done := done + n;
      }
      assert data[..done] == data;
    }

    /** Appends a line that fits, and journals its end if that is in another cache block. */
    method StoreLine(data: seq<bv8>)
      requires Valid() && |data| <= geo.end - dataEnd
      requires forall i :: 0 <= i < |data| ==> data[i] != BLANK
      modifies this`dataEnd, this`contents, this`journalHead
      modifies flash, cache`operationCount, cache`wrapped, cache`laxLo, cache`laxHi, cache.cache
      ensures Valid() && contents == old(contents) + data
      ensures Kept(old(flash.images), old(flash.disk), flash.images, flash.disk, geo, old(contents), data)
      ensures old(cache.laxLo == cache.laxHi && CleanLog()) ==> CleanLog()
      ensures old(Orderly()) && !cache.wrapped ==> Orderly()
      ensures old(cache.wrapped) ==> cache.wrapped
      ensures old(cache.laxLo == cache.laxHi && NextUncached(Residents(cache.cache[..]), geo, HeadSlot())) ==>
                cache.laxLo == cache.laxHi
    {
      hide HoldsLog, PageEnd, Residents, WellFormed, Synced, Offset, NoneAhead, Kept, CleanJournal, SlotAddress,
           Entries, SameTo, NextUncached, InOrder, AgedBy, LagAt, Stepped, BlocksOf, GeoOk, Due;
      ghost var disk, images, text, s, x := flash.disk, flash.images, contents, cache.State(), dataEnd;
      JournalStart(disk, geo, text);
      HeadAt(geo, journalHead);
      var oldDataEnd := dataEnd;
      Append(data);
      ghost var disk1, images1 := flash.disk, flash.images;
      CleanFrame(disk, disk1, geo, HeadSlot(), |text|);
      StillUncached(s, cache.State(), geo, disk, text, HeadSlot(), x, |data|);
      LagStored(s, cache.State(), geo, cache.laxLo, cache.laxHi, x, |data|, dataEnd, Offset(journalHead, geo.page));
      JournalEnd(oldDataEnd, HeadSlot(), |text|);
      KeptAfter(images, disk, images1, disk1, flash.images, flash.disk, geo, text, data);
    }

    /** Journals the end of the log, if it is not in the same cache block as before. */
    method JournalEnd(oldDataEnd: nat, ghost head: nat, ghost len: nat)
      requires Valid() && journalHead == SlotAddress(geo, head) && oldDataEnd == geo.data + len
      modifies this`journalHead, flash, cache`operationCount, cache`wrapped, cache`laxLo, cache`laxHi, cache.cache
      ensures Valid()
      ensures Kept(old(flash.images), old(flash.disk), flash.images, flash.disk, geo, contents, [])
      ensures old(Lags(dataEnd, Offset(journalHead, geo.page) + Due(oldDataEnd, dataEnd)))
              && geo.journal + 2 * geo.page <= geo.data ==>
                CleanJournal(old(flash.disk), geo, head, len) ==> CleanLog()
      ensures old(Lags(dataEnd, Offset(journalHead, geo.page) + Due(oldDataEnd, dataEnd)) && Timely())
              && geo.journal + 2 * geo.page <= geo.data ==>
                !cache.wrapped ==> Timely() && Lags(dataEnd, Offset(journalHead, geo.page))
      ensures old(cache.wrapped) ==> cache.wrapped
      ensures old(cache.laxLo == cache.laxHi && NextUncached(Residents(cache.cache[..]), geo, head)) ==>
                cache.laxLo == cache.laxHi
    {
      hide HoldsLog, PageEnd, Residents, WellFormed, Synced, Offset, NoneAhead, Kept, CleanJournal, SlotAddress,
           NextSlot, Entries, NextUncached, InOrder, AgedBy, LagAt, GeoOk;
      JournalStart(flash.disk, geo, contents);
      HeadAddress(geo, head);
      if dataEnd / BLOCK != oldDataEnd / BLOCK {
        UpdateJournal(head, len);
        HeadAddress(geo, NextSlot(geo, head));
      } else {
        KeptNothing(flash.images, flash.disk, geo, contents, []);
        SameRecorded(flash.disk, geo, head, len, |contents|);
      }
    }

    /** Marks the log as full, after its end. */
    method MarkFull()
      requires Valid() && PageEnd(geo, dataEnd) >= geo.end
      modifies flash, cache`operationCount, cache`wrapped, cache.cache
      ensures Valid()
      ensures Kept(old(flash.images), old(flash.disk), flash.images, flash.disk, geo, contents, [])
      ensures SameTo(old(flash.disk), flash.disk, geo.end)
      ensures geo.end + 4 <= |old(flash.disk)| && flash.disk == MarkedFull(old(flash.disk), geo)
      ensures Stepped(old(cache.State()), cache.State(), BlocksOf(geo.end + 1, 3, BLOCK), {})
    {
      hide HoldsLog, PageEnd, Residents, WellFormed, Synced, Offset, NoneAhead, Kept, Overwrite, ClearsAll, MarkedFull,
           Stepped, BlocksOf, SameTo;
      EndPlace(flash.disk, geo, contents);
      ghost var disk := flash.disk;
      var r := WriteBehind(geo.end + 1, FULL_MARK);
      MarkedAs(disk, flash.disk, geo, r == Done);
    }

    /** Writes behind the log's end, once no page of it is left to erase. */
    method WriteBehind(address: nat, mark: seq<bv8>) returns (r: Result)
      requires Valid() && PageEnd(geo, dataEnd) >= geo.end && geo.end < address && address + |mark| < flash.capacity
               && address + |mark| <= geo.end + 4
      modifies flash, cache`operationCount, cache`wrapped, cache.cache
      ensures Valid()
      ensures Kept(old(flash.images), old(flash.disk), flash.images, flash.disk, geo, contents, [])
      ensures SameTo(old(flash.disk), flash.disk, geo.end)
      ensures r == Done <==> ClearsAll(old(flash.disk), address, mark)
      ensures flash.disk == if r == Done then Overwrite(old(flash.disk), address, mark) else old(flash.disk)
      ensures Stepped(old(cache.State()), cache.State(), BlocksOf(address, |mark|, BLOCK), {})
    {
      hide HoldsLog, PageEnd, Residents, WellFormed, Synced, Offset, NoneAhead, Kept, Overwrite, ClearsAll, AllTorn,
           BlocksOf, Stepped, SameTo, Entries, Words;
      EndPlace(flash.disk, geo, contents);
      ghost var disk, images, s := flash.disk, flash.images, cache.State();
      r := cache.Write(address, mark);
      StillNoneAhead(s, cache.State(), geo, dataEnd, address, |mark|, if r == Done then BlocksOf(address, |mark|, BLOCK)
                     else {});
      if r == Done {
        MarkKept(images, disk, flash.images, geo, contents, address, mark);
      } else {
        KeptNothing(images, disk, geo, contents, []);
        SameItself(disk, geo, contents);
      }
    }

    /** Logs a line. A line that does not fit is refused whole; otherwise its cleaned text is
        appended, and power may fail at any point on the way: what is then on flash is the
        old log plus a prefix of the line, and init finds exactly its end (RecoveryExact).
        The log stays in good order until the cache's counter wraps; and for one line from a
        coherent cache even then. */
    method LogString(s: seq<bv8>) returns (ok: bool)
      requires Valid() && forall i :: 0 <= i < |s| ==> s[i] != BLANK
      requires Takes(geo, dataEnd, |s|)
      modifies this`dataEnd, this`contents, this`journalHead, this`full
      modifies flash, cache`operationCount, cache`wrapped, cache`laxLo, cache`laxHi, cache.cache
      ensures Valid()
      ensures ok <==> |s| <= geo.end - old(dataEnd)
      ensures contents == old(contents) + (if ok then Clean(s, false) else []) && full == (old(full) || !ok)
      ensures Kept(old(flash.images), old(flash.disk), flash.images, flash.disk, geo, old(contents),
                   if ok then Clean(s, false) else [])
      ensures ok ==> |contents| == |old(contents)| + |s| && CleanedTo(s, contents[|old(contents)|..], false)
                     && Harmless(contents[|old(contents)|..], false)
      ensures geo.end + 4 <= |old(flash.disk)|
              && (!ok ==> flash.disk == if old(full) then old(flash.disk) else MarkedFull(old(flash.disk), geo))
      ensures !ok && !old(full) ==> SaysFull(old(flash.disk), flash.disk, geo.end)
      ensures old(Orderly()) && !cache.wrapped ==> Orderly()
      ensures old(cache.wrapped) ==> cache.wrapped
      ensures old(Coherent() && CleanLog()) ==> CleanLog()
      ensures old(Coherent() && NextUncached(Residents(cache.cache[..]), geo, HeadSlot())) ==> Coherent()
    {
      hide HoldsLog, PageEnd, Residents, WellFormed, Synced, Offset, NoneAhead, Kept, Clean, MarkedFull, CleanJournal,
           NextUncached, InOrder, AgedBy, LagAt, GeoOk, Entries, CleanedTo, Harmless, SaysFull;
      EndPlace(flash.disk, geo, contents);
      MarkedBytes(flash.disk, geo);
      Settle();
      if |s| > geo.end - dataEnd {
        Refuse();
        SyncedExactly(cache.cache[..], flash.disk, cache.laxLo, cache.laxHi);
        return false;
      }
      var data := Cleaned(s);
      StoreLine(data);
      assert contents[|old(contents)|..] == data;
      SyncedExactly(cache.cache[..], flash.disk, cache.laxLo, cache.laxHi);
      return true;
    }

    /** A coherent cache needs no lax region. */
    ghost method Settle()
      requires Valid()
      modifies cache`laxLo, cache`laxHi
      ensures Valid() && (Coherent() ==> cache.laxLo == cache.laxHi) && (old(Orderly()) ==> Orderly())
    {
      hide HoldsLog, PageEnd, Residents, WellFormed, Synced, Offset, NoneAhead, CleanJournal, InOrder, AgedBy, GeoOk,
           Entries;
      JournalStart(flash.disk, geo, contents);
      if Coherent() {
        ExactSynced(cache.cache[..], flash.disk, 0, geo.journal);
        NotLagging(cache.cache[..], geo, geo.journal, dataEnd, Offset(journalHead, geo.page));
        cache.laxLo, cache.laxHi := geo.journal, geo.journal;
      }
    }

    /** A line that does not fit: the log is marked as full, once. */
    method Refuse()
      requires Valid() && PageEnd(geo, dataEnd) >= geo.end
      modifies this`full, flash, cache`operationCount, cache`wrapped, cache.cache
      ensures Valid() && full
      ensures Kept(old(flash.images), old(flash.disk), flash.images, flash.disk, geo, contents, [])
      ensures geo.end + 4 <= |old(flash.disk)| && flash.disk == if old(full) then old(flash.disk)
              else MarkedFull(old(flash.disk), geo)
      ensures old(CleanLog()) ==> CleanLog()
      ensures old(Orderly()) && !cache.wrapped ==> Orderly()
      ensures old(cache.wrapped) ==> cache.wrapped
    {
      hide HoldsLog, PageEnd, Residents, WellFormed, Synced, Offset, NoneAhead, Kept, MarkedFull, CleanJournal, InOrder,
           AgedBy, LagAt, GeoOk, Entries, Stepped, BlocksOf, SameTo;
      EndPlace(flash.disk, geo, contents);
      KeptNothing(flash.images, flash.disk, geo, contents, []);
      if !full {
        ghost var disk, s := flash.disk, cache.State();
        MarkFull();
        full := true;
        MarkFrame(disk, flash.disk, geo, HeadSlot(), |contents|);
        MarkStep(s, cache.State(), flash.disk, geo, contents, cache.laxLo, cache.laxHi, dataEnd,
                 Offset(journalHead, geo.page));
      }
    }

    static method Cleaned(s: seq<bv8>) returns (data: seq<bv8>)
      requires forall i :: 0 <= i < |s| ==> s[i] != BLANK
      ensures data == Clean(s, false) && |data| == |s| && forall i :: 0 <= i < |data| ==> data[i] != BLANK
      ensures CleanedTo(s, data, false) && Harmless(data, false)
    {
      var cleaned := CleanBuffer(s, false);
      CleanIsClean(s, false);
      CleanBytes(s, false);
      hide IsClean, Dirty, CleanedTo, Harmless;
      data := if cleaned != [] then cleaned else s;
    }
  }

  // ----- what stays the same

  /** The first n bytes of the disk are unchanged. */
  ghost predicate SameTo(disk: seq<bv8>, disk': seq<bv8>, n: nat)
  {
    n <= |disk| == |disk'| && disk[..n] == disk'[..n]
  }

  lemma SameItself(disk: seq<bv8>, g: Geo, text: seq<bv8>)
    requires HoldsLog(disk, g, text)
    ensures SameTo(disk, disk, g.data) && SameTo(disk, disk, g.end)
  {
    hide JournalOk, MetaBytes, Offset;
  }

  lemma SameTwice(disk: seq<bv8>, disk1: seq<bv8>, disk2: seq<bv8>, n: nat)
    requires SameTo(disk, disk1, n) && SameTo(disk1, disk2, n)
    ensures SameTo(disk, disk2, n)
  {}

  /** Journal, data and all behind them are unchanged. */
  ghost predicate SameAbove(disk: seq<bv8>, disk': seq<bv8>, g: Geo)
  {
    g.journal <= |disk| == |disk'| && disk'[g.journal..] == disk[g.journal..]
  }

  lemma AboveTwice(disk: seq<bv8>, disk1: seq<bv8>, disk2: seq<bv8>, g: Geo)
    requires SameAbove(disk, disk1, g) && SameAbove(disk1, disk2, g)
    ensures SameAbove(disk, disk2, g)
  {}

  // ----- where things lie

  lemma JournalStart(disk: seq<bv8>, g: Geo, text: seq<bv8>)
    requires HoldsLog(disk, g, text)
    ensures g.page > 0 && GeoOk(g, |disk|) && Offset(g.journal, BLOCK) == 0 && Offset(g.data, BLOCK) == 0
    ensures g.journal + ENTRY_SIZE <= g.data && g.data + |text| <= g.end < |disk| - 1
  {
    hide JournalOk, MetaBytes;
    JournalAligned(g, |disk|);
    JournalRoom(g, |disk|);
  }

  lemma HeadingPlace(disk: seq<bv8>, g: Geo, text: seq<bv8>)
    requires HoldsLog(disk, g, text)
    ensures g.page > 0 && HeadingBase(g) < g.journal < g.data < g.end < |disk| - 1
  {
    hide JournalOk, MetaBytes;
    HeadingRoom(g, |disk|);
  }

  lemma EndPlace(disk: seq<bv8>, g: Geo, text: seq<bv8>)
    requires HoldsLog(disk, g, text)
    ensures g.page > 0 && g.data < g.end && g.data + |text| <= g.end && g.end + 4 < |disk|
  {
    hide JournalOk, MetaBytes;
    EndRoom(g, |disk|);
  }

  lemma PageOf(disk: seq<bv8>, g: Geo, text: seq<bv8>)
    requires HoldsLog(disk, g, text)
    ensures g.page > 0 && g.data < g.end < |disk| - 1
    ensures var x := g.data + |text|; PageEnd(g, x) == x + (g.page - Offset(x, g.page))
  {
    hide JournalOk, MetaBytes;
    JournalRoom(g, |disk|);
  }

  /** The next slot, seen from the address of the current one. */
  lemma HeadPlace(disk: seq<bv8>, g: Geo, text: seq<bv8>, head: nat)
    requires HoldsLog(disk, g, text) && SlotAddress(g, head) + ENTRY_SIZE <= g.data
    ensures g.page > 0 && GeoOk(g, |disk|) && g.journal <= g.data <= |disk|
    ensures var a, p := SlotAddress(g, head) + ENTRY_SIZE, SlotAddress(g, NextSlot(g, head));
            && g.journal <= p && p + ENTRY_SIZE <= g.data && Entries(p - g.journal) && SlotAddress(g, head + 1) == a
            && (if Offset(a, g.page) != 0 then p == a && Prepared(disk, g, head) == disk
                else && p == (if a == g.data then g.journal else a) && Offset(p, g.page) == 0 && p + g.page <= g.data
                     && Prepared(disk, g, head) == Erased(disk, p, g.page)
                     && (g.journal + 2 * g.page <= g.data ==> a == p || p + g.page <= a - ENTRY_SIZE)
                     && (g.journal + 2 * g.page <= g.data ==> a <= p + BLOCK || p + g.page <= a - ENTRY_SIZE))
  {
    hide JournalOk, MetaBytes;
    NextSlotPlace(g, head, |disk|);
    NextSlotEntries(g, head);
    EntriesFit(g.page);
    hide Erased, SamePage, Entries;
  }

  lemma EntriesFit(page: nat)
    requires page > 0 && Entries(page)
    ensures ENTRY_SIZE <= page
  {}

  // ----- the lag of cached journal blocks behind flash

  lemma NotLagging(t: seq<CacheEntry>, g: Geo, lo: nat, x: nat, k: nat)
    ensures AgedBy(t, g, lo, lo, x, k)
    ensures g.page > 0 ==> forall head: nat :: LagAt(g, lo, lo, head)
  {}

  /** While blocks lag, the head moves on inside the first block of its page. */
  lemma HeadsApart(g: Geo, capacity: nat, t: seq<CacheEntry>, lo: nat, hi: nat, head: nat, x: nat)
    requires GeoOk(g, capacity) && SlotAddress(g, head) + ENTRY_SIZE <= g.data && |t| <= CACHE_BLOCKS && hi <= g.data
    requires LagAt(g, lo, hi, SlotAddress(g, head)) && (lo == hi || !Avoids(Residents(t), lo, hi))
    requires AgedBy(t, g, lo, hi, x, Offset(SlotAddress(g, head), g.page) + ENTRY_SIZE)
    ensures var next := SlotAddress(g, head) + ENTRY_SIZE;
            if Offset(next, g.page) == 0 then lo == hi
            else && LagAt(g, lo, hi, next) && AgedBy(t, g, lo, hi, x, Offset(next, g.page))
                 && (lo == hi || next + ENTRY_SIZE <= lo)
  {
    var a := SlotAddress(g, head);
    SlotEntries(g, head);
    hide Offset, AgedBy, Residents, RoundDown, SlotAddress, Entries, GeoOk;
    if lo == hi {
      NotLagging(t, g, lo, x, Offset(a + ENTRY_SIZE, g.page));
    } else {
      var b :| b in Residents(t) && lo <= b < hi;
      LagBound(t, g, lo, hi, x, Offset(a, g.page) + ENTRY_SIZE, b);
      PageHolds(g, capacity, a);
    }
  }

  lemma PageHolds(g: Geo, capacity: nat, a: nat)
    requires GeoOk(g, capacity) && g.journal <= a && Entries(a - g.journal)
    ensures BLOCK <= g.page && a == RoundDown(a, g.page) + Offset(a, g.page)
    ensures if Offset(a, g.page) + ENTRY_SIZE == g.page then Offset(a + ENTRY_SIZE, g.page) == 0
            else && Offset(a + ENTRY_SIZE, g.page) == Offset(a, g.page) + ENTRY_SIZE
                 && RoundDown(a + ENTRY_SIZE, g.page) == RoundDown(a, g.page)
  {
    JournalPage(g, capacity, g.journal);
    JournalAligned(g, capacity);
    EntriesSum(g.journal, a - g.journal);
    SlotInUnit(a, g.page);
  }

  /** The lax region once the page at p has been erased. */
  ghost function LaxAfter(t: seq<CacheEntry>, g: Geo, lo: nat, hi: nat, p: nat): (nat, nat)
  {
    if lo != hi then (g.journal, g.data)
    else if NoneStale(t, p, g.page) then (g.journal, g.journal)
    else (p + BLOCK, p + g.page)
  }

  lemma JournalPageErased(t: seq<CacheEntry>, count: nat, disk: seq<bv8>, g: Geo, text: seq<bv8>, lo: nat, hi: nat,
                          p: nat, x: nat)
    requires HoldsLog(disk, g, text) && WellFormed(t, BLOCK, |disk|) && Synced(t, disk, lo, hi)
    requires g.journal <= lo <= hi <= g.data && g.journal <= p && p + g.page <= g.data
    requires Offset(p, g.page) == 0 && Entries(p - g.journal)
    ensures p + g.page <= g.data <= |disk| && g.page > 0
    ensures var t', disk', lax := Blanked(t, count, p, BLOCK), Erased(disk, p, g.page), LaxAfter(t, g, lo, hi, p);
            && WellFormed(t', BLOCK, |disk|) && Residents(t') == Residents(t) && Synced(t', disk', lax.0, lax.1)
            && Offset(lax.0, BLOCK) == 0 && Offset(lax.1, BLOCK) == 0 && g.journal <= lax.0 <= lax.1 <= g.data
            && HoldsLog(disk', g, text) && SameBelow(disk, disk', g) && SameBeyond(disk, disk', g, |text|)
            && (lo == hi ==> (Synced(t', disk', 0, 0) <==> NoneStale(t, p, g.page)))
            && (lo == hi ==> LagAt(g, lax.0, lax.1, p) && AgedBy(t', g, lax.0, lax.1, x, 0))
  {
    hide HoldsLog, WellFormed, Synced, Erased, Blanked, NoneStale, Residents, SameBelow, GeoOk, Offset, RoundDown,
         Entries, AgedBy, LagAt, SameBeyond;
    JournalStart(disk, g, text);
    JournalPage(g, |disk|, p);
    PageEraseHolds(disk, g, text, p);
    ErasedBelow(disk, g, p);
    JournalBefore(disk, g, text, p);
    if lo != hi {
      BlankedSynced(t, count, p, g.page, disk, BLOCK, lo, hi, g.journal, g.data);
    } else {
      BlankedSynced(t, count, p, g.page, disk, BLOCK, lo, hi, p + BLOCK, p + g.page);
      ExactSynced(t, disk, lo, 0);
      BlankedExact(t, count, p, g.page, disk, BLOCK);
      NewLag(Blanked(t, count, p, BLOCK), Erased(disk, p, g.page), g, p, x);
    }
  }

  lemma JournalBefore(disk: seq<bv8>, g: Geo, text: seq<bv8>, p: nat)
    requires g.page > 0 && p + g.page <= g.data <= |disk|
    ensures SameBeyond(disk, Erased(disk, p, g.page), g, |text|)
  {
    PageReaches(g, |text|);
    hide PageEnd;
  }

  lemma NewLag(t: seq<CacheEntry>, disk: seq<bv8>, g: Geo, p: nat, x: nat)
    requires g.page > 0 && Offset(p, g.page) == 0
    ensures LagAt(g, p + BLOCK, p + g.page, p) && AgedBy(t, g, p + BLOCK, p + g.page, x, 0)
    ensures LagAt(g, g.journal, g.journal, p) && AgedBy(t, g, g.journal, g.journal, x, 0)
    ensures Synced(t, disk, 0, 0) ==> Synced(t, disk, g.journal, g.journal)
  {
    hide Offset;
    if Synced(t, disk, 0, 0) {
      ExactSynced(t, disk, 0, g.journal);
    }
  }

  /** A page of which at most the first block is cached has no stale block. */
  lemma UncachedNotStale(t: seq<CacheEntry>, disk: seq<bv8>, g: Geo, text: seq<bv8>, p: nat)
    requires HoldsLog(disk, g, text) && WellFormed(t, BLOCK, |disk|) && Offset(p, g.page) == 0
    ensures Uncached(Residents(t), p, g.page) ==> NoneStale(t, p, g.page)
  {
    JournalStart(disk, g, text);
    JournalPage(g, |disk|, p);
    hide Offset, HoldsLog, GeoOk;
    if Uncached(Residents(t), p, g.page) {
      forall i | 0 <= i < |t| && t[i].Resident() && p < t[i].address < p + g.page ensures false {
        assert EntryWellFormed(t[i], BLOCK, |disk|) && t[i].address in Residents(t);
        MultiplesApart(p, t[i].address, BLOCK);
        MultiplesApart(t[i].address, p + g.page, BLOCK);
      }
    }
  }

  ghost predicate StrictAt(lo: nat, hi: nat, a: nat, n: nat)
  {
    lo == hi || a + n <= lo || hi <= a
  }

  lemma StrictAfter(g: Geo, lo: nat, hi: nat, p: nat, a: nat)
    requires g.page > 0 && Offset(p, g.page) == 0
    ensures LagAt(g, lo, hi, p) ==> StrictAt(lo, hi, p, ENTRY_SIZE)
    ensures LagAt(g, lo, hi, p) && (a + ENTRY_SIZE <= p + BLOCK || p + g.page <= a) ==> StrictAt(lo, hi, a, ENTRY_SIZE)
  {}

  lemma StrictAvoids(lo: nat, hi: nat, a: nat, n: nat)
    requires Offset(hi, BLOCK) == 0 && StrictAt(lo, hi, a, n)
    ensures Avoids(BlocksOf(a, n, BLOCK), lo, hi)
  {
    if hi <= a {
      DataAvoids(a, n, hi, lo, hi);
    } else if a + n <= lo {
      JournalAvoids(a, n, lo, hi);
    }
  }

  /** Two writes to blocks that do not lag. */
  lemma StrictKept(s: CacheState, s': CacheState, g: Geo, lo: nat, hi: nat, a: nat, n: nat, b: nat, m: nat, x: nat,
                   k: nat)
    requires Stepped(s, s', BlocksOf(a, n, BLOCK) + BlocksOf(b, m, BLOCK), {}) && Offset(hi, BLOCK) == 0
    ensures s.wrapped ==> s'.wrapped
    ensures InOrder(s.table, s.count) && !s'.wrapped && StrictAt(lo, hi, a, n) && StrictAt(lo, hi, b, m)
            && AgedBy(s.table, g, lo, hi, x, k) ==>
              InOrder(s'.table, s'.count) && AgedBy(s'.table, g, lo, hi, x, k)
  {
    hide AgedBy, InOrder, Traced, Residents;
    if InOrder(s.table, s.count) && !s'.wrapped && StrictAt(lo, hi, a, n) && StrictAt(lo, hi, b, m)
        && AgedBy(s.table, g, lo, hi, x, k) {
      StrictAvoids(lo, hi, a, n);
      StrictAvoids(lo, hi, b, m);
      hide BlocksOf, Stepped;
      LagKept(s, s', BlocksOf(a, n, BLOCK) + BlocksOf(b, m, BLOCK), {}, g, lo, hi, x, k);
    }
  }

  /** After the write loop of a line, the blocks that lag are older by an entry if one is due. */
  lemma LagStored(s: CacheState, s': CacheState, g: Geo, lo: nat, hi: nat, x: nat, n: nat, y: nat, k: nat)
    requires Stepped(s, s', BlocksOf(x, n, BLOCK), BlocksOf(x, n, BLOCK)) && Offset(g.data, BLOCK) == 0
             && hi <= g.data <= x && y == x + n
    ensures s.wrapped ==> s'.wrapped
    ensures lo == hi ==>
              && AgedBy(s'.table, g, lo, hi, y, k + Due(x, y))
              && (g.page > 0 ==> forall head: nat :: LagAt(g, lo, hi, head))
    ensures InOrder(s.table, s.count) && !s'.wrapped && AgedBy(s.table, g, lo, hi, x, k) ==>
              InOrder(s'.table, s'.count) && AgedBy(s'.table, g, lo, hi, y, k + Due(x, y))
  {
    hide AgedBy, InOrder, Traced, Residents, Due, Offset, BlocksOf;
    NotLagging(s'.table, g, lo, y, k + Due(x, y));
    if InOrder(s.table, s.count) && !s'.wrapped && AgedBy(s.table, g, lo, hi, x, k) {
      LagGrows(s, s', g, lo, hi, x, n, y, k);
    }
  }

  lemma MarkStep(s: CacheState, s': CacheState, disk: seq<bv8>, g: Geo, text: seq<bv8>, lo: nat, hi: nat, x: nat,
                 k: nat)
    requires Stepped(s, s', BlocksOf(g.end + 1, 3, BLOCK), {}) && HoldsLog(disk, g, text) && hi <= g.data
    ensures s.wrapped ==> s'.wrapped
    ensures InOrder(s.table, s.count) && !s'.wrapped && AgedBy(s.table, g, lo, hi, x, k) ==>
              InOrder(s'.table, s'.count) && AgedBy(s'.table, g, lo, hi, x, k)
  {
    JournalStart(disk, g, text);
    hide AgedBy, InOrder, Traced, Residents, Offset, HoldsLog, GeoOk;
    DataAvoids(g.end + 1, 3, g.data, lo, hi);
    hide BlocksOf;
    if InOrder(s.table, s.count) && !s'.wrapped && AgedBy(s.table, g, lo, hi, x, k) {
      LagKept(s, s', BlocksOf(g.end + 1, 3, BLOCK), {}, g, lo, hi, x, k);
    }
  }

  lemma StepOrder(s: CacheState, s': CacheState, touched: set<nat>, sure: set<nat>)
    requires Stepped(s, s', touched, sure)
    ensures s.wrapped ==> s'.wrapped
    ensures InOrder(s.table, s.count) && !s'.wrapped ==> InOrder(s'.table, s'.count)
  {
    hide InOrder, Aged, Residents;
  }

  /** After an access that ends at or before top, only blocks that start before it are new. */
  lemma StepBelow(s: CacheState, s': CacheState, a: nat, n: nat, sure: set<nat>, top: nat)
    requires Stepped(s, s', BlocksOf(a, n, BLOCK), sure) && a + n <= top
    ensures s.wrapped ==> s'.wrapped
    ensures InOrder(s.table, s.count) && !s'.wrapped ==> InOrder(s'.table, s'.count)
    ensures forall b :: b in Residents(s'.table) ==> b in Residents(s.table) || b < top
  {
    hide InOrder, Aged, Residents;
  }

  // ----- single steps

  lemma LinePart(data: seq<bv8>, done: nat, n: nat)
    requires done + n <= |data|
    ensures data[done..][..n] == data[done..done + n] && data[..done] + data[done..done + n] == data[..done + n]
  {}

  /** The chunk the write loop chooses may be written. */
  lemma ChunkWritable(disk: seq<bv8>, g: Geo, text: seq<bv8>, data: seq<bv8>, n: nat)
    requires HoldsLog(disk, g, text) && |data| <= g.end - (g.data + |text|) && forall i :: 0 <= i < |data| ==>
               data[i] != BLANK
    requires g.page > 0 && n == Min(|data|, g.page - Offset(g.data + |text|, g.page))
    requires var np := PageEnd(g, g.data + |text|); g.data + |text| + n == np < g.end ==>
               BlankBetween(disk, np, np + g.page)
    ensures Writable(disk, g, |text|, data[..n])
  {
    hide JournalOk, MetaBytes, Offset;
  }

  lemma ChunkKept(images: seq<seq<bv8>>, disk: seq<bv8>, images': seq<seq<bv8>>, g: Geo, text: seq<bv8>, x: nat,
                  chunk: seq<bv8>)
    requires HoldsLog(disk, g, text) && Writable(disk, g, |text|, chunk) && x == g.data + |text|
             && x + |chunk| <= |disk|
    requires images <= images' && AllTorn(images', |images|, disk, x, chunk)
    ensures HoldsLog(Overwrite(disk, x, chunk), g, text + chunk)
    ensures Kept(images, disk, images', Overwrite(disk, x, chunk), g, text, chunk)
            && SameTo(disk, Overwrite(disk, x, chunk), g.data)
  {
    JournalStart(disk, g, text);
    SameBefore(disk, x, chunk, g.data);
    hide HoldsLog, Overwrite, Writable, AllTorn, AllSurvive, Kept, SameTo, GeoOk, Offset, PageEnd;
    PageReaches(g, |text| + |chunk|);
    assert g.data + (|text| + |chunk|) == g.data + |text| + |chunk|;
    ChunkSurvives(images', |images|, disk, g, text, chunk);
    KeptTorn(images, disk, images', g, text, chunk, x, chunk);
  }

  lemma SameBefore(disk: seq<bv8>, a: nat, data: seq<bv8>, n: nat)
    requires n <= a && a + |data| <= |disk|
    ensures SameTo(disk, Overwrite(disk, a, data), n)
  {}

  lemma ResidentsStill(s: CacheState, s': CacheState, g: Geo, x: nat, n: nat)
    requires g.page > 0 && NoneAhead(Residents(s.table), g, x)
             && Stepped(s, s', BlocksOf(x, n, BLOCK), BlocksOf(x, n, BLOCK))
    requires x + n <= PageEnd(g, x)
    ensures NoneAhead(Residents(s'.table), g, x + n)
  {
    PageEndStep(g, x, n);
    hide PageEnd, Residents, Traced;
  }

  lemma StillNoneAhead(s: CacheState, s': CacheState, g: Geo, x: nat, a: nat, n: nat, sure: set<nat>)
    requires g.page > 0 && NoneAhead(Residents(s.table), g, x) && Stepped(s, s', BlocksOf(a, n, BLOCK), sure)
    requires a + n <= x || PageEnd(g, x) >= g.end
    ensures NoneAhead(Residents(s'.table), g, x) && (sure == {} || Stepped(s, s', BlocksOf(a, n, BLOCK), {}))
    ensures Stepped(s, s', BlocksOf(a, n, BLOCK), {})
    ensures s.wrapped ==> s'.wrapped
    ensures InOrder(s.table, s.count) && !s'.wrapped ==> InOrder(s'.table, s'.count)
  {
    hide PageEnd, Residents, InOrder, Newer;
  }

  lemma NextPageOnly(disk: seq<bv8>, g: Geo, text: seq<bv8>, nextPage: nat, line: seq<bv8>)
    requires g.page > 0 && nextPage == PageEnd(g, g.data + |text|) <= g.data + |text| + |line|
             && nextPage + g.page <= |disk|
    ensures SameBeyond(disk, Erased(disk, nextPage, g.page), g, |text| + |line|)
  {
    RoundedDown(g.data + |text|, g.page);
    OffsetStep(RoundDown(g.data + |text|, g.page), g.page, g.page);
    UnitAbove(g.data + |text| + |line|, nextPage, g.page);
    assert g.data + (|text| + |line|) == g.data + |text| + |line|;
    hide RoundDown, Offset;
  }

  lemma AheadErased(disk: seq<bv8>, g: Geo, text: seq<bv8>, nextPage: nat)
    requires HoldsLog(disk, g, text) && nextPage == PageEnd(g, g.data + |text|) < g.end
    ensures nextPage + g.page <= |disk| && g.page > 0 && GeoOk(g, |disk|)
    ensures var disk' := Erased(disk, nextPage, g.page);
            && HoldsLog(disk', g, text) && BlankBetween(disk', nextPage, nextPage + g.page)
            && SameTo(disk, disk', g.data) && SameBelow(disk, disk', g)
  {
    EraseAhead(disk, g, |text|);
    JournalStart(disk, g, text);
    hide LogInv, PageEnd, Text, GeoOk, Offset;
    BelowData(disk, Erased(disk, nextPage, g.page), g);
  }

  /** No resident block reaches into the page after the one that holds x, so it can be erased
      behind the cache. */
  lemma NextPageUnseen(t: seq<CacheEntry>, g: Geo, x: nat, nextPage: nat, disk: seq<bv8>, lo: nat, hi: nat)
    requires WellFormed(t, BLOCK, |disk|) && Synced(t, disk, lo, hi) && GeoOk(g, |disk|)
             && nextPage == PageEnd(g, x) < g.end
    requires NoneAhead(Residents(t), g, x) && nextPage + g.page <= |disk|
    ensures Offset(nextPage, g.page) == 0 && Synced(t, Erased(disk, nextPage, g.page), lo, hi)
  {
    RoundedDown(x, g.page);
    OffsetStep(RoundDown(x, g.page), g.page, g.page);
    MultipleOfMultiple(nextPage, g.page, BLOCK);
    hide Synced, Erased, Offset;
    forall b | b in Residents(t) ensures b + BLOCK <= nextPage {
      var i :| 0 <= i < |t| && t[i].Resident() && t[i].address == b;
      assert EntryWellFormed(t[i], BLOCK, |disk|);
      MultiplesApart(b, nextPage, BLOCK);
    }
    UnseenErase(t, nextPage, g.page, disk, BLOCK, lo, hi);
  }

  lemma SlotRoom(disk: seq<bv8>, g: Geo, text: seq<bv8>, s: nat, entry: seq<bv8>)
    requires HoldsLog(disk, g, text) && SlotAddress(g, s) + ENTRY_SIZE <= g.data && Entry(entry, |text|)
    ensures g.page > 0 && Words(SlotAddress(g, s)) && Words(ENTRY_SIZE) && |entry| == ENTRY_SIZE
    ensures SlotAddress(g, s) + ENTRY_SIZE <= g.data < |disk|
  {
    hide JournalOk, MetaBytes;
    JournalAligned(g, |disk|);
    WordSum(g.journal, ENTRY_SIZE * s);
  }

  lemma EntryKept(images: seq<seq<bv8>>, disk: seq<bv8>, images': seq<seq<bv8>>, g: Geo, text: seq<bv8>, s: nat,
                  entry: seq<bv8>)
    requires HoldsLog(disk, g, text) && SlotAddress(g, s) + ENTRY_SIZE <= g.data < |disk| && Entry(entry, |text|)
             && |entry| == ENTRY_SIZE
    requires ClearsAll(disk, SlotAddress(g, s), entry) && images <= images'
             && AllTorn(images', |images|, disk, SlotAddress(g, s), entry)
    ensures HoldsLog(Overwrite(disk, SlotAddress(g, s), entry), g, text)
    ensures Kept(images, disk, images', Overwrite(disk, SlotAddress(g, s), entry), g, text, [])
  {
    hide HoldsLog, Overwrite, Entry, ClearsAll, AllTorn, AllSurvive, Kept, PageEnd;
    if g.page > 0 {
      PageReaches(g, |text|);
    }
    EntrySurvives(images', |images|, disk, g, text, s, entry);
    KeptTorn(images, disk, images', g, text, [], SlotAddress(g, s), entry);
  }

  lemma EntryFits(disk: seq<bv8>, g: Geo, text: seq<bv8>, entry: seq<bv8>)
    requires HoldsLog(disk, g, text) && Entry(entry, |text|)
    ensures |entry| == ENTRY_SIZE && g.data < g.end < |disk|
  {
    hide JournalOk, MetaBytes, Offset;
  }

  /** What the journal update writes: an entry for the length, over which nothing is wrong. */
  lemma EntryReady(disk: seq<bv8>, g: Geo, text: seq<bv8>, head: nat, dataEnd: nat)
    requires HoldsLog(disk, g, text) && SlotAddress(g, head) + ENTRY_SIZE <= g.data && |disk| < 0x1_0000_0000
             && dataEnd == g.data + |text|
    ensures (dataEnd - g.data) / BLOCK * BLOCK == Recorded(|text|)
    ensures Entry(Hex(Recorded(|text|), ENTRY_SIZE), |text|) && Entry(Zeros(), |text|)
    ensures SlotAddress(g, NextSlot(g, head)) + ENTRY_SIZE <= g.data
  {
    hide JournalOk, MetaBytes, Offset, Hex, NextSlot, HexRun;
    NextSlotPlace(g, head, |disk|);
    assert Pow16(8) == 0x1_0000_0000 by { assert Pow16(4) == 0x1_0000; }
    HexRoundTrip(Recorded(|text|), ENTRY_SIZE);
  }

  lemma CleanReady(disk: seq<bv8>, g: Geo, text: seq<bv8>, head: nat, len: nat)
    requires HoldsLog(disk, g, text) && SlotAddress(g, head) + ENTRY_SIZE <= g.data
    ensures SlotAddress(g, NextSlot(g, head)) + ENTRY_SIZE <= g.data <= |disk| == |Prepared(disk, g, head)|
            && g.page > 0
    ensures g.journal + 2 * g.page <= g.data && CleanJournal(disk, g, head, len) ==>
              var n := NextSlot(g, head); var entry := Hex(Recorded(|text|), ENTRY_SIZE);
              var disk1 := Prepared(disk, g, head); var disk2 := Overwrite(disk1, SlotAddress(g, n), entry);
              && ClearsAll(disk1, SlotAddress(g, n), entry) && ClearsAll(disk2, SlotAddress(g, head), Zeros())
              && CleanJournal(Overwrite(disk2, SlotAddress(g, head), Zeros()), g, n, |text|)
  {
    hide JournalOk, MetaBytes, Offset, Hex, NextSlot, CleanJournal, Overwrite;
    NextSlotPlace(g, head, |disk|);
    PreparedLength(disk, g, head);
    hide Prepared;
    if g.journal + 2 * g.page <= g.data && CleanJournal(disk, g, head, len) {
      CleanStep(disk, g, head, len, |text|, Zeros());
      ZerosClear(Overwrite(Prepared(disk, g, head), SlotAddress(g, NextSlot(g, head)),
                           Hex(Recorded(|text|), ENTRY_SIZE)), SlotAddress(g, head));
    }
  }

  lemma ZerosClear(disk: seq<bv8>, a: nat)
    requires a + ENTRY_SIZE <= |disk|
    ensures ClearsAll(disk, a, Zeros())
  {}

  lemma CleanAbove(disk: seq<bv8>, disk': seq<bv8>, g: Geo, head: nat, len: nat)
    requires SameAbove(disk, disk', g) && g.page > 0 && g.journal <= g.data <= |disk|
    ensures CleanJournal(disk, g, head, len) ==> CleanJournal(disk', g, head, len)
  {
    assert forall i :: g.journal <= i < |disk| ==>
          disk'[i] == disk'[g.journal..][i - g.journal] == disk[g.journal..][i - g.journal] == disk[i];
    if CleanJournal(disk, g, head, len) {
      hide CleanSlot;
      forall s: nat | g.journal + ENTRY_SIZE * s
          + ENTRY_SIZE <= g.data ensures CleanSlot(Slot(disk', g, s), g, s, head, len) {
        assert Slot(disk', g, s) == Slot(disk, g, s);
      }
    }
  }

  lemma AllZero(zeros: seq<bv8>)
    requires forall i :: 0 <= i < |zeros| ==> zeros[i] == 0
    ensures ContainsOnly(zeros, 0)
  {}

  lemma StillUncached(s: CacheState, s': CacheState, g: Geo, disk: seq<bv8>, text: seq<bv8>, head: nat, x: nat, n: nat)
    requires HoldsLog(disk, g, text) && SlotAddress(g, head) + ENTRY_SIZE <= g.data <= x
    requires Stepped(s, s', BlocksOf(x, n, BLOCK), BlocksOf(x, n, BLOCK))
    ensures NextUncached(Residents(s.table), g, head) ==> NextUncached(Residents(s'.table), g, head)
  {
    JournalStart(disk, g, text);
    HeadPlace(disk, g, text, head);
    var p := SlotAddress(g, NextSlot(g, head));
    hide Offset, GeoOk, Residents, HoldsLog, NextSlot, Prepared;
    if NextUncached(Residents(s.table), g, head) && Offset(SlotAddress(g, head + 1), g.page) == 0 {
      DataAvoids(x, n, g.data, p, p + g.page);
    }
  }

  lemma SameRecorded(disk: seq<bv8>, g: Geo, head: nat, len: nat, len': nat)
    requires GeoOk(g, |disk|) && g.data <= |disk| && (g.data + len) / BLOCK == (g.data + len') / BLOCK
    ensures CleanJournal(disk, g, head, len) ==> CleanJournal(disk, g, head, len')
  {
    JournalAligned(g, |disk|);
    OffsetIsMod(g.data, BLOCK);
    hide Offset;
    assert Recorded(len) == Recorded(len');
    hide Recorded;
  }

  lemma MarkKept(images: seq<seq<bv8>>, disk: seq<bv8>, images': seq<seq<bv8>>, g: Geo, text: seq<bv8>, a: nat,
                 mark: seq<bv8>)
    requires HoldsLog(disk, g, text) && g.end < a && a + |mark| <= g.end + 4 && a + |mark| <= |disk|
    requires g.page > 0 && PageEnd(g, g.data + |text|) >= g.end
    requires images <= images' && AllTorn(images', |images|, disk, a, mark)
    ensures HoldsLog(Overwrite(disk, a, mark), g, text) && SameTo(disk, Overwrite(disk, a, mark), g.end)
    ensures Kept(images, disk, images', Overwrite(disk, a, mark), g, text, [])
  {
    JournalStart(disk, g, text);
    SameBefore(disk, a, mark, g.end);
    LastPageEnd(g, |disk|, |text|);
    hide HoldsLog, Overwrite, AllTorn, AllSurvive, Kept, SameTo, GeoOk, Offset, PageEnd;
    MarkSurvives(images', |images|, disk, g, text, a, mark);
    KeptTorn(images, disk, images', g, text, [], a, mark);
  }

  /** The word of the FULL marker ends the last page of the log. */
  lemma LastPageEnd(g: Geo, capacity: nat, len: nat)
    requires GeoOk(g, capacity) && PageEnd(g, g.data + len) >= g.end
    ensures g.end + 4 <= PageEnd(g, g.data + len)
  {
    var e := PageEnd(g, g.data + len);
    RoundedDown(g.data + len, g.page);
    OffsetStep(RoundDown(g.data + len, g.page), g.page, g.page);
    EndAligned(g, capacity);
    if e < g.end + 4 {
      MultiplesApart(e, g.end + 4, g.page);
    }
    hide Offset, RoundDown;
  }

  lemma EndAligned(g: Geo, capacity: nat)
    requires GeoOk(g, capacity)
    ensures Offset(g.end + 4, g.page) == 0
  {
    OffsetStep(g.end + 4, g.page, g.page);
  }

  lemma Mountable(disk: seq<bv8>, g: Geo, text: seq<bv8>)
    requires HoldsLog(disk, g, text)
    ensures g.page > 0 && GeoOk(g, |disk|) && LogInv(disk, g, |text|) && g.data <= g.end < |disk| - 1
    ensures g.data + Scan(disk, g, 0, Found(0, 0, false)).value <= g.end
    ensures Walk(disk, g.data + Scan(disk, g, 0, Found(0, 0, false)).value, g.end) == g.data + |text|
  {
    hide Scan, Walk, LogInv, GeoOk, Offset, Text;
    JournalStart(disk, g, text);
    RecoveryExact(disk, g, |text|);
  }

  lemma MountedSynced(t: seq<CacheEntry>, disk: seq<bv8>, x: nat, g: Geo)
    requires Synced(t, disk, x, x) && GeoOk(g, |disk|)
    ensures Synced(t, disk, 0, 0) && Synced(t, disk, g.journal, g.journal) && Offset(g.journal, BLOCK) == 0
  {
    JournalAligned(g, |disk|);
    ExactSynced(t, disk, x, 0);
    ExactSynced(t, disk, x, g.journal);
  }

  lemma NoneBehind(blocks: set<nat>, g: Geo, x: nat)
    requires g.page > 0 && forall b :: b in blocks ==> b <= x
    ensures NoneAhead(blocks, g, x)
  {}

  /** One turn of the scan, and its end. */
  lemma ScanStep(disk: seq<bv8>, g: Geo, s: nat, f: Found)
    requires SlotAddress(g, s) + ENTRY_SIZE <= g.data <= |disk|
    ensures var slot := Slot(disk, g, s);
            Scan(disk, g, s, f) ==
            if Only(slot, BLANK) && f.valid then f
            else Scan(disk, g, s + 1, if Only(slot, 0) then f else Found(s, StrToUl(slot), true))
  {
    hide Only, StrToUl;
  }

  lemma ScanEnd(disk: seq<bv8>, g: Geo, s: nat, f: Found)
    requires g.data <= |disk|
    ensures SlotAddress(g, s) == g.data ==> Scan(disk, g, s, f) == f
  {}

  lemma SlotEntries(g: Geo, s: nat)
    ensures Entries(SlotAddress(g, s) - g.journal) && g.journal <= SlotAddress(g, s)
  {}

  /** The rest of the page is blank, so any bytes may be written there. */
  lemma TailClears(disk: seq<bv8>, g: Geo, text: seq<bv8>, chunk: seq<bv8>)
    requires HoldsLog(disk, g, text) && Writable(disk, g, |text|, chunk)
    ensures g.page > 0 && g.data + |text| + |chunk| < |disk| && g.data + |text| + |chunk| <= PageEnd(g, g.data + |text|)
    ensures ClearsAll(disk, g.data + |text|, chunk)
  {
    hide Offset, Slot, SlotOk;
    forall i | 0 <= i < |chunk| ensures Clears(disk[g.data + |text| + i], chunk[i]) {
      assert disk[g.data + |text| + i] == BLANK;
    }
  }

  /** Nothing beyond the end of the log is cached, unless no page will be erased any more. */
  ghost predicate NoneAhead(blocks: set<nat>, g: Geo, x: nat)
    requires g.page > 0
  {
    forall b :: b in blocks ==> b <= x || PageEnd(g, x) >= g.end
  }

  lemma SyncedExactly(t: seq<CacheEntry>, disk: seq<bv8>, lo: nat, hi: nat)
    requires Synced(t, disk, lo, hi)
    ensures lo == hi ==> Synced(t, disk, 0, 0)
  {
    if lo == hi {
      ExactSynced(t, disk, lo, 0);
    }
  }

  lemma ErasedBelow(disk: seq<bv8>, g: Geo, p: nat)
    requires g.journal <= p && p + g.page <= |disk|
    ensures SameBelow(disk, Erased(disk, p, g.page), g)
  {}

  lemma NoImages(images: seq<seq<bv8>>, g: Geo, text: seq<bv8>)
    ensures AllSurvive(images, |images|, g, text, [])
  {}

  lemma EntrySurvives(images: seq<seq<bv8>>, lo: nat, disk: seq<bv8>, g: Geo, text: seq<bv8>, s: nat, entry: seq<bv8>)
    requires HoldsLog(disk, g, text) && SlotAddress(g, s) + ENTRY_SIZE <= g.data <= |disk| && Entry(entry, |text|)
    requires ClearsAll(disk, SlotAddress(g, s), entry) && AllTorn(images, lo, disk, SlotAddress(g, s), entry)
    ensures AllSurvive(images, lo, g, text, [])
    ensures HoldsLog(Overwrite(disk, SlotAddress(g, s), entry), g, text)
  {
    assert |entry| == ENTRY_SIZE;
    hide HoldsLog, Overwrite, Entry, SlotAddress, ClearsAll;
    forall k | lo <= k < |images| ensures Survives(images[k], g, text, []) {
      assert TornOverwrite(images[k], disk, SlotAddress(g, s), entry);
      var j :| 0 <= j <= |entry| && images[k] == Overwrite(disk, SlotAddress(g, s), entry[..j]);
      EntryKeeps(disk, g, text, s, entry, j);
      SurvivesWhole(images[k], g, text);
    }
    EntryKeeps(disk, g, text, s, entry, |entry|);
    assert entry[..|entry|] == entry;
  }

  lemma SurvivesWhole(img: seq<bv8>, g: Geo, text: seq<bv8>)
    requires HoldsLog(img, g, text)
    ensures Survives(img, g, text, [])
  {
    hide HoldsLog;
    var line: seq<bv8> := [];
    assert text + line[..0] == text;
  }

  lemma EntryKeeps(disk: seq<bv8>, g: Geo, text: seq<bv8>, s: nat, entry: seq<bv8>, j: nat)
    requires HoldsLog(disk, g, text) && SlotAddress(g, s) + ENTRY_SIZE <= g.data <= |disk| && Entry(entry, |text|)
             && j <= ENTRY_SIZE
    requires ClearsAll(disk, SlotAddress(g, s), entry)
    ensures HoldsLog(Overwrite(disk, SlotAddress(g, s), entry[..j]), g, text)
  {
    EntryHolds(disk, g, |text|, s, entry, j);
    var disk' := Overwrite(disk, SlotAddress(g, s), entry[..j]);
    hide LogInv, Overwrite, Entry, ClearsAll;
    SameText(disk, disk', g, |text|);
  }

  lemma SameText(disk: seq<bv8>, disk': seq<bv8>, g: Geo, len: nat)
    requires g.data + len <= |disk| == |disk'| && disk[g.data..] == disk'[g.data..]
    ensures Text(disk, g, len) == Text(disk', g, len)
  {
    assert disk[g.data..][..len] == Text(disk, g, len) && disk'[g.data..][..len] == Text(disk', g, len);
  }

  lemma PageEraseHolds(disk: seq<bv8>, g: Geo, text: seq<bv8>, p: nat)
    requires HoldsLog(disk, g, text) && g.journal <= p && p + g.page <= g.data <= |disk| && Entries(p - g.journal)
    ensures HoldsLog(Erased(disk, p, g.page), g, text)
  {
    JournalErase(disk, g, |text|, p);
    var disk' := Erased(disk, p, g.page);
    assert |disk'| == |disk|;
    hide LogInv, Erased, Entries;
    SameText(disk, disk', g, |text|);
  }

  /** A journal page is made of whole cache blocks. */
  lemma JournalPage(g: Geo, capacity: nat, p: nat)
    requires GeoOk(g, capacity) && Offset(p, g.page) == 0
    ensures Offset(p, BLOCK) == 0 && Offset(p + g.page, BLOCK) == 0 && Offset(p + BLOCK, BLOCK) == 0 && BLOCK <= g.page
    ensures Offset(g.journal, BLOCK) == 0 && Offset(g.data, BLOCK) == 0
  {
    JournalAligned(g, capacity);
    MultipleOfMultiple(p, g.page, BLOCK);
    MultiplesSum(p, g.page, BLOCK);
    OffsetStep(p, BLOCK, BLOCK);
    MultiplesApart(0, g.page, BLOCK);
  }

  lemma NextSlotEntries(g: Geo, head: nat)
    ensures Entries(SlotAddress(g, NextSlot(g, head)) - g.journal)
  {}

  lemma AllSurviveTwice(images: seq<seq<bv8>>, mid: seq<seq<bv8>>, lo: nat, g: Geo, text: seq<bv8>, line: seq<bv8>)
    requires lo <= |mid| && mid <= images
    requires AllSurvive(mid, lo, g, text, line) && AllSurvive(images, |mid|, g, text, line)
    ensures AllSurvive(images, lo, g, text, line)
  {
    hide Survives;
    forall k | lo <= k < |images| ensures Survives(images[k], g, text, line) {
      if k < |mid| {
        assert images[k] == mid[k];
      }
    }
  }

  lemma HeadAddress(g: Geo, head: nat)
    ensures (SlotAddress(g, head) - g.journal) / ENTRY_SIZE == head
  {}

  lemma HeadAt(g: Geo, address: nat)
    requires g.journal <= address && Entries(address - g.journal)
    ensures SlotAddress(g, (address - g.journal) / ENTRY_SIZE) == address
  {}

  lemma CleanFrame(disk: seq<bv8>, disk': seq<bv8>, g: Geo, head: nat, len: nat)
    requires g.page > 0 && g.journal <= g.data && SameTo(disk, disk', g.data)
    ensures CleanJournal(disk, g, head, len) ==> CleanJournal(disk', g, head, len)
  {
    if CleanJournal(disk, g, head, len) {
      hide CleanSlot;
      assert forall i :: 0 <= i < g.data ==> disk'[i] == disk[..g.data][i] == disk[i];
      forall s: nat | g.journal + ENTRY_SIZE * s
          + ENTRY_SIZE <= g.data ensures CleanSlot(Slot(disk', g, s), g, s, head, len) {
        assert Slot(disk', g, s) == Slot(disk, g, s);
      }
    }
  }

  lemma MarkFrame(disk: seq<bv8>, disk': seq<bv8>, g: Geo, head: nat, len: nat)
    requires g.page > 0 && g.journal <= g.data < g.end && SameTo(disk, disk', g.end)
    ensures CleanJournal(disk, g, head, len) ==> CleanJournal(disk', g, head, len)
  {
    assert disk[..g.data] == disk[..g.end][..g.data] && disk'[..g.data] == disk'[..g.end][..g.data];
    hide CleanJournal;
    CleanFrame(disk, disk', g, head, len);
  }

  lemma EndRoom(g: Geo, capacity: nat)
    requires GeoOk(g, capacity)
    ensures g.end + 4 < capacity && g.data < g.end
  {}

  lemma MarkedAs(disk: seq<bv8>, disk': seq<bv8>, g: Geo, done: bool)
    requires g.end + 4 <= |disk| && (ClearsAll(disk, g.end + 1, FULL_MARK) <==> done)
    requires disk' == if done then Overwrite(disk, g.end + 1, FULL_MARK) else disk
    ensures disk' == MarkedFull(disk, g)
  {}

  lemma MarkSurvives(images: seq<seq<bv8>>, lo: nat, disk: seq<bv8>, g: Geo, text: seq<bv8>, a: nat, mark: seq<bv8>)
    requires HoldsLog(disk, g, text) && g.end < a && a + |mark| <= |disk| && AllTorn(images, lo, disk, a, mark)
    ensures AllSurvive(images, lo, g, text, [])
    ensures HoldsLog(Overwrite(disk, a, mark), g, text)
    ensures Overwrite(disk, a, mark)[..g.end] == disk[..g.end]
  {
    hide HoldsLog, Overwrite;
    forall k | lo <= k < |images| ensures Survives(images[k], g, text, []) {
      assert TornOverwrite(images[k], disk, a, mark);
      var j :| 0 <= j <= |mark| && images[k] == Overwrite(disk, a, mark[..j]);
      MarkKeeps(disk, g, text, a, mark[..j]);
      SurvivesWhole(images[k], g, text);
    }
    MarkKeeps(disk, g, text, a, mark);
  }

  /** What happens behind the end of the log does not matter. */
  lemma MarkKeeps(disk: seq<bv8>, g: Geo, text: seq<bv8>, a: nat, mark: seq<bv8>)
    requires HoldsLog(disk, g, text) && g.end < a && a + |mark| <= |disk|
    ensures HoldsLog(Overwrite(disk, a, mark), g, text)
    ensures Overwrite(disk, a, mark)[..g.end] == disk[..g.end]
  {
    var disk' := Overwrite(disk, a, mark);
    assert disk'[..g.data] == disk[..g.data];
    assert Text(disk', g, |text|) == Text(disk, g, |text|);
    hide Overwrite, JournalOk, MetaBytes, Offset;
    LogInvFrame(disk, disk', g, |text|, |text|);
  }

  lemma JournalRoom(g: Geo, capacity: nat)
    requires GeoOk(g, capacity)
    ensures g.journal + ENTRY_SIZE <= g.data < g.end < capacity - 1
  {
    hide Offset;
  }

  lemma SlotBelow(g: Geo, capacity: nat, s: nat)
    requires GeoOk(g, capacity) && SlotAddress(g, s) < g.data
    ensures SlotAddress(g, s) + ENTRY_SIZE <= g.data
  {
    hide Offset;
    RoomForSlot(g.data - g.journal, s);
  }

  lemma ExactSynced(t: seq<CacheEntry>, disk: seq<bv8>, x: nat, y: nat)
    requires Synced(t, disk, x, x)
    ensures Synced(t, disk, y, y)
  {
    forall i | 0 <= i < |t| && t[i].Resident() ensures EntrySynced(t[i], disk, y, y) {
      assert EntrySynced(t[i], disk, x, x);
    }
  }

  lemma EndWords(g: Geo, capacity: nat)
    requires GeoOk(g, capacity)
    ensures g.end + 4 <= capacity && Words(4)
  {}

  /** The erase loop stays on the disk, and when it stops it has passed the first data page. */
  lemma EraseRoom(g: Geo, capacity: nat, p: nat, limit: nat)
    requires GeoOk(g, capacity) && Offset(p, g.page) == 0 && g.data <= limit <= g.end
    ensures g.page > 0 && (p <= limit ==> p + g.page <= capacity && Offset(p + g.page, g.page) == 0)
    ensures p > limit ==> g.data + g.page <= p
  {
    OffsetStep(p, g.page, g.page);
    if p > limit {
      MultiplesApart(g.data, p, g.page);
    }
  }

  lemma NoneErased(marked: seq<bv8>, page: nat)
    requires page > 0
    ensures ErasedTo(marked, marked, 0) && Offset(0, page) == 0
  {}

  lemma PageCleared(disk: seq<bv8>, marked: seq<bv8>, before: seq<bv8>, g: Geo, p: nat)
    requires ErasedTo(disk, marked, p) && |marked| == |before| && GeoOk(g, |before|) && g.start == StartAddress(g.page)
    requires SameLog(marked, before, g) && Offset(p, g.page) == 0
    ensures Clearing(disk, before, g)
  {
    hide Erased, SameLog, Clearing, StartAddress;
    PagesClearing(disk, marked, before, g, p);
  }

  lemma HeaderPlace(disk: seq<bv8>, g: Geo, header: seq<bv8>)
    requires GeoOk(g, |disk|) && |header| == HEADER_SIZE && BlankBetween(disk, 0, g.data + g.page)
    ensures g.page > 0 && g.start + META_SIZE <= g.data < |disk| && disk[g.start] == BLANK && Words(|header|)
  {
    hide Offset;
  }

  lemma BlankAfter(disk: seq<bv8>, g: Geo, header: seq<bv8>)
    requires BlankBetween(disk, 0, g.data + g.page) && |header| <= g.start && g.data + g.page <= |disk|
             && |header| <= |disk|
    ensures BlankBetween(Overwrite(disk, 0, header), g.start, g.data + g.page)
  {}

  lemma ErasedMore(disk: seq<bv8>, before: seq<bv8>, p: nat, page: nat)
    requires ErasedTo(disk, before, p) && p + page <= |before|
    ensures |disk| == |before| && ErasedTo(Erased(disk, p, page), before, p + page)
  {}

  lemma ErasedBlank(disk: seq<bv8>, before: seq<bv8>, p: nat, n: nat)
    requires ErasedTo(disk, before, p) && n <= p
    ensures BlankBetween(disk, 0, n)
  {}

  lemma EraseTopIs(p: nat, limit: nat, page: nat)
    requires page > 0 && Offset(p, page) == 0 && limit < p <= limit + page
    ensures EraseTop(limit, page) == p
  {
    RoundedDown(limit, page);
    OffsetStep(RoundDown(limit, page), page, page);
    var top := EraseTop(limit, page);
    if top < p {
      MultiplesApart(top, p, page);
    } else if p < top {
      MultiplesApart(p, top, page);
    }
  }

  lemma FormatRoom(g: Geo, capacity: nat)
    requires GeoOk(g, capacity)
    ensures g.start + META_SIZE <= g.journal && g.journal + ENTRY_SIZE <= g.data < g.end < capacity
  {
    hide Offset;
  }

  lemma FirstEntry(disk: seq<bv8>, g: Geo, je: seq<bv8>)
    requires GeoOk(g, |disk|) && BlankBetween(disk, g.start + META_SIZE, g.data + g.page) && je == Hex(0, ENTRY_SIZE)
    requires disk[g.start..g.start + META_SIZE] == MetaBytes(g.data, g.end)
    ensures var disk' := Overwrite(disk, g.journal, je);
            && LogInv(disk', g, 0) && CleanJournal(disk', g, 0, 0)
            && BlankBetween(disk', g.start + META_SIZE, g.journal)
  {
    var disk' := Overwrite(disk, g.journal, je);
    assert disk'[..g.journal] == disk[..g.journal];
    MetaFrame(disk, disk', g);
    assert disk'[g.journal..g.journal + ENTRY_SIZE] == je;
    hide Overwrite, MetaBytes, Hex, Offset;
    EmptyLog(disk', g);
  }

  lemma Formatted(disk: seq<bv8>, g: Geo)
    requires LogInv(disk, g, 0)
    ensures HoldsLog(disk, g, []) && g.journal + ENTRY_SIZE <= g.data && Entries(g.journal - g.journal)
  {
    hide Offset, JournalOk, MetaBytes;
  }

  lemma MetaRoom(g: Geo, capacity: nat)
    requires GeoOk(g, capacity)
    ensures HeadingBase(g) < g.journal
  {}

  lemma NewGeoPages(page: nat, capacity: nat)
    requires page > 0
    ensures var g := NewGeo(page, capacity);
            g.page == page && g.start == StartAddress(page) && g.journal + 2 * page <= g.data
                && g.journal == g.start + page
    ensures GeoOk(NewGeo(page, capacity), capacity) ==> NewGeo(page, capacity).end == capacity - page - 4
  {}

  lemma NoHeadings(disk: seq<bv8>, g: Geo)
    requires HeadingBase(g) < g.journal && BlankBetween(disk, HeadingBase(g), g.journal)
    ensures HeadingBlock(disk, g, 0, [])
  {}

  lemma HeadingRoom(g: Geo, capacity: nat)
    requires GeoOk(g, capacity)
    ensures HeadingBase(g) < g.journal < g.data < g.end < capacity - 1
  {
    hide Offset;
  }

  lemma TopKept(disk: seq<bv8>, g: Geo, a: nat, part: seq<bv8>)
    requires a + |part| <= g.journal <= |disk|
    ensures SameAbove(disk, Overwrite(disk, a, part), g) && SameAbove(disk, disk, g)
  {}

  lemma HeadingFrame(disk: seq<bv8>, disk': seq<bv8>, g: Geo, z: nat, h: seq<bv8>)
    requires SameBelow(disk, disk', g)
    ensures HeadingBlock(disk, g, z, h) ==> HeadingBlock(disk', g, z, h)
  {
    if HeadingBlock(disk, g, z, h) {
      var a := HeadingBase(g) + z;
      assert disk'[a..a + |h|] == disk[a..a + |h|];
    }
  }

  /** A power failure while a line is logged leaves the headings alone. */
  lemma HeadingsSurvive(images: seq<seq<bv8>>, lo: nat, disk: seq<bv8>, g: Geo, z: nat, h: seq<bv8>)
    requires AllBelow(images, lo, disk, g) && HeadingBlock(disk, g, z, h)
    ensures forall k :: lo <= k < |images| ==> HeadingBlock(images[k], g, z, h)
  {
    hide HeadingBlock;
    forall k | lo <= k < |images| ensures HeadingBlock(images[k], g, z, h) {
      assert SameBelow(disk, images[k], g);
      HeadingFrame(disk, images[k], g, z, h);
    }
  }

  /** Power may fail while headings are stored: then the old ones have lost a part at the
      front, or a part at the end of the new ones is missing. */
  ghost predicate HeadingTorn(img: seq<bv8>, g: Geo, z: nat, h0: seq<bv8>, at: int, known: nat, h: seq<bv8>)
  {
    || (exists j :: 0 <= j <= known && HeadingBlock(img, g, z + j, Rest(h0, j)))
    || (at == z && exists j :: 0 <= j <= |h| && HeadingBlock(img, g, z + known, Overprinted(Rest(h0, known), h[..j])))
  }

  ghost predicate AllHeadings(images: seq<seq<bv8>>, lo: nat, g: Geo, z: nat, h0: seq<bv8>, at: int, known: nat,
                              h: seq<bv8>)
  {
    forall k :: lo <= k < |images| ==> HeadingTorn(images[k], g, z, h0, at, known, h)
  }

  /** What a write through the cache stores of data: all or nothing. */
  ghost function Taken(disk: seq<bv8>, a: nat, data: seq<bv8>): (r: seq<bv8>)
    requires a + |data| <= |disk|
    ensures |r| <= |data|
  {
    if ClearsAll(disk, a, data) then data else []
  }

  /** The disk after zeros at start, and h behind them if flash takes it. */
  ghost function Rewritten(disk: seq<bv8>, start: nat, zeros: seq<bv8>, h: seq<bv8>): seq<bv8>
    requires start + |zeros| + |h| <= |disk|
  {
    var disk1 := Overwrite(disk, start, zeros);
    Overwrite(disk1, start + |zeros|, Taken(disk1, start + |zeros|, h))
  }

  /** Each image is a torn write of the zeros, or a torn write of the text behind them. */
  ghost predicate TwoTorn(images: seq<seq<bv8>>, lo: nat, disk: seq<bv8>, start: nat, zeros: seq<bv8>, h: seq<bv8>)
    requires start + |zeros| + |h| <= |disk|
  {
    var disk1 := Overwrite(disk, start, zeros);
    forall k :: lo <= k < |images| ==>
      TornOverwrite(images[k], disk, start, zeros)
          || TornOverwrite(images[k], disk1, start + |zeros|, Taken(disk1, start + |zeros|, h))
  }

  lemma NoTears(images: seq<seq<bv8>>, disk: seq<bv8>, a: nat)
    requires a <= |disk|
    ensures AllTorn(images, |images|, disk, a, []) && Overwrite(disk, a, []) == disk
  {}

  lemma TwoTornJoin(images: seq<seq<bv8>>, mid: seq<seq<bv8>>, lo: nat, disk: seq<bv8>, start: nat, zeros: seq<bv8>,
                    h: seq<bv8>)
    requires start + |zeros| + |h| <= |disk| && lo <= |mid| && mid <= images && AllTorn(mid, lo, disk, start, zeros)
    requires var disk1 := Overwrite(disk, start, zeros);
             AllTorn(images, |mid|, disk1, start + |zeros|, Taken(disk1, start + |zeros|, h))
    ensures TwoTorn(images, lo, disk, start, zeros, h)
  {
    hide TornOverwrite, Overwrite, Taken;
    var disk1 := Overwrite(disk, start, zeros);
    forall k | lo <= k < |images|
      ensures TornOverwrite(images[k], disk, start, zeros)
              || TornOverwrite(images[k], disk1, start + |zeros|, Taken(disk1, start + |zeros|, h))
    {
      if k < |mid| {
        assert images[k] == mid[k];
      }
    }
  }

  /** The headings after a change, and on every disk on the way. */
  lemma HeadingTears(images: seq<seq<bv8>>, lo: nat, disk: seq<bv8>, disk': seq<bv8>, g: Geo, z: nat, h0: seq<bv8>,
                     at: int, start: nat, zeros: seq<bv8>, h: seq<bv8>)
    requires start + |zeros| + |h| < g.journal <= |disk| && ContainsOnly(zeros, 0) && Storable(h)
    requires disk' == Rewritten(disk, start, zeros, h) && TwoTorn(images, lo, disk, start, zeros, h)
    requires start == HeadingBase(g) + at
    ensures HeadingBlock(disk, g, z, h0) && (at == z || (at == |zeros| == 0 && h0 == [])) ==>
              && AllHeadings(images, lo, g, z, h0, at, |zeros|, h)
              && var (z1, h1) := Replaced(z, h0, at, |zeros|, h);
                 HeadingBlock(disk', g, z1, h1) && (at + |zeros| == z1 || (at + |zeros| == 0 && h1 == []))
  {
    hide HeadingBlock, Overwrite, TornOverwrite, HeadingBase, Taken;
    if HeadingBlock(disk, g, z, h0) && (at == z || (at == |zeros| == 0 && h0 == [])) {
      forall k | lo <= k < |images| ensures HeadingTorn(images[k], g, z, h0, at, |zeros|, h) {
        HeadingTear(images[k], disk, g, z, h0, at, start, zeros, h);
      }
      if at == z {
        HeadingReplaced(disk, g, z, h0, zeros, h);
      } else {
        HeadingsRefused(disk, g, z, h);
      }
    }
  }

  lemma HeadingTear(img: seq<bv8>, disk: seq<bv8>, g: Geo, z: nat, h0: seq<bv8>, at: int, start: nat,
                    zeros: seq<bv8>, h: seq<bv8>)
    requires HeadingBlock(disk, g, z, h0) && (at == z || (at == |zeros| == 0 && h0 == [])) && ContainsOnly(zeros, 0)
    requires start == HeadingBase(g) + at && start + |zeros| + |h| < g.journal <= |disk| && Storable(h)
    ensures TornOverwrite(img, disk, start, zeros) ==> HeadingTorn(img, g, z, h0, at, |zeros|, h)
    ensures var disk1 := Overwrite(disk, start, zeros);
            TornOverwrite(img, disk1, start + |zeros|, Taken(disk1, start + |zeros|, h)) ==>
              HeadingTorn(img, g, z, h0, at, |zeros|, h)
  {
    hide HeadingBlock, Overwrite, Taken, HeadingBase, HeadingTorn, ContainsOnly;
    var disk1 := Overwrite(disk, start, zeros);
    if TornOverwrite(img, disk, start, zeros) {
      var j :| 0 <= j <= |zeros| && img == Overwrite(disk, start, zeros[..j]);
      ZerosTorn(img, disk, g, z, h0, at, start, zeros, h, j);
    }
    if TornOverwrite(img, disk1, start + |zeros|, Taken(disk1, start + |zeros|, h)) {
      var t := Taken(disk1, start + |zeros|, h);
      var j :| 0 <= j <= |t| && img == Overwrite(disk1, start + |zeros|, t[..j]);
      TextTorn(img, disk, g, z, h0, at, start, zeros, h, j);
    }
  }

  lemma ZerosTorn(img: seq<bv8>, disk: seq<bv8>, g: Geo, z: nat, h0: seq<bv8>, at: int, start: nat,
                  zeros: seq<bv8>, h: seq<bv8>, j: nat)
    requires HeadingBlock(disk, g, z, h0) && (at == z || (at == |zeros| == 0 && h0 == [])) && ContainsOnly(zeros, 0)
    requires start == HeadingBase(g) + at && start + |zeros| < g.journal <= |disk|
    requires j <= |zeros| && img == Overwrite(disk, start, zeros[..j])
    ensures HeadingTorn(img, g, z, h0, at, |zeros|, h)
  {
    hide HeadingBlock, Overwrite;
    if at == z {
      HeadingZeroed(disk, g, z, h0, zeros[..j]);
    } else {
      NoTears([], disk, start);
      assert HeadingBlock(img, g, z + 0, Rest(h0, 0));
    }
  }

  lemma TextTorn(img: seq<bv8>, disk: seq<bv8>, g: Geo, z: nat, h0: seq<bv8>, at: int, start: nat,
                 zeros: seq<bv8>, h: seq<bv8>, j: nat)
    requires HeadingBlock(disk, g, z, h0) && (at == z || (at == |zeros| == 0 && h0 == [])) && ContainsOnly(zeros, 0)
    requires start == HeadingBase(g) + at && start + |zeros| + |h| < g.journal <= |disk| && Storable(h)
    requires var disk1 := Overwrite(disk, start, zeros); var t := Taken(disk1, start + |zeros|, h);
             j <= |t| && img == Overwrite(disk1, start + |zeros|, t[..j])
    ensures HeadingTorn(img, g, z, h0, at, |zeros|, h)
  {
    hide HeadingBlock, Overwrite, Overprinted, ClearsAll;
    var disk1 := Overwrite(disk, start, zeros);
    var rest := Rest(h0, |zeros|);
    if at == z {
      HeadingZeroed(disk, g, z, h0, zeros);
      if j > 0 {
        PartClears(disk1, start + |zeros|, h, j);
        HeadingTaken(disk1, g, z + |zeros|, rest, h[..j]);
      } else {
        NoTears([], disk1, start + |zeros|);
        assert HeadingBlock(img, g, z + |zeros|, Rest(h0, |zeros|));
      }
    } else {
      HeadingsRefused(disk, g, z, h);
      NoTears([], disk, start);
      assert HeadingBlock(img, g, z + 0, Rest(h0, 0));
    }
  }

  lemma PartClears(disk: seq<bv8>, a: nat, h: seq<bv8>, j: nat)
    requires a + |h| <= |disk| && j <= |h| && ClearsAll(disk, a, h)
    ensures ClearsAll(disk, a, h[..j])
  {}

  /** Zeroing the old headings, as far as they are known, and writing the new ones behind. */
  lemma HeadingReplaced(disk: seq<bv8>, g: Geo, z: nat, h0: seq<bv8>, zeros: seq<bv8>, h: seq<bv8>)
    requires HeadingBlock(disk, g, z, h0) && ContainsOnly(zeros, 0) && Storable(h)
    requires HeadingBase(g) + z + |zeros| + |h| < g.journal
    ensures HeadingBlock(Rewritten(disk, HeadingBase(g) + z, zeros, h), g, z + |zeros|,
                         Overprinted(Rest(h0, |zeros|), h))
  {
    hide HeadingBlock, Overwrite, ContainsOnly, Taken, Overprinted, Storable;
    HeadingText(disk, g, z, h0);
    HeadingZeroed(disk, g, z, h0, zeros);
    PrintedOrNot(Overwrite(disk, HeadingBase(g) + z, zeros), g, z + |zeros|, Rest(h0, |zeros|), h);
  }

  lemma PrintedOrNot(disk: seq<bv8>, g: Geo, z: nat, there: seq<bv8>, h: seq<bv8>)
    requires HeadingBlock(disk, g, z, there) && Storable(h) && HeadingBase(g) + z + |h| < g.journal
    ensures g.journal <= |disk|
    ensures var a := HeadingBase(g) + z;
            HeadingBlock(Overwrite(disk, a, Taken(disk, a, h)), g, z, Overprinted(there, h))
  {
    HeadingTaken(disk, g, z, there, h);
    NoTears([], disk, HeadingBase(g) + z);
    hide HeadingBlock, Overwrite, ClearsAll, PrintsOver;
  }

  /** Zeros without a text behind them: new headings are written to where the zeros are, and
      refused. */
  lemma HeadingsRefused(disk: seq<bv8>, g: Geo, z: nat, h: seq<bv8>)
    requires HeadingBlock(disk, g, z, []) && z > 0 && Storable(h) && HeadingBase(g) + |h| < g.journal <= |disk|
    ensures Rewritten(disk, HeadingBase(g), [], h) == disk && Taken(disk, HeadingBase(g), h) == []
            && Overwrite(disk, HeadingBase(g), []) == disk
  {
    NoTears([], disk, HeadingBase(g));
    if h != [] {
      ZerosRefuse(disk, g, z, [], h);
    }
    hide HeadingBlock, ClearsAll, Overwrite;
  }

  /** Power fails in a change when the old headings are zeroed and the new ones not begun: what
      the next session changes is refused, and so on until the log is cleared. */
  lemma HeadingsLost(disk: seq<bv8>, g: Geo, z: nat, h0: seq<bv8>, zeros: seq<bv8>, h: seq<bv8>)
    requires HeadingBlock(disk, g, z, h0) && h0 != [] && |zeros| == |h0| && ContainsOnly(zeros, 0)
    requires Storable(h) && HeadingBase(g) + |h| < g.journal
    ensures HeadingBase(g) + z + |zeros| <= |disk|
    ensures var img := Overwrite(disk, HeadingBase(g) + z, zeros);
            && HeadingTorn(img, g, z, h0, z, |h0|, h) && HeadingBlock(img, g, z + |h0|, [])
            && HeadingBase(g) + |h| <= |img| && Rewritten(img, HeadingBase(g), [], h) == img
            && Replaced(z + |h0|, [], 0, 0, h) == (z + |h0|, [])
  {
    hide HeadingBlock, Overwrite, ContainsOnly, Storable;
    HeadingText(disk, g, z, h0);
    HeadingZeroed(disk, g, z, h0, zeros);
    var img := Overwrite(disk, HeadingBase(g) + z, zeros);
    assert HeadingBlock(img, g, z + |h0|, Rest(h0, |h0|));
    HeadingsRefused(img, g, z + |h0|, h);
  }

  lemma HeadingText(disk: seq<bv8>, g: Geo, z: nat, h: seq<bv8>)
    requires HeadingBlock(disk, g, z, h)
    ensures HeadingBase(g) + z + |h| < g.journal <= |disk| && disk[HeadingBase(g) + z..HeadingBase(g) + z + |h|] == h
  {}

  lemma HeadingSurvives(images: seq<seq<bv8>>, lo: nat, disk: seq<bv8>, g: Geo, text: seq<bv8>, a: nat, part: seq<bv8>)
    requires HoldsLog(disk, g, text) && HeadingBase(g) <= a && a + |part| <= g.journal <= |disk|
             && AllTorn(images, lo, disk, a, part)
    ensures AllSurvive(images, lo, g, text, [])
    ensures HoldsLog(Overwrite(disk, a, part), g, text)
  {
    hide HoldsLog, Overwrite;
    forall k | lo <= k < |images| ensures Survives(images[k], g, text, []) {
      assert TornOverwrite(images[k], disk, a, part);
      var j :| 0 <= j <= |part| && images[k] == Overwrite(disk, a, part[..j]);
      HeadingKeeps(disk, g, text, a, part[..j]);
      SurvivesWhole(images[k], g, text);
    }
    HeadingKeeps(disk, g, text, a, part);
  }

  /** Bytes between the metadata and the journal are not part of the log's text. */
  lemma HeadingKeeps(disk: seq<bv8>, g: Geo, text: seq<bv8>, a: nat, part: seq<bv8>)
    requires HoldsLog(disk, g, text) && HeadingBase(g) <= a && a + |part| <= g.journal <= |disk|
    ensures HoldsLog(Overwrite(disk, a, part), g, text)
  {
    var disk' := Overwrite(disk, a, part);
    assert disk'[g.start..g.start + META_SIZE] == disk[g.start..g.start + META_SIZE];
    assert Text(disk', g, |text|) == Text(disk, g, |text|);
    SlotsKept(disk, disk', g, |text|);
    hide Overwrite, JournalOk, MetaBytes, Offset;
  }

  lemma SlotsKept(disk: seq<bv8>, disk': seq<bv8>, g: Geo, len: nat)
    requires g.data <= |disk| == |disk'| && JournalOk(disk, g, len)
    requires forall i :: g.journal <= i < |disk| ==> disk'[i] == disk[i]
    ensures JournalOk(disk', g, len)
  {
    hide SlotOk;
    forall s: nat | g.journal + ENTRY_SIZE * s + ENTRY_SIZE <= g.data ensures SlotOk(Slot(disk', g, s), len) {
      assert SlotOk(Slot(disk, g, s), len);
      assert Slot(disk', g, s) == Slot(disk, g, s);
    }
  }

  lemma FormatBlocks(g: Geo, capacity: nat)
    requires GeoOk(g, capacity)
    ensures Words(BLOCK) && Offset(capacity, BLOCK) == 0 && Offset(g.journal, BLOCK) == 0
  {
    JournalAligned(g, capacity);
    MultipleOfMultiple(capacity, g.page, BLOCK);
    hide Offset;
  }

  lemma CleanSlots(disk: seq<bv8>, g: Geo, len: nat)
    ensures CleanBefore(disk, g, len) ==> g.page > 0 && g.journal + 2 * g.page <= g.data <= |disk|
  {}
}
