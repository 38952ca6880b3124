/** MicroBitLog on flash: journal entries, metadata, and what a power-up recovers from them. */
module LogFormat {
  import opened Arith
  import opened Nor

  // ----- hexadecimal numbers as the log stores them

  const DIGITS: seq<bv8> := [0x30, 0x31, 0x32, 0x33, 0x34, 0x35, 0x36, 0x37, 0x38, 0x39, 0x41, 0x42, 0x43, 0x44, 0x45,
                             0x46]

  function Digit(d: nat): bv8
    requires d < 16
  {
    DIGITS[d]
  }

  predicate IsDigit(c: bv8) { 0x30 <= c <= 0x39 || 0x41 <= c <= 0x46 || 0x61 <= c <= 0x66 }

  function HexVal(c: bv8): (r: nat)
    ensures r < 16
  {
    if c == 0x31 then 1 else if c == 0x32 then 2 else if c == 0x33 then 3 else if c == 0x34 then 4
    else if c == 0x35 then 5 else if c == 0x36 then 6 else if c == 0x37 then 7 else if c == 0x38 then 8
    else if c == 0x39 then 9 else if c == 0x41 || c == 0x61 then 10 else if c == 0x42 || c == 0x62 then 11
    else if c == 0x43 || c == 0x63 then 12 else if c == 0x44 || c == 0x64 then 13
    else if c == 0x45 || c == 0x65 then 14 else if c == 0x46 || c == 0x66 then 15 else 0
  }

  /** Digits in either case have their values; strtoul stops at anything else. */
  lemma DigitBytes(c: bv8)
    ensures IsDigit(c) <==> 0x30 <= c <= 0x39 || 0x41 <= c <= 0x46 || 0x61 <= c <= 0x66
    ensures 0x30 <= c <= 0x39 ==> HexVal(c) == (c - 0x30) as nat
    ensures 0x41 <= c <= 0x46 ==> HexVal(c) == (c - 0x41) as nat + 10
    ensures 0x61 <= c <= 0x66 ==> HexVal(c) == (c - 0x61) as nat + 10
  {}

  /** The number a text begins with, by its last digit: 16 times what is before it, and the digit. */
  lemma LastDigit(s: seq<bv8>, c: bv8, t: seq<bv8>)
    requires AllDigits(s) && IsDigit(c) && (t == [] || !IsDigit(t[0]))
    ensures HexRun(s + [c] + t, 0) == 16 * HexRun(s, 0) + HexVal(c) && HexRun(s + t, 0) == HexRun(s, 0)
  {
    HexRunAppend(s, [c] + t, 0);
    HexRunAppend(s, t, 0);
    assert s + [c] + t == s + ([c] + t) && ([c] + t)[1..] == t;
  }

  lemma DigitValue(d: nat)
    requires d < 16
    ensures IsDigit(Digit(d)) && HexVal(Digit(d)) == d
  {
    assert d == 0 || d == 1 || d == 2 || d == 3 || d == 4 || d == 5 || d == 6 || d == 7
        || d == 8 || d == 9 || d == 10 || d == 11 || d == 12 || d == 13 || d == 14 || d == 15;
  }

  /** Programming one digit over another can only lower it. */
  lemma DigitMonotone(o: bv8, n: bv8)
    requires IsDigit(o) && IsDigit(n) && Clears(o, n)
    ensures HexVal(n) <= HexVal(o)
  {}

  /** The w lowest hexadecimal digits of n, most significant first. */
  function Hex(n: nat, w: nat): (r: seq<bv8>)
    ensures |r| == w
  {
    if w == 0 then [] else Hex(n / 16, w - 1) + [Digit(n % 16)]
  }

  /** n >> 4 * k. */
  function ShiftRight(n: nat, k: nat): nat { if k == 0 then n else ShiftRight(n, k - 1) / 16 }

  /** writeNum, without the zero byte that ends the string: eight digits from the top down. */
  method WriteNum(n: nat) returns (buf: seq<bv8>)
    ensures buf == Hex(n, 8)
    ensures n < 0x1_0000_0000 ==> HexRun(buf, 0) == n
    ensures forall i :: 0 <= i < 8 ==> 0x30 <= buf[i] <= 0x39 || 0x41 <= buf[i] <= 0x46
  {
    DigitsAre(n, 8);
    buf := [];
    var sh := 28;
    while sh >= 0
      invariant -4 <= sh <= 28 && sh % 4 == 0
      invariant buf == Hex(ShiftRight(n, (sh + 4) / 4), 8 - (sh + 4) / 4)
    {
      var d := ShiftRight(n, sh / 4) % 16;
      buf := buf + [Digit(d)];
      sh := sh - 4;
    }
  }

  /** strtoul on a run of digits: it stops at the first other character. */
  function HexRun(s: seq<bv8>, acc: nat): nat
  {
    if s == [] || !IsDigit(s[0]) then acc else HexRun(s[1..], 16 * acc + HexVal(s[0]))
  }

  /** strtoul(s, NULL, 16); the log passes it no sign and no leading space. */
  function StrToUl(s: seq<bv8>): nat
  {
    if |s| >= 2 && s[0] == 0x30 && (s[1] == 0x78 || s[1] == 0x58) then HexRun(s[2..], 0) else HexRun(s, 0)
  }

  ghost predicate AllDigits(s: seq<bv8>)
  {
    forall i :: 0 <= i < |s| ==> IsDigit(s[i])
  }

  /** Digits are written in upper case. */
  lemma {:induction false} DigitsAre(n: nat, w: nat)
    ensures forall i :: 0 <= i < w ==> 0x30 <= Hex(n, w)[i] <= 0x39 || 0x41 <= Hex(n, w)[i] <= 0x46
    ensures w == 8 && n < 0x1_0000_0000 ==> HexRun(Hex(n, w), 0) == n
  {
    if w > 0 {
      DigitsAre(n / 16, w - 1);
      var d := n % 16;
      assert d < 10 ==>
        d == 0 || d == 1 || d == 2 || d == 3 || d == 4 || d == 5 || d == 6 || d == 7 || d == 8 || d == 9;
    }
    if w == 8 && n < 0x1_0000_0000 {
      assert Pow16(8) == 0x1_0000_0000 by { assert Pow16(4) == 0x1_0000; }
      HexRoundTrip(n, w);
    }
  }

  function Pow16(w: nat): nat { if w == 0 then 1 else 16 * Pow16(w - 1) }

  lemma {:induction false} HexRunAppend(s: seq<bv8>, t: seq<bv8>, acc: nat)
    requires AllDigits(s)
    ensures HexRun(s + t, acc) == HexRun(t, HexRun(s, acc))
  {
    if s == [] {
      assert s + t == t;
    } else {
      assert (s + t)[1..] == s[1..] + t;
      HexRunAppend(s[1..], t, 16 * acc + HexVal(s[0]));
    }
  }

  /** Reading back what was written gives the number. */
  lemma {:induction false} HexRoundTrip(n: nat, w: nat)
    requires n < Pow16(w)
    ensures AllDigits(Hex(n, w)) && HexRun(Hex(n, w), 0) == n
  {
    if w > 0 {
      HexRoundTrip(n / 16, w - 1);
      DigitValue(n % 16);
      HexRunAppend(Hex(n / 16, w - 1), [Digit(n % 16)], 0);
      assert HexRun([Digit(n % 16)], n / 16) == 16 * (n / 16) + n % 16;
    }
  }

  lemma {:induction false} HexRunAtLeast(s: seq<bv8>, acc: nat)
    ensures HexRun(s, acc) >= acc
  {
    if s != [] && IsDigit(s[0]) {
      HexRunAtLeast(s[1..], 16 * acc + HexVal(s[0]));
    }
  }

  /** Digit by digit smaller means smaller. */
  lemma {:induction false} HexRunMonotone(s: seq<bv8>, t: seq<bv8>, a: nat, b: nat)
    requires |s| == |t| && a <= b
    requires forall i :: 0 <= i < |s| ==>
               s[i] == t[i] || (IsDigit(s[i]) && IsDigit(t[i]) && HexVal(s[i]) <= HexVal(t[i]))
    ensures HexRun(s, a) <= HexRun(t, b)
  {
    if s != [] && IsDigit(s[0]) {
      HexRunMonotone(s[1..], t[1..], 16 * a + HexVal(s[0]), 16 * b + HexVal(t[0]));
    }
  }

  // ----- journal entries

  const ENTRY_SIZE: nat := 8

  /** Whole journal entries. */
  predicate Entries(x: nat) { x % ENTRY_SIZE == 0 }

  lemma {:induction false} EntriesSum(a: nat, b: nat)
    requires Entries(b)
    ensures Entries(a) <==> Entries(a + b)
    ensures Entries(ENTRY_SIZE)
  {}

  ghost predicate ContainsOnly(s: seq<bv8>, c: bv8)
  {
    forall i :: 0 <= i < |s| ==> s[i] == c
  }

  /** A journal slot as power failures can leave it: digits, zeros and blanks, nothing
      programmed after a blank, and a value that does not exceed the log's length. */
  ghost predicate SlotOk(slot: seq<bv8>, len: nat)
  {
    && (forall i :: 0 <= i < |slot| ==> slot[i] == 0 || slot[i] == BLANK || IsDigit(slot[i]))
    && (forall i, k :: 0 <= i < k < |slot| && slot[i] == BLANK ==> slot[k] == BLANK)
    && HexRun(slot, 0) <= len
  }

  lemma BlankSlotOk(slot: seq<bv8>, len: nat)
    requires ContainsOnly(slot, BLANK)
    ensures SlotOk(slot, len) && HexRun(slot, 0) == 0
  {}

  /** Zeroing a slot, cut short anywhere. */
  lemma ZeroTear(slot: seq<bv8>, j: nat, len: nat)
    requires SlotOk(slot, len) && j <= |slot|
    ensures SlotOk(seq(j, i => 0 as bv8) + slot[j..], len)
  {
    if j == 0 {
      assert seq(j, i => 0 as bv8) + slot[j..] == slot;
    }
  }

  /** Writing an entry, cut short anywhere, over any slot whose bits permit it. Bits only
      clear, so where digits are overwritten by digits the value only drops; and where the
      slot was blank the torn entry is a prefix of the new one. */
  lemma EntryTear(slot: seq<bv8>, entry: seq<bv8>, j: nat, len: nat)
    requires SlotOk(slot, len) && |entry| == |slot| && j <= |slot|
    requires AllDigits(entry) && HexRun(entry, 0) <= len
    requires forall i :: 0 <= i < |slot| ==> Clears(slot[i], entry[i])
    ensures SlotOk(entry[..j] + slot[j..], len)
  {
    assert forall i :: 0 <= i < |slot| ==> slot[i] != 0;
    if i :| 0 <= i < j && slot[i] == BLANK {
      BlankTail(slot, entry, i, j, len);
    } else {
      DigitsTorn(slot, entry, j, len);
    }
  }

  lemma BlankTail(slot: seq<bv8>, entry: seq<bv8>, i: nat, j: nat, len: nat)
    requires SlotOk(slot, len) && |entry| == |slot| && i < j <= |slot| && slot[i] == BLANK
    requires AllDigits(entry) && HexRun(entry, 0) <= len
    ensures SlotOk(entry[..j] + slot[j..], len)
  {
    var torn := entry[..j] + slot[j..];
    assert ContainsOnly(slot[j..], BLANK);
    HexRunAppend(entry[..j], slot[j..], 0);
    HexRunAppend(entry[..j], entry[j..], 0);
    assert entry[..j] + entry[j..] == entry;
    HexRunAtLeast(entry[j..], HexRun(entry[..j], 0));
    assert j < |slot| ==> slot[j..][0] == BLANK;
    assert HexRun(torn, 0) == HexRun(entry[..j], 0);
    hide HexRun;
  }

  lemma DigitsTorn(slot: seq<bv8>, entry: seq<bv8>, j: nat, len: nat)
    requires SlotOk(slot, len) && |entry| == |slot| && j <= |slot| && AllDigits(entry)
    requires forall i :: 0 <= i < j ==> IsDigit(slot[i]) && Clears(slot[i], entry[i])
    ensures SlotOk(entry[..j] + slot[j..], len)
  {
    hide HexRun, HexVal, Clears;
    var torn := entry[..j] + slot[j..];
    forall i | 0 <= i < |torn|
      ensures torn[i] == slot[i] || (IsDigit(torn[i]) && IsDigit(slot[i]) && HexVal(torn[i]) <= HexVal(slot[i]))
    {
      if i < j {
        DigitMonotone(slot[i], entry[i]);
      }
    }
    HexRunMonotone(torn, slot, 0, 0);
  }

  // ----- the log on flash

  const BLOCK: nat := 256        // cache block, and the distance between journal entries
  const META_SIZE: nat := 40
  const META_TEXT: nat := 39     // the part of it that is read: up to its last digit
  const VERSION: seq<bv8> := [0x55, 0x42, 0x49, 0x54, 0x5F, 0x4C, 0x4F, 0x47, 0x5F, 0x46, 0x53, 0x5F, 0x56, 0x5F, 0x30,
                              0x30, 0x31, 0x0A]
  const HEX_PREFIX: seq<bv8> := [0x30, 0x78]

  /** Logical addresses: metadata, journal, data, and the end of the log. */
  datatype Geo = Geo(page: nat, start: nat, journal: nat, data: nat, end: nat)

  ghost predicate GeoOk(g: Geo, capacity: nat)
  {
    && g.page > META_SIZE && Offset(g.page, BLOCK) == 0 && Words(g.page) && Entries(g.page)
    && Offset(g.start, g.page) == 0 && g.journal == g.start + g.page
    && Offset(g.data, g.page) == 0 && g.journal + g.page <= g.data && Entries(g.data - g.journal)
    && Offset(capacity, g.page) == 0 && g.end + g.page + 4 == capacity && g.data < g.end
  }

  /** The metadata block; writeNum ends each number with a zero byte. */
  function MetaBytes(data: nat, end: nat): (r: seq<bv8>)
    ensures |r| == META_SIZE
  {
    VERSION + HEX_PREFIX + Hex(end, 8) + [0] + HEX_PREFIX + Hex(data, 8) + [0]
  }

  /** The metadata block in bytes: "UBIT_LOG_FS_V_001", a newline, and the end of the log and
      the start of its data as "0x", eight digits and a zero byte each. */
  lemma MetaText(data: nat, end: nat)
    requires data < 0x1_0000_0000 && end < 0x1_0000_0000
    ensures var m := MetaBytes(data, end);
            && m[..18] == [0x55, 0x42, 0x49, 0x54, 0x5F, 0x4C, 0x4F, 0x47, 0x5F, 0x46, 0x53, 0x5F, 0x56, 0x5F, 0x30,
                           0x30, 0x31, 0x0A]
            && m[18..20] == m[29..31] == [0x30, 0x78] && m[28] == m[39] == 0 && |m| == 40
            && AllDigits(m[20..28]) && HexRun(m[20..28], 0) == end
            && AllDigits(m[31..39]) && HexRun(m[31..39], 0) == data
  {
    assert Pow16(8) == 0x1_0000_0000 by { assert Pow16(4) == 0x1_0000; }
    HexRoundTrip(end, 8);
    HexRoundTrip(data, 8);
    var m := MetaBytes(data, end);
    hide Hex, HexRun;
    assert m[20..28] == Hex(end, 8) && m[31..39] == Hex(data, 8);
  }

  function Slot(disk: seq<bv8>, g: Geo, s: nat): (r: seq<bv8>)
    requires g.journal + ENTRY_SIZE * s + ENTRY_SIZE <= |disk|
    ensures |r| == ENTRY_SIZE
  {
    disk[g.journal + ENTRY_SIZE * s..g.journal + ENTRY_SIZE * s + ENTRY_SIZE]
  }

  /** Where the erased space that follows x is known to end: its page, or the log. */
  function TailEnd(g: Geo, x: nat): nat
    requires g.page > 0
  {
    Min(RoundDown(x, g.page) + g.page, g.end)
  }

  /** Flash holds a log of len bytes. This is all that survives every power failure. */
  ghost predicate LogInv(disk: seq<bv8>, g: Geo, len: nat)
  {
    && GeoOk(g, |disk|) && g.data + len <= g.end
    && MetaOk(disk, g) && JournalOk(disk, g, len)
    && (forall i :: g.data <= i < g.data + len ==> disk[i] != BLANK)
    && (forall i :: g.data + len <= i < TailEnd(g, g.data + len) ==> disk[i] == BLANK)
  }

  ghost predicate MetaOk(disk: seq<bv8>, g: Geo)
    requires g.start + META_SIZE <= |disk|
  {
    disk[g.start..g.start + META_TEXT] == MetaBytes(g.data, g.end)[..META_TEXT]
  }

  ghost predicate JournalOk(disk: seq<bv8>, g: Geo, len: nat)
    requires g.data <= |disk|
  {
    forall s: nat :: g.journal + ENTRY_SIZE * s + ENTRY_SIZE <= g.data ==> SlotOk(Slot(disk, g, s), len)
  }

  function Text(disk: seq<bv8>, g: Geo, len: nat): seq<bv8>
    requires g.data + len <= |disk|
  {
    disk[g.data..g.data + len]
  }

  ghost predicate HoldsLog(img: seq<bv8>, g: Geo, text: seq<bv8>)
  {
    LogInv(img, g, |text|) && Text(img, g, |text|) == text
  }

  const HEADER_SIZE: nat := 2048

  /** The first page boundary at or after the header. */
  function StartAddress(page: nat): nat
    requires page > 0
  {
    if Offset(HEADER_SIZE, page) == 0 then HEADER_SIZE else RoundDown(HEADER_SIZE, page) + page
  }

  /** The metadata page is the first that begins at or after the header's 2048 bytes, and the
      journal follows it. */
  ghost predicate AfterHeader(g: Geo)
  {
    g.page > 0 && g.start % g.page == 0 && 2048 <= g.start < 2048 + g.page && g.journal == g.start + g.page
  }

  lemma StartPlace(g: Geo)
    requires g.page > 0 && g.start == StartAddress(g.page) && g.journal == g.start + g.page
    ensures AfterHeader(g)
  {
    RoundedDown(HEADER_SIZE, g.page);
    if Offset(HEADER_SIZE, g.page) != 0 {
      OffsetStep(RoundDown(HEADER_SIZE, g.page), g.page, g.page);
    }
    OffsetIsMod(g.start, g.page);
    hide Offset;
  }

  /** What isPresent reads from the metadata block. */
  function ReadGeo(disk: seq<bv8>, page: nat): Geo
    requires page > 0 && StartAddress(page) + META_SIZE <= |disk|
  {
    var start := StartAddress(page);
    var meta := disk[start..start + META_SIZE];
    Geo(page, start, start + page, StrToUl(meta[29..39]), StrToUl(meta[18..28]))
  }

  predicate Present(disk: seq<bv8>, page: nat)
    requires page > 0 && StartAddress(page) + META_SIZE <= |disk|
  {
    var g := ReadGeo(disk, page);
    g.data >= g.start + 2 * page && g.data < g.end && g.end < |disk|
        && disk[g.start..g.start + META_SIZE][..17] == VERSION[..17]
  }

  lemma HexNumber(n: nat)
    requires n < 0x1_0000_0000
    ensures StrToUl(HEX_PREFIX + Hex(n, 8)) == n
  {
    assert Pow16(8) == 0x1_0000_0000 by { assert Pow16(4) == 0x1_0000; }
    HexRoundTrip(n, 8);
    var s := HEX_PREFIX + Hex(n, 8);
    assert s[2..] == Hex(n, 8) && s[0] == 0x30 && s[1] == 0x78;
    hide Hex, HexRun;
  }

  /** A mounted geometry is found again from its own metadata. */
  lemma MetaRoundTrip(disk: seq<bv8>, g: Geo)
    requires GeoOk(g, |disk|) && |disk| < 0x1_0000_0000 && g.start == StartAddress(g.page)
    requires MetaOk(disk, g)
    ensures ReadGeo(disk, g.page) == g && Present(disk, g.page)
  {
    HexNumber(g.data);
    HexNumber(g.end);
    var meta := MetaBytes(g.data, g.end)[..META_TEXT];
    hide Hex, HexRun, StrToUl, StartAddress, Offset;
    var read := disk[g.start..g.start + META_SIZE];
    assert read[..META_TEXT] == meta;
    PartsOfRead(read, meta);
    assert meta[18..28] == HEX_PREFIX + Hex(g.end, 8);
    assert meta[29..39] == HEX_PREFIX + Hex(g.data, 8);
    assert meta[..17] == VERSION[..17];
  }

  lemma PartsOfRead(read: seq<bv8>, meta: seq<bv8>)
    requires |read| == META_SIZE && read[..META_TEXT] == meta
    ensures read[18..28] == meta[18..28] && read[29..39] == meta[29..39] && read[..17] == meta[..17]
  {}

  const JOURNAL_PAGES: nat := 4

  /** The layout clear chooses for a disk. */
  function NewGeo(page: nat, capacity: nat): Geo
    requires page > 0
  {
    var start := StartAddress(page);
    Geo(page, start, start + page, start + page + JOURNAL_PAGES * page, Max(0, capacity - page - 4))
  }

  ghost predicate BlankBetween(disk: seq<bv8>, lo: nat, hi: nat)
  {
    hi <= |disk| && forall i :: lo <= i < hi ==> disk[i] == BLANK
  }

  lemma StartAfterHeader(page: nat)
    requires page > 0
    ensures HEADER_SIZE <= StartAddress(page)
  {}

  lemma BlankTakes(disk: seq<bv8>, lo: nat, hi: nat, a: nat, data: seq<bv8>)
    requires BlankBetween(disk, lo, hi) && lo <= a && a + |data| <= hi
    ensures ClearsAll(disk, a, data) && BlankBetween(Overwrite(disk, a, data), a + |data|, hi)
  {
    forall i | 0 <= i < |data| ensures Clears(disk[a + i], data[i]) {
      assert disk[a + i] == BLANK;
    }
  }

  /** A blank journal and data page, behind the metadata and one entry for length zero, are
      an empty log with a clean journal. */
  lemma EmptyLog(disk: seq<bv8>, g: Geo)
    requires GeoOk(g, |disk|) && MetaOk(disk, g)
    requires disk[g.journal..g.journal + ENTRY_SIZE] == Hex(0, ENTRY_SIZE)
    requires BlankBetween(disk, g.journal + ENTRY_SIZE, g.data + g.page)
    ensures LogInv(disk, g, 0) && CleanJournal(disk, g, 0, 0)
  {
    HexRoundTrip(0, ENTRY_SIZE);
    forall s: nat | g.journal + ENTRY_SIZE * s + ENTRY_SIZE <= g.data
      ensures SlotOk(Slot(disk, g, s), 0) && CleanSlot(Slot(disk, g, s), g, s, 0, 0)
    {
      EmptySlot(disk, g, s);
    }
    TailEndBound(g, g.data);
    hide MetaBytes, Hex, SlotOk, CleanSlot, TailEnd, Offset, Slot;
  }

  lemma EmptySlot(disk: seq<bv8>, g: Geo, s: nat)
    requires g.page > 0 && g.journal + ENTRY_SIZE * s + ENTRY_SIZE <= g.data && g.data + g.page <= |disk|
    requires disk[g.journal..g.journal + ENTRY_SIZE] == Hex(0, ENTRY_SIZE)
    requires BlankBetween(disk, g.journal + ENTRY_SIZE, g.data + g.page)
    ensures SlotOk(Slot(disk, g, s), 0) && CleanSlot(Slot(disk, g, s), g, s, 0, 0)
  {
    if s == 0 {
      assert Pow16(8) > 0;
      HexRoundTrip(0, ENTRY_SIZE);
      assert Slot(disk, g, s) == Hex(0, ENTRY_SIZE);
      hide Hex, HexRun;
      assert SlotOk(Slot(disk, g, s), 0);
    } else {
      BlankSlotOk(Slot(disk, g, s), 0);
    }
  }

  lemma TailEndBound(g: Geo, x: nat)
    requires g.page > 0
    ensures TailEnd(g, x) <= x + g.page
  {}

  // ----- recovery

  predicate Only(s: seq<bv8>, c: bv8) { forall i :: 0 <= i < |s| ==> s[i] == c }

  datatype Found = Found(head: nat, value: nat, valid: bool)

  /** The journal scan of init, from slot s on: the last entry that is not all zero before
      the first blank slot after one. */
  function Scan(disk: seq<bv8>, g: Geo, s: nat, f: Found): Found
    requires g.data <= |disk|
    decreases g.data - (g.journal + ENTRY_SIZE * s)
  {
    if g.journal + ENTRY_SIZE * s + ENTRY_SIZE > g.data then f
    else
      var slot := Slot(disk, g, s);
      if Only(slot, BLANK) && f.valid then f
      else Scan(disk, g, s + 1, if Only(slot, 0) then f else Found(s, StrToUl(slot), true))
  }

  /** The first blank byte from x on. */
  function Walk(disk: seq<bv8>, x: nat, end: nat): (r: nat)
    requires x <= end <= |disk|
    ensures x <= r <= end
    decreases end - x
  {
    if x == end || disk[x] == BLANK then x else Walk(disk, x + 1, end)
  }

  lemma {:induction false} ScanBound(disk: seq<bv8>, g: Geo, s: nat, f: Found, len: nat)
    requires g.data <= |disk| && JournalOk(disk, g, len) && f.value <= len
    ensures Scan(disk, g, s, f).value <= len
    decreases g.data - (g.journal + ENTRY_SIZE * s)
  {
    if g.journal + ENTRY_SIZE * s + ENTRY_SIZE <= g.data {
      var slot := Slot(disk, g, s);
      assert SlotOk(slot, len);
      assert slot[1] == 0 || slot[1] == BLANK || IsDigit(slot[1]);
      if !(Only(slot, BLANK) && f.valid) {
        ScanBound(disk, g, s + 1, if Only(slot, 0) then f else Found(s, StrToUl(slot), true), len);
      }
    }
  }

  lemma {:induction false} WalkStops(disk: seq<bv8>, x: nat, y: nat, end: nat)
    requires x <= y <= end <= |disk| && forall i :: x <= i < y ==> disk[i] != BLANK
    requires y == end || disk[y] == BLANK
    ensures Walk(disk, x, end) == y
    decreases y - x
  {
    if x < y {
      WalkStops(disk, x + 1, y, end);
    }
  }

  /** What init computes for dataEnd. */
  function RecoveredEnd(disk: seq<bv8>, g: Geo): nat
    requires g.data <= g.end <= |disk|
    requires g.data + Scan(disk, g, 0, Found(0, 0, false)).value <= g.end
  {
    Walk(disk, g.data + Scan(disk, g, 0, Found(0, 0, false)).value, g.end)
  }

  /** Whatever the journal says, recovery finds the true end of the log. */
  lemma RecoveryExact(disk: seq<bv8>, g: Geo, len: nat)
    requires LogInv(disk, g, len)
    ensures g.data <= g.end <= |disk| && g.data + Scan(disk, g, 0, Found(0, 0, false)).value <= g.end
    ensures RecoveredEnd(disk, g) == g.data + len
  {
    hide MetaBytes;
    ScanBound(disk, g, 0, Found(0, 0, false), len);
    hide Scan, SlotOk;
    WalkStops(disk, g.data + Scan(disk, g, 0, Found(0, 0, false)).value, g.data + len, g.end);
  }

  // ----- what each flash step does to a log

  /** Where x's page ends. */
  function PageEnd(g: Geo, x: nat): nat
    requires g.page > 0
  {
    RoundDown(x, g.page) + g.page
  }

  lemma JournalFrame(disk: seq<bv8>, disk': seq<bv8>, g: Geo, len: nat, len': nat)
    requires g.data <= |disk| == |disk'| && disk[..g.data] == disk'[..g.data] && JournalOk(disk, g, len) && len <= len'
    ensures JournalOk(disk', g, len')
  {
    assert forall i :: 0 <= i < g.data ==> disk'[i] == disk[..g.data][i] == disk[i];
    forall s: nat | g.journal + ENTRY_SIZE * s + ENTRY_SIZE <= g.data ensures SlotOk(Slot(disk', g, s), len') {
      assert SlotOk(Slot(disk, g, s), len);
      assert Slot(disk', g, s) == Slot(disk, g, s);
    }
  }

  lemma MetaFrame(disk: seq<bv8>, disk': seq<bv8>, g: Geo)
    requires |disk| == |disk'| && GeoOk(g, |disk|) && disk[..g.journal] == disk'[..g.journal]
    ensures MetaOk(disk, g) ==> MetaOk(disk', g)
  {
    SliceOfPrefix(disk, g.start, g.start + META_TEXT, g.journal);
    SliceOfPrefix(disk', g.start, g.start + META_TEXT, g.journal);
    hide Offset;
  }

  lemma SliceOfPrefix(s: seq<bv8>, lo: nat, hi: nat, n: nat)
    requires lo <= hi <= n <= |s|
    ensures s[..n][lo..hi] == s[lo..hi]
  {}

  /** Only the data changed, and it now holds len' bytes. */
  lemma LogInvFrame(disk: seq<bv8>, disk': seq<bv8>, g: Geo, len: nat, len': nat)
    requires LogInv(disk, g, len) && |disk| == |disk'| && disk[..g.data] == disk'[..g.data]
    requires len <= len' && g.data + len' <= g.end
    requires forall i :: g.data <= i < g.data + len' ==> disk'[i] != BLANK
    requires forall i :: g.data + len' <= i < TailEnd(g, g.data + len') ==> disk'[i] == BLANK
    ensures LogInv(disk', g, len')
  {
    assert disk[..g.data][..g.journal] == disk[..g.journal] && disk'[..g.data][..g.journal] == disk'[..g.journal];
    JournalFrame(disk, disk', g, len, len');
    MetaFrame(disk, disk', g);
    hide JournalOk, MetaBytes, TailEnd, Offset;
  }

  /** Erasing the page after the one the log ends in. */
  lemma EraseAhead(disk: seq<bv8>, g: Geo, len: nat)
    requires LogInv(disk, g, len) && PageEnd(g, g.data + len) < g.end
    ensures PageEnd(g, g.data + len) + g.page <= |disk|
    ensures var disk' := Erased(disk, PageEnd(g, g.data + len), g.page);
            && LogInv(disk', g, len) && Text(disk', g, len) == Text(disk, g, len) && disk'[..g.data] == disk[..g.data]
            && (forall i :: PageEnd(g, g.data + len) <= i < PageEnd(g, g.data + len) + g.page ==> disk'[i] == BLANK)
  {
    var np := PageEnd(g, g.data + len);
    var disk' := Erased(disk, np, g.page);
    assert disk'[..g.data] == disk[..g.data];
    assert Text(disk', g, len) == Text(disk, g, len);
    hide Offset, JournalOk, MetaBytes;
    LogInvFrame(disk, disk', g, len, len);
  }

  /** chunk is data, fits in the log and in the page, and if it fills the page the next one
      has been erased. */
  ghost predicate Writable(disk: seq<bv8>, g: Geo, len: nat, chunk: seq<bv8>)
    requires g.page > 0
  {
    var x := g.data + len;
    && (forall i :: 0 <= i < |chunk| ==> chunk[i] != BLANK)
    && x + |chunk| <= g.end && x + |chunk| <= PageEnd(g, x)
    && (x + |chunk| == PageEnd(g, x) < g.end ==>
          forall i :: PageEnd(g, x) <= i < PageEnd(g, x) + g.page && i < |disk| ==> disk[i] == BLANK)
  }

  /** Writing the next bytes of a line, cut short anywhere, makes the log that much longer. */
  lemma DataTear(disk: seq<bv8>, g: Geo, len: nat, chunk: seq<bv8>, j: nat)
    requires LogInv(disk, g, len) && Writable(disk, g, len, chunk) && j <= |chunk|
    ensures var disk' := Overwrite(disk, g.data + len, chunk[..j]);
            && LogInv(disk', g, len + j) && Text(disk', g, len + j) == Text(disk, g, len) + chunk[..j]
            && disk'[..g.data] == disk[..g.data]
  {
    hide LogInv, Overwrite, Text, Writable, TailEnd;
    ChunkPlaced(disk, g, len, chunk, j);
    LogInvFrame(disk, Overwrite(disk, g.data + len, chunk[..j]), g, len, len + j);
  }

  lemma ChunkPlaced(disk: seq<bv8>, g: Geo, len: nat, chunk: seq<bv8>, j: nat)
    requires LogInv(disk, g, len) && Writable(disk, g, len, chunk) && j <= |chunk|
    ensures g.page > 0 && g.data + len + j <= g.end <= |disk|
    ensures var disk' := Overwrite(disk, g.data + len, chunk[..j]);
            && |disk'| == |disk| && disk'[..g.data] == disk[..g.data]
            && Text(disk', g, len + j) == Text(disk, g, len) + chunk[..j]
            && (forall i :: g.data <= i < g.data + len + j ==> disk'[i] != BLANK)
            && (forall i :: g.data + len + j <= i < TailEnd(g, g.data + len + j) ==> disk'[i] == BLANK)
  {
    hide JournalOk, MetaBytes, Offset;
    TextGrows(disk, g, len, chunk[..j]);
    TailAfter(disk, g, len, chunk, j);
    hide TailEnd, PageEnd;
    var disk' := Overwrite(disk, g.data + len, chunk[..j]);
    assert disk'[..g.data] == disk[..g.data];
  }

  lemma TailAfter(disk: seq<bv8>, g: Geo, len: nat, chunk: seq<bv8>, j: nat)
    requires g.page > 0 && g.data + len + |chunk| <= g.end <= |disk| && Writable(disk, g, len, chunk) && j <= |chunk|
    requires forall i :: g.data + len <= i < TailEnd(g, g.data + len) ==> disk[i] == BLANK
    ensures var disk' := Overwrite(disk, g.data + len, chunk[..j]);
            forall i :: g.data + len + j <= i < TailEnd(g, g.data + len + j) ==> disk'[i] == BLANK
  {
    PageEndStep(g, g.data + len, j);
    hide TailEnd, PageEnd;
  }

  /** The end of the page, as one goes along it. */
  lemma PageEndStep(g: Geo, x: nat, j: nat)
    requires g.page > 0 && x + j <= PageEnd(g, x)
    ensures PageEnd(g, x + j) == if x + j < PageEnd(g, x) then PageEnd(g, x) else PageEnd(g, x) + g.page
    ensures TailEnd(g, x) == Min(PageEnd(g, x), g.end) && TailEnd(g, x + j) == Min(PageEnd(g, x + j), g.end)
  {
    OffsetStep(x, j, g.page);
  }

  lemma TextGrows(disk: seq<bv8>, g: Geo, len: nat, more: seq<bv8>)
    requires g.data + len + |more| <= |disk|
    ensures Text(Overwrite(disk, g.data + len, more), g, len + |more|) == Text(disk, g, len) + more
  {}

  /** Erasing a whole journal page. */
  lemma JournalErase(disk: seq<bv8>, g: Geo, len: nat, p: nat)
    requires LogInv(disk, g, len) && g.journal <= p && p + g.page <= g.data && Entries(p - g.journal)
    ensures var disk' := Erased(disk, p, g.page);
            LogInv(disk', g, len) && disk'[g.data..] == disk[g.data..] && disk'[..g.journal] == disk[..g.journal]
  {
    var disk' := Erased(disk, p, g.page);
    assert disk'[..g.journal] == disk[..g.journal];
    assert disk'[g.data..] == disk[g.data..];
    MetaFrame(disk, disk', g);
    SlotsErased(disk, g, len, p);
    hide Erased, Overwrite, JournalOk, MetaBytes, Offset;
    assert forall i :: g.data <= i < |disk| ==> disk'[i] == disk[i];
  }

  lemma SlotsErased(disk: seq<bv8>, g: Geo, len: nat, p: nat)
    requires g.data <= |disk| && JournalOk(disk, g, len) && Entries(g.page)
    requires g.journal <= p && p + g.page <= g.data && Entries(p - g.journal)
    ensures JournalOk(Erased(disk, p, g.page), g, len)
  {
    var disk' := Erased(disk, p, g.page);
    hide SlotOk;
    forall s: nat | g.journal + ENTRY_SIZE * s + ENTRY_SIZE <= g.data ensures SlotOk(Slot(disk', g, s), len) {
      if p <= g.journal + ENTRY_SIZE * s < p + g.page {
        SlotInside(ENTRY_SIZE * s, p - g.journal, g.page);
        BlankSlotOk(Slot(disk', g, s), len);
      } else {
        if g.journal + ENTRY_SIZE * s < p {
          SlotOutside(ENTRY_SIZE * s, p - g.journal);
        }
        assert Slot(disk', g, s) == Slot(disk, g, s);
      }
    }
  }

  lemma SlotInside(a: nat, p: nat, page: nat)
    requires Entries(a) && Entries(p) && Entries(page) && p <= a < p + page
    ensures a + ENTRY_SIZE <= p + page
  {}

  lemma SlotOutside(a: nat, p: nat)
    requires Entries(a) && Entries(p) && a < p
    ensures a + ENTRY_SIZE <= p
  {}

  /** Replacing part of one slot by something that leaves the slot in order. */
  lemma SlotUpdate(disk: seq<bv8>, g: Geo, len: nat, s: nat, part: seq<bv8>)
    requires LogInv(disk, g, len) && g.journal + ENTRY_SIZE * s + ENTRY_SIZE <= g.data && |part| <= ENTRY_SIZE
    requires SlotOk(part + Slot(disk, g, s)[|part|..], len)
    ensures var disk' := Overwrite(disk, g.journal + ENTRY_SIZE * s, part);
            LogInv(disk', g, len) && disk'[g.data..] == disk[g.data..] && disk'[..g.journal] == disk[..g.journal]
  {
    var a := g.journal + ENTRY_SIZE * s;
    var disk' := Overwrite(disk, a, part);
    assert disk'[..g.journal] == disk[..g.journal];
    assert disk'[g.data..] == disk[g.data..];
    MetaFrame(disk, disk', g);
    SlotsAfter(disk, g, len, s, part);
    hide Overwrite, JournalOk, MetaBytes, Offset;
    assert forall i :: g.data <= i < |disk| ==> disk'[i] == disk[i];
  }

  lemma SlotsAfter(disk: seq<bv8>, g: Geo, len: nat, s: nat, part: seq<bv8>)
    requires g.data <= |disk| && JournalOk(disk, g, len)
    requires g.journal + ENTRY_SIZE * s + ENTRY_SIZE <= g.data && |part| <= ENTRY_SIZE
    requires SlotOk(part + Slot(disk, g, s)[|part|..], len)
    ensures JournalOk(Overwrite(disk, g.journal + ENTRY_SIZE * s, part), g, len)
  {
    hide SlotOk;
    var disk' := Overwrite(disk, g.journal + ENTRY_SIZE * s, part);
    forall k: nat | g.journal + ENTRY_SIZE * k + ENTRY_SIZE <= g.data ensures SlotOk(Slot(disk', g, k), len) {
      if k == s {
        assert Slot(disk', g, k) == part + Slot(disk, g, s)[|part|..];
      } else {
        assert Slot(disk', g, k) == Slot(disk, g, k);
      }
    }
  }

  /** A cleared journal entry. */
  function Zeros(): seq<bv8> { [0, 0, 0, 0, 0, 0, 0, 0] }

  /** What may be written over a slot: an entry for no more than len bytes, or zeros. */
  ghost predicate Entry(entry: seq<bv8>, len: nat)
  {
    |entry| == ENTRY_SIZE && ((AllDigits(entry) && HexRun(entry, 0) <= len) || ContainsOnly(entry, 0))
  }

  /** Writing a slot, cut short anywhere, leaves a log of the same length. */
  lemma EntryHolds(disk: seq<bv8>, g: Geo, len: nat, s: nat, entry: seq<bv8>, j: nat)
    requires LogInv(disk, g, len) && g.journal + ENTRY_SIZE * s + ENTRY_SIZE <= g.data && Entry(entry, len)
             && j <= ENTRY_SIZE
    requires ClearsAll(disk, g.journal + ENTRY_SIZE * s, entry)
    ensures var disk' := Overwrite(disk, g.journal + ENTRY_SIZE * s, entry[..j]);
            LogInv(disk', g, len) && disk'[g.data..] == disk[g.data..] && disk'[..g.journal] == disk[..g.journal]
  {
    var slot := Slot(disk, g, s);
    assert SlotOk(slot, len);
    if ContainsOnly(entry, 0) {
      ZeroTear(slot, j, len);
      assert seq(j, i => 0 as bv8) == entry[..j];
    } else {
      forall i | 0 <= i < |slot| ensures Clears(slot[i], entry[i]) {
        assert slot[i] == disk[g.journal + ENTRY_SIZE * s + i];
      }
      EntryTear(slot, entry, j, len);
    }
    hide LogInv, SlotOk, Overwrite;
    SlotUpdate(disk, g, len, s, entry[..j]);
  }

  // ----- the journal while nothing goes wrong

  /** The number a journal entry records: the length rounded down to a block. */
  function Recorded(len: nat): nat { len / BLOCK * BLOCK }

  ghost predicate SamePage(g: Geo, s: nat, t: nat)
    requires g.page > 0
  {
    RoundDown(g.journal + ENTRY_SIZE * s, g.page) == RoundDown(g.journal + ENTRY_SIZE * t, g.page)
  }

  /** Exactly one entry is live, in slot head: before it zeros, after it blanks up to the end
      of the page, and beyond that page zeros or blanks. */
  ghost predicate CleanJournal(disk: seq<bv8>, g: Geo, head: nat, len: nat)
    requires g.page > 0 && g.data <= |disk|
  {
    forall s: nat :: g.journal + ENTRY_SIZE * s + ENTRY_SIZE <= g.data ==> CleanSlot(Slot(disk, g, s), g, s, head, len)
  }

  ghost predicate CleanSlot(slot: seq<bv8>, g: Geo, s: nat, head: nat, len: nat)
    requires g.page > 0
  {
    && (s == head ==> slot == Hex(Recorded(len), ENTRY_SIZE))
    && (s < head ==> ContainsOnly(slot, 0))
    && (s > head && SamePage(g, s, head) ==> ContainsOnly(slot, BLANK))
    && (s > head ==> ContainsOnly(slot, 0) || ContainsOnly(slot, BLANK))
  }

  /** Recovery from a clean journal finds its one live entry, and so has fewer than 256 bytes
      of data left to walk. */
  lemma {:induction false} CleanScan(disk: seq<bv8>, g: Geo, head: nat, len: nat, s: nat, f: Found)
    requires g.page > 0 && g.data <= |disk| && CleanJournal(disk, g, head, len) && Recorded(len) < Pow16(8)
    requires g.journal + ENTRY_SIZE * head + ENTRY_SIZE <= g.data
    requires if s <= head then !f.valid else f == Found(head, Recorded(len), true)
    ensures Scan(disk, g, s, f) == Found(head, Recorded(len), true)
    decreases g.data - (g.journal + ENTRY_SIZE * s)
  {
    hide Slot, CleanSlot, StrToUl, Only, Pow16;
    if g.journal + ENTRY_SIZE * s + ENTRY_SIZE <= g.data {
      var slot := Slot(disk, g, s);
      CleanSlotReads(slot, g, s, head, len);
      if !(Only(slot, BLANK) && f.valid) {
        CleanScan(disk, g, head, len, s + 1, if Only(slot, 0) then f else Found(s, StrToUl(slot), true));
      }
    }
  }

  lemma CleanSlotReads(slot: seq<bv8>, g: Geo, s: nat, head: nat, len: nat)
    requires g.page > 0 && |slot| == ENTRY_SIZE && CleanSlot(slot, g, s, head, len) && Recorded(len) < Pow16(8)
    ensures s == head ==> !Only(slot, BLANK) && !Only(slot, 0) && StrToUl(slot) == Recorded(len)
    ensures s < head ==> Only(slot, 0)
    ensures s > head ==> Only(slot, 0) || Only(slot, BLANK)
  {
    if s == head {
      HexRoundTrip(Recorded(len), ENTRY_SIZE);
      assert IsDigit(slot[0]) && IsDigit(slot[1]);
      hide SamePage, Recorded, Hex;
    }
  }

  /** A journal in which the next entry was written and the old one not yet zeroed: a state in
      which power may fail. */
  ghost predicate BothLive(disk: seq<bv8>, g: Geo, head: nat, entry: seq<bv8>, next: nat, entry': seq<bv8>)
    requires g.page > 0 && g.data <= |disk|
  {
    forall s: nat :: g.journal + ENTRY_SIZE * s + ENTRY_SIZE <= g.data ==>
      var slot := Slot(disk, g, s);
      if s == next then slot == entry'
      else if s == head then slot == entry
      else if s < next then ContainsOnly(slot, 0)
      else if s == next + 1 && next < head then ContainsOnly(slot, BLANK)
      else ContainsOnly(slot, 0) || ContainsOnly(slot, BLANK)
  }

  /** From such a journal the scan finds the new entry, whether it follows the old one or the
      journal has begun again: then there is a blank slot behind it, at which the scan stops. */
  lemma {:induction false} NewEntryFound(disk: seq<bv8>, g: Geo, head: nat, entry: seq<bv8>, next: nat,
                                         entry': seq<bv8>, s: nat, f: Found)
    requires g.page > 0 && g.data <= |disk| && BothLive(disk, g, head, entry, next, entry')
    requires AllDigits(entry) && AllDigits(entry') && |entry| == |entry'| == ENTRY_SIZE
    requires head + 1 == next || (next == 0 && head > 1)
    requires g.journal + ENTRY_SIZE * next + ENTRY_SIZE <= g.data
             && g.journal + ENTRY_SIZE * head + ENTRY_SIZE <= g.data
    requires if s <= next then !f.valid || (s == next && head < next && f.head == head)
             else f == Found(next, StrToUl(entry'), true) && (next < head ==> s == next + 1)
    ensures Scan(disk, g, s, f) == Found(next, StrToUl(entry'), true)
    decreases g.data - (g.journal + ENTRY_SIZE * s)
  {
    hide Slot, StrToUl, HexRun;
    if g.journal + ENTRY_SIZE * s + ENTRY_SIZE <= g.data {
      var slot := Slot(disk, g, s);
      assert s == next || s == head ==> IsDigit(slot[0]);
      if !(Only(slot, BLANK) && f.valid) {
        NewEntryFound(disk, g, head, entry, next, entry', s + 1,
                      if Only(slot, 0) then f else Found(s, StrToUl(slot), true));
      }
    }
  }

  lemma CleanRecovery(disk: seq<bv8>, g: Geo, head: nat, len: nat)
    requires LogInv(disk, g, len) && CleanJournal(disk, g, head, len) && |disk| <= 0x1_0000_0000
    requires g.journal + ENTRY_SIZE * head + ENTRY_SIZE <= g.data
    ensures Scan(disk, g, 0, Found(0, 0, false)) == Found(head, Recorded(len), true)
    ensures RecoveredEnd(disk, g) == g.data + len && len - Recorded(len) < BLOCK
  {
    assert Pow16(8) == 0x1_0000_0000 by { assert Pow16(4) == 0x1_0000; }
    CleanScan(disk, g, head, len, 0, Found(0, 0, false));
    RecoveryExact(disk, g, len);
  }

  function SlotAddress(g: Geo, s: nat): nat { g.journal + ENTRY_SIZE * s }

  /** The slot after head, wrapping round at the end of the journal. */
  function NextSlot(g: Geo, head: nat): nat
  {
    if SlotAddress(g, head + 1) == g.data then 0 else head + 1
  }

  /** Flash when the next slot is about to be written: if it starts a page, that was erased. */
  function Prepared(disk: seq<bv8>, g: Geo, head: nat): seq<bv8>
    requires g.page > 0 && GeoRoom(g, |disk|)
  {
    var a := SlotAddress(g, NextSlot(g, head));
    if Offset(SlotAddress(g, head + 1), g.page) == 0 && a + g.page <= |disk| then Erased(disk, a, g.page) else disk
  }

  ghost predicate GeoRoom(g: Geo, capacity: nat) { g.journal <= g.data <= capacity }

  lemma SlotOverwrite(disk: seq<bv8>, g: Geo, s: nat, entry: seq<bv8>, k: nat)
    requires SlotAddress(g, s) + ENTRY_SIZE <= |disk| && SlotAddress(g, k) + ENTRY_SIZE <= |disk|
             && |entry| == ENTRY_SIZE
    ensures Slot(Overwrite(disk, SlotAddress(g, s), entry), g, k) == if k == s then entry else Slot(disk, g, k)
  {}

  lemma SlotErased(disk: seq<bv8>, g: Geo, p: nat, k: nat)
    requires g.journal <= p && p + g.page <= |disk| && SlotAddress(g, k) + ENTRY_SIZE <= |disk|
    requires Entries(p - g.journal) && Entries(g.page)
    ensures var disk' := Erased(disk, p, g.page);
            if p <= SlotAddress(g, k) < p + g.page then ContainsOnly(Slot(disk', g, k), BLANK)
                else Slot(disk', g, k) == Slot(disk, g, k)
  {
    if p <= SlotAddress(g, k) < p + g.page {
      SlotInside(ENTRY_SIZE * k, p - g.journal, g.page);
    } else if SlotAddress(g, k) < p {
      SlotOutside(ENTRY_SIZE * k, p - g.journal);
    }
  }

  lemma {:induction false} OffsetOfSlots(x: nat, page: nat)
    requires page > 0 && Entries(page) && Entries(x)
    ensures Entries(Offset(x, page))
  {
    if x >= page {
      EntriesSum(x - page, page);
      hide Entries;
      OffsetOfSlots(x - page, page);
    }
  }

  /** Where the next slot lies: in head's page, or at the start of another page of the journal. */
  lemma NextSlotPlace(g: Geo, head: nat, capacity: nat)
    requires GeoOk(g, capacity) && SlotAddress(g, head) + ENTRY_SIZE <= g.data
    ensures var n := NextSlot(g, head); var p := SlotAddress(g, n);
            && p + ENTRY_SIZE <= g.data
            && (Offset(SlotAddress(g, head + 1), g.page) != 0 ==> n == head + 1 && SamePage(g, n, head))
            && (Offset(SlotAddress(g, head + 1), g.page) == 0 ==>
                  && Offset(p, g.page) == 0 && p + g.page <= g.data && Entries(p - g.journal)
                  && (n == head + 1 || (n == 0 && SlotAddress(g, head + 1) == g.data)))
  {
    if Offset(SlotAddress(g, head + 1), g.page) == 0 {
      NextSlotAhead(g, head, capacity);
    } else {
      NextSlotBeside(g, head, capacity);
    }
  }

  lemma NextSlotAhead(g: Geo, head: nat, capacity: nat)
    requires GeoOk(g, capacity) && SlotAddress(g, head) + ENTRY_SIZE <= g.data
             && Offset(SlotAddress(g, head + 1), g.page) == 0
    ensures var n := NextSlot(g, head); var p := SlotAddress(g, n);
            && p + ENTRY_SIZE <= g.data && Offset(p, g.page) == 0 && p + g.page <= g.data && Entries(p - g.journal)
            && (n == head + 1 || (n == 0 && SlotAddress(g, head + 1) == g.data))
  {
    JournalAligned(g, capacity);
    hide Offset;
    assert SlotAddress(g, head + 1) == SlotAddress(g, head) + ENTRY_SIZE;
    if SlotAddress(g, head + 1) < g.data {
      MultiplesApart(SlotAddress(g, head + 1), g.data, g.page);
    }
  }

  lemma NextSlotBeside(g: Geo, head: nat, capacity: nat)
    requires GeoOk(g, capacity) && SlotAddress(g, head) + ENTRY_SIZE <= g.data
             && Offset(SlotAddress(g, head + 1), g.page) != 0
    ensures NextSlot(g, head) == head + 1 && SlotAddress(g, head + 1) + ENTRY_SIZE <= g.data
    ensures SamePage(g, head + 1, head)
            && Offset(SlotAddress(g, head + 1), g.page) == Offset(SlotAddress(g, head), g.page) + ENTRY_SIZE
  {
    JournalAligned(g, capacity);
    RoomForSlot(g.data - g.journal, head + 1);
    var a := SlotAddress(g, head);
    SlotInUnit(a, g.page);
    assert a + ENTRY_SIZE == SlotAddress(g, head + 1);
    hide Offset, RoundDown, Entries;
  }

  /** The slot after the one at a: on the same page, or at the start of the next. */
  lemma SlotInUnit(a: nat, page: nat)
    requires page > 0 && Entries(page) && Entries(a)
    ensures if Offset(a, page) + ENTRY_SIZE == page then Offset(a + ENTRY_SIZE, page) == 0
            else && Offset(a + ENTRY_SIZE, page) == Offset(a, page) + ENTRY_SIZE
                 && RoundDown(a + ENTRY_SIZE, page) == RoundDown(a, page)
  {
    OffsetOfSlots(a, page);
    OffsetStep(a, ENTRY_SIZE, page);
    hide Offset;
  }

  lemma RoomForSlot(n: nat, s: nat)
    requires Entries(n) && ENTRY_SIZE * s <= n && ENTRY_SIZE * s != n
    ensures ENTRY_SIZE * s + ENTRY_SIZE <= n
  {}

  lemma JournalAligned(g: Geo, capacity: nat)
    requires GeoOk(g, capacity)
    ensures Offset(g.journal, g.page) == 0 && Entries(g.journal) && Words(g.journal)
    ensures Offset(g.journal, BLOCK) == 0 && Offset(g.data, BLOCK) == 0
  {
    OffsetStep(g.start, g.page, g.page);
    MultipleOfMultiple(g.journal, g.page, BLOCK);
    MultipleOfMultiple(g.data, g.page, BLOCK);
    MultipleOfSlots(g.journal, g.page);
  }

  lemma {:induction false} MultipleOfSlots(a: nat, b: nat)
    requires b > 0 && Offset(a, b) == 0 && Entries(b)
    ensures Entries(a)
  {
    if a >= b {
      EntriesSum(a - b, b);
      hide Entries;
      MultipleOfSlots(a - b, b);
    }
  }

  /** Slots on the page that starts at p are those within a page length of it. */
  lemma OnPage(g: Geo, capacity: nat, n: nat, s: nat)
    requires GeoOk(g, capacity) && Offset(SlotAddress(g, n), g.page) == 0
    ensures SamePage(g, s, n) <==> SlotAddress(g, n) <= SlotAddress(g, s) < SlotAddress(g, n) + g.page
  {
    var a, p := SlotAddress(g, s), SlotAddress(g, n);
    RoundedDown(a, g.page);
    if p <= a < p + g.page {
      UnitAbove(a, p, g.page);
      if p < RoundDown(a, g.page) {
        MultiplesApart(p, RoundDown(a, g.page), g.page);
      }
    }
  }

  /** Moving the live entry on keeps the journal clean, over page ends and wrap-around, if
      the journal has at least two pages. */
  lemma CleanStep(disk: seq<bv8>, g: Geo, head: nat, len: nat, len': nat, zeros: seq<bv8>)
    requires LogInv(disk, g, len') && CleanJournal(disk, g, head, len) && g.journal + 2 * g.page <= g.data
    requires SlotAddress(g, head) + ENTRY_SIZE <= g.data && |zeros| == ENTRY_SIZE && ContainsOnly(zeros, 0)
    ensures SlotAddress(g, NextSlot(g, head)) + ENTRY_SIZE <= g.data
    ensures var n := NextSlot(g, head); var entry := Hex(Recorded(len'), ENTRY_SIZE);
            var disk1 := Prepared(disk, g, head); var disk2 := Overwrite(disk1, SlotAddress(g, n), entry);
            && |disk1| == |disk| && ClearsAll(disk1, SlotAddress(g, n), entry)
            && CleanJournal(Overwrite(disk2, SlotAddress(g, head), zeros), g, n, len')
  {
    NextSlotPlace(g, head, |disk|);
    hide NextSlot, Prepared, SlotAddress, Offset, Overwrite, LogInv, CleanSlot, MetaBytes, SamePage;
    var n := NextSlot(g, head);
    var entry := Hex(Recorded(len'), ENTRY_SIZE);
    var disk1 := Prepared(disk, g, head);
    PreparedLength(disk, g, head);
    var disk3 := Overwrite(Overwrite(disk1, SlotAddress(g, n), entry), SlotAddress(g, head), zeros);
    PreparedSlot(disk, g, head, len, n);
    BlankClears(disk1, g, n, entry);
    forall k: nat | g.journal + ENTRY_SIZE * k
        + ENTRY_SIZE <= g.data ensures CleanSlot(Slot(disk3, g, k), g, k, n, len') {
      StepSlot(disk, g, head, len, len', zeros, k);
    }
  }

  lemma PreparedLength(disk: seq<bv8>, g: Geo, head: nat)
    requires g.page > 0 && GeoRoom(g, |disk|)
    ensures |Prepared(disk, g, head)| == |disk|
  {}

  lemma BlankClears(disk: seq<bv8>, g: Geo, s: nat, entry: seq<bv8>)
    requires SlotAddress(g, s) + ENTRY_SIZE <= |disk| && |entry| == ENTRY_SIZE && ContainsOnly(Slot(disk, g, s), BLANK)
    ensures ClearsAll(disk, SlotAddress(g, s), entry)
  {
    assert forall i :: 0 <= i < ENTRY_SIZE ==> Slot(disk, g, s)[i] == disk[SlotAddress(g, s) + i];
  }

  lemma StepSlot(disk: seq<bv8>, g: Geo, head: nat, len: nat, len': nat, zeros: seq<bv8>, k: nat)
    requires GeoOk(g, |disk|) && CleanJournal(disk, g, head, len) && g.journal + 2 * g.page <= g.data
    requires SlotAddress(g, head) + ENTRY_SIZE <= g.data && |zeros| == ENTRY_SIZE && ContainsOnly(zeros, 0)
    requires SlotAddress(g, k) + ENTRY_SIZE <= g.data
    ensures var n := NextSlot(g, head); var entry := Hex(Recorded(len'), ENTRY_SIZE);
            var disk1 := Prepared(disk, g, head);
            && SlotAddress(g, n) + ENTRY_SIZE <= g.data && |disk1| == |disk|
            && CleanSlot(Slot(Overwrite(Overwrite(disk1, SlotAddress(g, n), entry), SlotAddress(g, head), zeros), g, k),
                         g, k, n, len')
  {
    NextSlotPlace(g, head, |disk|);
    var n := NextSlot(g, head);
    var entry := Hex(Recorded(len'), ENTRY_SIZE);
    var disk1 := Prepared(disk, g, head);
    SlotOverwrite(disk1, g, n, entry, k);
    SlotOverwrite(Overwrite(disk1, SlotAddress(g, n), entry), g, head, zeros, k);
    PreparedSlot(disk, g, head, len, k);
    hide NextSlot, Prepared, Offset, Overwrite, CleanJournal, Slot;
  }

  lemma PreparedSlot(disk: seq<bv8>, g: Geo, head: nat, len: nat, k: nat)
    requires GeoOk(g, |disk|) && CleanJournal(disk, g, head, len) && g.journal + 2 * g.page <= g.data
    requires SlotAddress(g, head) + ENTRY_SIZE <= g.data && SlotAddress(g, k) + ENTRY_SIZE <= g.data
    ensures var n := NextSlot(g, head); var slot := Slot(Prepared(disk, g, head), g, k);
            && n != head
            && (k == n ==> ContainsOnly(slot, BLANK))
            && (k < n && k != head ==> ContainsOnly(slot, 0))
            && (k > n && SamePage(g, k, n) ==> ContainsOnly(slot, BLANK) && k != head)
            && (k > n && k != head ==> ContainsOnly(slot, 0) || ContainsOnly(slot, BLANK))
  {
    NextSlotPlace(g, head, |disk|);
    assert CleanSlot(Slot(disk, g, k), g, k, head, len);
    var n := NextSlot(g, head);
    if Offset(SlotAddress(g, head + 1), g.page) == 0 {
      SlotErased(disk, g, SlotAddress(g, n), k);
      OnPage(g, |disk|, n, k);
    }
    hide Offset, Overwrite, MetaBytes;
  }

  /** When power fails between the two writes of an update, init finds the new entry. */
  lemma UpdateCut(disk: seq<bv8>, g: Geo, head: nat, len: nat, len': nat)
    requires LogInv(disk, g, len') && CleanJournal(disk, g, head, len) && g.journal + 2 * g.page <= g.data
    requires SlotAddress(g, head) + ENTRY_SIZE <= g.data && len < 0x1_0000_0000 && len' < 0x1_0000_0000
    ensures SlotAddress(g, NextSlot(g, head)) + ENTRY_SIZE <= g.data
    ensures var n := NextSlot(g, head); var disk1 := Prepared(disk, g, head);
            |disk1| == |disk| && Scan(Overwrite(disk1, SlotAddress(g, n), Hex(Recorded(len'), ENTRY_SIZE)), g, 0,
                                      Found(0, 0, false)) == Found(n, len' / 256 * 256, true)
  {
    assert Pow16(8) == 0x1_0000_0000 by { assert Pow16(4) == 0x1_0000; }
    NextSlotPlace(g, head, |disk|);
    PreparedLength(disk, g, head);
    HexRoundTrip(Recorded(len), ENTRY_SIZE);
    HexRoundTrip(Recorded(len'), ENTRY_SIZE);
    LastSlotFar(g, head, |disk|);
    hide NextSlot, Prepared, SlotAddress, Offset, Overwrite, LogInv, CleanSlot, MetaBytes, SamePage, Hex, HexRun;
    var n, entry, entry' := NextSlot(g, head), Hex(Recorded(len), ENTRY_SIZE), Hex(Recorded(len'), ENTRY_SIZE);
    var disk2 := Overwrite(Prepared(disk, g, head), SlotAddress(g, n), entry');
    CutSlots(disk, g, head, len, entry');
    EntryNumber(entry', Recorded(len'));
    NewEntryFound(disk2, g, head, entry, n, entry', 0, Found(0, 0, false));
  }

  lemma EntryNumber(entry: seq<bv8>, n: nat)
    requires |entry| == ENTRY_SIZE && AllDigits(entry) && HexRun(entry, 0) == n
    ensures StrToUl(entry) == n
  {
    assert IsDigit(entry[1]);
  }

  /** The journal begins again only after many slots. */
  lemma LastSlotFar(g: Geo, head: nat, capacity: nat)
    requires GeoOk(g, capacity) && SlotAddress(g, head) + ENTRY_SIZE <= g.data
    ensures NextSlot(g, head) == 0 ==> head > 1
    ensures NextSlot(g, head) == 0 || NextSlot(g, head) == head + 1
  {
    PageIsLarge(g.page);
    hide Offset;
  }

  lemma PageIsLarge(page: nat)
    requires page > 0 && Offset(page, BLOCK) == 0
    ensures page >= BLOCK
  {}

  lemma CutSlots(disk: seq<bv8>, g: Geo, head: nat, len: nat, entry': seq<bv8>)
    requires GeoOk(g, |disk|) && CleanJournal(disk, g, head, len) && g.journal + 2 * g.page <= g.data
    requires SlotAddress(g, head) + ENTRY_SIZE <= g.data && |entry'| == ENTRY_SIZE
    ensures SlotAddress(g, NextSlot(g, head)) + ENTRY_SIZE <= g.data && |Prepared(disk, g, head)| == |disk|
    ensures var n := NextSlot(g, head);
            BothLive(Overwrite(Prepared(disk, g, head), SlotAddress(g, n), entry'), g, head,
                     Hex(Recorded(len), ENTRY_SIZE), n, entry')
  {
    NextSlotPlace(g, head, |disk|);
    PreparedLength(disk, g, head);
    LastSlotFar(g, head, |disk|);
    hide NextSlot, Prepared, Offset, Overwrite, CleanSlot, SamePage, Hex;
    var n, disk1 := NextSlot(g, head), Prepared(disk, g, head);
    forall s: nat | g.journal + ENTRY_SIZE * s + ENTRY_SIZE <= g.data
      ensures var slot := Slot(Overwrite(disk1, SlotAddress(g, n), entry'), g, s);
              if s == n then slot == entry'
              else if s == head then slot == Hex(Recorded(len), ENTRY_SIZE)
              else if s < n then ContainsOnly(slot, 0)
              else if s == n + 1 && n < head then ContainsOnly(slot, BLANK)
              else ContainsOnly(slot, 0) || ContainsOnly(slot, BLANK)
    {
      SlotOverwrite(disk1, g, n, entry', s);
      PreparedSlot(disk, g, head, len, s);
      HeadKept(disk, g, head, len);
      SecondSlot(g, head, |disk|, s);
    }
  }

  lemma HeadKept(disk: seq<bv8>, g: Geo, head: nat, len: nat)
    requires GeoOk(g, |disk|) && CleanJournal(disk, g, head, len) && g.journal + 2 * g.page <= g.data
    requires SlotAddress(g, head) + ENTRY_SIZE <= g.data
    ensures |Prepared(disk, g, head)| == |disk|
            && Slot(Prepared(disk, g, head), g, head) == Hex(Recorded(len), ENTRY_SIZE)
  {
    NextSlotPlace(g, head, |disk|);
    var n := NextSlot(g, head);
    assert CleanSlot(Slot(disk, g, head), g, head, head, len);
    if Offset(SlotAddress(g, head + 1), g.page) == 0 {
      SlotErased(disk, g, SlotAddress(g, n), head);
    }
    hide Offset, Overwrite, Hex;
  }

  /** If the journal begins again, its second slot is on the page that was erased. */
  lemma SecondSlot(g: Geo, head: nat, capacity: nat, s: nat)
    requires GeoOk(g, capacity) && SlotAddress(g, head) + ENTRY_SIZE <= g.data
    ensures NextSlot(g, head) == 0 && s == 1 ==> SamePage(g, s, 0)
  {
    if NextSlot(g, head) == 0 && s == 1 {
      PageIsLarge(g.page);
      JournalAligned(g, capacity);
      OnPage(g, capacity, 0, 1);
      hide Offset;
    }
  }

  // ----- column headings, in the rest of the metadata page

  function HeadingBase(g: Geo): nat { g.start + META_SIZE }

  /** z zero bytes, then the heading text h, then blanks up to the journal. */
  ghost predicate HeadingBlock(disk: seq<bv8>, g: Geo, z: nat, h: seq<bv8>)
  {
    var a := HeadingBase(g) + z;
    && a + |h| < g.journal <= |disk|
    && (forall i :: HeadingBase(g) <= i < a ==> disk[i] == 0)
    && disk[a..a + |h|] == h && Storable(h)
    && BlankBetween(disk, a + |h|, g.journal)
  }

  /** What init finds is determined by the flash. */
  lemma HeadingsUnique(disk: seq<bv8>, g: Geo, z: nat, h: seq<bv8>, z': nat, h': seq<bv8>)
    requires HeadingBlock(disk, g, z, h) && HeadingBlock(disk, g, z', h')
    ensures z == z' && h == h'
  {
    FirstByte(disk, g, z, h);
    FirstByte(disk, g, z', h');
    HeadingByte(disk, g, z, h, HeadingBase(g) + z + Min(|h|, |h'|));
    HeadingByte(disk, g, z', h', HeadingBase(g) + z + Min(|h|, |h'|));
  }

  /** A byte of the heading area is zero, text or blank, by where it lies. */
  lemma HeadingByte(disk: seq<bv8>, g: Geo, z: nat, h: seq<bv8>, x: nat)
    requires HeadingBlock(disk, g, z, h) && HeadingBase(g) <= x <= HeadingBase(g) + z + |h|
    ensures disk[x] == 0 <==> x < HeadingBase(g) + z
    ensures disk[x] == BLANK <==> x == HeadingBase(g) + z + |h|
  {
    var a := HeadingBase(g) + z;
    if a <= x < a + |h| {
      assert disk[a..a + |h|][x - a] == h[x - a];
    }
  }

  lemma FirstByte(disk: seq<bv8>, g: Geo, z: nat, h: seq<bv8>)
    requires HeadingBlock(disk, g, z, h)
    ensures HeadingBase(g) + z < |disk| && disk[HeadingBase(g) + z] != 0
  {
    if h != [] {
      assert disk[HeadingBase(g) + z..HeadingBase(g) + z + |h|][0] == h[0];
    }
  }

  /** What n zero bytes leave of a text they are written over. */
  function Rest(h: seq<bv8>, n: nat): (r: seq<bv8>)
    ensures n == |h| ==> r == []
    ensures n == 0 ==> r == h
  {
    h[Min(n, |h|)..]
  }

  /** The text h sets no bit where it is written over what is there. */
  predicate PrintsOver(there: seq<bv8>, h: seq<bv8>)
  {
    forall i :: 0 <= i < |there| && i < |h| ==> Clears(there[i], h[i])
  }

  /** What is there once h was written over it: flash takes all of it, or none. */
  function Overprinted(there: seq<bv8>, h: seq<bv8>): (r: seq<bv8>)
    ensures there == [] ==> r == h
  {
    if PrintsOver(there, h) then h + Rest(there, |h|) else there
  }

  /** Zeros over the text, however many. */
  lemma HeadingZeroed(disk: seq<bv8>, g: Geo, z: nat, h: seq<bv8>, zeros: seq<bv8>)
    requires HeadingBlock(disk, g, z, h) && ContainsOnly(zeros, 0) && HeadingBase(g) + z + |zeros| < g.journal
    ensures var a := HeadingBase(g) + z;
            ClearsAll(disk, a, zeros)
            && HeadingBlock(Overwrite(disk, a, zeros), g, z + |zeros|, Rest(h, |zeros|))
  {
    var a, n := HeadingBase(g) + z, Min(|zeros|, |h|);
    var disk' := Overwrite(disk, a, zeros);
    ZeroClears(disk, a, zeros);
    assert disk'[a + n..a + |h|] == disk[a..a + |h|][n..] || n < |zeros|;
    forall i | HeadingBase(g) <= i < a + |zeros| ensures disk'[i] == 0 {
      if a <= i {
        assert disk'[i] == zeros[i - a];
      }
    }
    hide ClearsAll;
  }

  lemma ZeroClears(disk: seq<bv8>, a: nat, zeros: seq<bv8>)
    requires a + |zeros| <= |disk| && ContainsOnly(zeros, 0)
    ensures ClearsAll(disk, a, zeros)
  {
    forall i | 0 <= i < |zeros| ensures Clears(disk[a + i], zeros[i]) {
      assert zeros[i] == 0;
    }
  }

  /** The bytes of the text, and blanks behind it. */
  lemma HeadingBytes(disk: seq<bv8>, g: Geo, z: nat, h: seq<bv8>, n: nat)
    requires HeadingBlock(disk, g, z, h) && HeadingBase(g) + z + n < g.journal
    ensures var a := HeadingBase(g) + z;
            && (forall x :: a <= x < a + n ==> disk[x] == if x < a + |h| then h[x - a] else BLANK)
            && (forall x :: a <= x < a + |h| ==> disk[x] == h[x - a])
  {
    var a := HeadingBase(g) + z;
    assert forall x :: a <= x < a + |h| ==> disk[x] == disk[a..a + |h|][x - a];
  }

  /** New text written where old text, or none, begins. */
  lemma HeadingTaken(disk: seq<bv8>, g: Geo, z: nat, h: seq<bv8>, h': seq<bv8>)
    requires HeadingBlock(disk, g, z, h) && HeadingBase(g) + z + |h'| < g.journal && Storable(h')
    ensures var a := HeadingBase(g) + z;
            && (ClearsAll(disk, a, h') <==> PrintsOver(h, h'))
            && (PrintsOver(h, h') ==> HeadingBlock(Overwrite(disk, a, h'), g, z, Overprinted(h, h')))
  {
    HeadingBytes(disk, g, z, h, |h'|);
    PrintsAt(disk, HeadingBase(g) + z, h, h');
    if PrintsOver(h, h') {
      TextPrinted(disk, g, z, h, h');
    }
  }

  lemma PrintsAt(disk: seq<bv8>, a: nat, h: seq<bv8>, h': seq<bv8>)
    requires a + |h'| <= |disk|
             && forall x :: a <= x < a + |h'| ==> disk[x] == if x < a + |h| then h[x - a] else BLANK
    ensures ClearsAll(disk, a, h') <==> PrintsOver(h, h')
  {
    if PrintsOver(h, h') {
      forall i | 0 <= i < |h'| ensures Clears(disk[a + i], h'[i]) {
        assert disk[a + i] == if i < |h| then h[i] else BLANK;
      }
    }
    if ClearsAll(disk, a, h') {
      forall i | 0 <= i < |h| && i < |h'| ensures Clears(h[i], h'[i]) {
        assert disk[a + i] == h[i];
      }
    }
  }

  lemma TextPrinted(disk: seq<bv8>, g: Geo, z: nat, h: seq<bv8>, h': seq<bv8>)
    requires HeadingBlock(disk, g, z, h) && HeadingBase(g) + z + |h'| < g.journal && Storable(h') && PrintsOver(h, h')
    ensures HeadingBlock(Overwrite(disk, HeadingBase(g) + z, h'), g, z, Overprinted(h, h'))
  {
    HeadingBytes(disk, g, z, h, |h'|);
    var a, r := HeadingBase(g) + z, Overprinted(h, h');
    var disk' := Overwrite(disk, a, h');
    TextAt(disk, a, h, h');
    assert forall i :: 0 <= i < |r| ==> r[i] == if i < |h'| then h'[i] else h[i];
    hide PrintsOver, Overwrite, Overprinted;
  }

  lemma TextAt(disk: seq<bv8>, a: nat, h: seq<bv8>, h': seq<bv8>)
    requires a + |h'| <= |disk| && a + |h| <= |disk| && PrintsOver(h, h')
             && forall x :: a <= x < a + |h| ==> disk[x] == h[x - a]
    ensures var r := Overprinted(h, h'); a + |r| <= |disk| && Overwrite(disk, a, h')[a..a + |r|] == r
  {
    var r, disk' := Overprinted(h, h'), Overwrite(disk, a, h');
    assert forall i :: 0 <= i < |r| ==> r[i] == if i < |h'| then h'[i] else h[i];
    hide PrintsOver, Overprinted, Overwrite;
    forall i | 0 <= i < |r| ensures disk'[a..a + |r|][i] == r[i] {
      assert disk'[a + i] == if i < |h'| then h'[i] else disk[a + i];
    }
  }

  /** Nothing but zeros before a text that is not at the base: there is no room to write. */
  lemma ZerosRefuse(disk: seq<bv8>, g: Geo, z: nat, h: seq<bv8>, h': seq<bv8>)
    requires HeadingBlock(disk, g, z, h) && z > 0 && h' != [] && Storable(h') && HeadingBase(g) + |h'| <= |disk|
    ensures !ClearsAll(disk, HeadingBase(g), h')
  {
    assert disk[HeadingBase(g) + 0] == 0;
    if Clears(0, h'[0]) {
      ClearsIsAnd(0, h'[0]);
    }
  }

  /** The headings on flash, behind z zeros, once endRow has stored h': as many zeros as there
      are known bytes are written from position at on, and the text behind them. */
  function Replaced(z: nat, h: seq<bv8>, at: int, known: nat, h': seq<bv8>): (nat, seq<bv8>)
  {
    if at == z then (z + known, Overprinted(Rest(h, known), h')) else (z, h)
  }

  /** The first change after init, which knows the text it found, is stored if and only if
      there was a text, or nothing at all. */
  lemma FirstChange(z: nat, h: seq<bv8>, h': seq<bv8>)
    requires h' != []
    ensures Replaced(z, h, if h == [] then 0 else z, |h|, h').1 == h' <==> h != [] || z == 0
  {}
}
