/** What a power failure leaves of MicroBitLog while clear is formatting the disk. */
module LogClear {
  import opened Arith
  import opened Nor
  import opened UsbFlash
  import opened FSCache
  import opened LogFormat

  /** No log is recognised at power-up. */
  predicate NoLog(img: seq<bv8>, page: nat)
  {
    page > 0 && StartAddress(page) + META_SIZE <= |img| && !Present(img, page)
  }

  /** A log of this geometry is recognised, and there is nothing in it and no heading. */
  ghost predicate EmptyAt(img: seq<bv8>, g: Geo)
  {
    && g.page > 0 && StartAddress(g.page) + META_SIZE <= |img| && Present(img, g.page) && ReadGeo(img, g.page) == g
    && LogInv(img, g, 0) && HeadingBlock(img, g, 0, [])
  }

  /** Metadata, headings, journal and data are as they were. */
  predicate SameLog(img: seq<bv8>, before: seq<bv8>, g: Geo)
  {
    g.start <= g.end <= |img| == |before| && img[g.start..g.end] == before[g.start..g.end]
  }

  ghost predicate Clearing(img: seq<bv8>, before: seq<bv8>, g: Geo)
  {
    SameLog(img, before, g) || NoLog(img, g.page) || EmptyAt(img, g)
  }

  ghost predicate AllClearing(images: seq<seq<bv8>>, lo: nat, before: seq<bv8>, g: Geo)
  {
    forall k :: lo <= k < |images| ==> Clearing(images[k], before, g)
  }

  lemma ClearingJoin(images: seq<seq<bv8>>, mid: seq<seq<bv8>>, lo: nat, before: seq<bv8>, g: Geo)
    requires lo <= |mid| && mid <= images && AllClearing(mid, lo, before, g) && AllClearing(images, |mid|, before, g)
    ensures AllClearing(images, lo, before, g)
  {
    hide Clearing;
    forall k | lo <= k < |images| ensures Clearing(images[k], before, g) {
      if k < |mid| {
        assert images[k] == mid[k];
      }
    }
  }

  /** What init needs to find on a disk: a log in some state, and its headings, unless there
      is none. */
  ghost predicate Startable(disk: seq<bv8>, page: nat, g: Geo, text: seq<bv8>, z: nat, h: seq<bv8>)
  {
    && page > 0 && StartAddress(page) + META_SIZE <= |disk|
    && (Present(disk, page) ==>
        g == ReadGeo(disk, page) && HoldsLog(disk, g, text) && HeadingBlock(disk, g, z, h))
  }

  /** Power may fail at any time: what init finds then is the log and the headings that were
      there, or no log, or an empty one without headings. */
  lemma ClearingOutcome(img: seq<bv8>, before: seq<bv8>, g: Geo, g0: Geo, text: seq<bv8>, z: nat, h: seq<bv8>)
    requires Clearing(img, before, g) && GeoOk(g, |before|) && |before| < 0x1_0000_0000
             && g.start == StartAddress(g.page)
    requires Startable(before, g.page, g0, text, z, h)
    ensures || (Present(before, g.page) && Present(img, g.page) && Startable(img, g.page, g0, text, z, h))
            || NoLog(img, g.page)
            || (Present(img, g.page) && Startable(img, g.page, g, [], 0, []))
  {
    hide Scan, MetaBytes, Offset, StrToUl, StartAddress, TailEnd, HeadingBlock;
    if SameLog(img, before, g) {
      SameBytes(img, before, g);
      SamePresent(img, before, g);
      if Present(before, g.page) {
        SameEnd(before, g0, g, |text|);
        SameKept(img, before, g0, |text|);
        HeadingsSame(img, before, g0, z, h);
      }
    }
  }

  /** Where a log ends is determined by the disk. */
  lemma SameEnd(disk: seq<bv8>, g0: Geo, g: Geo, len: nat)
    requires LogInv(disk, g0, len) && GeoOk(g, |disk|) && g0.page == g.page
    ensures g0.end == g.end
  {}

  lemma HeadingsSame(img: seq<bv8>, before: seq<bv8>, g: Geo, z: nat, h: seq<bv8>)
    requires HeadingBlock(before, g, z, h) && |img| == |before|
             && forall i :: g.start <= i < g.journal ==> img[i] == before[i]
    ensures HeadingBlock(img, g, z, h)
  {
    HeadingBytes(before, g, z, h, |h|);
    var a := HeadingBase(g) + z;
    assert img[a..a + |h|] == h;
  }

  lemma SameBytes(img: seq<bv8>, before: seq<bv8>, g: Geo)
    requires SameLog(img, before, g)
    ensures forall i :: g.start <= i < g.end ==> img[i] == before[i]
  {
    assert forall i :: g.start <= i < g.end ==>
          img[i] == img[g.start..g.end][i - g.start] == before[g.start..g.end][i - g.start];
  }

  lemma SamePresent(img: seq<bv8>, before: seq<bv8>, g: Geo)
    requires |img| == |before| && g.page > 0 && g.start == StartAddress(g.page)
             && g.start + META_SIZE <= g.end <= |before|
    requires forall i :: g.start <= i < g.end ==> img[i] == before[i]
    ensures Present(img, g.page) == Present(before, g.page) && ReadGeo(img, g.page) == ReadGeo(before, g.page)
  {
    hide StrToUl, StartAddress;
    assert img[g.start..g.start + META_SIZE] == before[g.start..g.start + META_SIZE];
  }

  lemma SameKept(img: seq<bv8>, before: seq<bv8>, g: Geo, len: nat)
    requires LogInv(before, g, len) && |img| == |before| && forall i :: g.start <= i < g.end ==> img[i] == before[i]
    ensures LogInv(img, g, len) && Text(img, g, len) == Text(before, g, len)
  {
    hide SlotOk, MetaBytes, Offset;
    assert img[g.start..g.start + META_TEXT] == before[g.start..g.start + META_TEXT];
    assert Text(img, g, len) == Text(before, g, len);
    forall s: nat | g.journal + ENTRY_SIZE * s + ENTRY_SIZE <= g.data ensures SlotOk(Slot(img, g, s), len) {
      assert SlotOk(Slot(before, g, s), len);
      assert Slot(img, g, s) == Slot(before, g, s);
    }
  }

  /** Blank metadata are not those of a log. */
  lemma BlankNoLog(img: seq<bv8>, g: Geo)
    requires g.page > 0 && g.start == StartAddress(g.page) && g.start + META_SIZE <= |img| && img[g.start] == BLANK
    ensures NoLog(img, g.page)
  {
    hide StrToUl, StartAddress;
    assert img[g.start..g.start + META_SIZE][..17][0] == BLANK != VERSION[..17][0];
  }

  // ----- the steps of clear

  lemma EndClearing(images: seq<seq<bv8>>, before: seq<bv8>, g: Geo, zeros: seq<bv8>)
    requires GeoOk(g, |before|) && |zeros| == 4 && Words(|zeros|)
    ensures AllClearing(images + BurnImages(before, g.end, zeros), |images|, before, g)
    ensures SameLog(Burn(before, g.end, zeros), before, g)
  {
    hide Offset, Burn, BurnImages, Words;
    var all := images + BurnImages(before, g.end, zeros);
    forall k | |images| <= k < |all| ensures Clearing(all[k], before, g) {
      BurnImagesTorn(before, g.end, zeros, k - |images|);
      var j :| 0 <= j <= |zeros| && all[k] == Burn(before, g.end, zeros[..j]);
      EndBurnt(before, g, zeros[..j]);
    }
    EndBurnt(before, g, zeros);
  }

  lemma EndBurnt(before: seq<bv8>, g: Geo, zeros: seq<bv8>)
    requires g.start <= g.end && g.end + |zeros| <= |before|
    ensures SameLog(Burn(before, g.end, zeros), before, g)
  {
    hide Burn;
    var img := Burn(before, g.end, zeros);
    assert forall i :: g.start <= i < g.end ==> img[i] == before[i];
  }

  /** Erasing page by page: up to the metadata nothing has happened to the log, and then it is
      not recognised any more. */
  lemma PagesClearing(disk: seq<bv8>, marked: seq<bv8>, before: seq<bv8>, g: Geo, top: nat)
    requires GeoOk(g, |before|) && g.start == StartAddress(g.page) && SameLog(marked, before, g)
    requires top <= |marked| && disk == Erased(marked, 0, top) && Offset(top, g.page) == 0
    ensures Clearing(disk, before, g)
  {
    hide Offset, Erased, Overwrite, StartAddress;
    ErasedPoints(marked, 0, top);
    if top <= g.start {
      SameBytes(marked, before, g);
      assert forall i :: g.start <= i < g.end ==> disk[i] == marked[i];
      assert disk[g.start..g.end] == before[g.start..g.end];
    } else {
      MultiplesApart(g.start, top, g.page);
      BlankNoLog(disk, g);
    }
  }

  /** The header ends before the metadata, which stay blank. */
  lemma HeaderClearing(images: seq<seq<bv8>>, disk: seq<bv8>, before: seq<bv8>, g: Geo, header: seq<bv8>)
    requires g.page > 0 && g.start == StartAddress(g.page) && g.start + META_SIZE <= |disk| && disk[g.start] == BLANK
    requires |header| <= g.start && Words(|header|)
    ensures AllClearing(images + BurnImages(disk, 0, header), |images|, before, g)
  {
    hide Burn, BurnImages, Words, StartAddress, StrToUl;
    var all := images + BurnImages(disk, 0, header);
    forall k | |images| <= k < |all| ensures Clearing(all[k], before, g) {
      BurnImagesTorn(disk, 0, header, k - |images|);
      var j :| 0 <= j <= |header| && all[k] == Burn(disk, 0, header[..j]);
      BlankNoLog(all[k], g);
    }
  }

  lemma MetaClearing(images: seq<seq<bv8>>, lo: nat, disk: seq<bv8>, before: seq<bv8>, g: Geo, meta: seq<bv8>)
    requires GeoOk(g, |disk|) && g.start == StartAddress(g.page) && g.data == g.start + 5 * g.page
             && |disk| < 0x1_0000_0000
    requires BlankBetween(disk, g.start, g.data + g.page) && meta == MetaBytes(g.data, g.end)
             && g.start + |meta| <= |disk|
    requires |meta| == META_SIZE && AllTorn(images, lo, disk, g.start, meta)
    ensures AllClearing(images, lo, before, g)
  {
    hide Offset, Overwrite, BlankBetween, MetaBytes, StartAddress, GeoOk;
    forall k | lo <= k < |images| ensures Clearing(images[k], before, g) {
      assert TornOverwrite(images[k], disk, g.start, meta);
      var j :| 0 <= j <= |meta| && images[k] == Overwrite(disk, g.start, meta[..j]);
      MetaTorn(images[k], disk, g, j);
    }
  }

  /** Metadata that are not written to the end of their last number are not those of a log. */
  lemma MetaTorn(img: seq<bv8>, disk: seq<bv8>, g: Geo, j: nat)
    requires GeoOk(g, |disk|) && g.start == StartAddress(g.page) && g.data == g.start + 5 * g.page
             && |disk| < 0x1_0000_0000
    requires BlankBetween(disk, g.start, g.data + g.page) && j <= META_SIZE
    requires img == Overwrite(disk, g.start, MetaBytes(g.data, g.end)[..j])
    ensures if j < META_TEXT then NoLog(img, g.page) else EmptyAt(img, g)
  {
    var meta := img[g.start..g.start + META_SIZE];
    MetaCut(img, disk, g, j);
    if j < 17 {
      VersionCut(meta, MetaBytes(g.data, g.end), j);
      hide MetaBytes, StartAddress, StrToUl, Overwrite, Offset;
    } else if j < META_TEXT {
      DataCut(meta, g.data, g.end, j);
      hide MetaBytes, StartAddress, StrToUl, Overwrite, Offset;
    } else {
      MetaWhole(img, disk, g, j);
    }
  }

  lemma MetaCut(img: seq<bv8>, disk: seq<bv8>, g: Geo, j: nat)
    requires g.page > 0 && g.start + META_SIZE <= g.data && BlankBetween(disk, g.start, g.data + g.page)
             && j <= META_SIZE
    requires img == Overwrite(disk, g.start, MetaBytes(g.data, g.end)[..j])
    ensures |img| == |disk| && g.start + META_SIZE <= |img|
    ensures img[g.start..g.start + META_SIZE] == MetaBytes(g.data, g.end)[..j] + Blanks(META_SIZE - j)
  {
    hide MetaBytes;
  }

  lemma VersionCut(meta: seq<bv8>, whole: seq<bv8>, j: nat)
    requires j < 17 && |whole| == META_SIZE && meta == whole[..j] + Blanks(META_SIZE - j)
    ensures meta[..17] != VERSION[..17]
  {
    assert meta[..17][j] == BLANK && VERSION[..17][j] == VERSION[j] != BLANK;
  }

  lemma DataCut(meta: seq<bv8>, data: nat, end: nat, j: nat)
    requires 17 <= j < META_TEXT && meta == MetaBytes(data, end)[..j] + Blanks(META_SIZE - j) && data < 0x1_0000_0000
    ensures StrToUl(meta[29..39]) <= data / 16
  {
    hide StrToUl, Hex;
    var field := HEX_PREFIX + Hex(data, 8);
    var i := if j < 29 then 0 else j - 29;
    assert MetaBytes(data, end)[29..39] == field;
    assert meta[29..39] == field[..i] + Blanks(10 - i);
    FieldCut(data, i);
  }

  lemma FieldCut(n: nat, i: nat)
    requires i < 10 && n < 0x1_0000_0000
    ensures StrToUl((HEX_PREFIX + Hex(n, 8))[..i] + Blanks(10 - i)) <= n / 16
  {
    var field := HEX_PREFIX + Hex(n, 8);
    var cut := field[..i] + Blanks(10 - i);
    if i < 2 {
      assert cut[1] == BLANK && (i == 1 ==> cut[0] == 0x30);
      hide Hex;
      assert HexRun(cut[1..], 0) == 0;
    } else {
      assert cut[..2] == HEX_PREFIX && cut[2..] == Hex(n, 8)[..i - 2] + Blanks(10 - i);
      assert cut[0] == cut[..2][0] && cut[1] == cut[..2][1];
      NumberCut(n, i - 2);
    }
  }

  lemma NumberCut(n: nat, k: nat)
    requires k < 8 && n < 0x1_0000_0000
    ensures HexRun(Hex(n, 8)[..k] + Blanks(8 - k), 0) <= n / 16
  {
    assert Pow16(8) == 0x1_0000_0000 by { assert Pow16(4) == 0x1_0000; }
    var m := ShiftRight(n, 8 - k);
    HexCut(n, 8, k);
    ShiftBelow(n, 8, 8 - k);
    ShiftDown(n, 8 - k);
    HexRoundTrip(m, k);
    HexRunAppend(Hex(m, k), Blanks(8 - k), 0);
    hide Hex;
    assert HexRun(Blanks(8 - k), m) == m;
  }

  lemma {:induction false} ShiftInner(n: nat, i: nat)
    ensures ShiftRight(n / 16, i) == ShiftRight(n, i + 1)
  {
    if i > 0 {
      ShiftInner(n, i - 1);
    }
  }

  /** The leading digits of a number are those of a smaller one. */
  lemma {:induction false} HexCut(n: nat, w: nat, k: nat)
    requires k <= w
    ensures Hex(n, w)[..k] == Hex(ShiftRight(n, w - k), k)
  {
    if k < w {
      HexCut(n / 16, w - 1, k);
      ShiftInner(n, w - 1 - k);
      assert Hex(n, w)[..k] == Hex(n / 16, w - 1)[..k];
    } else {
      assert Hex(n, w)[..k] == Hex(n, w);
    }
  }

  lemma {:induction false} ShiftBelow(n: nat, w: nat, i: nat)
    requires i <= w && n < Pow16(w)
    ensures ShiftRight(n, i) < Pow16(w - i)
  {
    if i > 0 {
      ShiftBelow(n, w, i - 1);
    }
  }

  lemma {:induction false} ShiftDown(n: nat, i: nat)
    requires i > 0
    ensures ShiftRight(n, i) <= n / 16
  {
    if i > 1 {
      ShiftDown(n, i - 1);
    }
  }

  /** With the last number complete it is an empty log. */
  lemma MetaWhole(img: seq<bv8>, disk: seq<bv8>, g: Geo, j: nat)
    requires GeoOk(g, |disk|) && g.start == StartAddress(g.page) && |disk| < 0x1_0000_0000
    requires BlankBetween(disk, g.start, g.data + g.page) && META_TEXT <= j <= META_SIZE
    requires img == Overwrite(disk, g.start, MetaBytes(g.data, g.end)[..j])
    ensures EmptyAt(img, g)
  {
    MetaCut(img, disk, g, j);
    hide MetaBytes, StartAddress, StrToUl, Offset, Present, ReadGeo;
    assert img[g.start..g.start + META_SIZE][..META_TEXT] == img[g.start..g.start + META_TEXT];
    BlankBody(img, g);
  }

  /** Metadata, and behind them a blank journal and first data page, are an empty log. */
  lemma BlankBody(img: seq<bv8>, g: Geo)
    requires GeoOk(g, |img|) && MetaOk(img, g) && BlankBetween(img, HeadingBase(g), g.data + g.page)
    requires g.start == StartAddress(g.page) && |img| < 0x1_0000_0000
    ensures EmptyAt(img, g)
  {
    MetaRoundTrip(img, g);
    hide Offset, StartAddress, Present, ReadGeo, MetaOk;
    TailEndBound(g, g.data);
    forall s: nat | g.journal + ENTRY_SIZE * s + ENTRY_SIZE <= g.data ensures SlotOk(Slot(img, g, s), 0) {
      BlankSlotOk(Slot(img, g, s), 0);
    }
    hide SlotOk, TailEnd;
  }

  /** The first entry, cut short anywhere, is an entry for nothing. */
  lemma EntryClearing(images: seq<seq<bv8>>, lo: nat, disk: seq<bv8>, before: seq<bv8>, g: Geo, je: seq<bv8>)
    requires GeoOk(g, |disk|) && g.start == StartAddress(g.page) && g.start + 2 * g.page <= g.data
             && |disk| < 0x1_0000_0000
    requires MetaOk(disk, g) && BlankBetween(disk, g.start + META_SIZE, g.data + g.page)
    requires je == Hex(0, ENTRY_SIZE) && g.journal + |je| <= |disk| && AllTorn(images, lo, disk, g.journal, je)
    ensures AllClearing(images, lo, before, g)
  {
    hide Offset, Overwrite, BlankBetween, MetaBytes, StartAddress, Hex;
    forall k | lo <= k < |images| ensures Clearing(images[k], before, g) {
      assert TornOverwrite(images[k], disk, g.journal, je);
      var j :| 0 <= j <= |je| && images[k] == Overwrite(disk, g.journal, je[..j]);
      EntryTorn(images[k], disk, g, j);
    }
  }

  lemma EntryTorn(img: seq<bv8>, disk: seq<bv8>, g: Geo, j: nat)
    requires GeoOk(g, |disk|) && g.start == StartAddress(g.page) && g.start + 2 * g.page <= g.data
             && |disk| < 0x1_0000_0000
    requires MetaOk(disk, g) && BlankBetween(disk, g.start + META_SIZE, g.data + g.page)
    requires j <= ENTRY_SIZE && g.journal + ENTRY_SIZE <= |disk|
             && img == Overwrite(disk, g.journal, Hex(0, ENTRY_SIZE)[..j])
    ensures EmptyAt(img, g)
  {
    hide MetaBytes, StartAddress, Offset, Hex, Present, ReadGeo;
    assert img[g.start..g.start + META_TEXT] == disk[g.start..g.start + META_TEXT];
    MetaRoundTrip(img, g);
    TailEndBound(g, g.data);
    forall s: nat | g.journal + ENTRY_SIZE * s + ENTRY_SIZE <= g.data ensures SlotOk(Slot(img, g, s), 0) {
      FirstSlotTorn(img, disk, g, j, s);
    }
    hide SlotOk, TailEnd, Slot;
  }

  lemma FirstSlotTorn(img: seq<bv8>, disk: seq<bv8>, g: Geo, j: nat, s: nat)
    requires g.start + META_SIZE <= g.journal && BlankBetween(disk, g.start + META_SIZE, g.data) && g.data <= |disk|
    requires j <= ENTRY_SIZE && g.journal + ENTRY_SIZE <= |disk|
             && img == Overwrite(disk, g.journal, Hex(0, ENTRY_SIZE)[..j])
    requires g.journal + ENTRY_SIZE * s + ENTRY_SIZE <= g.data
    ensures SlotOk(Slot(img, g, s), 0)
  {
    var slot, entry := Slot(disk, g, s), Hex(0, ENTRY_SIZE);
    assert Pow16(8) > 0;
    HexRoundTrip(0, ENTRY_SIZE);
    hide Hex;
    BlankSlotOk(slot, 0);
    if s == 0 {
      assert forall i :: 0 <= i < |slot| ==> Clears(slot[i], entry[i]);
      EntryTear(slot, entry, j, 0);
      assert Slot(img, g, s) == entry[..j] + slot[j..];
    } else {
      assert Slot(img, g, s) == slot;
    }
  }
}
