/** How long a cached journal block may lag behind flash. A page erase that the cache is not
    told about leaves stale blocks behind; they are evicted before the journal reaches them. */
module LogAge {
  import opened Arith
  import opened Nor
  import opened FSCache
  import opened LogFormat

  predicate Full(g: Geo, a: nat, x: nat) { g.data <= a && a + BLOCK <= x }

  /** The data blocks that lie before x as a whole. */
  ghost function FullBlocks(g: Geo, x: nat): set<nat>
  {
    set a | 0 <= a < x && Full(g, a, x)
  }

  /** The lax region is empty, or the page of the journal head without its first block. */
  ghost predicate LagAt(g: Geo, lo: nat, hi: nat, head: nat)
    requires g.page > 0
  {
    lo == hi || (lo == RoundDown(head, g.page) + BLOCK && hi == RoundDown(head, g.page) + g.page)
  }

  /** Since each block still cached from [lo, hi) was last used, a full data block has been
      used for every journal entry in k bytes. */
  ghost predicate AgedBy(t: seq<CacheEntry>, g: Geo, lo: nat, hi: nat, x: nat, k: nat)
  {
    forall b :: b in Residents(t) && lo <= b < hi ==> k <= ENTRY_SIZE * |Newer(t, b) * FullBlocks(g, x)|
  }

  /** No block of [lo, hi) is among the blocks. */
  ghost predicate Avoids(blocks: set<nat>, lo: nat, hi: nat)
  {
    forall b :: b in blocks ==> !(lo <= b < hi)
  }

  lemma JournalAvoids(a: nat, n: nat, lo: nat, hi: nat)
    requires a + n <= lo
    ensures Avoids(BlocksOf(a, n, BLOCK), lo, hi)
  {}

  lemma DataAvoids(a: nat, n: nat, data: nat, lo: nat, hi: nat)
    requires Offset(data, BLOCK) == 0 && hi <= data <= a
    ensures Avoids(BlocksOf(a, n, BLOCK), lo, hi)
  {
    hide Offset;
    forall b {:trigger Offset(b, BLOCK)} | b in BlocksOf(a, n, BLOCK) ensures !(lo <= b < hi) {
      if b < data {
        MultiplesApart(b, data, BLOCK);
      }
    }
  }

  /** There is room for few newer blocks, so a lag cannot last. */
  lemma LagBound(t: seq<CacheEntry>, g: Geo, lo: nat, hi: nat, x: nat, k: nat, b: nat)
    requires AgedBy(t, g, lo, hi, x, k) && b in Residents(t) && lo <= b < hi <= g.data
    ensures k + ENTRY_SIZE <= ENTRY_SIZE * |t|
  {
    var s := Newer(t, b) * FullBlocks(g, x);
    assert b !in s;
    assert |s + {b}| == |s| + 1;
    SubsetSize(s + {b}, Residents(t));
    ResidentsBound(t);
  }

  /** Page-ins elsewhere do not end or renew a lag. */
  lemma LagKept(s: CacheState, s': CacheState, touched: set<nat>, sure: set<nat>, g: Geo, lo: nat, hi: nat, x: nat,
                k: nat)
    requires Stepped(s, s', touched, sure) && InOrder(s.table, s.count) && !s'.wrapped
    requires Avoids(touched, lo, hi) && AgedBy(s.table, g, lo, hi, x, k)
    ensures InOrder(s'.table, s'.count) && AgedBy(s'.table, g, lo, hi, x, k)
  {
    hide InOrder, Newer, Residents, FullBlocks;
    var full := FullBlocks(g, x);
    forall b | b in Residents(s'.table) && lo <= b < hi ensures k <= ENTRY_SIZE * |Newer(s'.table, b) * full| {
      assert Newer(s.table, b) * full <= Newer(s'.table, b) * full;
      SubsetSize(Newer(s.table, b) * full, Newer(s'.table, b) * full);
    }
  }

  /** Bytes of journal entries due for data from x to y. */
  function Due(x: nat, y: nat): nat { if y / BLOCK != x / BLOCK then ENTRY_SIZE else 0 }

  /** A line that fills a data block makes every lagging block older by that block. */
  lemma LagGrows(s: CacheState, s': CacheState, g: Geo, lo: nat, hi: nat, x: nat, n: nat, y: nat, k: nat)
    requires Stepped(s, s', BlocksOf(x, n, BLOCK), BlocksOf(x, n, BLOCK)) && InOrder(s.table, s.count) && !s'.wrapped
    requires Offset(g.data, BLOCK) == 0 && hi <= g.data <= x && y == x + n && AgedBy(s.table, g, lo, hi, x, k)
    ensures InOrder(s'.table, s'.count) && AgedBy(s'.table, g, lo, hi, y, k + Due(x, y))
  {
    DataAvoids(x, n, g.data, lo, hi);
    if Due(x, y) > 0 {
      FilledBlock(g, x, n);
    }
    FullMore(g, x, y);
    hide InOrder, Newer, Residents, Offset, RoundDown, FullBlocks, BlocksOf, Due;
    forall b | b in Residents(s'.table) && lo <= b < hi
      ensures k + Due(x, y) <= ENTRY_SIZE * |Newer(s'.table, b) * FullBlocks(g, y)|
    {
      OneMore(Newer(s.table, b), Newer(s'.table, b), FullBlocks(g, x), FullBlocks(g, y), RoundDown(x, BLOCK));
      DueSize(x, y);
    }
  }

  lemma DueSize(x: nat, y: nat)
    ensures Due(x, y) == 0 || Due(x, y) == ENTRY_SIZE
  {}

  lemma FullMore(g: Geo, x: nat, y: nat)
    requires x <= y
    ensures FullBlocks(g, x) <= FullBlocks(g, y)
  {}

  lemma OneMore(newer: set<nat>, newer': set<nat>, full: set<nat>, full': set<nat>, q: nat)
    requires newer <= newer' && full <= full'
    ensures |newer * full| <= |newer' * full'|
    ensures q in newer' && q in full' && q !in full ==> |newer * full| < |newer' * full'|
  {
    SubsetSize(newer * full, newer' * full');
    if q in newer' && q in full' && q !in full {
      assert |newer * full + {q}| == |newer * full| + 1;
      SubsetSize(newer * full + {q}, newer' * full');
    }
  }

  lemma FilledBlock(g: Geo, x: nat, n: nat)
    requires Offset(g.data, BLOCK) == 0 && g.data <= x && Due(x, x + n) > 0
    ensures var q := RoundDown(x, BLOCK);
            q in BlocksOf(x, n, BLOCK) && q in FullBlocks(g, x + n) && q !in FullBlocks(g, x)
  {
    OffsetIsMod(x, BLOCK);
    RoundedDown(x, BLOCK);
    UnitAbove(x, g.data, BLOCK);
    hide Offset;
  }

  /** With no block of the region cached, the cache is exact everywhere. */
  lemma NoLag(t: seq<CacheEntry>, disk: seq<bv8>, lo: nat, hi: nat, x: nat)
    requires Synced(t, disk, lo, hi) && Avoids(Residents(t), lo, hi)
    ensures Synced(t, disk, x, x)
  {
    forall i | 0 <= i < |t| && t[i].Resident() ensures EntrySynced(t[i], disk, x, x) {
      assert EntrySynced(t[i], disk, lo, hi) && t[i].address in Residents(t);
    }
  }
}
