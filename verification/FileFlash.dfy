/** The file system's table and blocks, as they lie in flash: the steps that FileSystem takes
    on values are what flash_write and recycleBlock do to the bytes. */
module FileFlash {
  import opened Arith
  import opened Nor
  import FT = FileTable
  import FS = FileSystem
  import opened FlashWrite
  import opened TableRecycle

  /** The number in a table entry, low byte first. */
  function Value(e: seq<bv8>): nat
    requires |e| == ENTRY_SIZE
  {
    e[0] as nat + 256 * (e[1] as nat)
  }

  lemma ByteValues(b: bv8)
    ensures 0 <= b as nat < 256 && (b == 0 <==> b as nat == 0) && (b == BLANK <==> b as nat == 255)
  {}

  /** The two readings of an entry agree. */
  lemma EntryValue(e: seq<bv8>)
    requires |e| == ENTRY_SIZE
    ensures e == DELETED <==> Value(e) == FT.DELETED
    ensures e == UNUSED <==> Value(e) == FT.UNUSED
  {
    ByteValues(e[0]);
    ByteValues(e[1]);
    assert e == [e[0], e[1]];
  }

  /** Two bytes as a word. */
  function Packed(lo: bv8, hi: bv8): bv16 { (hi as bv16 << 8) | (lo as bv16) }

  lemma WordOfBytes(lo: bv8, hi: bv8)
    ensures Packed(lo, hi) as nat == lo as nat + 256 * (hi as nat)
  {
    ShiftedSum(lo, hi);
    var w := (hi as bv16 << 8) | (lo as bv16);
    assert w == Packed(lo, hi);
    hide Packed;
  }

  lemma ShiftedSum(lo: bv8, hi: bv8)
    ensures ((hi as bv16 << 8) | (lo as bv16)) as nat == lo as nat + 256 * (hi as nat)
  {}

  lemma BytesOfWord(lo: bv8, hi: bv8)
    ensures FT.LowByte(Packed(lo, hi)) == lo && FT.HighByte(Packed(lo, hi)) == hi
  {}

  /** A table entry whose value needs no erase is one whose bytes need none. */
  lemma EntryClears(mem: seq<bv8>, a: nat, e: seq<bv8>)
    requires a + ENTRY_SIZE <= |mem| && |e| == ENTRY_SIZE
    ensures FT.EraseFree(Value(Entry(mem, a)), Value(e)) <==> ClearsAll(mem, a, e)
  {
    hide Value, Clears, FT.LowByte, FT.HighByte, FT.EraseFree, FT.SetsNone;
    var x := Entry(mem, a);
    assert x[0] == mem[a] && x[1] == mem[a + 1];
    var o := WordOfEntry(x);
    var n := WordOfEntry(e);
    FT.EraseFreeBytes(o, n);
    EntryBits(mem, a, e, o, n);
  }

  lemma WordOfEntry(e: seq<bv8>) returns (w: bv16)
    requires |e| == ENTRY_SIZE
    ensures Value(e) < 0x1_0000 && Value(e) as bv16 == w && FT.LowByte(w) == e[0] && FT.HighByte(w) == e[1]
  {
    hide Packed, FT.LowByte, FT.HighByte;
    w := Packed(e[0], e[1]);
    WordOfBytes(e[0], e[1]);
    BytesOfWord(e[0], e[1]);
    FT.WordOf(Value(e), w);
  }

  lemma EntryBits(mem: seq<bv8>, a: nat, e: seq<bv8>, o: bv16, n: bv16)
    requires a + ENTRY_SIZE <= |mem| && |e| == ENTRY_SIZE
    requires Value(Entry(mem, a)) < 0x1_0000 && Value(e) < 0x1_0000
             && Value(Entry(mem, a)) as bv16 == o && Value(e) as bv16 == n
    requires FT.SetsNone(o, n) <==> Clears(mem[a], e[0]) && Clears(mem[a + 1], e[1])
    ensures FT.EraseFree(Value(Entry(mem, a)), Value(e)) <==> ClearsAll(mem, a, e)
  {
    hide Value, Clears, FT.SetsNone;
    assert ClearsAll(mem, a, e) <==> Clears(mem[a + 0], e[0]) && Clears(mem[a + 1], e[1]);
  }

  ghost predicate EntryIs(mem: seq<bv8>, at: Place, b: nat, v: nat)
  {
    at.base + ENTRY_SIZE * b + ENTRY_SIZE <= |mem| && Value(Entry(mem, at.base + ENTRY_SIZE * b)) == v
  }

  /** The first n bytes of the block. What lies behind them is whatever it was when the block
      came into use. */
  ghost predicate BlockIs(mem: seq<bv8>, at: Place, b: nat, block: seq<bv8>, n: nat)
  {
    && InMemory(mem, at, b) && n <= BLOCK_SIZE && n <= |block|
    && mem[BlockAddress(at, b)..BlockAddress(at, b) + n] == block[..n]
  }

  /** Flash holds the table, and the used part of every block behind it that is in use. */
  ghost predicate Represents(mem: seq<bv8>, at: Place, tableSize: nat, table: seq<nat>, blocks: seq<seq<bv8>>,
                             used: seq<nat>)
  {
    && |table| == |blocks| == |used| <= ENTRIES * tableSize && tableSize <= |table|
    && at.root == at.base + BLOCK_SIZE * tableSize
    && at.base + BLOCK_SIZE * |table| <= |mem|
    && (forall b :: 0 <= b < |table| ==> EntryIs(mem, at, b, table[b]))
    && (forall b :: tableSize <= b < |table| && !FT.IsFree(table[b]) ==> BlockIs(mem, at, b, blocks[b], used[b]))
    && (forall b :: 0 <= b < tableSize ==> !FT.IsFree(table[b]))
  }

  /** Bytes [a, a + n) are the same. */
  ghost predicate SameRange(mem: seq<bv8>, mem': seq<bv8>, a: nat, n: nat)
  {
    |mem'| == |mem| && forall i :: a <= i < a + n && i < |mem| ==> mem'[i] == mem[i]
  }

  lemma EntryStays(mem: seq<bv8>, mem': seq<bv8>, at: Place, b: nat, v: nat)
    requires EntryIs(mem, at, b, v) && SameRange(mem, mem', at.base + ENTRY_SIZE * b, ENTRY_SIZE)
    ensures EntryIs(mem', at, b, v)
  {
    assert Entry(mem', at.base + ENTRY_SIZE * b) == Entry(mem, at.base + ENTRY_SIZE * b);
  }

  lemma BlockStays(mem: seq<bv8>, mem': seq<bv8>, at: Place, b: nat, block: seq<bv8>, n: nat)
    requires BlockIs(mem, at, b, block, n) && SameRange(mem, mem', BlockAddress(at, b), BLOCK_SIZE)
    ensures BlockIs(mem', at, b, block, n)
  {
    var a := BlockAddress(at, b);
    assert mem'[a..a + n] == mem[a..a + n];
  }

  /** What a file holds is what flash holds where its blocks are, if its blocks are used that
      far. */
  lemma ContentOnFlash(mem: seq<bv8>, at: Place, tableSize: nat, table: seq<nat>, blocks: seq<seq<bv8>>,
                       used: seq<nat>, chain: seq<nat>, content: seq<bv8>, i: nat, k: nat)
    requires Represents(mem, at, tableSize, table, blocks, used) && FS.Holds(blocks, chain, content)
    requires i < |chain| && k < BLOCK_SIZE && BLOCK_SIZE * i + k < |content|
    requires tableSize <= chain[i] && !FT.IsFree(table[chain[i]]) && k < used[chain[i]]
    ensures InMemory(mem, at, chain[i]) && content[BLOCK_SIZE * i + k] == mem[BlockAddress(at, chain[i]) + k]
  {
    var b := chain[i];
    var a := BlockAddress(at, b);
    assert BlockIs(mem, at, b, blocks[b], used[b]);
    FS.SliceOfBlock(blocks, chain, i, k, k + 1);
    var bytes := FS.Bytes(blocks, chain);
    assert content[BLOCK_SIZE * i + k] == bytes[..|content|][BLOCK_SIZE * i + k]
        == bytes[BLOCK_SIZE * i + k..BLOCK_SIZE * i + (k + 1)][0] == blocks[b][k..k + 1][0];
    assert mem[a..a + used[b]][k] == blocks[b][..used[b]][k];
  }

  // ----- writing

  /** A scratch page that holds neither table nor blocks in use. */
  ghost predicate ScratchFree(at: Place, tableSize: nat, table: seq<nat>, scratch: nat, page: nat)
  {
    && (at.base + BLOCK_SIZE * tableSize <= scratch || scratch + page <= at.base)
    && forall b :: tableSize <= b < |table| && !FT.IsFree(table[b]) ==>
         BlockAddress(at, b) + BLOCK_SIZE <= scratch || scratch + page <= BlockAddress(at, b)
  }

  /** flash_write on a range within one block of a file is FileSystem.FlashWrite. The range
      begins in the used part of the block, or right behind it. */
  lemma BlockWritten(mem: seq<bv8>, at: Place, tableSize: nat, table: seq<nat>, blocks: seq<seq<bv8>>,
                     used: seq<nat>, b: nat, offset: nat, data: seq<bv8>, scratch: nat, page: nat)
    requires Represents(mem, at, tableSize, table, blocks, used) && ScratchFree(at, tableSize, table, scratch, page)
    requires tableSize <= b < |table| && !FT.IsFree(table[b]) && offset + |data| <= BLOCK_SIZE == |blocks[b]|
             && offset <= used[b]
    requires page > 0 && Offset(at.base, page) == 0 && Offset(page, BLOCK_SIZE) == 0 && scratch + page <= |mem|
    requires RoundDown(BlockAddress(at, b) + offset, page) + page <= |mem|
    ensures var mem' := Written(mem, BlockAddress(at, b) + offset, data, scratch, page);
            Represents(mem', at, tableSize, table, blocks[b := Overwrite(blocks[b], offset, data)],
                       used[b := Max(used[b], offset + |data|)])
  {
    hide Written, Offset, Value, Overwrite, FT.IsFree;
    var a := BlockAddress(at, b) + offset;
    var mem' := Written(mem, a, data, scratch, page);
    assert BlockIs(mem, at, b, blocks[b], used[b]);
    RangeOnPage(at.base, b, offset, |data|, page);
    RangeWritten(mem, a, data, scratch, page);
    KeptOutside(mem, a, data, scratch, page);
    var blocks', used' := blocks[b := Overwrite(blocks[b], offset, data)], used[b := Max(used[b], offset + |data|)];
    forall k | 0 <= k < |table| ensures EntryIs(mem', at, k, table[k]) {
      EntryStays(mem, mem', at, k, table[k]);
    }
    forall k | tableSize <= k < |table| && !FT.IsFree(table[k]) ensures BlockIs(mem', at, k, blocks'[k], used'[k]) {
      if k == b {
        BlockRewritten(mem, mem', at, b, blocks[b], used[b], offset, data);
      } else {
        assert BlockIs(mem, at, k, blocks[k], used[k]);
        BlockStays(mem, mem', at, k, blocks[k], used[k]);
      }
    }
    hide BlockIs, EntryIs;
  }

  lemma BlockRewritten(mem: seq<bv8>, mem': seq<bv8>, at: Place, b: nat, block: seq<bv8>, n: nat, offset: nat,
                       data: seq<bv8>)
    requires BlockIs(mem, at, b, block, n) && |mem'| == |mem| && offset + |data| <= BLOCK_SIZE == |block| && offset <= n
    requires var a := BlockAddress(at, b) + offset;
             && mem'[a..a + |data|] == data
             && forall i :: BlockAddress(at, b) <= i < BlockAddress(at, b) + BLOCK_SIZE && !(a <= i < a + |data|) ==>
               mem'[i] == mem[i]
    ensures BlockIs(mem', at, b, Overwrite(block, offset, data), Max(n, offset + |data|))
  {
    var a, r, n' := BlockAddress(at, b), Overwrite(block, offset, data), Max(n, offset + |data|);
    forall i | 0 <= i < n' ensures mem'[a + i] == r[i] {
      if offset <= i < offset + |data| {
        assert mem'[a + offset..a + offset + |data|][i - offset] == data[i - offset];
      } else {
        assert mem[a..a + n][i] == block[..n][i];
      }
    }
    assert mem'[a..a + n'] == r[..n'];
  }

  /** Pages consist of whole blocks, so a range within a block does not leave its page. */
  lemma RangeOnPage(base: nat, b: nat, offset: nat, n: nat, page: nat)
    requires page > 0 && Offset(base, page) == 0 && Offset(page, BLOCK_SIZE) == 0 && offset + n <= BLOCK_SIZE
    ensures OnPage(base + BLOCK_SIZE * b + offset, n, page) == n
  {
    var a := base + BLOCK_SIZE * b + offset;
    MultipleOfMultiple(base, page, BLOCK_SIZE);
    OffsetOfProduct(b, BLOCK_SIZE);
    MultiplesSum(base, BLOCK_SIZE * b, BLOCK_SIZE);
    RoundedDown(a, page);
    OffsetStep(RoundDown(a, page), page, page);
    MultipleOfMultiple(RoundDown(a, page) + page, page, BLOCK_SIZE);
    hide Offset;
    if base + BLOCK_SIZE * b < RoundDown(a, page) + page {
      MultiplesApart(base + BLOCK_SIZE * b, RoundDown(a, page) + page, BLOCK_SIZE);
    }
  }

  lemma RangeWritten(mem: seq<bv8>, a: nat, data: seq<bv8>, scratch: nat, page: nat)
    requires page > 0 && a + |data| <= |mem| && scratch + page <= |mem| && RoundDown(a, page) + page <= |mem|
    requires scratch + page <= a || a + |data| <= scratch
    requires OnPage(a, |data|, page) == |data|
    ensures Written(mem, a, data, scratch, page)[a..a + |data|] == data
  {
    WriteExact(mem, a, data, scratch, page);
  }

  lemma KeptOutside(mem: seq<bv8>, a: nat, data: seq<bv8>, scratch: nat, page: nat)
    requires page > 0 && a + |data| <= |mem| && scratch + page <= |mem| && RoundDown(a, page) + page <= |mem|
    ensures forall i :: 0 <= i < |mem| && !(a <= i < a + |data|) && !(scratch <= i < scratch + page) ==>
              Written(mem, a, data, scratch, page)[i] == mem[i]
  {
    hide Written, Offset;
    forall i | 0 <= i < |mem| && !(a <= i < a + |data|) && !(scratch <= i < scratch + page)
      ensures Written(mem, a, data, scratch, page)[i] == mem[i]
    {
      WriteKeeps(mem, a, data, scratch, page, i);
    }
  }

  /** A block that comes into use, or is given up, has no used part. */
  function UsedAfter(used: seq<nat>, table: seq<nat>, b: nat, v: nat): (r: seq<nat>)
    requires b < |table| == |used|
    ensures |r| == |used|
  {
    if FT.IsFree(table[b]) || FT.IsFree(v) then used[b := 0] else used
  }

  /** flash_write on an entry, where no erase is needed, is FileSystem.FileTableWrite. */
  lemma EntryWritten(mem: seq<bv8>, at: Place, tableSize: nat, table: seq<nat>, blocks: seq<seq<bv8>>,
                     used: seq<nat>, b: nat, e: seq<bv8>, scratch: nat, page: nat)
    requires Represents(mem, at, tableSize, table, blocks, used) && b < |table| && |e| == ENTRY_SIZE
             && FT.EraseFree(table[b], Value(e))
    requires page > 0 && scratch + page <= |mem| && RoundDown(at.base + ENTRY_SIZE * b, page) + page <= |mem|
    requires b < tableSize ==> !FT.IsFree(Value(e))
    ensures Represents(Written(mem, at.base + ENTRY_SIZE * b, e, scratch, page), at, tableSize, table[b := Value(e)],
                       blocks, UsedAfter(used, table, b, Value(e)))
  {
    hide Value, FT.IsFree, FT.EraseFree, ClearsAll, Written, Overwrite, Entry, BlockIs, Offset;
    var a := at.base + ENTRY_SIZE * b;
    assert EntryIs(mem, at, b, table[b]);
    EntryClears(mem, a, e);
    InPlaceEntry(mem, a, e, scratch, page);
    var mem', table' := Written(mem, a, e, scratch, page), table[b := Value(e)];
    var used' := UsedAfter(used, table, b, Value(e));
    forall k | 0 <= k < |table| ensures EntryIs(mem', at, k, table'[k]) {
      assert EntryIs(mem, at, k, table[k]);
      if k != b {
        OutsideEntry(mem, a, e, at.base + ENTRY_SIZE * k, ENTRY_SIZE);
        EntryStays(mem, mem', at, k, table[k]);
      }
    }
    forall k | tableSize <= k < |table| && !FT.IsFree(table'[k]) ensures BlockIs(mem', at, k, blocks[k], used'[k]) {
      if k == b && FT.IsFree(table[b]) {
        NoneUsed(mem', at, b, blocks[b]);
      } else {
        OutsideEntry(mem, a, e, BlockAddress(at, k), BLOCK_SIZE);
        BlockStays(mem, mem', at, k, blocks[k], used[k]);
      }
    }
  }

  lemma NoneUsed(mem: seq<bv8>, at: Place, b: nat, block: seq<bv8>)
    requires InMemory(mem, at, b)
    ensures BlockIs(mem, at, b, block, 0)
  {}

  lemma InPlaceEntry(mem: seq<bv8>, a: nat, e: seq<bv8>, scratch: nat, page: nat)
    requires page > 0 && a + |e| <= |mem| && scratch + page <= |mem| && RoundDown(a, page) + page <= |mem|
    requires |e| == ENTRY_SIZE && ClearsAll(mem, a, e)
    ensures Written(mem, a, e, scratch, page) == Overwrite(mem, a, e) && Entry(Overwrite(mem, a, e), a) == e
  {
    hide Offset;
  }

  lemma OutsideEntry(mem: seq<bv8>, a: nat, e: seq<bv8>, x: nat, n: nat)
    requires a + |e| <= |mem| && (x + n <= a || a + |e| <= x)
    ensures SameRange(mem, Overwrite(mem, a, e), x, n)
  {}

  // ----- recycling

  /** The table after recycleBlock on blocks [first, first + n). */
  function Recycled(table: seq<nat>, first: nat, n: nat): (r: seq<nat>)
    ensures |r| == |table|
    ensures FT.Upcycled(r, table)
    ensures forall e :: 0 <= e < |table| && first <= FS.HomeBlock(e) < first + n ==> r[e] != FT.DELETED
  {
    seq(|table|, e requires 0 <= e < |table| =>
      if table[e] == FT.DELETED && first <= FS.HomeBlock(e) < first + n then FT.UNUSED else table[e])
  }

  /** recycleBlock does to the table and to blocks in use what FileSystem.RecyclePage does. */
  lemma PageRecycled(mem: seq<bv8>, at: Place, tableSize: nat, table: seq<nat>, blocks: seq<seq<bv8>>,
                     used: seq<nat>, first: nat, n: nat)
    requires Represents(mem, at, tableSize, table, blocks, used) && n > 0 && first + n <= |table|
    ensures InMemory(mem, at, first + n - 1) && BlockAddress(at, first) + BLOCK_SIZE * n <= |mem|
    ensures Represents(Overwrite(mem, BlockAddress(at, first), RecycledBlocks(mem, at, first, n)), at, tableSize,
                       Recycled(table, first, n), blocks, used)
  {
    hide Overwrite, RecycledBlocks, RecycledBlock, Recycled, EntryIs, BlockIs, FT.IsFree;
    var p := BlockAddress(at, first);
    var mem', table' := Overwrite(mem, p, RecycledBlocks(mem, at, first, n)), Recycled(table, first, n);
    forall e | 0 <= e < |table| ensures EntryIs(mem', at, e, table'[e]) {
      EntryAfter(mem, at, tableSize, table, blocks, used, first, n, e);
    }
    forall b | 0 <= b < |table| ensures FT.IsFree(table'[b]) <==> FT.IsFree(table[b]) {
      StillFree(table, first, n, b);
    }
    forall b | tableSize <= b < |table| && !FT.IsFree(table'[b]) ensures BlockIs(mem', at, b, blocks[b], used[b]) {
      BlockAfter(mem, at, tableSize, table, blocks, used, first, n, b);
    }
  }

  lemma StillFree(table: seq<nat>, first: nat, n: nat, b: nat)
    requires b < |table|
    ensures FT.IsFree(Recycled(table, first, n)[b]) <==> FT.IsFree(table[b])
  {}

  /** Block i of the rebuilt page. */
  lemma PlacedBlock(mem: seq<bv8>, at: Place, first: nat, n: nat, i: nat)
    requires i < n && InMemory(mem, at, first + n - 1)
    ensures InMemory(mem, at, first + i) && BlockAddress(at, first) + BLOCK_SIZE * n <= |mem|
    ensures var mem' := Overwrite(mem, BlockAddress(at, first), RecycledBlocks(mem, at, first, n));
            var a := BlockAddress(at, first + i);
            mem'[a..a + BLOCK_SIZE] == RecycledBlock(mem, at, first + i)
  {
    hide RecycledBlock;
    BlockRecycled(mem, at, first, n, i);
    hide RecycledBlocks;
    var p, page := BlockAddress(at, first), RecycledBlocks(mem, at, first, n);
    var mem', a := Overwrite(mem, p, page), BlockAddress(at, first + i);
    assert a == p + BLOCK_SIZE * i;
    assert mem'[p..p + |page|] == page;
    assert mem'[p..p + |page|][BLOCK_SIZE * i..BLOCK_SIZE * (i + 1)] == mem'[a..a + BLOCK_SIZE];
  }

  /** Bytes outside the page are kept. */
  lemma OutsidePage(mem: seq<bv8>, at: Place, first: nat, n: nat, a: nat, len: nat)
    requires n > 0 && InMemory(mem, at, first + n - 1)
             && (a + len <= BlockAddress(at, first) || BlockAddress(at, first + n) <= a)
    ensures SameRange(mem, Overwrite(mem, BlockAddress(at, first), RecycledBlocks(mem, at, first, n)), a, len)
  {
    hide RecycledBlocks;
  }

  lemma EntryAfter(mem: seq<bv8>, at: Place, tableSize: nat, table: seq<nat>, blocks: seq<seq<bv8>>,
                   used: seq<nat>, first: nat, n: nat, e: nat)
    requires Represents(mem, at, tableSize, table, blocks, used) && n > 0 && first + n <= |table| && e < |table|
    ensures InMemory(mem, at, first + n - 1) && BlockAddress(at, first) + BLOCK_SIZE * n <= |mem|
    ensures EntryIs(Overwrite(mem, BlockAddress(at, first), RecycledBlocks(mem, at, first, n)), at, e,
                    Recycled(table, first, n)[e])
  {
    hide Overwrite, RecycledBlocks, RecycledBlock, RecycledEntries, FT.IsFree, Value, Entry, BlockIs, FS.HomeBlock;
    var mem' := Overwrite(mem, BlockAddress(at, first), RecycledBlocks(mem, at, first, n));
    var h, a := FS.HomeBlock(e), at.base + ENTRY_SIZE * e;
    HomeOf(at, e);
    assert EntryIs(mem, at, e, table[e]);
    if first <= h < first + n {
      PlacedBlock(mem, at, first, n, h - first);
      TableBlock(mem, at, tableSize, table, blocks, used, h);
      EntryRebuilt(mem, mem', at, h, e - ENTRIES * h, a, table[e]);
    } else {
      OutsidePage(mem, at, first, n, a, ENTRY_SIZE);
      EntryStays(mem, mem', at, e, table[e]);
    }
  }

  lemma PartOfSlice(s: seq<bv8>, a: nat, n: nat, x: nat, y: nat, l: nat)
    requires a + n <= |s| && y == a + x && x + l <= n
    ensures s[a..a + n][x..x + l] == s[y..y + l]
  {
    var part, whole := s[a..a + n][x..x + l], s[y..y + l];
    forall k | 0 <= k < l ensures part[k] == whole[k] {
      assert part[k] == s[a..a + n][x + k] == s[a + (x + k)];
    }
  }

  lemma EntryPlaced(mem: seq<bv8>, a: nat, entries: seq<bv8>, i: nat)
    requires |entries| == BLOCK_SIZE && a + BLOCK_SIZE <= |mem| && mem[a..a + BLOCK_SIZE] == entries && i < ENTRIES
    ensures Entry(mem, a + ENTRY_SIZE * i) == Entry(entries, ENTRY_SIZE * i)
  {
    PartOfSlice(mem, a, BLOCK_SIZE, ENTRY_SIZE * i, a + ENTRY_SIZE * i, ENTRY_SIZE);
  }

  lemma HomeOf(at: Place, e: nat)
    ensures var h := FS.HomeBlock(e);
            && ENTRIES * h <= e < ENTRIES * h + ENTRIES
            && at.base + ENTRY_SIZE * e == BlockAddress(at, h) + ENTRY_SIZE * (e - ENTRIES * h)
  {}

  /** An entry of a block that is rebuilt. */
  lemma EntryRebuilt(mem: seq<bv8>, mem': seq<bv8>, at: Place, h: nat, i: nat, a: nat, v: nat)
    requires InMemory(mem, at, h) && |mem'| == |mem| && i < ENTRIES && a == BlockAddress(at, h) + ENTRY_SIZE * i
    requires mem'[BlockAddress(at, h)..BlockAddress(at, h) + BLOCK_SIZE]
             == RecycledEntries(mem, BlockAddress(at, h), ENTRIES)
    requires Value(Entry(mem, a)) == v
    ensures a + ENTRY_SIZE <= |mem'| && Value(Entry(mem', a)) == if v == FT.DELETED then FT.UNUSED else v
  {
    hide RecycledEntries, Value, Entry;
    var b := BlockAddress(at, h);
    EntryRecycled(mem, b, ENTRIES, i);
    EntryPlaced(mem', b, RecycledEntries(mem, b, ENTRIES), i);
    EntryValue(Entry(mem, a));
    EntryValue(Entry(mem', a));
  }

  /** A block of the table is in use, so its entries are recycled one by one. */
  lemma TableBlock(mem: seq<bv8>, at: Place, tableSize: nat, table: seq<nat>, blocks: seq<seq<bv8>>, used: seq<nat>,
                   h: nat)
    requires Represents(mem, at, tableSize, table, blocks, used) && h < tableSize
    ensures InMemory(mem, at, h) && RecycledBlock(mem, at, h) == RecycledEntries(mem, BlockAddress(at, h), ENTRIES)
  {
    hide RecycledEntries;
    assert EntryIs(mem, at, h, table[h]) && !FT.IsFree(table[h]);
    EntryValue(Entry(mem, at.base + ENTRY_SIZE * h));
  }

  lemma SameSlice(mem: seq<bv8>, mem': seq<bv8>, a: nat, n: nat)
    requires a + n <= |mem| == |mem'| && mem'[a..a + n] == mem[a..a + n]
    ensures SameRange(mem, mem', a, n)
  {
    assert forall i :: a <= i < a + n ==> mem'[a..a + n][i - a] == mem'[i] && mem[a..a + n][i - a] == mem[i];
  }

  lemma BlockAfter(mem: seq<bv8>, at: Place, tableSize: nat, table: seq<nat>, blocks: seq<seq<bv8>>,
                   used: seq<nat>, first: nat, n: nat, b: nat)
    requires Represents(mem, at, tableSize, table, blocks, used) && n > 0 && first + n <= |table|
    requires tableSize <= b < |table| && !FT.IsFree(table[b])
    ensures InMemory(mem, at, first + n - 1) && BlockAddress(at, first) + BLOCK_SIZE * n <= |mem|
    ensures BlockIs(Overwrite(mem, BlockAddress(at, first), RecycledBlocks(mem, at, first, n)), at, b, blocks[b],
                    used[b])
  {
    hide Overwrite, RecycledBlocks, RecycledBlock;
    var mem' := Overwrite(mem, BlockAddress(at, first), RecycledBlocks(mem, at, first, n));
    assert BlockIs(mem, at, b, blocks[b], used[b]) && EntryIs(mem, at, b, table[b]);
    if first <= b < first + n {
      EntryValue(Entry(mem, at.base + ENTRY_SIZE * b));
      PlacedBlock(mem, at, first, n, b - first);
      LiveKept(mem, at, b);
      SameSlice(mem, mem', BlockAddress(at, b), BLOCK_SIZE);
      BlockStays(mem, mem', at, b, blocks[b], used[b]);
    } else {
      OutsidePage(mem, at, first, n, BlockAddress(at, b), BLOCK_SIZE);
      BlockStays(mem, mem', at, b, blocks[b], used[b]);
    }
  }
}
