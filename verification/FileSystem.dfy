/** MicroBitFileSystem: files as chains of blocks; append, read, seek and remove. */
module FileSystem {
  import opened Arith
  import opened Nor
  import opened FileTable

  type Block = seq<bv8>

  ghost predicate BlocksOk(blocks: seq<Block>)
  {
    forall b :: 0 <= b < |blocks| ==> |blocks[b]| == BLOCK_SIZE
  }

  ghost predicate InRange(chain: seq<nat>, size: nat)
  {
    forall i :: 0 <= i < |chain| ==> chain[i] < size
  }

  /** The bytes of a chain of blocks, one block after the other. */
  ghost function Bytes(blocks: seq<Block>, chain: seq<nat>): (r: seq<bv8>)
    requires BlocksOk(blocks) && InRange(chain, |blocks|)
    ensures |r| == BLOCK_SIZE * |chain|
  {
    if chain == [] then [] else Bytes(blocks, chain[..|chain| - 1]) + blocks[chain[|chain| - 1]]
  }

  /** The chain begins with this content. */
  ghost predicate Holds(blocks: seq<Block>, chain: seq<nat>, content: seq<bv8>)
  {
    && BlocksOk(blocks) && InRange(chain, |blocks|) && |content| <= BLOCK_SIZE * |chain|
    && Bytes(blocks, chain)[..|content|] == content
  }

  /** As many blocks as the length needs, and at least one. */
  ghost predicate ChainFits(n: nat, length: nat)
  {
    n >= 1 && length <= BLOCK_SIZE * n && (n == 1 || BLOCK_SIZE * (n - 1) < length)
  }

  lemma {:induction false} BytesSame(blocks: seq<Block>, blocks': seq<Block>, chain: seq<nat>)
    requires BlocksOk(blocks) && BlocksOk(blocks') && InRange(chain, |blocks|) && InRange(chain, |blocks'|)
    requires forall i :: 0 <= i < |chain| ==> blocks'[chain[i]] == blocks[chain[i]]
    ensures Bytes(blocks', chain) == Bytes(blocks, chain)
  {
    if chain != [] {
      BytesSame(blocks, blocks', chain[..|chain| - 1]);
    }
  }

  lemma HoldsSame(blocks: seq<Block>, blocks': seq<Block>, chain: seq<nat>, content: seq<bv8>)
    requires Holds(blocks, chain, content) && BlocksOk(blocks') && InRange(chain, |blocks'|)
    requires forall i :: 0 <= i < |chain| ==> blocks'[chain[i]] == blocks[chain[i]]
    ensures Holds(blocks', chain, content)
  {
    BytesSame(blocks, blocks', chain);
  }

  /** Writing behind the content, in the last block. */
  lemma SegmentWritten(blocks: seq<Block>, chain: seq<nat>, content: seq<bv8>, offset: nat, segment: seq<bv8>)
    requires Holds(blocks, chain, content) && chain != [] && |content| == BLOCK_SIZE * (|chain| - 1) + offset
    requires offset + |segment| <= BLOCK_SIZE && chain[|chain| - 1] !in chain[..|chain| - 1]
    ensures var last := chain[|chain| - 1];
            Holds(blocks[last := Overwrite(blocks[last], offset, segment)], chain, content + segment)
  {
    var n := |chain| - 1;
    var last := chain[n];
    var blocks' := blocks[last := Overwrite(blocks[last], offset, segment)];
    forall i | 0 <= i < n ensures blocks'[chain[..n][i]] == blocks[chain[..n][i]] {
      assert chain[..n][i] in chain[..n];
    }
    BytesSame(blocks, blocks', chain[..n]);
    var before := Bytes(blocks, chain[..n]);
    assert Bytes(blocks, chain) == before + blocks[last] && Bytes(blocks', chain) == before + blocks'[last];
    SegmentBytes(before, blocks[last], offset, segment, content);
  }

  lemma SegmentBytes(before: seq<bv8>, block: Block, offset: nat, segment: seq<bv8>, content: seq<bv8>)
    requires offset + |segment| <= |block| && |content| == |before| + offset && (before + block)[..|content|] == content
    ensures (before + Overwrite(block, offset, segment))[..|content + segment|] == content + segment
  {
    var r := before + Overwrite(block, offset, segment);
    forall i | 0 <= i < |content + segment| ensures r[i] == (content + segment)[i] {
      if i < |content| {
        assert (before + block)[..|content|][i] == content[i];
      }
    }
  }

  lemma BlockAdded(blocks: seq<Block>, chain: seq<nat>, content: seq<bv8>, b: nat)
    requires Holds(blocks, chain, content) && b < |blocks|
    ensures Holds(blocks, chain + [b], content)
  {
    assert (chain + [b])[..|chain|] == chain;
  }

  /** A slice that lies in block j of the chain. */
  lemma {:induction false} SliceOfBlock(blocks: seq<Block>, chain: seq<nat>, j: nat, lo: nat, hi: nat)
    requires BlocksOk(blocks) && InRange(chain, |blocks|) && j < |chain| && lo <= hi <= BLOCK_SIZE
    ensures Bytes(blocks, chain)[BLOCK_SIZE * j + lo..BLOCK_SIZE * j + hi] == blocks[chain[j]][lo..hi]
  {
    var n := |chain| - 1;
    var before := Bytes(blocks, chain[..n]);
    var x, y := BLOCK_SIZE * j + lo, BLOCK_SIZE * j + hi;
    assert Bytes(blocks, chain) == before + blocks[chain[n]];
    hide Bytes;
    if j < n {
      SliceOfBlock(blocks, chain[..n], j, lo, hi);
      SliceBefore(before, blocks[chain[n]], x, y);
    } else {
      SliceBehind(before, blocks[chain[n]], x, y, lo, hi);
    }
  }

  lemma SliceOfPart(s: seq<bv8>, m: nat, x: nat, y: nat)
    requires x <= y <= m <= |s|
    ensures s[..m][x..y] == s[x..y]
  {}

  lemma SliceBefore(s: seq<bv8>, t: seq<bv8>, x: nat, y: nat)
    requires x <= y <= |s|
    ensures (s + t)[x..y] == s[x..y]
  {}

  lemma SliceBehind(s: seq<bv8>, t: seq<bv8>, x: nat, y: nat, lo: nat, hi: nat)
    requires lo <= hi <= |t| && x == |s| + lo && y == |s| + hi
    ensures (s + t)[x..y] == t[lo..hi]
  {}

  /** From the first state to the second, only the file f has changed, or has been made. */
  ghost predicate Others(owner: seq<Owner>, blocks: seq<Block>, chains: Chains, owner': seq<Owner>, blocks': seq<Block>,
                         chains': Chains, f: nat)
  {
    && |owner'| == |owner| == |blocks| == |blocks'| && f in chains' && chains' == chains[f := chains'[f]]
    && forall b :: 0 <= b < |blocks| && owner[b].At? && owner[b].file != f ==>
      blocks'[b] == blocks[b] && owner'[b] == owner[b]
  }

  lemma OthersJoin(owner: seq<Owner>, blocks: seq<Block>, chains: Chains, owner1: seq<Owner>, blocks1: seq<Block>,
                   chains1: Chains,
                   owner2: seq<Owner>, blocks2: seq<Block>, chains2: Chains, f: nat)
    requires Others(owner, blocks, chains, owner1, blocks1, chains1, f)
             && Others(owner1, blocks1, chains1, owner2, blocks2, chains2, f)
    ensures Others(owner, blocks, chains, owner2, blocks2, chains2, f)
  {}

  /** An open file: where it starts, the position of the next access, and its length. */
  class FileDescriptor {
    const first: nat
    var seek: nat
    var length: nat

    constructor (first: nat, length: nat)
      ensures this.first == first && seek == 0 && this.length == length
    {
      this.first, seek, this.length := first, 0, length;
    }
  }

  datatype SeekMode = Set | End | Current
  datatype Result = Ok(value: nat) | InvalidParameter

  class FileSystem {
    const size: nat
    const tableSize: nat
    const blocksPerPage: nat
    var table: seq<nat>
    var blocks: seq<Block>
    var lastBlockAllocated: nat
    ghost var chains: Chains
    ghost var owner: seq<Owner>

    /** format: on erased pages, reserves the blocks of the table and makes a root directory. */
    constructor (flashPages: nat, blocksPerPage: nat)
      requires 0 < blocksPerPage && 2 <= flashPages * blocksPerPage <= MAX_BLOCKS
      ensures Valid() && size == flashPages * blocksPerPage && chains == map[tableSize := [tableSize]]
      ensures this.blocksPerPage == blocksPerPage && lastBlockAllocated == 0 && size <= 128 * tableSize < size + 128
      ensures forall b :: 0 <= b < size ==>
                table[b] == if b < tableSize then tableSize else if b == tableSize then 0xEFFF else 0xFFFF
      ensures forall b :: 0 <= b < size ==> |blocks[b]| == 256 && forall i :: 0 <= i < 256 ==> blocks[b][i] == 0xFF
    {
      var n := flashPages * blocksPerPage;
      size, this.blocksPerPage := n, blocksPerPage;
      tableSize := CalculateFileTableSize(n);
      table, blocks, lastBlockAllocated := seq(n, b => UNUSED), seq(n, b => Blanks(BLOCK_SIZE)), 0;
      var root := CalculateFileTableSize(n);
      chains, owner := map[root := [root]], seq(n, b => if b == root then At(root, 0) else NoOne);
      new;
      OffsetOfProduct(flashPages, blocksPerPage);
      hide EraseFree, Offset;
      var block := 0;
      while block < tableSize
        modifies this`table
        invariant 0 <= block <= tableSize && |table| == size
        invariant forall b :: 0 <= b < size ==> table[b] == if b < block then tableSize else UNUSED
      {
        LifeCycle(0, tableSize);
        FileTableWrite(block, tableSize);
        block := block + 1;
      }
      LifeCycle(0, EOF);
      FileTableWrite(tableSize, EOF);
      Formatted(table, tableSize, chains, owner);
      hide TableOk;
    }

    /** Blocks needed for two bytes per block of the file system. */
    static function CalculateFileTableSize(size: nat): (r: nat)
      ensures size <= ENTRIES_PER_BLOCK * r < size + ENTRIES_PER_BLOCK
      ensures 2 <= size ==> 0 < r < size
    {
      size * 2 / BLOCK_SIZE + if size * 2 % BLOCK_SIZE != 0 then 1 else 0
    }

    ghost predicate Valid()
      reads this
    {
      && TableOk(table, tableSize, chains, owner) && Shape()
    }

    ghost predicate Shape()
      reads this
    {
      && |table| == |blocks| == |owner| == size && lastBlockAllocated < size && BlocksOk(blocks)
      && 0 < blocksPerPage && Offset(size, blocksPerPage) == 0
    }

    ghost predicate Open(file: FileDescriptor)
      reads this, file
    {
      file.first in chains && ChainFits(|chains[file.first]|, file.length) && file.seek <= file.length
    }

    /** What is in a file: its length's worth of the bytes of its chain. */
    ghost predicate Contains(file: FileDescriptor, content: seq<bv8>)
      reads this, file
    {
      Open(file) && |content| == file.length && Holds(blocks, chains[file.first], content)
    }

    /** Blocks of all files but f are as they were. */
    twostate predicate OthersKept(f: nat)
      reads this
    {
      Others(old(owner), old(blocks), old(chains), owner, blocks, chains, f)
    }

    /** So the files other than f hold what they held. */
    twostate lemma OthersContent(f: nat, other: FileDescriptor, content: seq<bv8>)
      requires old(Valid()) && Valid() && OthersKept(f)
      requires other.first != f && old(Contains(other, content)) && unchanged(other)
      ensures Contains(other, content)
    {
      var chain := chains[other.first];
      assert ChainOk(old(table), tableSize, old(owner), other.first, chain);
      forall i | 0 <= i < |chain| ensures blocks[chain[i]] == old(blocks)[chain[i]] {
        assert LinkOk(old(table), tableSize, old(owner), other.first, chain, i);
      }
      hide TableOk;
      HoldsSame(old(blocks), blocks, chain, content);
    }

    /** Programs a range within one block; FileFlash.BlockWritten shows that flash_write does this
        on flash, for any old contents, as a block does not straddle pages. */
    method FlashWrite(block: nat, offset: nat, data: seq<bv8>)
      requires block < |blocks| && offset + |data| <= |blocks[block]|
      modifies this`blocks
      ensures blocks == old(blocks)[block := Overwrite(old(blocks)[block], offset, data)]
    {
      blocks := blocks[block := Overwrite(blocks[block], offset, data)];
    }

    /** Sets a table entry. No caller needs the page erased; FileFlash.EntryWritten links it to flash. */
    method FileTableWrite(block: nat, value: nat)
      requires block < |table| && EraseFree(table[block], value)
      modifies this`table
      ensures table == old(table)[block := value]
    {
      table := table[block := value];
    }

    // ----- allocation

    /** A block of the table itself: its deleted entries become unused. */
    method UpcycleEntries(b: nat, newTable: seq<nat>) returns (r: seq<nat>)
      requires Upcycled(newTable, table)
      ensures Upcycled(r, table)
      ensures forall e :: 0 <= e < |table| ==>
                r[e] == if table[e] == DELETED && HomeBlock(e) == b then UNUSED else newTable[e]
    {
      r := newTable;
      var entry := ENTRIES_PER_BLOCK * b;
      while entry < ENTRIES_PER_BLOCK * (b + 1) && entry < |table|
        invariant ENTRIES_PER_BLOCK * b <= entry <= ENTRIES_PER_BLOCK * (b + 1) && Upcycled(r, table)
        invariant forall e :: 0 <= e < |table| ==>
                    r[e] == if table[e] == DELETED && ENTRIES_PER_BLOCK * b <= e < entry then UNUSED else newTable[e]
      {
        if table[entry] == DELETED {
          r := r[entry := UNUSED];
        }
        entry := entry + 1;
      }
    }

    /** recycleBlock on a page that starts at block p: free blocks are erased, deleted entries
        in blocks of the table are upcycled, and everything else is put back. What Recycler does
        on flash is this on blocks (FileFlash.PageRecycled). */
    method RecyclePage(p: nat)
      requires Valid() && p + blocksPerPage <= size
      modifies this`table, this`blocks
      ensures Valid() && Upcycled(table, old(table))
      ensures forall b :: 0 <= b < size && owner[b].At? ==> blocks[b] == old(blocks[b])
      ensures forall b :: p <= b < p + blocksPerPage && (old(table)[b] == 0 || old(table)[b] == 0xFFFF) ==>
                |blocks[b]| == 256 && forall i :: 0 <= i < 256 ==> blocks[b][i] == 0xFF
      ensures forall b :: 0 <= b < size
                          && !(p <= b < p + blocksPerPage && (old(table)[b] == 0 || old(table)[b] == 0xFFFF)) ==>
                blocks[b] == old(blocks)[b]
      ensures forall e :: 0 <= e < size ==>
                table[e] == if old(table)[e] == 0 && p <= e / 128 < p + blocksPerPage then 0xFFFF else old(table)[e]
      ensures PageDone(old(table), old(blocks), table, blocks, p, blocksPerPage)
    {
      var b, newTable, newBlocks := p, table, blocks;
      HomeInTable();
      hide TableOk, HomeBlock;
      while b < p + blocksPerPage
        invariant p <= b <= p + blocksPerPage && Valid() && table == old(table) && blocks == old(blocks)
        invariant Upcycled(newTable, table) && BlocksOk(newBlocks) && |newBlocks| == size
        invariant forall k :: 0 <= k < size ==>
                    newBlocks[k] == if p <= k < b && IsFree(table[k]) then Blanks(BLOCK_SIZE) else blocks[k]
        invariant forall e :: 0 <= e < size ==>
                    newTable[e] == if table[e] == DELETED && p <= HomeBlock(e) < b then UNUSED else table[e]
      {
        NotOwned(b);
        if IsFree(table[b]) {
          newBlocks := newBlocks[b := Blanks(BLOCK_SIZE)];
        } else if b < tableSize {
          newTable := UpcycleEntries(b, newTable);
        }
        b := b + 1;
      }
      UpcycledOk(table, newTable, tableSize, chains, owner);
      forall k | 0 <= k < size && owner[k].At? ensures newBlocks[k] == blocks[k] {
        NotOwned(k);
      }
      assert forall e :: 0 <= e < size ==> HomeBlock(e) == e / 128;
      table, blocks := newTable, newBlocks;
    }

    lemma HomeInTable()
      requires Valid()
      ensures forall e :: 0 <= e < size ==> HomeBlock(e) < tableSize
      ensures 0 < tableSize < size <= MAX_BLOCKS && size <= ENTRIES_PER_BLOCK * tableSize
    {}

    lemma NotOwned(b: nat)
      requires Valid() && b < size
      ensures table[b] == DELETED || table[b] == UNUSED ==> owner[b] == NoOne
      ensures b < tableSize ==> table[b] == tableSize && 0 < tableSize < MAX_BLOCKS
    {
      assert EntryOk(table, tableSize, chains, owner, b);
      if owner[b].At? {
        var f, i := owner[b].file, owner[b].index;
        LinkValue(table, tableSize, chains, owner, f, i);
      }
    }

    /** Pages that hold a deleted block are recycled, and then all pages of the table. Exactly
        the free blocks of the pages that Refreshed names are blank afterwards. */
    method RecycleFileTable()
      requires Valid()
      modifies this`table, this`blocks
      ensures Valid() && Upcycled(table, old(table)) && DELETED !in table
      ensures forall e :: 0 <= e < size ==> table[e] == if old(table)[e] == 0 then 0xFFFF else old(table)[e]
      ensures forall b :: 0 <= b < size && owner[b].At? ==> blocks[b] == old(blocks[b])
      ensures forall b :: 0 <= b < size ==>
                blocks[b] == if IsFree(old(table)[b]) && Refreshed(old(table), LastTablePage(), blocksPerPage,
                                                                   RoundDown(b, blocksPerPage))
                then Blanks(256) else old(blocks)[b]
    {
      OwnedInUse();
      hide TableOk, Visited, RoundDown, Offset;
      RecycleDeleted();
      ghost var table1 := table;
      RecycleTablePages();
      assert forall b :: 0 <= b < size ==> (IsFree(table1[b]) <==> IsFree(old(table)[b]));
    }

    lemma OwnedInUse()
      requires Valid()
      ensures forall b :: 0 <= b < size && owner[b].At? ==> !IsFree(table[b])
    {
      forall b | 0 <= b < size && owner[b].At? ensures !IsFree(table[b]) {
        NotOwned(b);
      }
    }

    /** The last page that holds blocks of the table. */
    ghost function LastTablePage(): nat
      requires tableSize > 0 && blocksPerPage > 0
      reads {}
    {
      RoundDown(tableSize - 1, blocksPerPage)
    }

    lemma LastPageIs()
      requires Valid()
      ensures TableBefore(table, LastTablePage(), blocksPerPage)
      ensures LastTablePage() < tableSize <= LastTablePage() + blocksPerPage <= size
      ensures Offset(LastTablePage(), blocksPerPage) == 0
    {
      var q := LastTablePage();
      RoundedDown(tableSize - 1, blocksPerPage);
      UnitFits(tableSize - 1, size, blocksPerPage);
      forall d | 0 <= d < size && table[d] == 0 ensures q < d {
        NotOwned(d);
      }
      hide TableOk;
    }

    /** The pages behind the table's are recycled while the table is walked through. */
    method RecycleDeleted()
      requires Valid()
      modifies this`table, this`blocks
      ensures Valid() && Upcycled(table, old(table))
      ensures WalkedTo(old(table), old(blocks), table, blocks, LastTablePage(), blocksPerPage, size)
    {
      hide TableOk, Offset, RoundDown, HomeBlock, WalkedTo, Visited, TableBefore, BlocksOk, IsFree;
      LastPageIs();
      var block, pageRecycled := 0, false;
      ghost var words, blocks0, q, n := table, blocks, LastTablePage(), blocksPerPage;
      WalkStart(words, blocks0, q, n);
      while block < size
        invariant 0 <= block <= size && Valid() && Upcycled(table, words)
        invariant WalkedTo(words, blocks0, table, blocks, q, n, block)
        invariant Offset(block, n) != 0 ==> (pageRecycled <==> Visited(words, q, n, RoundDown(block, n), block))
      {
        ghost var p := RoundDown(block, n);
        PageOf(block, n);
        PageBegins(words, q, n, block);
        if Offset(block, blocksPerPage) == 0 {
          pageRecycled := false;
        }
        if table[block] == DELETED && !pageRecycled {
          UnitFits(block, size, blocksPerPage);
          ghost var table1, blocks1 := table, blocks;
          RecyclePage(RoundDown(block, blocksPerPage));
          pageRecycled := true;
          WalkRecycles(words, blocks0, table1, blocks1, table, blocks, q, n, block, p);
        } else {
          WalkPasses(words, blocks0, table, blocks, q, n, block, p);
        }
        PageOf(block + 1, n);
        block := block + 1;
      }
    }

    method RecycleTablePages()
      requires Valid()
      modifies this`table, this`blocks
      ensures Valid() && Upcycled(table, old(table)) && DELETED !in table
      ensures forall e :: 0 <= e < size ==> table[e] == if old(table)[e] == 0 then 0xFFFF else old(table)[e]
      ensures forall b :: 0 <= b < size ==>
                blocks[b] == if IsFree(old(table)[b]) && RoundDown(b, blocksPerPage) <= LastTablePage() then Blanks(256)
                else old(blocks)[b]
    {
      hide TableOk, HomeBlock, Offset, RoundDown, TableBefore, BlocksOk;
      var block := 0;
      HomeInTable();
      LastPageIs();
      while block < tableSize
        invariant 0 <= block <= size && Offset(block, blocksPerPage) == 0 && Valid() && Upcycled(table, old(table))
        invariant forall e :: 0 <= e < size ==>
                    table[e] == if old(table)[e] == 0 && HomeBlock(e) < block then 0xFFFF else old(table)[e]
        invariant forall b :: 0 <= b < size ==>
                    blocks[b] == if IsFree(old(table)[b]) && b < block then Blanks(256) else old(blocks)[b]
        invariant block <= LastTablePage() + blocksPerPage
        decreases size - block
      {
        UnitFits(block, size, blocksPerPage);
        OffsetStep(block, blocksPerPage, blocksPerPage);
        PagesUpTo(block, tableSize - 1, blocksPerPage);
        HomesAre();
        RecyclePage(block);
        block := block + blocksPerPage;
      }
      if LastTablePage() < block {
        MultiplesApart(LastTablePage(), block, blocksPerPage);
      }
      forall b | 0 <= b < size ensures b < block <==> RoundDown(b, blocksPerPage) <= LastTablePage() {
        PagesUpTo(LastTablePage(), b, blocksPerPage);
      }
    }

    lemma HomesAre()
      ensures forall e :: 0 <= e < size ==> HomeBlock(e) == e / 128
    {}

    /** Of the other blocks, block is the first unused one going round from last; if there is
        none, it is the last deleted one. */
    ghost predicate Taken(words: seq<nat>, last: nat, block: nat)
      requires |words| == size > 0 && block < size
    {
      if words[block] == 0xFFFF then
        forall c :: 0 <= c < size && c != last && words[c] == 0xFFFF ==> (block - last) % size <= (c - last) % size
      else
        && words[block] == 0
        && forall c :: 0 <= c < size && c != last ==>
             words[c] != 0xFFFF && (words[c] == 0 ==> (c - last) % size <= (block - last) % size)
    }

    lemma TakenUnused(words: seq<nat>, last: nat, block: nat)
      requires |words| == size && block < size && last < size && block != last && words[block] == UNUSED
      requires forall c :: 0 <= c < size && Passed(last, block, c) ==> words[c] != UNUSED
      ensures Taken(words, last, block)
    {
      forall c | 0 <= c < size && c != last && words[c] == 0xFFFF ensures (block - last) % size <= (c - last) % size {
        GoingRound(last, size, block, c);
      }
    }

    lemma TakenDeleted(words: seq<nat>, last: nat, block: nat)
      requires |words| == size && block < size && last < size && block != last && words[block] == DELETED
      requires forall c :: 0 <= c < size && c != last ==> words[c] != UNUSED
      requires forall c :: (0 <= c < size && c != last && c != block && !Passed(last, block, c)) ==> words[c] != DELETED
      ensures Taken(words, last, block)
    {
      forall c | 0 <= c < size && c != last && words[c] == 0 ensures (c - last) % size <= (block - last) % size {
        if c != block {
          GoingRound(last, size, block, c);
        }
      }
    }

    /** Round robin from the last block allocated, which is not looked at itself. Only if nothing
        else is unused are deleted blocks recycled; the one furthest round is then taken. */
    method GetFreeBlock() returns (block: nat)
      requires Valid()
      modifies this`table, this`blocks, this`lastBlockAllocated
      ensures Valid() && Upcycled(table, old(table))
              && (block != 0 ==> lastBlockAllocated == block && table[block] == UNUSED)
      ensures forall b :: 0 <= b < size && owner[b].At? ==> blocks[b] == old(blocks[b])
      ensures block != 0 ==> block != old(lastBlockAllocated)
      ensures block == 0 <==> forall b :: 0 <= b < size && b != old(lastBlockAllocated) ==>
                old(table)[b] != UNUSED && old(table)[b] != DELETED
      ensures block == 0 ==>
                table == old(table) && blocks == old(blocks) && lastBlockAllocated == old(lastBlockAllocated)
      ensures var next := RoundRobin(old(table), size, old(lastBlockAllocated));
              if next != WORDS then block == next && table == old(table) && blocks == old(blocks)
              else block != 0 ==>
                && old(table)[block] == DELETED && DELETED !in table
                && forall c :: (0 <= c < size && c != old(lastBlockAllocated) && c != block
                               && !Passed(old(lastBlockAllocated), block, c)) ==>
                     old(table)[c] != DELETED
      ensures block != 0 ==> Taken(old(table), old(lastBlockAllocated), block)
    {
      var deletedBlock := 0;
      var last := lastBlockAllocated;
      NotOwned(0);
      HomeInTable();
      hide TableOk, HomeBlock;
      block := Successor(last, size);
      while block != last
        invariant block < size
        invariant forall c :: 0 <= c < size && Passed(last, block, c) ==>
                    table[c] != UNUSED && (table[c] == DELETED ==> deletedBlock != 0)
        invariant deletedBlock != 0 ==>
                    deletedBlock < size && table[deletedBlock] == DELETED && Passed(last, block, deletedBlock)
        invariant deletedBlock != 0 ==>
                    forall c :: (0 <= c < size && Passed(last, block, c) && c != deletedBlock
                                 && !Passed(last, deletedBlock, c)) ==>
                      table[c] != DELETED
        decreases if block > last then size - block + last else last - block
      {
        if table[block] == UNUSED {
          lastBlockAllocated := block;
          FirstPassed(table, size, last, block);
          TakenUnused(table, last, block);
          return;
        }
        if table[block] == DELETED {
          deletedBlock := block;
        }
        block := Successor(block, size);
      }
      NonePassed(table, size, last);
      block := deletedBlock;
      if block != 0 {
        TakenDeleted(table, last, block);
        RecycleFileTable();
        lastBlockAllocated := block;
      }
    }

    // ----- access

    /** The walk to the block that holds the seek position, or to the block it ends. */
    method Locate(file: FileDescriptor) returns (block: nat, position: nat, ghost j: nat)
      requires Valid() && Open(file)
      ensures j < |chains[file.first]| && block == chains[file.first][j] && position == BLOCK_SIZE * j
      ensures 0 <= file.seek - position <= BLOCK_SIZE && (j == 0 || position < file.seek)
    {
      ghost var chain := chains[file.first];
      FirstLink(file.first);
      hide TableOk;
      block, position, j := file.first, 0, 0;
      while file.seek - position > BLOCK_SIZE
        invariant j < |chain| && block == chain[j] && position == BLOCK_SIZE * j && (j == 0 || position < file.seek)
        decreases file.seek - position
      {
        LinkOfChain(file.first, j);
        block := table[block];
        position := position + BLOCK_SIZE;
        j := j + 1;
      }
    }

    lemma FirstLink(f: nat)
      requires Valid() && f in chains
      ensures chains[f] != [] && chains[f][0] == f && InRange(chains[f], size) && f < size
    {
      assert ChainOk(table, tableSize, owner, f, chains[f]);
      forall i | 0 <= i < |chains[f]| ensures chains[f][i] < size {
        assert LinkOk(table, tableSize, owner, f, chains[f], i);
      }
    }

    lemma LinkOfChain(f: nat, j: nat)
      requires Valid() && f in chains && j < |chains[f]|
      ensures chains[f][j] < size && owner[chains[f][j]] == At(f, j) && table[chains[f][j]] == After(chains[f], j)
      ensures chains[f][j] !in chains[f][..j]
    {
      assert ChainOk(table, tableSize, owner, f, chains[f]);
      assert LinkOk(table, tableSize, owner, f, chains[f], j);
      forall i | 0 <= i < j ensures chains[f][i] != chains[f][j] {
        assert LinkOk(table, tableSize, owner, f, chains[f], i);
      }
    }

    /** Links a free block behind the last block of a file. */
    method Grow(f: nat, block: nat, ghost content: seq<bv8>) returns (newBlock: nat)
      requires Valid() && f in chains && block == chains[f][|chains[f]| - 1] && Holds(blocks, chains[f], content)
      modifies this
      ensures Valid() && OthersKept(f) && Holds(blocks, chains[f], content)
      ensures newBlock == 0 ==> chains[f] == old(chains[f]) && NoFreeBlock()
      ensures newBlock != 0 ==> chains[f] == old(chains[f]) + [newBlock]
    {
      newBlock := GetFreeBlock();
      FirstLink(f);
      ChainBlocksKept(f, old(blocks), content);
      if newBlock == 0 {
        return;
      }
      Link(f, block, newBlock, content);
    }

    method Link(f: nat, block: nat, newBlock: nat, ghost content: seq<bv8>)
      requires Valid() && f in chains && chains[f] != [] && block == chains[f][|chains[f]| - 1]
               && Holds(blocks, chains[f], content)
      requires newBlock < size && table[newBlock] == UNUSED
      modifies this`table, this`chains, this`owner
      ensures Valid() && chains == old(chains)[f := old(chains[f]) + [newBlock]] && Holds(blocks, chains[f], content)
      ensures old(owner[newBlock] == NoOne) && owner == old(owner)[newBlock := At(f, old(|chains[f]|))]
    {
      LifeCycle(newBlock, EOF);
      Extended(table, tableSize, chains, owner, f, newBlock);
      BlockAdded(blocks, chains[f], content, newBlock);
      HomeInTable();
      hide TableOk, EraseFree, Holds;
      FileTableWrite(newBlock, EOF);
      FileTableWrite(block, newBlock);
      owner := owner[newBlock := At(f, |chains[f]|)];
      chains := chains[f := chains[f] + [newBlock]];
    }

    /** Only the block allocated last may be free. */
    ghost predicate NoFreeBlock()
      reads this
    {
      forall b :: 0 <= b < |table| && b != lastBlockAllocated ==> table[b] != UNUSED && table[b] != DELETED
    }

    lemma ChainBlocksKept(f: nat, before: seq<Block>, content: seq<bv8>)
      requires Valid() && f in chains && |before| == size && Holds(before, chains[f], content)
      requires forall b :: 0 <= b < size && owner[b].At? ==> blocks[b] == before[b]
      ensures Holds(blocks, chains[f], content)
    {
      forall i | 0 <= i < |chains[f]| ensures blocks[chains[f][i]] == before[chains[f][i]] {
        LinkOfChain(f, i);
      }
      FirstLink(f);
      HoldsSame(before, blocks, chains[f], content);
    }

    /** Writes a segment behind a file's content, in its last block. */
    method WriteSegment(f: nat, block: nat, offset: nat, segment: seq<bv8>, ghost content: seq<bv8>)
      requires Valid() && f in chains && chains[f] != [] && block == chains[f][|chains[f]| - 1]
               && Holds(blocks, chains[f], content)
      requires |content| == BLOCK_SIZE * (|chains[f]| - 1) + offset && offset + |segment| <= BLOCK_SIZE
      modifies this`blocks
      ensures Valid() && OthersKept(f) && Holds(blocks, chains[f], content + segment)
    {
      LinkOfChain(f, |chains[f]| - 1);
      SegmentWritten(blocks, chains[f], content, offset, segment);
      hide TableOk, Holds;
      FlashWrite(block, offset, segment);
    }

    /** One turn of the copy loop, up to the end of the block. */
    method CopySegment(f: nat, block: nat, offset: nat, buffer: seq<bv8>, bytesCopied: nat, ghost content: seq<bv8>)
      returns (offset': nat, bytesCopied': nat)
      requires Valid() && f in chains && chains[f] != [] && block == chains[f][|chains[f]| - 1]
               && bytesCopied < |buffer|
      requires offset <= BLOCK_SIZE && |content| + bytesCopied == BLOCK_SIZE * (|chains[f]| - 1) + offset
      requires Holds(blocks, chains[f], content + buffer[..bytesCopied])
      modifies this`blocks
      ensures Valid() && OthersKept(f) && bytesCopied <= bytesCopied' <= |buffer|
              && bytesCopied' - bytesCopied == offset' - offset
      ensures Holds(blocks, chains[f], content + buffer[..bytesCopied'])
      ensures offset' == BLOCK_SIZE || (offset' < BLOCK_SIZE && bytesCopied' == |buffer|)
    {
      var segmentLength := Min(|buffer| - bytesCopied, BLOCK_SIZE - offset);
      var segment := buffer[bytesCopied..bytesCopied + segmentLength];
      assert content + buffer[..bytesCopied] + segment == content + buffer[..bytesCopied + segmentLength];
      assert OthersKept(f);
      hide TableOk, Holds, Shape;
      if segmentLength != 0 {
        WriteSegment(f, block, offset, segment, content + buffer[..bytesCopied]);
      }
      offset' := offset + segmentLength;
      bytesCopied' := bytesCopied + segmentLength;
    }

    /** Appends a buffer: as much of it as blocks can be found for. */
    method WriteBuffer(file: FileDescriptor, buffer: seq<bv8>, ghost content: seq<bv8>) returns (bytesCopied: nat)
      requires Valid() && Contains(file, content) && file.seek == file.length
      modifies this, file`seek, file`length
      ensures Valid() && bytesCopied <= |buffer| && Contains(file, content + buffer[..bytesCopied])
      ensures file.seek == file.length && OthersKept(file.first)
      ensures bytesCopied < |buffer| ==> NoFreeBlock()
    {
      hide TableOk, Holds, Shape, ChainFits;
      var block, position;
      ghost var j;
      block, position, j := Locate(file);
      LastLink(|chains[file.first]|, j, file.length);
      bytesCopied := CopyBuffer(file.first, block, file.seek - position, buffer, content);
      file.length := Max(file.length, file.seek + bytesCopied);
      file.seek := file.seek + bytesCopied;
    }

    lemma OthersItself(f: nat)
      requires Valid() && f in chains
      ensures Others(owner, blocks, chains, owner, blocks, chains, f)
    {
      hide TableOk;
      assert |table| == |owner|;
    }

    /** The copy loop, from the given offset of a file's last block. */
    method CopyBuffer(f: nat, firstBlock: nat, firstOffset: nat, buffer: seq<bv8>,
                      ghost content: seq<bv8>) returns (bytesCopied: nat)
      requires Valid() && f in chains && chains[f] != [] && firstBlock == chains[f][|chains[f]| - 1]
               && firstOffset <= BLOCK_SIZE
      requires |content| == BLOCK_SIZE * (|chains[f]| - 1) + firstOffset && Holds(blocks, chains[f], content)
               && ChainFits(|chains[f]|, |content|)
      modifies this
      ensures Valid() && OthersKept(f) && bytesCopied <= |buffer|
      ensures Holds(blocks, chains[f], content + buffer[..bytesCopied])
              && ChainFits(|chains[f]|, |content| + bytesCopied)
      ensures bytesCopied < |buffer| ==> NoFreeBlock()
    {
      hide TableOk, Holds, Shape, NoFreeBlock, Others;
      var block, offset := firstBlock, firstOffset;
      bytesCopied := 0;
      assert content + buffer[..0] == content;
      OthersItself(f);
      ghost var owner0, blocks0, chains0 := owner, blocks, chains;
      while bytesCopied < |buffer|
        invariant bytesCopied <= |buffer| && Valid() && f in chains && 0 <= offset <= BLOCK_SIZE
        invariant Others(owner0, blocks0, chains0, owner, blocks, chains, f)
        invariant chains[f] != [] && block == chains[f][|chains[f]| - 1]
        invariant |content| + bytesCopied == BLOCK_SIZE * (|chains[f]| - 1) + offset
        invariant Holds(blocks, chains[f], content + buffer[..bytesCopied])
        invariant ChainFits(|chains[f]|, |content| + bytesCopied) || (offset == 0 && bytesCopied < |buffer|)
        decreases |buffer| - bytesCopied, if offset == BLOCK_SIZE then 1 else 0
      {
        ghost var owner1, blocks1, chains1 := owner, blocks, chains;
        offset, bytesCopied := CopySegment(f, block, offset, buffer, bytesCopied, content);
        OthersJoin(owner0, blocks0, chains0, owner1, blocks1, chains1, owner, blocks, chains, f);
        if offset == BLOCK_SIZE && bytesCopied < |buffer| {
          owner1, blocks1, chains1 := owner, blocks, chains;
          var newBlock := Grow(f, block, content + buffer[..bytesCopied]);
          OthersJoin(owner0, blocks0, chains0, owner1, blocks1, chains1, owner, blocks, chains, f);
          if newBlock == 0 {
            break;
          }
          block := newBlock;
          offset := 0;
        }
      }
    }

    /** Reads from the seek position: exactly that slice of the content. */
    method Read(file: FileDescriptor, size: nat, ghost content: seq<bv8>) returns (r: Result, buffer: seq<bv8>)
      requires Valid() && Contains(file, content)
      modifies file`seek
      ensures size == 0 ==> r == InvalidParameter && file.seek == old(file.seek)
      ensures size > 0 ==> var n := Min(size, file.length - old(file.seek));
                           r == Ok(n) && buffer == content[old(file.seek)..old(file.seek) + n]
                               && file.seek == old(file.seek) + n
      ensures Contains(file, content)
    {
      buffer := [];
      if size == 0 {
        return InvalidParameter, buffer;
      }
      var size := Min(size, file.length - file.seek);
      var block, position;
      ghost var j;
      block, position, j := Locate(file);
      var offset := file.seek - position;
      ghost var chain, start := chains[file.first], file.seek;
      hide TableOk, Holds, ChainFits;
      while |buffer| < size
        invariant |buffer| <= size && 0 <= offset <= BLOCK_SIZE && BLOCK_SIZE * j + offset == start + |buffer|
                  && file.seek == start
        invariant |buffer| < size ==> j < |chain| && block == chain[j]
        invariant buffer == content[start..start + |buffer|]
        decreases size - |buffer|, if offset == BLOCK_SIZE then 1 else 0
      {
        LinkOfChain(file.first, j);
        var segmentLength := Min(size - |buffer|, BLOCK_SIZE - offset);
        SegmentRead(blocks, chain, content, start, j, offset, segmentLength);
        buffer := buffer + blocks[block][offset..offset + segmentLength];
        offset := offset + segmentLength;
        if offset == BLOCK_SIZE {
          BlockFollows(chain, j, file.length, start + |buffer|, start + size);
          block := table[block];
          offset, j := 0, j + 1;
        }
      }
      file.seek := file.seek + |buffer|;
      r := Ok(|buffer|);
    }

    /** Moves the seek position, within the file. */
    method Seek(file: FileDescriptor, offset: int, mode: SeekMode) returns (r: Result)
      requires Valid() && Open(file)
      modifies file`seek
      ensures Open(file)
      ensures var position := (match mode case Set => 0 case End => file.length case Current => old(file.seek))
              + offset;
              if 0 <= position <= file.length then r == Ok(position) && file.seek == position
              else r == InvalidParameter && file.seek == old(file.seek)
    {
      var position := match mode case Set => offset case End => file.length + offset case Current => file.seek + offset;
      if position < 0 || position > file.length {
        return InvalidParameter;
      }
      file.seek := position;
      return Ok(position);
    }

    // ----- files

    /** A new file: one block, and no content. */
    method CreateFile() returns (file: FileDescriptor?)
      requires Valid()
      modifies this
      ensures Valid() && (file != null ==>
                          fresh(file) && Contains(file, []) && file.seek == 0 && file.first !in old(chains)
                          && OthersKept(file.first))
      ensures file == null ==> chains == old(chains) && NoFreeBlock()
    {
      var newBlock := GetFreeBlock();
      if newBlock == 0 {
        return null;
      }
      Started(table, tableSize, chains, owner, newBlock);
      LifeCycle(0, EOF);
      hide TableOk, EraseFree;
      file := new FileDescriptor(newBlock, 0);
      FileTableWrite(newBlock, EOF);
      owner := owner[newBlock := At(newBlock, 0)];
      chains := chains[newBlock := [newBlock]];
    }

    /** Deletes a file: all its blocks, and no others, are marked as deleted. */
    method Remove(f: nat)
      requires Valid() && f in chains && f != tableSize
      modifies this`table, this`chains, this`owner
      ensures Valid() && chains == old(chains) - {f}
      ensures forall b :: 0 <= b < size ==>
                table[b] == if old(owner)[b].At? && old(owner)[b].file == f then DELETED else old(table)[b]
    {
      ghost var chain, j, table0 := chains[f], 0, table;
      FirstLink(f);
      hide TableOk, DeletedTo, EraseFree, ChainOk;
      NoneDeleted(table, chain);
      var block := f;
      while block != EOF
        invariant j <= |chain| && block == (if j < |chain| then chain[j] else EOF) && DeletedTo(table, table0, chain, j)
        invariant chains == old(chains) && owner == old(owner) && j <= |chain| && |table| == |table0|
        decreases |chain| - j
      {
        NextOfChain(table0, tableSize, chains, owner, f, j);
        EntryWord(table0, tableSize, chains, owner, block);
        LifeCycle(0, table0[block]);
        StillThere(table, table0, chain, j);
        DeletedNext(table, table0, chain, j);
        var nextBlock := table[block];
        FileTableWrite(block, DELETED);
        block := nextBlock;
        j := j + 1;
      }
      EndOfChain(table0, tableSize, chains, owner, f, j);
      Removed(table0, tableSize, chains, owner, f, table, Disowned(owner, f));
      owner := Disowned(owner, f);
      chains := chains - {f};
    }
  }

  /** The segment continues what has been read from start on. */
  lemma SegmentRead(blocks: seq<Block>, chain: seq<nat>, content: seq<bv8>, start: nat, j: nat, offset: nat, n: nat)
    requires Holds(blocks, chain, content) && j < |chain| && offset + n <= BLOCK_SIZE
             && BLOCK_SIZE * j + offset + n <= |content|
    requires start <= BLOCK_SIZE * j + offset
    ensures chain[j] < |blocks| && offset + n <= |blocks[chain[j]]|
    ensures var x := BLOCK_SIZE * j + offset;
            content[start..x] + blocks[chain[j]][offset..offset + n] == content[start..x + n]
  {
    SliceOfBlock(blocks, chain, j, offset, offset + n);
    var bytes, x := Bytes(blocks, chain), BLOCK_SIZE * j + offset;
    SliceOfPart(bytes, |content|, x, x + n);
    assert content[start..x + n] == content[start..x] + content[x..x + n];
    hide Bytes, Holds;
  }

  /** The walk to the end of a file ends in its last block. */
  lemma LastLink(n: nat, j: nat, length: nat)
    requires ChainFits(n, length) && j < n && 0 <= length - BLOCK_SIZE * j <= BLOCK_SIZE
             && (j == 0 || BLOCK_SIZE * j < length)
    ensures j == n - 1
  {}

  /** While there is more to read, there is a next block. */
  lemma BlockFollows(chain: seq<nat>, j: nat, length: nat, x: nat, end: nat)
    requires ChainFits(|chain|, length) && x == BLOCK_SIZE * (j + 1) && end <= length
    ensures x < end ==> j + 1 < |chain|
  {}

  lemma NextOfChain(table: seq<nat>, tableSize: nat, chains: Chains, owner: seq<Owner>, f: nat, j: nat)
    requires TableOk(table, tableSize, chains, owner) && f in chains && j < |chains[f]|
    ensures chains[f][j] < |table| && table[chains[f][j]] == After(chains[f], j) && chains[f][j] !in chains[f][..j]
    ensures j + 1 < |chains[f]| ==> chains[f][j + 1] < MAX_BLOCKS
  {
    assert ChainOk(table, tableSize, owner, f, chains[f]);
    assert LinkOk(table, tableSize, owner, f, chains[f], j);
    forall i | 0 <= i < j ensures chains[f][i] != chains[f][j] {
      assert LinkOk(table, tableSize, owner, f, chains[f], i);
    }
    if j + 1 < |chains[f]| {
      assert LinkOk(table, tableSize, owner, f, chains[f], j + 1);
    }
  }

  lemma EntryWord(table: seq<nat>, tableSize: nat, chains: Chains, owner: seq<Owner>, b: nat)
    requires TableOk(table, tableSize, chains, owner) && b < |table|
    ensures table[b] < 0x1_0000
  {
    assert EntryOk(table, tableSize, chains, owner, b);
    if owner[b].At? {
      LinkValue(table, tableSize, chains, owner, owner[b].file, owner[b].index);
    }
  }

  ghost function Disowned(owner: seq<Owner>, f: nat): (r: seq<Owner>)
    ensures |r| == |owner| && forall b :: 0 <= b < |owner| ==>
              r[b] == if owner[b].At? && owner[b].file == f then NoOne else owner[b]
  {
    seq(|owner|, b requires 0 <= b < |owner| => if owner[b].At? && owner[b].file == f then NoOne else owner[b])
  }

  /** No block number is the end marker. */
  lemma EndOfChain(table: seq<nat>, tableSize: nat, chains: Chains, owner: seq<Owner>, f: nat, j: nat)
    requires TableOk(table, tableSize, chains, owner) && f in chains && j <= |chains[f]|
    requires EOF == if j < |chains[f]| then chains[f][j] else EOF
    ensures j == |chains[f]|
  {
    if j < |chains[f]| {
      LinkValue(table, tableSize, chains, owner, f, j);
    }
  }

  lemma NoneDeleted(table: seq<nat>, chain: seq<nat>)
    ensures DeletedTo(table, table, chain, 0)
  {}

  lemma StillThere(table': seq<nat>, table: seq<nat>, chain: seq<nat>, j: nat)
    requires j < |chain| && chain[j] < |table| && chain[j] !in chain[..j] && DeletedTo(table', table, chain, j)
    ensures |table'| == |table| && table'[chain[j]] == table[chain[j]]
  {}

  lemma DeletedNext(before: seq<nat>, table: seq<nat>, chain: seq<nat>, j: nat)
    requires j < |chain| && chain[j] < |before| && DeletedTo(before, table, chain, j)
    ensures DeletedTo(before[chain[j] := DELETED], table, chain, j + 1)
  {
    assert chain[..j + 1] == chain[..j] + [chain[j]];
  }

  // ----- which pages the recycling of the table reaches

  /** The table begins with the page of block 0 and ends on the page at q: no block up to q is
      free, and no entry lies behind that page. */
  ghost predicate TableBefore(words: seq<nat>, q: nat, n: nat)
  {
    && n > 0 && Offset(q, n) == 0 && |words| <= 128 * (q + n)
    && forall d :: 0 <= d < |words| && words[d] == 0 ==> q < d
  }

  /** A block on the table's last page, at q, is deleted: then that page is recycled early on,
      and the entries on it become unused. */
  ghost predicate Early(words: seq<nat>, q: nat, n: nat)
  {
    exists d :: q <= d < q + n && d < |words| && words[d] == 0
  }

  /** The walk does not see that block d was deleted: its entry has become unused before. */
  ghost predicate Missed(words: seq<nat>, q: nat, n: nat, d: nat)
  {
    d >= q + n && q <= d / 128 < q + n && Early(words, q, n)
  }

  /** The walk, as far as block, has recycled the page at p. */
  ghost predicate Visited(words: seq<nat>, q: nat, n: nat, p: nat, block: nat)
  {
    exists d :: p <= d < p + n && d < block && d < |words| && words[d] == 0 && !Missed(words, q, n, d)
  }

  /** The page at p is recycled: it belongs to the table, or holds a deleted block that is seen. */
  ghost predicate Refreshed(words: seq<nat>, q: nat, n: nat, p: nat)
  {
    p <= q || Visited(words, q, n, p, |words|)
  }

  /** A deleted block that is not erased: another one, on the table's page, was deleted too. */
  lemma DeletedKept()
    ensures var words := [1, EOF, DELETED, EOF, DELETED, EOF, EOF, EOF];
            words[4] == DELETED && !Refreshed(words, 0, 4, 4)
  {
    var words := [1, EOF, DELETED, EOF, DELETED, EOF, EOF, EOF];
    assert words[2] == 0 && Early(words, 0, 4);
  }

  /** Table and blocks when the walk has come to block. */
  ghost predicate WalkedTo(words: seq<nat>, blocks0: seq<Block>, table: seq<nat>, blocks: seq<Block>, q: nat, n: nat,
                           block: nat)
  {
    && n > 0 && |table| == |words| == |blocks| == |blocks0|
    && (forall e :: 0 <= e < |words| ==>
        table[e] == if words[e] == 0 && Visited(words, q, n, q, block) && q <= e / 128 < q + n
          then 0xFFFF else words[e])
    && (forall b :: 0 <= b < |words| ==>
        blocks[b] == if IsFree(words[b]) && Visited(words, q, n, RoundDown(b, n), block) then Blanks(256)
                     else blocks0[b])
  }

  lemma WalkStart(words: seq<nat>, blocks0: seq<Block>, q: nat, n: nat)
    requires n > 0 && |words| == |blocks0|
    ensures WalkedTo(words, blocks0, words, blocks0, q, n, 0)
  {}

  /** Another page is not affected by what is on this one. */
  lemma OtherPage(words: seq<nat>, q: nat, n: nat, block: nat, p: nat, p': nat)
    requires n > 0 && Offset(p, n) == 0 && Offset(p', n) == 0 && p <= block < p + n && p' != p
    ensures Visited(words, q, n, p', block + 1) <==> Visited(words, q, n, p', block)
  {
    if p' < p {
      MultiplesApart(p', p, n);
    } else {
      MultiplesApart(p, p', n);
    }
    hide Offset, Missed;
  }

  /** Whether the walk sees block as deleted. */
  lemma SeenDeleted(words: seq<nat>, q: nat, n: nat, block: nat, p: nat)
    requires TableBefore(words, q, n) && Offset(p, n) == 0 && p <= block < p + n && block < |words| && words[block] == 0
    ensures q <= p
    ensures p > q ==> q + n <= p && (Visited(words, q, n, q, block) <==> Early(words, q, n))
    ensures p == q ==> !Missed(words, q, n, block)
  {
    if p < q {
      MultiplesApart(p, q, n);
    } else if q < p {
      MultiplesApart(q, p, n);
    }
    hide Offset;
    if Early(words, q, n) && q < p {
      var d :| q <= d < q + n && d < |words| && words[d] == 0;
      assert !Missed(words, q, n, d);
    }
  }

  lemma WalkPasses(words: seq<nat>, blocks0: seq<Block>, table: seq<nat>, blocks: seq<Block>, q: nat, n: nat,
                   block: nat, p: nat)
    requires TableBefore(words, q, n) && WalkedTo(words, blocks0, table, blocks, q, n, block)
    requires Offset(p, n) == 0 && p <= block < p + n && block < |words|
    requires table[block] != 0 || Visited(words, q, n, p, block)
    ensures WalkedTo(words, blocks0, table, blocks, q, n, block + 1)
    ensures Visited(words, q, n, p, block + 1) <==> Visited(words, q, n, p, block)
  {
    PassedPage(words, blocks0, table, blocks, q, n, block, p);
    SamePages(words, q, n, block, p);
    hide Visited, Offset, RoundDown, Missed, TableBefore;
  }

  lemma SamePages(words: seq<nat>, q: nat, n: nat, block: nat, p: nat)
    requires n > 0 && Offset(q, n) == 0 && Offset(p, n) == 0 && p <= block < p + n
    requires Visited(words, q, n, p, block + 1) <==> Visited(words, q, n, p, block)
    ensures Visited(words, q, n, q, block + 1) <==> Visited(words, q, n, q, block)
    ensures forall b: nat :: b < |words| ==>
              (Visited(words, q, n, RoundDown(b, n), block + 1) <==> Visited(words, q, n, RoundDown(b, n), block))
  {
    hide Visited, RoundDown, Offset;
    if q != p {
      OtherPage(words, q, n, block, p, q);
    }
    forall b: nat | b < |words|
      ensures Visited(words, q, n, RoundDown(b, n), block + 1) <==> Visited(words, q, n, RoundDown(b, n), block)
    {
      RoundedDown(b, n);
      if RoundDown(b, n) != p {
        OtherPage(words, q, n, block, p, RoundDown(b, n));
      }
    }
  }

  lemma PassedPage(words: seq<nat>, blocks0: seq<Block>, table: seq<nat>, blocks: seq<Block>, q: nat, n: nat,
                   block: nat, p: nat)
    requires TableBefore(words, q, n) && WalkedTo(words, blocks0, table, blocks, q, n, block)
    requires Offset(p, n) == 0 && p <= block < p + n && block < |words|
    requires table[block] != 0 || Visited(words, q, n, p, block)
    ensures Visited(words, q, n, p, block + 1) <==> Visited(words, q, n, p, block)
  {
    hide Visited, Offset, RoundDown, Early;
    VisitedGrows(words, q, n, p, block);
    if words[block] == 0 {
      SeenDeleted(words, q, n, block, p);
    }
  }

  lemma VisitedGrows(words: seq<nat>, q: nat, n: nat, p: nat, block: nat)
    requires p <= block < p + n && block < |words|
    ensures Visited(words, q, n, p, block + 1)
       <==> Visited(words, q, n, p, block) || (words[block] == 0 && !Missed(words, q, n, block))
  {
    hide Missed;
  }

  /** What RecyclePage does to the page at p. */
  ghost predicate PageDone(table: seq<nat>, blocks: seq<Block>, table': seq<nat>, blocks': seq<Block>, p: nat, n: nat)
  {
    && |table'| == |blocks'| == |table| == |blocks|
    && (forall e :: 0 <= e < |table| ==>
        table'[e] == if table[e] == 0 && p <= e / 128 < p + n then 0xFFFF else table[e])
    && (forall b :: 0 <= b < |table| ==>
        blocks'[b] == if p <= b < p + n && IsFree(table[b]) then Blanks(256) else blocks[b])
  }

  lemma WalkRecycles(words: seq<nat>, blocks0: seq<Block>, table: seq<nat>, blocks: seq<Block>, table': seq<nat>,
                     blocks': seq<Block>, q: nat, n: nat, block: nat, p: nat)
    requires TableBefore(words, q, n) && WalkedTo(words, blocks0, table, blocks, q, n, block)
    requires Offset(p, n) == 0 && p <= block < p + n && block < |words| && table[block] == 0
    requires PageDone(table, blocks, table', blocks', p, n)
    ensures WalkedTo(words, blocks0, table', blocks', q, n, block + 1) && Visited(words, q, n, p, block + 1)
  {
    SeesDeleted(words, blocks0, table, blocks, q, n, block, p);
    hide Visited, Offset, Missed, RoundDown, TableBefore;
    EntriesRecycled(words, blocks0, table, blocks, table', blocks', q, n, block, p);
    forall b | 0 <= b < |words|
      ensures blocks'[b] == if IsFree(words[b]) && Visited(words, q, n, RoundDown(b, n), block + 1) then Blanks(256)
              else blocks0[b]
    {
      PagesUpTo(p, b, n);
      PageOf(b, n);
      if RoundDown(b, n) != p {
        OtherPage(words, q, n, block, p, RoundDown(b, n));
      }
    }
  }

  lemma SeesDeleted(words: seq<nat>, blocks0: seq<Block>, table: seq<nat>, blocks: seq<Block>, q: nat, n: nat,
                    block: nat, p: nat)
    requires TableBefore(words, q, n) && WalkedTo(words, blocks0, table, blocks, q, n, block)
    requires Offset(p, n) == 0 && p <= block < p + n && block < |words| && table[block] == 0
    ensures Visited(words, q, n, p, block + 1) && (p == q || q + n <= p)
    ensures p != q ==> (Visited(words, q, n, q, block + 1) <==> Visited(words, q, n, q, block))
  {
    assert words[block] == 0;
    SeenDeleted(words, q, n, block, p);
    assert !Missed(words, q, n, block);
    if q != p {
      OtherPage(words, q, n, block, p, q);
    }
  }

  lemma EntriesRecycled(words: seq<nat>, blocks0: seq<Block>, table: seq<nat>, blocks: seq<Block>, table': seq<nat>,
                        blocks': seq<Block>, q: nat, n: nat, block: nat, p: nat)
    requires TableBefore(words, q, n) && WalkedTo(words, blocks0, table, blocks, q, n, block)
    requires PageDone(table, blocks, table', blocks', p, n) && Visited(words, q, n, p, block + 1)
      && (p == q || q + n <= p)
    requires p != q ==> (Visited(words, q, n, q, block + 1) <==> Visited(words, q, n, q, block))
    ensures forall e :: 0 <= e < |words| ==>
              table'[e] == if words[e] == 0 && Visited(words, q, n, q, block + 1) && q <= e / 128 < q + n then 0xFFFF
                           else words[e]
  {
    hide Visited, Offset, RoundDown;
  }

  lemma PageOf(b: nat, n: nat)
    requires n > 0
    ensures Offset(RoundDown(b, n), n) == 0 && RoundDown(b, n) <= b < RoundDown(b, n) + n
    ensures b > 0 && Offset(b, n) != 0 ==> RoundDown(b - 1, n) == RoundDown(b, n)
  {
    RoundedDown(b, n);
    if b > 0 && Offset(b, n) != 0 {
      OffsetStep(b - 1, 1, n);
    }
  }

  /** When the walk comes to a page, it has not been there yet. */
  lemma PageBegins(words: seq<nat>, q: nat, n: nat, block: nat)
    requires n > 0
    ensures Offset(block, n) == 0 ==> RoundDown(block, n) == block && !Visited(words, q, n, block, block)
  {
    hide Missed, Offset;
  }

  /** A block lies on the page at p exactly if its page begins there. */
  lemma PagesUpTo(p: nat, b: nat, n: nat)
    requires n > 0 && Offset(p, n) == 0
    ensures b < p + n <==> RoundDown(b, n) <= p
    ensures p <= b ==> p <= RoundDown(b, n)
    ensures p <= b < p + n <==> RoundDown(b, n) == p
  {
    PageOf(b, n);
    if p <= b {
      UnitAbove(b, p, n);
      if p < RoundDown(b, n) {
        MultiplesApart(p, RoundDown(b, n), n);
      }
    }
    if p + n <= b {
      OffsetStep(p, n, n);
      UnitAbove(b, p + n, n);
    }
  }

  /** The block of the table that holds entry e. */
  function HomeBlock(e: nat): nat { e / ENTRIES_PER_BLOCK }

  /** (block + 1) % size. */
  function Successor(block: nat, size: nat): nat { if block + 1 == size then 0 else block + 1 }

  /** Going round from last, c comes before block. */
  predicate Passed(last: nat, block: nat, c: nat)
  {
    if block > last then last < c < block else c > last || c < block
  }

  /** Passed is to have come up earlier, counting from last. */
  lemma GoingRound(last: nat, size: nat, block: nat, c: nat)
    requires last < size && block < size && c < size && block != last && c != last
    ensures Passed(last, block, c) <==> (c - last) % size < (block - last) % size
  {
    Turn(last, size, block);
    Turn(last, size, c);
  }

  lemma Turn(last: nat, size: nat, c: nat)
    requires last < size && c < size
    ensures (c - last) % size == if c >= last then c - last else c - last + size
  {
    if c < last {
      assert (c - last) == (c - last + size) - size;
    }
  }

  lemma FirstPassed(table: seq<nat>, size: nat, last: nat, block: nat)
    requires last < size == |table| <= MAX_BLOCKS && block < size && block != last && table[block] == UNUSED
    requires forall c :: 0 <= c < size && Passed(last, block, c) ==> table[c] != UNUSED
    ensures RoundRobin(table, size, last) == block
  {
    var b, c := FirstUnused(table, last + 1, size), FirstUnused(table, 0, last);
  }

  lemma NonePassed(table: seq<nat>, size: nat, last: nat)
    requires last < size == |table| && forall c :: 0 <= c < size && Passed(last, last, c) ==> table[c] != UNUSED
    ensures RoundRobin(table, size, last) == WORDS
  {
    var b, c := FirstUnused(table, last + 1, size), FirstUnused(table, 0, last);
  }
}
