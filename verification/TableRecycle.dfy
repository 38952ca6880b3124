/** recycleBlock on flash: a page is rebuilt without its free blocks and deleted table entries. */
module TableRecycle {
  import opened Arith
  import opened Nor
  import opened FlashWrite

  const BLOCK_SIZE: nat := 256
  const ENTRY_SIZE: nat := 2
  const ENTRIES: nat := 128

  /** A table entry: two bytes at a. */
  function Entry(mem: seq<bv8>, a: nat): (r: seq<bv8>)
    requires a + ENTRY_SIZE <= |mem|
    ensures |r| == ENTRY_SIZE
  {
    mem[a..a + ENTRY_SIZE]
  }

  const DELETED: seq<bv8> := [0, 0]
  const UNUSED: seq<bv8> := [BLANK, BLANK]

  /** Where the table begins, and the root directory behind it. */
  datatype Place = Place(base: nat, root: nat)

  ghost predicate InMemory(mem: seq<bv8>, at: Place, b: nat)
  {
    at.base + BLOCK_SIZE * b + BLOCK_SIZE <= |mem|
  }

  function BlockAddress(at: Place, b: nat): nat { at.base + BLOCK_SIZE * b }

  /** The table's entry for block b says that it is free. */
  predicate FreeBlock(mem: seq<bv8>, at: Place, b: nat)
    requires InMemory(mem, at, b)
  {
    var e := Entry(mem, at.base + ENTRY_SIZE * b); e == DELETED || e == UNUSED
  }

  /** The first n entries at a, with the deleted ones made unused. */
  function RecycledEntries(mem: seq<bv8>, a: nat, n: nat): (r: seq<bv8>)
    requires a + ENTRY_SIZE * n <= |mem|
    ensures |r| == ENTRY_SIZE * n
  {
    if n == 0 then []
    else
      var e := Entry(mem, a + ENTRY_SIZE * (n - 1));
      RecycledEntries(mem, a, n - 1) + if e == DELETED then UNUSED else e
  }

  function RecycledBlock(mem: seq<bv8>, at: Place, b: nat): (r: seq<bv8>)
    requires InMemory(mem, at, b)
    ensures |r| == BLOCK_SIZE
  {
    var a := BlockAddress(at, b);
    if FreeBlock(mem, at, b) then Blanks(BLOCK_SIZE)
    else if a < at.root then RecycledEntries(mem, a, ENTRIES)
    else mem[a..a + BLOCK_SIZE]
  }

  /** What n blocks from the first on become. */
  function RecycledBlocks(mem: seq<bv8>, at: Place, first: nat, n: nat): (r: seq<bv8>)
    requires n > 0 ==> InMemory(mem, at, first + n - 1)
    ensures |r| == BLOCK_SIZE * n
  {
    if n == 0 then [] else RecycledBlocks(mem, at, first, n - 1) + RecycledBlock(mem, at, first + n - 1)
  }

  /** Exactly the deleted entries change, and they become unused. */
  lemma {:induction false} EntryRecycled(mem: seq<bv8>, a: nat, n: nat, e: nat)
    requires a + ENTRY_SIZE * n <= |mem| && e < n
    ensures Entry(RecycledEntries(mem, a, n), ENTRY_SIZE * e)
            == (if Entry(mem, a + ENTRY_SIZE * e) == DELETED then UNUSED else Entry(mem, a + ENTRY_SIZE * e))
  {
    var last := Entry(mem, a + ENTRY_SIZE * (n - 1));
    EntrySlice(RecycledEntries(mem, a, n - 1), if last == DELETED then UNUSED else last, n - 1, e);
    if e < n - 1 {
      EntryRecycled(mem, a, n - 1, e);
    }
  }

  lemma EntrySlice(before: seq<bv8>, last: seq<bv8>, n: nat, e: nat)
    requires |before| == ENTRY_SIZE * n && |last| == ENTRY_SIZE && e <= n
    ensures Entry(before + last, ENTRY_SIZE * e) == if e < n then Entry(before, ENTRY_SIZE * e) else last
  {}

  /** Each block of the page becomes what it should; live blocks behind the table are kept. */
  lemma {:induction false} BlockRecycled(mem: seq<bv8>, at: Place, first: nat, n: nat, i: nat)
    requires i < n && InMemory(mem, at, first + n - 1)
    ensures InMemory(mem, at, first + i)
    ensures RecycledBlocks(mem, at, first, n)[BLOCK_SIZE * i..BLOCK_SIZE * (i + 1)] == RecycledBlock(mem, at, first + i)
    ensures !FreeBlock(mem, at, first + i) && BlockAddress(at, first + i) >= at.root ==>
              RecycledBlock(mem, at, first + i)
                  == mem[BlockAddress(at, first + i)..BlockAddress(at, first + i) + BLOCK_SIZE]
  {
    hide RecycledBlock;
    BlockSlice(RecycledBlocks(mem, at, first, n - 1), RecycledBlock(mem, at, first + n - 1), n - 1, i);
    if i < n - 1 {
      BlockRecycled(mem, at, first, n - 1, i);
    } else {
      LiveKept(mem, at, first + i);
    }
  }

  lemma LiveKept(mem: seq<bv8>, at: Place, b: nat)
    requires InMemory(mem, at, b)
    ensures !FreeBlock(mem, at, b) && BlockAddress(at, b) >= at.root ==>
              RecycledBlock(mem, at, b) == mem[BlockAddress(at, b)..BlockAddress(at, b) + BLOCK_SIZE]
  {}

  lemma BlockSlice(before: seq<bv8>, last: seq<bv8>, n: nat, i: nat)
    requires |before| == BLOCK_SIZE * n && |last| == BLOCK_SIZE && i <= n
    ensures (before + last)[BLOCK_SIZE * i..BLOCK_SIZE * (i + 1)] == if i < n then
              before[BLOCK_SIZE * i..BLOCK_SIZE * (i + 1)] else last
  {}

  /** What happens to block b, in bytes. Blank, if its entry in the table is all zeros or all
      ones; as it was, if it lies behind the table; and in a block of the table exactly the
      entries that are all zeros become all ones. */
  ghost predicate BlockOutcome(mem: seq<bv8>, mem': seq<bv8>, at: Place, b: nat)
    requires InMemory(mem, at, b) && |mem'| == |mem|
  {
    var e, a := at.base + 2 * b, at.base + 256 * b;
    if (mem[e] == 0 && mem[e + 1] == 0) || (mem[e] == 0xFF && mem[e + 1] == 0xFF) then
      forall i :: a <= i < a + 256 ==> mem'[i] == 0xFF
    else if a >= at.root then
      forall i :: a <= i < a + 256 ==> mem'[i] == mem[i]
    else
      forall k :: 0 <= k < 128 ==> EntryOutcome(mem, mem', a + 2 * k)
  }

  ghost predicate EntryOutcome(mem: seq<bv8>, mem': seq<bv8>, a: nat)
    requires a + 2 <= |mem| == |mem'|
  {
    if mem[a] == 0 && mem[a + 1] == 0 then mem'[a] == 0xFF && mem'[a + 1] == 0xFF
    else mem'[a] == mem[a] && mem'[a + 1] == mem[a + 1]
  }

  lemma RecycledOutcome(mem: seq<bv8>, mem': seq<bv8>, at: Place, b: nat)
    requires InMemory(mem, at, b) && |mem'| == |mem|
    requires mem'[BlockAddress(at, b)..BlockAddress(at, b) + BLOCK_SIZE] == RecycledBlock(mem, at, b)
    ensures BlockOutcome(mem, mem', at, b)
  {
    var e, a := at.base + 2 * b, at.base + 256 * b;
    var block := RecycledBlock(mem, at, b);
    EntryBytes(mem, e);
    forall i | a <= i < a + 256 ensures mem'[i] == block[i - a] {
      assert mem'[a..a + 256][i - a] == mem'[i];
    }
    if FreeBlock(mem, at, b) {
    } else if a >= at.root {
      LiveKept(mem, at, b);
    } else {
      forall k | 0 <= k < 128 ensures EntryOutcome(mem, mem', a + 2 * k) {
        EntryRecycled(mem, a, ENTRIES, k);
        EntryBytes(mem, a + 2 * k);
        EntryBytes(block, 2 * k);
      }
    }
  }

  lemma EntryBytes(mem: seq<bv8>, a: nat)
    requires a + 2 <= |mem|
    ensures Entry(mem, a) == [mem[a], mem[a + 1]]
  {}

  /** So it happens to n blocks, and to no other byte. */
  ghost predicate PageRebuilt(mem: seq<bv8>, mem': seq<bv8>, at: Place, first: nat, n: nat)
  {
    && |mem'| == |mem|
    && (forall b :: first <= b < first + n ==> InMemory(mem, at, b) && BlockOutcome(mem, mem', at, b))
    && forall i :: 0 <= i < |mem| && !(at.base + 256 * first <= i < at.base + 256 * (first + n)) ==> mem'[i] == mem[i]
  }

  lemma PageOutcome(mem: seq<bv8>, at: Place, first: nat, n: nat)
    requires n > 0 && InMemory(mem, at, first + n - 1)
    ensures BlockAddress(at, first) + BLOCK_SIZE * n <= |mem|
    ensures PageRebuilt(mem, Overwrite(mem, BlockAddress(at, first), RecycledBlocks(mem, at, first, n)), at, first, n)
  {
    hide BlockOutcome, RecycledBlocks;
    var mem' := Overwrite(mem, BlockAddress(at, first), RecycledBlocks(mem, at, first, n));
    forall b | first <= b < first + n ensures InMemory(mem, at, b) && BlockOutcome(mem, mem', at, b) {
      OneOutcome(mem, at, first, n, b);
    }
  }

  lemma OneOutcome(mem: seq<bv8>, at: Place, first: nat, n: nat, b: nat)
    requires n > 0 && InMemory(mem, at, first + n - 1) && first <= b < first + n
    ensures InMemory(mem, at, b) && BlockAddress(at, first) + BLOCK_SIZE * n <= |mem|
    ensures BlockOutcome(mem, Overwrite(mem, BlockAddress(at, first), RecycledBlocks(mem, at, first, n)), at, b)
  {
    hide RecycledBlock, BlockOutcome;
    var p, page, i := BlockAddress(at, first), RecycledBlocks(mem, at, first, n), b - first;
    BlockRecycled(mem, at, first, n, i);
    hide RecycledBlocks;
    var mem', a := Overwrite(mem, p, page), BlockAddress(at, b);
    assert a == p + BLOCK_SIZE * i && mem'[p..p + |page|] == page;
    assert mem'[p..p + |page|][BLOCK_SIZE * i..BLOCK_SIZE * (i + 1)] == mem'[a..a + BLOCK_SIZE];
    RecycledOutcome(mem, mem', at, b);
  }

  /** Copying has got as far as data, which follows start in the scratch page. */
  ghost predicate Copied(mem: seq<bv8>, mem0: seq<bv8>, scratch: nat, data: seq<bv8>)
  {
    scratch + |data| <= |mem0| && mem == Overwrite(mem0, scratch, data)
  }

  lemma CopiedMore(mem: seq<bv8>, mem0: seq<bv8>, scratch: nat, data: seq<bv8>, more: seq<bv8>)
    requires Copied(mem, mem0, scratch, data) && scratch + |data| + |more| <= |mem0|
    ensures |mem| == |mem0| && Copied(Overwrite(mem, scratch + |data|, more), mem0, scratch, data + more)
  {}

  /** Blank flash need not be written to be blank. */
  lemma CopiedBlank(mem: seq<bv8>, mem0: seq<bv8>, scratch: nat, data: seq<bv8>, more: seq<bv8>)
    requires Copied(mem, mem0, scratch, data) && scratch + |data| + |more| <= |mem0|
    requires more == Blanks(|more|) && forall i :: scratch + |data| <= i < scratch + |data| + |more| ==>
               mem0[i] == BLANK
    ensures Copied(mem, mem0, scratch, data + more)
  {
    var o := Overwrite(mem0, scratch, data + more);
    forall i | 0 <= i < |mem0| ensures o[i] == mem[i] {
      if scratch + |data| <= i < scratch + |data| + |more| {
        assert (data + more)[i - scratch] == more[i - scratch - |data|];
      }
    }
  }

  /** The rest of the scratch page is blank, and other memory is as it was. */
  lemma CopiedRest(mem: seq<bv8>, mem0: seq<bv8>, scratch: nat, data: seq<bv8>, a: nat, n: nat)
    requires Copied(mem, mem0, scratch, data) && a + n <= |mem0| && (a + n <= scratch || scratch + |data| <= a)
    ensures |mem| == |mem0| && mem[a..a + n] == mem0[a..a + n]
  {}

  ghost predicate BlankPage(mem: seq<bv8>, p: nat, page: nat)
  {
    p + page <= |mem| && forall i :: p <= i < p + page ==> mem[i] == BLANK
  }

  class Recycler {
    const flash: MicroBitFlash
    const at: Place
    const defaultScratch: nat

    constructor (flash: MicroBitFlash, at: Place, defaultScratch: nat)
      ensures this.flash == flash && this.at == at && this.defaultScratch == defaultScratch
    {
      this.flash, this.at, this.defaultScratch := flash, at, defaultScratch;
    }

    ghost predicate Valid()
      reads flash
    {
      flash.Valid() && Offset(defaultScratch, flash.page) == 0 && defaultScratch + flash.page <= |flash.mem|
    }

    /** flash_write on blank flash, within the page at p. */
    method WriteBlank(p: nat, address: nat, data: seq<bv8>)
      requires Valid() && Offset(p, flash.page) == 0 && p + flash.page + 4 <= |flash.mem|
      requires p <= address < p + flash.page && address + |data| <= p + flash.page
               && BlankPage(flash.mem, address, |data|)
      modifies flash
      ensures flash.mem == Overwrite(old(flash.mem), address, data)
    {
      PageOf(p, address, flash.page);
      BlankClears(flash.mem, address, data);
      hide Offset, Written, ClearsAll, Overwrite;
      InPlaceWritten(flash.mem, address, data, defaultScratch, flash.page);
      var r := flash.FlashWrite(address, data, defaultScratch);
    }

    /** The scratch page lies apart from the page and the table entries that are read. */
    ghost predicate Ready(mem: seq<bv8>, scratch: nat)
    {
      && flash.page > 0 && Offset(scratch, flash.page) == 0 && scratch + flash.page + 4 <= |mem|
      && BlankPage(mem, scratch, flash.page)
    }

    method CopyEntry(scratch: nat, tableOut: nat, e: seq<bv8>, ghost mem0: seq<bv8>, ghost data: seq<bv8>)
      requires Valid() && Ready(mem0, scratch) && Copied(flash.mem, mem0, scratch, data) && |e| == ENTRY_SIZE
      requires tableOut == scratch + |data| && |data| + ENTRY_SIZE <= flash.page
      modifies flash
      ensures Valid() && Copied(flash.mem, mem0, scratch, data + if e == DELETED then UNUSED else e)
    {
      CopiedMore(flash.mem, mem0, scratch, data, e);
      CopiedBlankRest(flash.mem, mem0, scratch, data, ENTRY_SIZE, flash.page);
      hide Offset, Overwrite, Copied;
      if e != DELETED {
        WriteBlank(scratch, tableOut, e);
      } else {
        assert UNUSED == Blanks(|UNUSED|);
        CopiedBlank(flash.mem, mem0, scratch, data, UNUSED);
      }
    }

    /** A block of the table: entries that are not deleted are copied one by one. */
    method CopyEntries(scratch: nat, tableOut: nat, tableIn: nat, ghost mem0: seq<bv8>, ghost data: seq<bv8>)
      requires Valid() && Ready(mem0, scratch) && Copied(flash.mem, mem0, scratch, data)
      requires tableOut == scratch + |data| && |data| + BLOCK_SIZE <= flash.page && tableIn + BLOCK_SIZE <= |mem0|
      requires tableIn + BLOCK_SIZE <= scratch || scratch + flash.page <= tableIn
      modifies flash
      ensures Valid() && Copied(flash.mem, mem0, scratch, data + RecycledEntries(mem0, tableIn, ENTRIES))
    {
      hide Offset, Overwrite, Copied, Ready, RecycledEntries, Copying, BlankPage;
      var entry, a, out := 0, tableIn, tableOut;
      ghost var done := data;
      EntriesBegin(mem0, tableIn, data);
      CopiedLength(flash.mem, mem0, scratch, data);
      while entry < ENTRIES
        invariant 0 <= entry <= ENTRIES && Valid() && |flash.mem| == |mem0|
        invariant tableIn <= a && Copying(mem0, tableIn, a, entry, data, done) && out == scratch + |done|
        invariant Copied(flash.mem, mem0, scratch, done)
      {
        EntryNext(mem0, tableIn, a, entry, data, done);
        CopiedRest(flash.mem, mem0, scratch, done, a, ENTRY_SIZE);
        var e := flash.mem[a..a + ENTRY_SIZE];
        CopyEntry(scratch, out, e, mem0, done);
        done := done + if e == DELETED then UNUSED else e;
        CopiedLength(flash.mem, mem0, scratch, done);
        entry, a, out := entry + 1, a + ENTRY_SIZE, out + ENTRY_SIZE;
      }
      EntriesEnd(mem0, tableIn, a, entry, data, done);
    }

    /** One block of the page. */
    method CopyBlock(scratch: nat, write: nat, b: nat, ghost mem0: seq<bv8>, ghost data: seq<bv8>)
      requires Valid() && Ready(mem0, scratch) && Copied(flash.mem, mem0, scratch, data) && InMemory(mem0, at, b)
      requires write == scratch + |data| && |data| + BLOCK_SIZE <= flash.page
      requires Apart(scratch, b)
      modifies flash
      ensures Valid() && Copied(flash.mem, mem0, scratch, data + RecycledBlock(mem0, at, b))
    {
      hide Offset, Overwrite, Copied, BlankPage, RecycledEntries;
      var e, a := at.base + ENTRY_SIZE * b, at.base + BLOCK_SIZE * b;
      CopiedRest(flash.mem, mem0, scratch, data, e, ENTRY_SIZE);
      CopiedRest(flash.mem, mem0, scratch, data, a, BLOCK_SIZE);
      CopiedBlankRest(flash.mem, mem0, scratch, data, BLOCK_SIZE, flash.page);
      var entry := flash.mem[e..e + ENTRY_SIZE];
      if entry == DELETED || entry == UNUSED {
        CopiedBlankBlock(flash.mem, mem0, scratch, data, flash.page);
      } else if a < at.root {
        CopyEntries(scratch, write, a, mem0, data);
      } else {
        var block := flash.mem[a..a + BLOCK_SIZE];
        CopiedMore(flash.mem, mem0, scratch, data, block);
        WriteBlank(scratch, write, block);
      }
    }

    /** What is read for block b is not on the scratch page. */
    ghost predicate Apart(scratch: nat, b: nat)
    {
      var e, a := at.base + ENTRY_SIZE * b, at.base + BLOCK_SIZE * b;
      && (e + ENTRY_SIZE <= scratch || scratch + flash.page <= e)
      && (a + BLOCK_SIZE <= scratch || scratch + flash.page <= a)
    }

    /** Refreshes the page at p, which begins with the given block: its live blocks and used
        entries stay, its free blocks are erased, and its deleted entries become unused. The
        scratch page ends up blank again. */
    method RecycleBlock(p: nat, first: nat, blocksPerPage: nat, scratch: nat)
      requires Valid() && Ready(flash.mem, scratch) && scratch != p && p == BlockAddress(at, first)
      requires Offset(p, flash.page) == 0 && p + flash.page + 4 <= |flash.mem|
               && flash.page == BLOCK_SIZE * blocksPerPage && blocksPerPage > 0
      requires forall b :: first <= b < first + blocksPerPage ==> Apart(scratch, b)
      modifies flash
      ensures InMemory(old(flash.mem), at, first + blocksPerPage - 1)
      ensures flash.mem == Overwrite(old(flash.mem), p, RecycledBlocks(old(flash.mem), at, first, blocksPerPage))
      ensures PageRebuilt(old(flash.mem), flash.mem, at, first, blocksPerPage)
    {
      ghost var mem0 := flash.mem;
      ghost var copy := CopyBlocks(p, first, blocksPerPage, scratch);
      AllBlocks(mem0, at, p, flash.page, first, blocksPerPage, scratch, scratch + |copy|, copy);
      hide Offset, Overwrite, Copied, BlankPage, RecycledBlocks, Apart, CopyingBlocks, PageRebuilt;
      Refresh(p, scratch, mem0, copy);
      PageOutcome(mem0, at, first, blocksPerPage);
    }

    method CopyBlocks(p: nat, first: nat, blocksPerPage: nat, scratch: nat) returns (ghost done: seq<bv8>)
      requires Valid() && Ready(flash.mem, scratch) && Spans(flash.mem, at, p, flash.page, first, blocksPerPage)
      requires forall b :: first <= b < first + blocksPerPage ==> Apart(scratch, b)
      modifies flash
      ensures Valid() && |flash.mem| == |old(flash.mem)| && Copied(flash.mem, old(flash.mem), scratch, done)
      ensures CopyingBlocks(old(flash.mem), at, first, first + blocksPerPage, scratch, scratch + |done|, done)
    {
      ghost var mem0 := flash.mem;
      var b: nat, write: nat, end: nat := first, scratch, first + blocksPerPage;
      done := [];
      NothingCopied(mem0, at, first, scratch);
      hide Offset, Overwrite, Copied, BlankPage, RecycledBlock, RecycledBlocks, Apart, CopyingBlocks, BlockAddress,
           InMemory, Ready, Spans;
      while b != end
        invariant first <= b <= end && Valid() && |flash.mem| == |mem0|
        invariant CopyingBlocks(mem0, at, first, b, scratch, write, done)
        invariant Copied(flash.mem, mem0, scratch, done)
      {
        done := NextBlock(b, scratch, write, mem0, p, first, blocksPerPage, done);
        b, write := b + 1, write + BLOCK_SIZE;
      }
      Finished(mem0, at, first, b, blocksPerPage, scratch, write, done);
    }

    method NextBlock(b: nat, scratch: nat, write: nat, ghost mem0: seq<bv8>, ghost p: nat, ghost first: nat,
                     ghost n: nat, ghost done: seq<bv8>)
      returns (ghost done': seq<bv8>)
      requires Valid() && Ready(mem0, scratch) && Spans(mem0, at, p, flash.page, first, n) && first <= b < first + n
               && Apart(scratch, b)
      requires Copied(flash.mem, mem0, scratch, done) && CopyingBlocks(mem0, at, first, b, scratch, write, done)
      modifies flash
      ensures Valid() && |flash.mem| == |mem0| && Copied(flash.mem, mem0, scratch, done')
      ensures CopyingBlocks(mem0, at, first, b + 1, scratch, write + BLOCK_SIZE, done')
    {
      BlockNext(mem0, at, p, flash.page, first, b, n, scratch, write, done);
      hide Offset, Overwrite, Copied, BlankPage, RecycledBlock, RecycledBlocks, Apart, CopyingBlocks, BlockAddress,
           InMemory, Ready, Spans;
      CopyBlock(scratch, write, b, mem0, done);
      done' := done + RecycledBlock(mem0, at, b);
      CopiedLength(flash.mem, mem0, scratch, done');
    }

    /** Puts the copy back in place. */
    method Refresh(p: nat, scratch: nat, ghost mem0: seq<bv8>, ghost data: seq<bv8>)
      requires Valid() && Ready(mem0, scratch) && scratch != p && Offset(p, flash.page) == 0
               && p + flash.page + 4 <= |mem0|
      requires |flash.mem| == |mem0| && Copied(flash.mem, mem0, scratch, data) && |data| == flash.page
      modifies flash
      ensures flash.mem == Overwrite(mem0, p, data)
    {
      ghost var mem1 := flash.mem;
      PagesDiffer(p, scratch, flash.page);
      flash.ErasePage(p);
      var copy := flash.mem[scratch..scratch + flash.page];
      Refreshed(mem0, mem1, p, scratch, data);
      hide Offset, Overwrite, Copied;
      WriteBlank(p, p, copy);
      flash.ErasePage(scratch);
    }
  }

  lemma PagesDiffer(p: nat, scratch: nat, page: nat)
    requires page > 0 && Offset(p, page) == 0 && Offset(scratch, page) == 0 && p != scratch
    ensures p + page <= scratch || scratch + page <= p
  {
    if p < scratch {
      MultiplesApart(p, scratch, page);
    } else {
      MultiplesApart(scratch, p, page);
    }
  }

  lemma Refreshed(mem0: seq<bv8>, mem1: seq<bv8>, p: nat, scratch: nat, data: seq<bv8>)
    requires Copied(mem1, mem0, scratch, data) && BlankPage(mem0, scratch, |data|) && p + |data| <= |mem0|
    requires p + |data| <= scratch || scratch + |data| <= p
    ensures |mem1| == |mem0| && var mem2 := Erased(mem1, p, |data|);
            && BlankPage(mem2, p, |data|) && mem2[scratch..scratch + |data|] == data
            && Erased(Overwrite(mem2, p, data), scratch, |data|) == Overwrite(mem0, p, data)
  {
    var mem2 := Erased(mem1, p, |data|);
    var r, o := Erased(Overwrite(mem2, p, data), scratch, |data|), Overwrite(mem0, p, data);
    forall i | 0 <= i < |mem0| ensures r[i] == o[i] {
    }
  }

  lemma NothingCopied(mem: seq<bv8>, at: Place, first: nat, scratch: nat)
    requires scratch <= |mem|
    ensures Copied(mem, mem, scratch, []) && CopyingBlocks(mem, at, first, first, scratch, scratch, [])
  {}

  /** The page at p consists of n blocks. */
  ghost predicate Spans(mem: seq<bv8>, at: Place, p: nat, page: nat, first: nat, n: nat)
  {
    p == BlockAddress(at, first) && p + page <= |mem| && page == BLOCK_SIZE * n
  }

  /** Blocks from the first up to b have been copied. */
  ghost predicate CopyingBlocks(mem: seq<bv8>, at: Place, first: nat, b: nat, scratch: nat, write: nat, done: seq<bv8>)
  {
    && first <= b && (b > first ==> InMemory(mem, at, b - 1))
    && done == RecycledBlocks(mem, at, first, b - first) && write == scratch + |done|
  }

  lemma Finished(mem: seq<bv8>, at: Place, first: nat, b: nat, n: nat, scratch: nat, write: nat, done: seq<bv8>)
    requires CopyingBlocks(mem, at, first, b, scratch, write, done) && b == first + n
    ensures CopyingBlocks(mem, at, first, first + n, scratch, scratch + |done|, done)
  {
    hide CopyingBlocks;
    WrittenSoFar(mem, at, first, b, scratch, write, done);
  }

  lemma WrittenSoFar(mem: seq<bv8>, at: Place, first: nat, b: nat, scratch: nat, write: nat, done: seq<bv8>)
    requires CopyingBlocks(mem, at, first, b, scratch, write, done)
    ensures write == scratch + |done|
  {
    hide RecycledBlocks;
  }

  lemma BlockNext(mem: seq<bv8>, at: Place, p: nat, page: nat, first: nat, b: nat, n: nat, scratch: nat, write: nat,
                  done: seq<bv8>)
    requires Spans(mem, at, p, page, first, n) && first <= b < first + n
    requires CopyingBlocks(mem, at, first, b, scratch, write, done)
    ensures InMemory(mem, at, b) && |done| + BLOCK_SIZE <= page && write == scratch + |done|
    ensures CopyingBlocks(mem, at, first, b + 1, scratch, write + BLOCK_SIZE, done + RecycledBlock(mem, at, b))
  {}

  lemma AllBlocks(mem: seq<bv8>, at: Place, p: nat, page: nat, first: nat, n: nat, scratch: nat, write: nat,
                  done: seq<bv8>)
    requires Spans(mem, at, p, page, first, n) && n > 0
    requires CopyingBlocks(mem, at, first, first + n, scratch, write, done)
    ensures InMemory(mem, at, first + n - 1) && done == RecycledBlocks(mem, at, first, n) && |done| == page
  {}

  lemma CopiedLength(mem: seq<bv8>, mem0: seq<bv8>, scratch: nat, data: seq<bv8>)
    requires Copied(mem, mem0, scratch, data)
    ensures |mem| == |mem0|
  {}

  /** The first entries of a table block have been copied behind data. */
  ghost predicate Copying(mem: seq<bv8>, tableIn: nat, a: nat, entry: nat, data: seq<bv8>, done: seq<bv8>)
  {
    a == tableIn + ENTRY_SIZE * entry && a <= |mem| && done == data + RecycledEntries(mem, tableIn, entry)
  }

  lemma EntriesBegin(mem: seq<bv8>, tableIn: nat, data: seq<bv8>)
    requires tableIn <= |mem|
    ensures Copying(mem, tableIn, tableIn, 0, data, data)
  {}

  lemma EntriesEnd(mem: seq<bv8>, tableIn: nat, a: nat, entry: nat, data: seq<bv8>, done: seq<bv8>)
    requires Copying(mem, tableIn, a, entry, data, done)
    ensures tableIn + ENTRY_SIZE * entry <= |mem| && done == data + RecycledEntries(mem, tableIn, entry)
  {}

  lemma EntryNext(mem: seq<bv8>, tableIn: nat, a: nat, entry: nat, data: seq<bv8>, done: seq<bv8>)
    requires Copying(mem, tableIn, a, entry, data, done) && entry < ENTRIES && tableIn + BLOCK_SIZE <= |mem|
    ensures tableIn <= a && a + ENTRY_SIZE <= tableIn + BLOCK_SIZE && |done| + ENTRY_SIZE <= |data| + BLOCK_SIZE
    ensures var e := Entry(mem, a);
            Copying(mem, tableIn, a + ENTRY_SIZE, entry + 1, data, done + if e == DELETED then UNUSED else e)
  {
    var e := Entry(mem, a);
    var n := if e == DELETED then UNUSED else e;
    assert data + RecycledEntries(mem, tableIn, entry) + n == data + (RecycledEntries(mem, tableIn, entry) + n);
  }

  lemma CopiedBlankRest(mem: seq<bv8>, mem0: seq<bv8>, scratch: nat, data: seq<bv8>, n: nat, page: nat)
    requires Copied(mem, mem0, scratch, data) && |data| + n <= page && BlankPage(mem0, scratch, page)
    ensures |mem| == |mem0| && BlankPage(mem, scratch + |data|, n)
    ensures forall i :: scratch + |data| <= i < scratch + |data| + n ==> mem0[i] == BLANK
  {}

  lemma CopiedBlankBlock(mem: seq<bv8>, mem0: seq<bv8>, scratch: nat, data: seq<bv8>, page: nat)
    requires Copied(mem, mem0, scratch, data) && |data| + BLOCK_SIZE <= page && BlankPage(mem0, scratch, page)
    ensures Copied(mem, mem0, scratch, data + Blanks(BLOCK_SIZE))
  {
    CopiedBlank(mem, mem0, scratch, data, Blanks(BLOCK_SIZE));
  }

  lemma PageOf(p: nat, address: nat, page: nat)
    requires page > 0 && Offset(p, page) == 0 && p <= address < p + page
    ensures RoundDown(address, page) == p
  {
    UnitAbove(address, p, page);
    RoundedDown(address, page);
    if p < RoundDown(address, page) {
      MultiplesApart(p, RoundDown(address, page), page);
    }
  }

  lemma BlankClears(mem: seq<bv8>, a: nat, data: seq<bv8>)
    requires BlankPage(mem, a, |data|)
    ensures ClearsAll(mem, a, data)
  {
    forall i | 0 <= i < |data| ensures Clears(mem[a + i], data[i]) {
      assert mem[a + i] == BLANK;
    }
  }
}
