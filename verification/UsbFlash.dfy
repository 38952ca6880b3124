/** MicroBitUSBFlashManager: the flash disk behind the interface chip, with fragmented
    writes and partial-block erase. */
module UsbFlash {
  import opened Arith
  import opened Nor

  const MAX_WRITE_LENGTH: nat := 64
  const WORD_RANGE: nat := 0x1_0000_0000

  datatype Status = Ok | InvalidParameter

  /** Address of the last block of a range that ends at end; the interface chip takes inclusive
      bounds, and the source's subtraction is on 32-bit unsigned numbers. */
  function EraseEnd(end: nat, blockSize: nat): nat
    requires 0 < blockSize <= WORD_RANGE
  {
    var last := RoundDown(end, blockSize) - (if Offset(end, blockSize) == 0 then blockSize else 0);
    if last < 0 then WORD_RANGE + last else last
  }

  lemma {:induction false} EraseEndBound(end: nat, blockSize: nat, capacity: nat)
    requires 0 < blockSize <= WORD_RANGE && Offset(capacity, blockSize) == 0 && 0 < end <= capacity
    ensures var last := EraseEnd(end, blockSize);
            && last < end <= last + blockSize <= capacity && Offset(last + blockSize, blockSize) == 0
            && last + blockSize - end == Offset(blockSize - Offset(end, blockSize), blockSize)
  {
    RoundedDown(end, blockSize);
    if Offset(end, blockSize) == 0 {
      MultiplesApart(0, end, blockSize);
    } else {
      UnitFits(end, capacity, blockSize);
      OffsetStep(RoundDown(end, blockSize), blockSize, blockSize);
    }
  }

  /** 32-bit unsigned arithmetic. */
  function Wrap(x: int): (r: nat)
    ensures r < WORD_RANGE && (0 <= x < WORD_RANGE ==> r == x)
  {
    x % WORD_RANGE
  }

  /** A range whose end is computed as zero, like that of an empty erase at address zero: the
      last block wraps below zero, so that every block of the 32-bit range lies before it. The
      loop then goes on round and round: behind no block does it stop. */
  lemma EndlessErase(blockSize: nat, page: nat)
    requires 0 < blockSize <= WORD_RANGE && Offset(WORD_RANGE, blockSize) == 0
    requires page < WORD_RANGE && Offset(page, blockSize) == 0
    ensures page <= EraseEnd(0, blockSize)
    ensures Wrap(page + blockSize) <= EraseEnd(0, blockSize) && Offset(Wrap(page + blockSize), blockSize) == 0
  {
    hide Offset;
    MultiplesApart(page, WORD_RANGE, blockSize);
    OffsetStep(page, blockSize, blockSize);
    if page + blockSize < WORD_RANGE {
      MultiplesApart(page + blockSize, WORD_RANGE, blockSize);
    }
  }

  /** What erase promises: the range is blank and nothing else has changed, or the range does
      not lie on the disk and is refused. */
  ghost predicate ErasePromise(disk: seq<bv8>, address: nat, words: nat, r: Status, disk': seq<bv8>)
  {
    if address + 4 * words <= |disk| then r == Ok && disk' == Erased(disk, address, 4 * words)
    else r == InvalidParameter && disk' == disk
  }

  /** What erase does, with its sums in 32 bits. */
  ghost predicate EraseOutcome(disk: seq<bv8>, address: nat, words: nat, r: Status, disk': seq<bv8>)
  {
    var length := Wrap(4 * words);
    var end := Wrap(address + length);
    if end > |disk| then r == InvalidParameter && disk' == disk
    else if address + length == end then r == Ok && disk' == Erased(disk, address, length)
    else r == Ok && disk' == disk
  }

  /** The promise is kept exactly if the bounds check sees the true end of the range. */
  lemma EraseKept(disk: seq<bv8>, address: nat, words: nat, r: Status, disk': seq<bv8>)
    requires |disk| < WORD_RANGE && EraseOutcome(disk, address, words, r, disk')
    ensures ErasePromise(disk, address, words, r, disk') <==>
              (Wrap(address + 4 * words) <= |disk| ==> address + 4 * words <= |disk|)
  {
    WrapTwice(address, 4 * words);
    hide Wrap;
  }

  lemma WrapTwice(a: nat, x: nat)
    ensures Wrap(a + Wrap(x)) == Wrap(a + x)
  {}

  /** Ranges behind the disk that are accepted, and left alone or erased in part. */
  lemma EraseAccepted(disk: seq<bv8>)
    requires |disk| == 0x20000
    ensures EraseOutcome(disk, 0xFFFFFC00, 0x180, Ok, disk) && !ErasePromise(disk, 0xFFFFFC00, 0x180, Ok, disk)
    ensures EraseOutcome(disk, 0, 0x4000_0001, Ok, Erased(disk, 0, 4))
            && !ErasePromise(disk, 0, 0x4000_0001, Ok, Erased(disk, 0, 4))
  {
    hide Erased;
  }

  class UsbFlash {
    const blockSize: nat
    const capacity: nat
    var disk: seq<bv8>
    /** The disk after every word programmed and every block erased, oldest first:
        the states in which a power failure can leave it. */
    ghost var images: seq<seq<bv8>>

    ghost predicate Valid()
      reads this
    {
      && 0 < blockSize && Words(blockSize)
      && Offset(capacity, blockSize) == 0
      && |disk| == capacity && capacity + blockSize <= WORD_RANGE
    }

    /** The disk as found at power-up. */
    constructor (blockSize: nat, blockCount: nat, disk: seq<bv8>)
      requires 0 < blockSize && Words(blockSize)
      requires |disk| == blockSize * blockCount && |disk| + blockSize <= WORD_RANGE
      ensures Valid()
      ensures this.disk == disk && this.blockSize == blockSize && capacity == |disk|
      ensures images == []
    {
      this.blockSize, this.capacity, this.disk, images := blockSize, blockSize * blockCount, disk, [];
      OffsetOfProduct(blockCount, blockSize);
    }

    /** The interface chip programs a fragment word by word. */
    method TransactWrite(address: nat, data: seq<bv8>)
      requires Valid() && Words(|data|) && address + |data| <= |disk|
      modifies this
      ensures Valid()
      ensures disk == Burn(old(disk), address, data)
      ensures images == old(images) + BurnImages(old(disk), address, data)
      ensures WordByWord(images[|old(images)|..], old(disk), address, data)
    {
      hide Burn, BurnImages, Offset, WordByWord;
      var i := 0;
      NothingWritten(disk, address);
      BurnNothing(disk, address);
      while i < |data|
        invariant i <= |data| && Words(i)
        invariant Valid() && |disk| == |old(disk)|
        invariant disk == Burn(old(disk), address, data[..i])
        invariant images == old(images) + BurnImages(old(disk), address, data[..i])
      {
        NextWord(old(disk), address, data, i);
        disk := Burn(disk, address + i, data[i..i + 4]);
        i := i + 4;
        images := images + [disk];
      }
      assert data[..i] == data;
      BurnImagesAre(old(disk), address, data);
      assert images[|old(images)|..] == BurnImages(old(disk), address, data);
    }

    method TransactErase(page: nat)
      requires Valid() && page + blockSize <= |disk|
      modifies this
      ensures Valid()
      ensures disk == Erased(old(disk), page, blockSize)
      ensures images == old(images) + [disk]
    {
      disk := Erased(disk, page, blockSize);
      images := images + [disk];
    }

    /** Writes data in fragments of at most 64 bytes; the effect is one contiguous write. */
    method Write(address: nat, data: seq<bv8>)
      requires Valid() && Words(|data|) && address + |data| <= |disk|
      modifies this
      ensures Valid()
      ensures disk == Burn(old(disk), address, data)
      ensures images == old(images) + BurnImages(old(disk), address, data)
      ensures WordByWord(images[|old(images)|..], old(disk), address, data)
    {
      hide Burn, Overwrite, Erased, Offset, BurnImages, Words, WordByWord;
      var bytesWritten := 0;
      NothingWritten(disk, address);
      BurnNothing(disk, address);
      while bytesWritten < |data|
        invariant bytesWritten <= |data| && Words(bytesWritten)
        invariant Valid() && |disk| == |old(disk)|
        invariant disk == Burn(old(disk), address, data[..bytesWritten])
        invariant images == old(images) + BurnImages(old(disk), address, data[..bytesWritten])
      {
        var segment := Min(MAX_WRITE_LENGTH, |data| - bytesWritten);
        var fragment := data[bytesWritten..bytesWritten + segment];
        NextFragment(old(disk), address, data, bytesWritten, segment);
        TransactWrite(address + bytesWritten, fragment);
        bytesWritten := bytesWritten + segment;
      }
      assert data[..bytesWritten] == data;
      BurnImagesAre(old(disk), address, data);
      assert images[|old(images)|..] == BurnImages(old(disk), address, data);
    }

    /** img is mem with some of the blocks of [start, top) erased, from the first on. */
    ghost predicate ErasedPart(img: seq<bv8>, mem: seq<bv8>, start: nat, top: nat)
    {
      blockSize > 0 && exists p: nat ::
        start < p <= top <= |mem| && Offset(p, blockSize) == 0 && img == Erased(mem, start, p - start)
    }

    /** Erases the blocks that start in [start, top). */
    method EraseBlocks(start: nat, top: nat)
      requires Valid() && top <= capacity
      requires Offset(start, blockSize) == 0 && Offset(top, blockSize) == 0
      modifies this
      ensures Valid() && old(images) <= images && |disk| == |old(disk)|
      ensures if start <= top then disk == Erased(old(disk), start, top - start) else disk == old(disk)
      ensures start == top ==> images == old(images)
      ensures start + blockSize == top ==> images == old(images) + [disk]
      ensures forall k :: |old(images)| <= k < |images| ==> ErasedPart(images[k], old(disk), start, top)
      ensures start < top ==> |images| > |old(images)| && images[|images| - 1] == disk
    {
      var page := start;
      hide Offset, Erased, Overwrite;
      if start <= top {
        ErasedNothing(disk, start);
      }
      while page < top
        invariant Offset(page, blockSize) == 0 && start <= page && (start <= top ==> page <= top)
        invariant Valid() && (if start <= top then disk == Erased(old(disk), start, page - start)
                              else disk == old(disk))
        invariant old(images) <= images
        invariant page == start ==> images == old(images)
        invariant page == start + blockSize ==> images == old(images) + [disk]
        invariant forall k :: |old(images)| <= k < |images| ==> ErasedPart(images[k], old(disk), start, top)
        invariant page > start ==> |images| > |old(images)| && images[|images| - 1] == disk
      {
        MultiplesApart(page, top, blockSize);
        OffsetStep(page, blockSize, blockSize);
        ErasedNext(old(disk), start, page, blockSize);
        TransactErase(page);
        assert disk == Erased(old(disk), start, page + blockSize - start);
        page := page + blockSize;
      }
    }

    /** The first and last block to erase, and how much of them to put back; end is
        address + length as the source computes it. */
    method Plan(address: nat, end: nat) returns (eraseStart: nat, eraseEnd: int, restoreLength1: nat,
                                                 restoreLength2: nat)
      requires Valid() && Words(address) && Words(end) && 0 < end <= capacity
      ensures Offset(eraseStart, blockSize) == 0 && eraseStart <= address < eraseStart + blockSize
      ensures 0 <= eraseEnd + blockSize && Offset(eraseEnd + blockSize, blockSize) == 0
      ensures Offset(address, blockSize) == 0 ==>
                restoreLength1 == 0 && (end == address + blockSize ==> restoreLength2 == 0)
      ensures eraseStart + restoreLength1 == address && Words(restoreLength1)
      ensures end + restoreLength2 == eraseEnd + blockSize <= capacity && Words(restoreLength2)
              && restoreLength2 < blockSize
    {
      eraseStart, eraseEnd := RoundDown(address, blockSize), EraseEnd(end, blockSize);
      restoreLength1 := address - eraseStart;
      restoreLength2 := Offset(blockSize - Offset(end, blockSize), blockSize);
      hide Offset, RoundDown, EraseEnd, Words;
      PlanFacts(address, end, blockSize, capacity);
    }

    /** A read behind the end of the disk fails, and yields nothing. */
    method Read(address: nat, length: nat) returns (data: seq<bv8>)
      ensures data == if address + length <= |disk| then disk[address..address + length] else []
    {
      data := if address + length <= |disk| then disk[address..address + length] else [];
    }

    /** Reads what the erase of [address, end) must put back. */
    method Save(address: nat, length: nat, end: nat, eraseStart: nat, eraseEnd: int, restoreLength1: nat,
                restoreLength2: nat)
      returns (restore1: seq<bv8>, restore2: seq<bv8>)
      requires eraseStart + restoreLength1 == address < WORD_RANGE && Words(restoreLength1) && length < WORD_RANGE
               && end == Wrap(address + length)
      requires end + restoreLength2 == eraseEnd + blockSize <= |disk| < WORD_RANGE && Words(restoreLength2)
      ensures restore1 == if address <= |disk| then disk[eraseStart..address] else []
      ensures restore2 == disk[end..eraseEnd + blockSize]
      ensures Words(|restore1|) && Words(|restore2|)
    {
      restore1, restore2 := [], [];
      if eraseStart != address || length != Wrap(eraseEnd - eraseStart + blockSize) {
        if restoreLength1 > 0 {
          restore1 := Read(eraseStart, restoreLength1 / 4 * 4);
        }
        if restoreLength2 > 0 {
          restore2 := Read(end, restoreLength2 / 4 * 4);
        }
      } else {
        NothingToSave(address, length, end, restoreLength2);
      }
    }

    method Restore(address: nat, saved: seq<bv8>)
      requires Valid() && Words(|saved|) && (saved == [] || address + |saved| <= capacity)
      modifies this
      ensures Valid() && old(images) <= images
      ensures address + |saved| <= capacity ==> disk == Burn(old(disk), address, saved)
      ensures saved == [] ==> disk == old(disk) && images == old(images)
    {
      if |saved| > 0 {
        Write(address, saved);
      } else if address <= capacity {
        BurnNothing(disk, address);
      }
    }

    /** Erases the given number of words at address. Blocks that reach outside the range are
        saved, erased and rewritten. Excluded is only an end computed as zero, for which the
        loop does not stop (EndlessErase); EraseKept has when the promise is kept. */
    method Erase(address: nat, words: nat) returns (r: Status)
      requires Valid() && Words(address) && address < WORD_RANGE && words < WORD_RANGE
      requires Wrap(address + 4 * words) != 0
      modifies this
      ensures Valid() && old(images) <= images
      ensures EraseOutcome(old(disk), address, words, r, disk)
      ensures r == InvalidParameter ==> images == old(images)
      ensures (r == Ok && Offset(address, blockSize) == 0 && 4 * words == blockSize
               && address + blockSize <= capacity) ==>
                images == old(images) + [disk]
    {
      var length := Wrap(4 * words);
      var end := Wrap(address + length);
      WrapTwice(address, 4 * words);
      WrapWords(address, words);
      hide Burn, Overwrite, Erased, Offset, Wrap, Words;
      if end > capacity {
        return InvalidParameter;
      }
      EraseWrapped(address, length, end);
      return Ok;
    }

    /** The part of erase behind the bounds check. */
    method EraseWrapped(address: nat, length: nat, end: nat)
      requires Valid() && Words(address) && Words(end) && address < WORD_RANGE && length < WORD_RANGE
      requires end == Wrap(address + length) && 0 < end <= capacity
      modifies this
      ensures Valid() && old(images) <= images
      ensures disk == if address + length == end then Erased(old(disk), address, length) else old(disk)
      ensures Offset(address, blockSize) == 0 && end == address + blockSize ==> images == old(images) + [disk]
    {
      hide Burn, Overwrite, Erased, Offset, Wrap, Words, ErasedPart, WordByWord, BurnImages;
      WrapCases(address, length);
      var eraseStart, eraseEnd, restoreLength1, restoreLength2 := Plan(address, end);
      var restore1, restore2 := Save(address, length, end, eraseStart, eraseEnd, restoreLength1, restoreLength2);
      var top := eraseEnd + blockSize;
      if address + length == end {
        EraseRestored(disk, eraseStart, address, length, end, top);
      } else {
        WrappedBlock(eraseStart, address, end, top, blockSize, capacity);
        EraseUndone(disk, eraseStart, address, end, top);
      }
      EraseBlocks(eraseStart, top);
      Restore(eraseStart, restore1);
      Restore(end, restore2);
    }

    method ErasePage(page: nat)
      requires Valid() && Offset(page, blockSize) == 0 && page + blockSize <= |disk|
      modifies this
      ensures Valid()
      ensures disk == Erased(old(disk), page, blockSize)
      ensures images == old(images) + [disk]
    {
      MultipleOfWords(page, blockSize);
      var r := Erase(page, blockSize / 4);
    }
  }

  lemma PlanFacts(address: nat, end: nat, blockSize: nat, capacity: nat)
    requires 0 < blockSize <= WORD_RANGE && Words(blockSize) && Offset(capacity, blockSize) == 0
    requires Words(address) && Words(end) && 0 < end <= capacity
    ensures var s, last, rest := RoundDown(address, blockSize), EraseEnd(end, blockSize),
            Offset(blockSize - Offset(end, blockSize), blockSize);
            && Offset(s, blockSize) == 0 && s <= address < s + blockSize && Words(address - s) && Words(rest)
            && Offset(last + blockSize, blockSize) == 0 && end + rest == last + blockSize <= capacity
            && (Offset(address, blockSize) == 0 ==> address == s && (end == address + blockSize ==> rest == 0))
  {
    RoundedDown(address, blockSize);
    EraseEndBound(end, blockSize, capacity);
    MultiplesOfFour(address, 0, blockSize);
    MultiplesOfFour(0, end, blockSize);
    OffsetStep(address, blockSize, blockSize);
    hide EraseEnd, Words;
  }

  lemma NothingWritten(mem: seq<bv8>, a: nat)
    requires a <= |mem|
    ensures Words(0) && BurnImages(mem, a, []) == []
  {}

  lemma NextWord(mem: seq<bv8>, a: nat, data: seq<bv8>, i: nat)
    requires Words(|data|) && Words(i) && i < |data| && a + |data| <= |mem|
    ensures i + 4 <= |data| && Words(i + 4) && Words(|data[..i]|) && Words(|data[..i + 4]|)
    ensures Burn(Burn(mem, a, data[..i]), a + i, data[i..i + 4]) == Burn(mem, a, data[..i + 4])
    ensures BurnImages(mem, a, data[..i + 4]) == BurnImages(mem, a, data[..i]) + [Burn(mem, a, data[..i + 4])]
  {
    hide Burn;
    BurnTwice(mem, a, data[..i], data[i..i + 4]);
    assert data[..i] + data[i..i + 4] == data[..i + 4] && data[..i + 4][..i] == data[..i];
  }

  lemma NextFragment(mem: seq<bv8>, a: nat, data: seq<bv8>, done: nat, n: nat)
    requires Words(|data|) && a + |data| <= |mem| && Words(done) && done < |data|
             && n == Min(MAX_WRITE_LENGTH, |data| - done)
    ensures var fragment := data[done..done + n];
            && Words(n) && Words(|fragment|) && Words(done + n) && Words(|data[..done]|) && Words(|data[..done + n]|)
            && Burn(Burn(mem, a, data[..done]), a + done, fragment) == Burn(mem, a, data[..done + n])
            && BurnImages(mem, a, data[..done]) + BurnImages(Burn(mem, a, data[..done]), a + done, fragment)
            == BurnImages(mem, a, data[..done + n])
  {
    var fragment := data[done..done + n];
    hide Burn, BurnImages;
    BurnTwice(mem, a, data[..done], fragment);
    BurnImagesConcat(mem, a, data[..done], fragment);
    assert data[..done] + fragment == data[..done + n];
  }

  lemma WrapWords(address: nat, words: nat)
    requires Words(address)
    ensures Words(Wrap(address + Wrap(4 * words))) && Words(Wrap(4 * words))
  {}

  lemma WrapCases(address: nat, length: nat)
    requires address < WORD_RANGE && length < WORD_RANGE
    ensures var end := Wrap(address + length); address + length == end || address + length == end + WORD_RANGE
  {}

  lemma NothingToSave(address: nat, length: nat, end: nat, rest: nat)
    requires address < WORD_RANGE && length < WORD_RANGE && end == Wrap(address + length) && end + rest < WORD_RANGE
    requires length == Wrap(end + rest - address)
    ensures rest == 0
  {
    WrapCases(address, length);
  }

  lemma ErasedNothing(mem: seq<bv8>, a: nat)
    requires a <= |mem|
    ensures Erased(mem, a, 0) == mem
  {}

  lemma ErasedNext(mem: seq<bv8>, start: nat, page: nat, n: nat)
    requires start <= page && page + n <= |mem|
    ensures Erased(Erased(mem, start, page - start), page, n) == Erased(mem, start, page + n - start)
  {}

  lemma {:induction false} MultiplesOfFour(address: nat, length: nat, blockSize: nat)
    requires 0 < blockSize <= WORD_RANGE && Words(blockSize) && Words(address) && Words(length)
    ensures Words(RoundDown(address, blockSize)) && Words(Offset(address, blockSize))
    ensures Words(Offset(blockSize - Offset(address + length, blockSize), blockSize))
  {
    hide Offset, RoundDown;
    var x := address + length;
    OffsetOfWords(address, blockSize);
    OffsetOfWords(x, blockSize);
    WordDifference(blockSize, Offset(x, blockSize));
    OffsetOfWords(blockSize - Offset(x, blockSize), blockSize);
  }

  lemma {:induction false} OffsetOfWords(x: nat, blockSize: nat)
    requires 0 < blockSize && Words(blockSize) && Words(x)
    ensures Words(RoundDown(x, blockSize)) && Words(Offset(x, blockSize))
  {
    RoundedDown(x, blockSize);
    MultipleOfWords(RoundDown(x, blockSize), blockSize);
    WordDifference(x, RoundDown(x, blockSize));
  }

  /** Rewriting what was saved on both sides leaves only the requested range erased. */
  lemma EraseRestored(mem: seq<bv8>, start: nat, a: nat, n: nat, end: nat, top: nat)
    requires start <= a && a + n == end <= top <= |mem|
    ensures var e := Erased(mem, start, top - start);
            && Burn(Burn(e, start, mem[start..a]), end, mem[end..top]) == Erased(mem, a, n)
            && (start == a ==> Burn(e, start, mem[start..a]) == e)
            && (end == top ==> Burn(e, start, mem[start..a]) == Erased(mem, a, n))
  {
    var r := Burn(Burn(Erased(mem, start, top - start), start, mem[start..a]), end, mem[end..top]);
    forall i | 0 <= i < |mem| ensures r[i] == Erased(mem, a, n)[i] {
    }
  }

  /** A range whose end has wrapped ends before it starts: at most the one block that holds
      both is erased. */
  lemma WrappedBlock(start: nat, a: nat, end: nat, top: nat, blockSize: nat, capacity: nat)
    requires blockSize > 0 && Offset(start, blockSize) == 0 && Offset(top, blockSize) == 0
             && Offset(capacity, blockSize) == 0
    requires start <= a < start + blockSize && end < a && top < end + blockSize && top <= capacity
    ensures a <= capacity || start >= capacity
    ensures start < top ==> top == start + blockSize && start < end
  {
    hide Offset;
    if start < capacity {
      MultiplesApart(start, capacity, blockSize);
    }
    if start < top {
      MultiplesApart(start, top, blockSize);
      OffsetStep(start, blockSize, blockSize);
      if start + blockSize < top {
        MultiplesApart(start + blockSize, top, blockSize);
      }
    }
  }

  /** All of that block is put back. */
  lemma EraseUndone(mem: seq<bv8>, start: nat, a: nat, end: nat, top: nat)
    requires end < a && end <= top <= |mem| && (start < top ==> start <= end && a <= top)
    requires start <= a && (a <= |mem| || start >= |mem|)
    ensures var e := if start <= top then Erased(mem, start, top - start) else mem;
            && (a <= |mem| ==> Burn(Burn(e, start, mem[start..a]), end, mem[end..top]) == mem)
            && (a > |mem| ==> Burn(e, end, mem[end..top]) == mem)
  {
    var e := if start <= top then Erased(mem, start, top - start) else mem;
    if a <= |mem| {
      var r := Burn(Burn(e, start, mem[start..a]), end, mem[end..top]);
      forall i | 0 <= i < |mem| ensures r[i] == mem[i] {
      }
    } else {
      BurnSelf(mem, end, top);
    }
  }

  lemma BurnSelf(mem: seq<bv8>, a: nat, b: nat)
    requires a <= b <= |mem|
    ensures Burn(mem, a, mem[a..b]) == mem
  {}

  /** The disk after each word, when data is programmed at a word by word. */
  function BurnImages(mem: seq<bv8>, a: nat, data: seq<bv8>): seq<seq<bv8>>
    requires a + |data| <= |mem| && Words(|data|)
  {
    if data == [] then [] else BurnImages(mem, a, data[..|data| - 4]) + [Burn(mem, a, data)]
  }

  /** One disk for each word, with the words up to that one programmed. */
  ghost predicate WordByWord(images: seq<seq<bv8>>, mem: seq<bv8>, a: nat, data: seq<bv8>)
    requires a + |data| <= |mem|
  {
    |images| == |data| / 4 && forall k :: 0 <= k < |images| ==> images[k] == Burn(mem, a, data[..4 * (k + 1)])
  }

  lemma {:induction false} BurnImagesAre(mem: seq<bv8>, a: nat, data: seq<bv8>)
    requires a + |data| <= |mem| && Words(|data|)
    ensures WordByWord(BurnImages(mem, a, data), mem, a, data)
  {
    hide Burn;
    if data != [] {
      var n := |data| - 4;
      BurnImagesAre(mem, a, data[..n]);
      assert data[..n + 4] == data && n / 4 * 4 == n;
      assert forall j :: 0 <= j <= n ==> data[..n][..j] == data[..j];
    }
  }

  lemma {:induction false} BurnImagesConcat(mem: seq<bv8>, a: nat, x: seq<bv8>, y: seq<bv8>)
    requires a + |x| + |y| <= |mem| && Words(|x|) && Words(|y|)
    ensures BurnImages(mem, a, x + y) == BurnImages(mem, a, x) + BurnImages(Burn(mem, a, x), a + |x|, y)
  {
    if y == [] {
      assert x + y == x;
    } else {
      var y' := y[..|y| - 4];
      BurnImagesConcat(mem, a, x, y');
      BurnTwice(mem, a, x, y);
      assert (x + y)[..|x + y| - 4] == x + y';
    }
  }

  /** Every such image is mem with a prefix of data programmed: a torn write. */
  lemma {:induction false} BurnImagesTorn(mem: seq<bv8>, a: nat, data: seq<bv8>, k: nat)
    requires a + |data| <= |mem| && Words(|data|) && k < |BurnImages(mem, a, data)|
    ensures TornBurn(BurnImages(mem, a, data)[k], mem, a, data)
  {
    var shorter := data[..|data| - 4];
    if k < |BurnImages(mem, a, shorter)| {
      BurnImagesTorn(mem, a, shorter, k);
      var j :| 0 <= j <= |shorter| && BurnImages(mem, a, shorter)[k] == Burn(mem, a, shorter[..j]);
      assert shorter[..j] == data[..j];
    } else {
      assert data[..|data|] == data;
    }
  }
}
