/** FSCache: a write-through block cache with least-recently-used replacement.

    Coherence: a resident block equals the flash it caches. The owner may erase flash behind
    the cache inside one lax region; there a resident block may lag, but only by bits that
    the erase has set since. */
module FSCache {
  import opened Arith
  import opened Nor
  import opened UsbFlash

  const COUNT_RANGE: nat := 0x1_0000  // operationCount and lastUsed are 16-bit

  /** page is empty when no buffer is allocated. */
  datatype CacheEntry = CacheEntry(address: nat, lastUsed: nat, pinned: bool, page: seq<bv8>)
  {
    predicate Resident() { page != [] }
  }

  /** What the replacement policy works on; wrapped as in the class. */
  datatype CacheState = CacheState(table: seq<CacheEntry>, count: nat, wrapped: bool)

  datatype Result = Done | OutOfRange | NotSupported

  function Tick(count: nat): nat { (count + 1) % COUNT_RANGE }

  // ----- the table as a value

  /** The first slot from i on that holds the block at address a, or -1. */
  function FindFrom(t: seq<CacheEntry>, a: nat, i: nat): (r: int)
    requires i <= |t|
    ensures -1 <= r < |t|
    ensures r >= 0 ==> i <= r && t[r].Resident() && t[r].address == a
    ensures forall k :: i <= k < (if r >= 0 then r else |t|) ==> !(t[k].Resident() && t[k].address == a)
    decreases |t| - i
  {
    if i == |t| then -1 else if t[i].address == a && t[i].Resident() then i else FindFrom(t, a, i + 1)
  }

  /** The first slot from i on without a buffer; failing that, the unpinned slot used longest
      ago, starting from the candidate lru. */
  function VictimFrom(t: seq<CacheEntry>, count: nat, i: nat, lru: nat): (r: nat)
    requires i <= |t| && lru < |t|
    ensures r < |t|
    decreases |t| - i
  {
    if i == |t| then lru
    else if !t[i].Resident() then i
    else VictimFrom(t, count, i + 1, if !t[i].pinned && count - t[i].lastUsed > count - t[lru].lastUsed then i else lru)
  }

  function SlotFor(t: seq<CacheEntry>, count: nat, a: nat): (r: nat)
    requires |t| > 0
    ensures r < |t|
  {
    var i := FindFrom(t, a, 0);
    if i >= 0 then i else VictimFrom(t, count, 0, 0)
  }

  /** The table after the block at a, with contents block on flash, is paged in. */
  function Paged(t: seq<CacheEntry>, count: nat, a: nat, block: seq<bv8>): (r: seq<CacheEntry>)
    requires |t| > 0
    ensures |r| == |t|
  {
    var i := FindFrom(t, a, 0);
    if i >= 0 then t[i := t[i].(lastUsed := Tick(count))]
    else t[VictimFrom(t, count, 0, 0) := CacheEntry(a, Tick(count), false, block)]
  }

  ghost predicate WellFormed(t: seq<CacheEntry>, blockSize: nat, capacity: nat)
    requires blockSize > 0
  {
    && (forall i :: 0 <= i < |t| && t[i].Resident() ==> EntryWellFormed(t[i], blockSize, capacity))
    && Distinct(t)
  }

  /** No block is resident twice. */
  ghost predicate Distinct(t: seq<CacheEntry>)
  {
    forall i, j :: 0 <= i < j < |t| && t[i].Resident() && t[j].Resident() ==> t[i].address != t[j].address
  }

  ghost predicate EntryWellFormed(e: CacheEntry, blockSize: nat, capacity: nat)
    requires blockSize > 0
  {
    |e.page| == blockSize && Offset(e.address, blockSize) == 0 && e.address + blockSize <= capacity
  }

  /** The entry equals the flash, or it is in [lo, hi) and only lacks bits the flash has. */
  ghost predicate EntrySynced(e: CacheEntry, disk: seq<bv8>, lo: nat, hi: nat)
  {
    && e.address + |e.page| <= |disk|
    && (forall k :: 0 <= k < |e.page| ==> Within(e.page[k], disk[e.address + k]))
    && (!(lo <= e.address < hi) ==> forall k :: 0 <= k < |e.page| ==> e.page[k] == disk[e.address + k])
  }

  ghost predicate Synced(t: seq<CacheEntry>, disk: seq<bv8>, lo: nat, hi: nat)
  {
    forall i :: 0 <= i < |t| && t[i].Resident() ==> EntrySynced(t[i], disk, lo, hi)
  }

  ghost function Residents(t: seq<CacheEntry>): set<nat>
  {
    set i | 0 <= i < |t| && t[i].Resident() :: t[i].address
  }

  /** Addresses of blocks that share a byte with [address, address + len). */
  ghost predicate Touches(block: nat, blockSize: nat, address: nat, len: nat)
  {
    0 < len && address < block + blockSize && block < address + len
  }

  /** Paging in changes one slot, which then holds the block; no other slot holds it. */
  lemma PagedSlot(t: seq<CacheEntry>, count: nat, a: nat, block: seq<bv8>)
    requires |t| > 0 && block != []
    ensures var r, s := Paged(t, count, a, block), SlotFor(t, count, a);
            && r == t[s := r[s]] && r[s].address == a && r[s].Resident() && r[s].lastUsed == Tick(count)
            && (r[s].page == block || (t[s].Resident() && t[s].address == a && r[s].page == t[s].page))
            && (Distinct(t) ==> forall i :: 0 <= i < |t| && i != s && t[i].Resident() ==> t[i].address != a)
  {
    hide VictimFrom;
  }

  lemma PagedWellFormed(t: seq<CacheEntry>, count: nat, a: nat, block: seq<bv8>, blockSize: nat, capacity: nat)
    requires |t| > 0 && blockSize > 0 && WellFormed(t, blockSize, capacity)
    requires Offset(a, blockSize) == 0 && a + blockSize <= capacity && |block| == blockSize
    ensures WellFormed(Paged(t, count, a, block), blockSize, capacity)
  {
    PagedSlot(t, count, a, block);
    hide Offset, Paged, SlotFor;
  }

  lemma PagedSynced(t: seq<CacheEntry>, count: nat, a: nat, disk: seq<bv8>, blockSize: nat, lo: nat, hi: nat)
    requires |t| > 0 && blockSize > 0 && Synced(t, disk, lo, hi) && a + blockSize <= |disk|
    ensures Synced(Paged(t, count, a, disk[a..a + blockSize]), disk, lo, hi)
  {
    PagedSlot(t, count, a, disk[a..a + blockSize]);
    hide Offset, Paged, SlotFor;
  }

  lemma PagedResidents(t: seq<CacheEntry>, count: nat, a: nat, block: seq<bv8>)
    requires |t| > 0 && block != []
    ensures Residents(Paged(t, count, a, block)) <= Residents(t) + {a}
  {
    PagedSlot(t, count, a, block);
    hide Offset, Paged, SlotFor;
    var r, s := Paged(t, count, a, block), SlotFor(t, count, a);
    forall b | b in Residents(r) ensures b in Residents(t) + {a} {
      var i :| 0 <= i < |r| && r[i].Resident() && r[i].address == b;
      if i != s {
        assert t[i].Resident() && t[i].address == b;
      }
    }
  }

  /** Addresses of the blocks that share a byte with [address, address + len). */
  ghost function BlocksOf(address: nat, len: nat, blockSize: nat): set<nat>
    requires blockSize > 0
  {
    set b | 0 <= b < address + len && Offset(b, blockSize) == 0 && Touches(b, blockSize, address, len)
  }

  /** What an exact entry holds between two offsets is what flash holds there. */
  lemma ExactSlice(e: CacheEntry, disk: seq<bv8>, lo: nat, hi: nat, from: nat, to: nat)
    requires EntrySynced(e, disk, lo, hi) && !(lo <= e.address < hi) && from <= to <= |e.page|
    ensures e.page[from..to] == disk[e.address + from..e.address + to]
  {}

  lemma SliceJoin(s: seq<bv8>, a: nat, n: nat, l: nat)
    requires a + n + l <= |s|
    ensures s[a..a + n] + s[a + n..a + n + l] == s[a..a + (n + l)]
  {}

  class FSCache {
    const flash: UsbFlash
    const blockSize: nat
    const cache: array<CacheEntry>
    var operationCount: nat
    ghost var wrapped: bool  // operationCount has wrapped round since the cache was last cleared
    ghost var laxLo: nat
    ghost var laxHi: nat

    ghost predicate Valid()
      reads this, cache, flash
    {
      && flash.Valid()
      && 0 < blockSize && Words(blockSize) && Offset(flash.capacity, blockSize) == 0
      && Offset(laxLo, blockSize) == 0 && Offset(laxHi, blockSize) == 0
      && cache.Length > 0
      && WellFormed(cache[..], blockSize, flash.capacity)
      && Synced(cache[..], flash.disk, laxLo, laxHi)
    }

    ghost function State(): CacheState
      reads this, cache
    {
      CacheState(cache[..], operationCount, wrapped)
    }

    /** No byte of the range is in the lax region, so its cached blocks are exact. */
    ghost predicate Strict(address: nat, len: nat)
      reads this`laxLo, this`laxHi
    {
      laxLo == laxHi || address + len <= laxLo || laxHi <= address
    }

    constructor (flash: UsbFlash, blockSize: nat, size: nat)
      requires flash.Valid() && 0 < blockSize && Words(blockSize) && Offset(flash.capacity, blockSize) == 0 && size > 0
      ensures Valid() && fresh(cache)
      ensures this.flash == flash && this.blockSize == blockSize && cache.Length == size
      ensures Residents(cache[..]) == {} && laxLo == laxHi == 0 && !wrapped && InOrder(cache[..], operationCount)
    {
      this.flash, this.blockSize := flash, blockSize;
      cache := new CacheEntry[size](_ => CacheEntry(0, 0, false, []));
      operationCount, wrapped, laxLo, laxHi := 0, false, 0, 0;
      new;
      assert forall i :: 0 <= i < |cache[..]| ==> !cache[..][i].Resident();
    }

    method Clear()
      requires flash.Valid() && 0 < blockSize && Words(blockSize) && Offset(flash.capacity, blockSize) == 0
      requires Offset(laxLo, blockSize) == 0 && Offset(laxHi, blockSize) == 0 && cache.Length > 0
      modifies this`operationCount, this`wrapped, cache
      ensures Valid() && Residents(cache[..]) == {} && !wrapped && InOrder(cache[..], operationCount)
    {
      var i := 0;
      while i < cache.Length
        invariant 0 <= i <= cache.Length
        invariant forall k :: 0 <= k < i ==> cache[k] == CacheEntry(0, 0, false, [])
      {
        cache[i] := CacheEntry(0, 0, false, []);
        i := i + 1;
      }
      operationCount, wrapped := 0, false;
      assert forall i :: 0 <= i < |cache[..]| ==> !cache[..][i].Resident();
    }

    method GetCacheEntry(address: nat) returns (r: int)
      modifies this`operationCount, this`wrapped, cache
      ensures r == FindFrom(old(cache[..]), address, 0)
      ensures r < 0 ==> cache[..] == old(cache[..]) && operationCount == old(operationCount)
      ensures r < 0 ==> wrapped == old(wrapped)
      ensures r >= 0 ==> operationCount == Tick(old(operationCount)) && wrapped == (old(wrapped) || operationCount == 0)
      ensures r >= 0 ==> operationCount == (old(operationCount) + 1) % 0x1_0000
      ensures r >= 0 ==> cache[..] == old(cache[..])[r := old(cache[r]).(lastUsed := operationCount)]
    {
      var i := 0;
      while i < cache.Length
        invariant 0 <= i <= cache.Length
        invariant FindFrom(cache[..], address, i) == FindFrom(cache[..], address, 0)
        invariant cache[..] == old(cache[..]) && operationCount == old(operationCount) && wrapped == old(wrapped)
      {
        if cache[i].address == address && cache[i].Resident() {
          operationCount := Tick(operationCount);
          wrapped := wrapped || operationCount == 0;
          cache[i] := cache[i].(lastUsed := operationCount);
          return i;
        }
        i := i + 1;
      }
      return -1;
    }

    /** The first slot without a buffer, or the one to evict. */
    method Victim() returns (lru: nat)
      requires cache.Length > 0
      ensures lru == VictimFrom(cache[..], operationCount, 0, 0)
    {
      lru := 0;
      var i := 0;
      while i < cache.Length
        invariant 0 <= i <= cache.Length && lru < cache.Length
        invariant VictimFrom(cache[..], operationCount, i, lru) == VictimFrom(cache[..], operationCount, 0, 0)
      {
        if !cache[i].Resident() {
          return i;
        }
        if !cache[i].pinned && operationCount - cache[i].lastUsed > operationCount - cache[lru].lastUsed {
          lru := i;
        }
        i := i + 1;
      }
    }

    /** Finds the block, or loads it in place of the victim. */
    method Fetch(address: nat) returns (r: nat)
      requires flash.Valid() && cache.Length > 0 && blockSize > 0 && address + blockSize <= flash.capacity
      modifies this`operationCount, this`wrapped, cache
      ensures cache[..] == Paged(old(cache[..]), old(operationCount), address, flash.disk[address..address + blockSize])
      ensures operationCount == Tick(old(operationCount)) && wrapped == (old(wrapped) || operationCount == 0)
      ensures r == SlotFor(old(cache[..]), old(operationCount), address)
    {
      hide FindFrom, VictimFrom;
      var found := GetCacheEntry(address);
      if found >= 0 {
        return found;
      }
      r := Victim();
      operationCount := Tick(operationCount);
      wrapped := wrapped || operationCount == 0;
      cache[r] := CacheEntry(address, operationCount, false, flash.disk[address..address + blockSize]);
    }

    /** Pages a block in, replacing the least recently used one if it is not resident. */
    method CachePage(address: nat) returns (r: nat)
      requires Valid() && Offset(address, blockSize) == 0 && address + blockSize <= flash.capacity
      modifies this`operationCount, this`wrapped, cache
      ensures cache[..] == Paged(old(cache[..]), old(operationCount), address, flash.disk[address..address + blockSize])
      ensures operationCount == Tick(old(operationCount)) && wrapped == (old(wrapped) || operationCount == 0)
      ensures r == SlotFor(old(cache[..]), old(operationCount), address)
      ensures Valid() && r < cache.Length && cache[r].address == address && |cache[r].page| == blockSize > 0
      ensures EntrySynced(cache[r], flash.disk, laxLo, laxHi)
      ensures Stepped(old(State()), State(), {address}, {address})
    {
      ghost var t, block := cache[..], flash.disk[address..address + blockSize];
      PagedSlot(t, operationCount, address, block);
      PagedWellFormed(t, operationCount, address, block, blockSize, flash.capacity);
      PagedSynced(t, operationCount, address, flash.disk, blockSize, laxLo, laxHi);
      PagedResidents(t, operationCount, address, block);
      PagedTraced(t, operationCount, address, block);
      hide *;
      r := Fetch(address);
      EntryOf(cache[..], r, blockSize, flash.disk, laxLo, laxHi);
    }

    /** Block, offset and length of the next part of [address, address + len), after done bytes. */
    method Locate(address: nat, len: nat, done: nat) returns (block: nat, offset: nat, l: nat)
      requires Valid() && done < len && address + len <= flash.capacity
      ensures Offset(block, blockSize) == 0 && block + blockSize <= flash.capacity
      ensures block + offset == address + done && l == Min(len - done, blockSize - offset)
      ensures 0 < l <= len - done && offset + l <= blockSize
      ensures Strict(address, len) ==> !(laxLo <= block < laxHi)
      ensures Words(address) && Words(len) && Words(done) ==> Words(offset) && Words(l) && Words(done + l)
      ensures block in BlocksOf(address, len, blockSize) && BlocksOf(address + done, l, blockSize) == {block}
    {
      var a := address + done;
      block, offset := RoundDown(a, blockSize), Offset(a, blockSize);
      l := Min(len - done, blockSize - offset);
      LocateFacts(address, len, done, block, offset, l, blockSize, flash.capacity, laxLo, laxHi);
      SegmentAligned(address, len, done, block, offset, l, blockSize);
      OneBlock(block, offset, l, blockSize);
    }

    /** Blanks a cached block, in the cache only. */
    method Erase(address: nat)
      requires blockSize > 0
      modifies this`operationCount, this`wrapped, cache
      ensures cache[..] == Blanked(old(cache[..]), old(operationCount), address, blockSize)
      ensures Stepped(old(State()), State(), {address}, {})
    {
      BlankedTraced(cache[..], operationCount, address, blockSize);
      hide FindFrom, Traced, Residents;
      var c := GetCacheEntry(address);
      if c >= 0 {
        operationCount := Tick(operationCount);
        wrapped := wrapped || operationCount == 0;
        cache[c] := cache[c].(page := Blanks(blockSize), lastUsed := operationCount);
      }
    }

    method Unpin(address: nat)
      requires Valid()
      modifies this`operationCount, this`wrapped, cache
      ensures Valid()
      ensures var i := FindFrom(old(cache[..]), address, 0);
              cache[..] == if i >= 0 then old(cache[..])[i :=
                    old(cache[..])[i].(lastUsed := operationCount, pinned := false)] else old(cache[..])
      ensures forall i :: 0 <= i < cache.Length && cache[i].Resident() && cache[i].address == address ==>
                !cache[i].pinned
    {
      ghost var t := cache[..];
      var c := GetCacheEntry(address);
      if c >= 0 {
        cache[c] := cache[c].(pinned := false);
        assert cache[..] == t[c := t[c].(lastUsed := operationCount, pinned := false)];
        Restamped(t, c, operationCount, flash.disk, blockSize, laxLo, laxHi);
      }
    }

    method Pin(address: nat)
      requires Valid() && Offset(address, blockSize) == 0 && address + blockSize <= flash.capacity
      modifies this`operationCount, this`wrapped, cache
      ensures Valid()
      ensures var i := SlotFor(old(cache[..]), old(operationCount), address);
              var paged := Paged(old(cache[..]), old(operationCount), address,
                                 flash.disk[address..address + blockSize]);
              cache[..] == paged[i := paged[i].(pinned := true)] && cache[i].address == address && cache[i].Resident()
    {
      hide Offset, Paged, SlotFor, FindFrom, VictimFrom, Tick;
      var i := CachePage(address);
      cache[i] := cache[i].(pinned := true);
    }

    method Read(address: nat, len: nat) returns (r: Result, data: seq<bv8>)
      requires Valid()
      modifies this`operationCount, this`wrapped, cache
      ensures Valid()
      ensures r == if address + len >= flash.capacity then OutOfRange else Done
      ensures r == Done && Strict(address, len) ==> data == flash.disk[address..address + len]
      ensures Stepped(old(State()), State(), BlocksOf(address, len, blockSize),
                      if r == Done then BlocksOf(address, len, blockSize) else {})
    {
      NoStep(State(), address, len, blockSize);
      hide WellFormed, Synced, Residents, BlocksOf, Offset, Stepped, Strict, Words;
      data := [];
      if address + len >= flash.capacity {
        return OutOfRange, data;
      }
      var bytesCopied := 0;
      while bytesCopied < len
        invariant 0 <= bytesCopied <= len && Valid()
        invariant Strict(address, len) ==> data == flash.disk[address..address + bytesCopied]
        invariant Stepped(old(State()), State(), BlocksOf(address, len, blockSize),
                          BlocksOf(address, bytesCopied, blockSize))
      {
        ghost var s := State();
        var segment := ReadSegment(address, len, bytesCopied);
        NextStep(old(State()), s, State(), address, len, bytesCopied, |segment|, blockSize);
        SliceJoin(flash.disk, address, bytesCopied, |segment|);
        data := data + segment;
        bytesCopied := bytesCopied + |segment|;
      }
      return Done, data;
    }

    /** One turn of the read loop: up to the end of the block that holds byte done. */
    method ReadSegment(address: nat, len: nat, done: nat) returns (segment: seq<bv8>)
      requires Valid() && done < len && address + len <= flash.capacity
      modifies this`operationCount, this`wrapped, cache
      ensures Valid() && 0 < |segment| <= len - done
      ensures Strict(address, len) ==> segment == flash.disk[address + done..address + done + |segment|]
      ensures Stepped(old(State()), State(), BlocksOf(address + done, |segment|, blockSize),
                      BlocksOf(address + done, |segment|, blockSize))
    {
      hide WellFormed, Synced, Residents, BlocksOf, Offset, EntrySynced, ClearsAll, Overwrite, AllTorn, Words, Paged,
           SlotFor, FindFrom, VictimFrom, Tick, Stepped;
      var block, offset, l := Locate(address, len, done);
      var c := CachePage(block);
      if Strict(address, len) {
        ExactSlice(cache[c], flash.disk, laxLo, laxHi, offset, offset + l);
      }
      segment := cache[c].page[offset..offset + l];
    }

    /** First pass of a write: pages in every block and checks each byte against it. */
    method Validate(address: nat, data: seq<bv8>) returns (ok: bool)
      requires Valid() && address + |data| < flash.capacity
      modifies this`operationCount, this`wrapped, cache
      ensures Valid()
      ensures ok ==> ClearsAll(flash.disk, address, data)
      ensures Strict(address, |data|) && ClearsAll(flash.disk, address, data) ==> ok
      ensures Stepped(old(State()), State(), BlocksOf(address, |data|, blockSize), {})
    {
      assert ClearsAll(flash.disk, address, data[..0]);
      NoStep(State(), address, |data|, blockSize);
      hide WellFormed, Synced, Residents, BlocksOf, Offset, ClearsAll, Stepped;
      var bytesCopied := 0;
      while bytesCopied < |data|
        invariant 0 <= bytesCopied <= |data| && Valid()
        invariant ClearsAll(flash.disk, address, data[..bytesCopied])
        invariant Stepped(old(State()), State(), BlocksOf(address, |data|, blockSize), {})
      {
        ghost var s := State();
        var l;
        l, ok := ValidateSegment(address, data, bytesCopied);
        StepsJoin(old(State()), s, State(), BlocksOf(address, |data|, blockSize), {},
                  BlocksOf(address, |data|, blockSize), {});
        if !ok {
          return;
        }
        bytesCopied := bytesCopied + l;
      }
      assert data[..bytesCopied] == data;
      ok := true;
    }

    method ValidateSegment(address: nat, data: seq<bv8>, done: nat) returns (l: nat, ok: bool)
      requires Valid() && done < |data| && address + |data| <= flash.capacity
      requires ClearsAll(flash.disk, address, data[..done])
      modifies this`operationCount, this`wrapped, cache
      ensures Valid() && 0 < l <= |data| - done
      ensures ok ==> ClearsAll(flash.disk, address, data[..done + l])
      ensures !ok && Strict(address, |data|) ==> !ClearsAll(flash.disk, address, data)
      ensures Stepped(old(State()), State(), BlocksOf(address, |data|, blockSize), {})
    {
      hide WellFormed, Synced, Residents, BlocksOf, Offset, EntrySynced, ClearsAll, Overwrite, AllTorn, Words, Paged,
           SlotFor, FindFrom, VictimFrom, Tick, Stepped;
      var block, offset;
      block, offset, l := Locate(address, |data|, done);
      var c := CachePage(block);
      StepWider(old(State()), State(), block, BlocksOf(address, |data|, blockSize));
      ok := Compare(c, offset, data[done..done + l]);
      ClearsAllConcat(flash.disk, address, data, done, l);
    }

    /** Checks that writing data into cached page c would only clear bits. */
    method Compare(c: nat, offset: nat, data: seq<bv8>) returns (ok: bool)
      requires c < cache.Length && offset + |data| <= |cache[c].page|
      requires EntrySynced(cache[c], flash.disk, laxLo, laxHi)
      ensures var a := cache[c].address + offset;
              && (ok ==> ClearsAll(flash.disk, a, data))
              && (!ok && !(laxLo <= cache[c].address < laxHi) ==> !ClearsAll(flash.disk, a, data))
    {
      hide Clears, Within;
      var i := 0;
      while i < |data| && Clears(cache[c].page[offset + i], data[i])
        invariant 0 <= i <= |data|
        invariant forall k :: 0 <= k < i ==> Clears(cache[c].page[offset + k], data[k])
      {
        i := i + 1;
      }
      SegmentVerdict(cache[c], flash.disk, laxLo, laxHi, offset, data, i);
      ok := i == |data|;
    }

    /** Writes data at the given offset of cached page c, and through to flash in whole words.
        Every state flash passes through holds a prefix of data. */
    method Store(c: nat, offset: nat, data: seq<bv8>)
      requires Valid() && c < cache.Length && cache[c].Resident() && offset + |data| <= |cache[c].page|
      requires ClearsAll(flash.disk, cache[c].address + offset, data)
      requires laxLo <= cache[c].address < laxHi ==> Words(offset) && Words(|data|)
      modifies cache, flash
      ensures Valid()
      ensures flash.disk == Overwrite(old(flash.disk), old(cache[c].address) + offset, data)
      ensures Stepped(old(State()), State(), {}, {})
      ensures old(flash.images) <= flash.images
      ensures AllTorn(flash.images, |old(flash.images)|, old(flash.disk), old(cache[c].address) + offset, data)
    {
      hide Offset, WellFormed, Synced, Residents, ClearsAll, Words, AlignedStart, AlignedEnd, Traced, AllTorn, Burn,
           BurnImages, Overwrite;
      var e := cache[c];
      assert cache[..][c] == e;
      var a := e.address + offset;
      StoreBounds(cache[..], c, offset, |data|, blockSize, flash.capacity);
      var page := Overwrite(e.page, offset, data);
      var alignedStart, alignedEnd := AlignedStart(a), AlignedEnd(a + |data|);
      var words := page[alignedStart - e.address..alignedEnd - e.address];
      StoreFacts(cache[..], c, offset, data, flash.disk, blockSize, laxLo, laxHi, alignedStart, alignedEnd, words);
      StoreTraced(cache[..], c, page, operationCount);
      AppendTorn(flash.images, BurnImages(flash.disk, alignedStart, words), flash.disk, a, data);
      Commit(c, page, alignedStart, words);
    }

    /** The changes that Store makes. */
    method Commit(c: nat, page: seq<bv8>, address: nat, words: seq<bv8>)
      requires flash.Valid() && c < cache.Length && Words(|words|) && address + |words| <= |flash.disk|
      modifies cache, flash
      ensures flash.Valid() && cache[..] == old(cache[..])[c := old(cache[..])[c].(page := page)]
      ensures flash.disk == Burn(old(flash.disk), address, words)
      ensures flash.images == old(flash.images) + BurnImages(old(flash.disk), address, words)
    {
      hide Burn, BurnImages, Offset;
      flash.Write(address, words);
      cache[c] := cache[c].(page := page);
      assert cache[..] == old(cache[..])[c := old(cache[..])[c].(page := page)];
    }

    /** Write-through update. It happens exactly when no byte needs an erase; otherwise
        flash is untouched, whichever byte was at fault. */
    method Write(address: nat, data: seq<bv8>) returns (r: Result)
      requires Valid()
      requires Strict(address, |data|) || (Words(address) && Words(|data|))
      modifies this`operationCount, this`wrapped, cache, flash
      ensures Valid()
      ensures r == OutOfRange <==> address + |data| >= flash.capacity
      ensures r == Done ==>
                ClearsAll(old(flash.disk), address, data) && flash.disk == Overwrite(old(flash.disk), address, data)
      ensures r == Done ==>
                && old(flash.images) <= flash.images
                && AllTorn(flash.images, |old(flash.images)|, old(flash.disk), address, data)
      ensures r != Done ==> flash.disk == old(flash.disk) && flash.images == old(flash.images)
      ensures Strict(address, |data|) && r == NotSupported ==> !ClearsAll(old(flash.disk), address, data)
      ensures Stepped(old(State()), State(), BlocksOf(address, |data|, blockSize),
                      if r == Done then BlocksOf(address, |data|, blockSize) else {})
    {
      NoStep(State(), address, |data|, blockSize);
      hide WellFormed, Synced, Residents, BlocksOf, Offset, ClearsAll, Overwrite, AllTorn, Words, Stepped;
      if address + |data| >= flash.capacity {
        return OutOfRange;
      }
      var ok := Validate(address, data);
      if !ok {
        return NotSupported;
      }
      ghost var s, all := State(), BlocksOf(address, |data|, blockSize);
      WriteThrough(address, data);
      StepsJoin(old(State()), s, State(), all, {}, all, all);
      return Done;
    }

    /** Second pass of a write. */
    method WriteThrough(address: nat, data: seq<bv8>)
      requires Valid() && address + |data| < flash.capacity && ClearsAll(flash.disk, address, data)
      requires Strict(address, |data|) || (Words(address) && Words(|data|))
      modifies this`operationCount, this`wrapped, cache, flash
      ensures Valid()
      ensures flash.disk == Overwrite(old(flash.disk), address, data)
      ensures old(flash.images) <= flash.images
              && AllTorn(flash.images, |old(flash.images)|, old(flash.disk), address, data)
      ensures Stepped(old(State()), State(), BlocksOf(address, |data|, blockSize), BlocksOf(address, |data|, blockSize))
    {
      ghost var disk, n := flash.disk, |flash.images|;
      assert Words(0);
      assert Overwrite(disk, address, data[..0]) == disk;
      assert AllTorn(flash.images, n, disk, address, data);
      NoStep(State(), address, |data|, blockSize);
      hide WellFormed, Synced, Residents, BlocksOf, Offset, ClearsAll, Overwrite, AllTorn, Words, Stepped;
      var bytesCopied := 0;
      while bytesCopied < |data|
        invariant 0 <= bytesCopied <= |data| && Valid()
        invariant Strict(address, |data|) || Words(bytesCopied)
        invariant flash.disk == Overwrite(disk, address, data[..bytesCopied])
        invariant old(flash.images) <= flash.images && AllTorn(flash.images, n, disk, address, data)
        invariant Stepped(old(State()), State(), BlocksOf(address, |data|, blockSize),
                          BlocksOf(address, bytesCopied, blockSize))
      {
        ghost var s := State();
        var l := WriteSegment(address, data, bytesCopied, disk, n);
        NextStep(old(State()), s, State(), address, |data|, bytesCopied, l, blockSize);
        bytesCopied := bytesCopied + l;
      }
      assert data[..bytesCopied] == data;
    }

    method WriteSegment(address: nat, data: seq<bv8>, done: nat, ghost disk: seq<bv8>, ghost n: nat) returns (l: nat)
      requires Valid() && done < |data| && address + |data| <= flash.capacity == |disk|
               && ClearsAll(disk, address, data)
      requires Strict(address, |data|) || (Words(address) && Words(|data|) && Words(done))
      requires flash.disk == Overwrite(disk, address, data[..done])
      requires n <= |flash.images| && AllTorn(flash.images, n, disk, address, data)
      modifies this`operationCount, this`wrapped, cache, flash
      ensures Valid() && 0 < l <= |data| - done
      ensures Strict(address, |data|) || Words(done + l)
      ensures flash.disk == Overwrite(disk, address, data[..done + l])
      ensures old(flash.images) <= flash.images && AllTorn(flash.images, n, disk, address, data)
      ensures Stepped(old(State()), State(), BlocksOf(address + done, l, blockSize),
                      BlocksOf(address + done, l, blockSize))
    {
      hide WellFormed, Synced, Residents, BlocksOf, Offset, EntrySynced, ClearsAll, Overwrite, AllTorn, Words, Paged,
           SlotFor, FindFrom, VictimFrom, Tick, Stepped;
      var block, offset;
      block, offset, l := Locate(address, |data|, done);
      var c := CachePage(block);
      ghost var s := State();
      StillClears(disk, address, data, done, l);
      Store(c, offset, data[done..done + l]);
      StepsJoin(old(State()), s, State(), {block}, {block}, {}, {});
      TornSegment(flash.images, old(flash.images), n, disk, address, data, done, l);
    }
  }

  lemma StoreFacts(t: seq<CacheEntry>, c: nat, offset: nat, data: seq<bv8>, disk: seq<bv8>, blockSize: nat, lo: nat,
                   hi: nat,
                   s: nat, end: nat, words: seq<bv8>)
    requires c < |t| && t[c].Resident() && offset + |data| <= |t[c].page|
    requires blockSize > 0 && WellFormed(t, blockSize, |disk|) && Synced(t, disk, lo, hi)
    requires t[c].address + |t[c].page| <= |disk| && ClearsAll(disk, t[c].address + offset, data)
    requires lo <= t[c].address < hi ==> s == t[c].address + offset && end == s + |data|
    requires t[c].address <= s <= t[c].address + offset
             && t[c].address + offset + |data| <= end <= t[c].address + |t[c].page|
    requires Words(s) && Words(|words|)
    requires words == Overwrite(t[c].page, offset, data)[s - t[c].address..end - t[c].address]
    ensures Burn(disk, s, words) == Overwrite(disk, t[c].address + offset, data)
    ensures AllTorn(BurnImages(disk, s, words), 0, disk, t[c].address + offset, data)
    ensures var t' := t[c := t[c].(page := Overwrite(t[c].page, offset, data))];
            && WellFormed(t', blockSize, |disk|) && Residents(t') == Residents(t)
            && Synced(t', Overwrite(disk, t[c].address + offset, data), lo, hi)
  {
    hide *;
    EntryOf(t, c, blockSize, disk, lo, hi);
    StoreSynced(t, c, offset, data, disk, blockSize, lo, hi);
    StoreTorn(t[c], disk, lo, hi, offset, data, s, end);
  }

  lemma StoreBounds(t: seq<CacheEntry>, c: nat, offset: nat, len: nat, blockSize: nat, capacity: nat)
    requires c < |t| && t[c].Resident() && offset + len <= |t[c].page|
    requires blockSize > 0 && Words(blockSize) && WellFormed(t, blockSize, capacity)
    ensures var a := t[c].address + offset; var s, end := AlignedStart(a), AlignedEnd(a + len);
            && t[c].address <= s <= a && a + len <= end <= t[c].address + |t[c].page| <= capacity
            && Words(s) && Words(end - s)
            && (Words(offset) && Words(len) ==> s == a && end == a + len)
  {
    hide WellFormed, AlignedStart, AlignedEnd, Words;
    StoreFits(t, c, blockSize, capacity);
    AlignedBounds(t[c].address, blockSize, offset, len);
  }

  lemma EntryOf(t: seq<CacheEntry>, i: nat, blockSize: nat, disk: seq<bv8>, lo: nat, hi: nat)
    requires i < |t| && t[i].Resident() && blockSize > 0 && WellFormed(t, blockSize, |disk|) && Synced(t, disk, lo, hi)
    ensures |t[i].page| == blockSize && EntrySynced(t[i], disk, lo, hi)
  {}

  /** Passing against the cached bytes implies passing against flash; for an exact block the
      two agree. i is where the check stopped. */
  lemma SegmentVerdict(e: CacheEntry, disk: seq<bv8>, lo: nat, hi: nat, offset: nat, data: seq<bv8>, i: nat)
    requires EntrySynced(e, disk, lo, hi) && offset + |data| <= |e.page| && i <= |data|
    requires forall k :: 0 <= k < i ==> Clears(e.page[offset + k], data[k])
    requires i < |data| ==> !Clears(e.page[offset + i], data[i])
    ensures i == |data| ==> ClearsAll(disk, e.address + offset, data)
    ensures i < |data| && !(lo <= e.address < hi) ==> !ClearsAll(disk, e.address + offset, data)
  {
    forall k | 0 <= k < i ensures Clears(disk[e.address + offset + k], data[k]) {
      assert Within(e.page[offset + k], disk[e.address + (offset + k)]);
      ClearsWithin(e.page[offset + k], disk[e.address + offset + k], data[k]);
    }
    if i < |data| && !(lo <= e.address < hi) {
      assert disk[e.address + (offset + i)] == e.page[offset + i];
    }
  }

  lemma ClearsWithin(cached: bv8, stored: bv8, n: bv8)
    requires Within(cached, stored) && Clears(cached, n)
    ensures Clears(stored, n)
  {}

  lemma ClearsAllConcat(disk: seq<bv8>, a: nat, data: seq<bv8>, done: nat, l: nat)
    requires a + |data| <= |disk| && done + l <= |data|
    ensures ClearsAll(disk, a, data[..done + l])
       <==> ClearsAll(disk, a, data[..done]) && ClearsAll(disk, a + done, data[done..done + l])
    ensures ClearsAll(disk, a, data) ==> ClearsAll(disk, a + done, data[done..done + l])
  {
    var part, upTo := data[done..done + l], data[..done + l];
    assert forall k :: 0 <= k < l ==> part[k] == upTo[done + k];
    assert upTo[done..] == part && upTo[..done] == data[..done];
  }

  lemma {:induction false} LocateFacts(address: nat, len: nat, done: nat, block: nat, offset: nat, l: nat,
                                       blockSize: nat, capacity: nat, lo: nat, hi: nat)
    requires done < len && blockSize > 0 && Words(blockSize) && address + len <= capacity
    requires Offset(capacity, blockSize) == 0 && Offset(lo, blockSize) == 0 && Offset(hi, blockSize) == 0
    requires block == RoundDown(address + done, blockSize) && offset == Offset(address + done, blockSize)
    requires l == Min(len - done, blockSize - offset)
    ensures Offset(block, blockSize) == 0 && block + blockSize <= capacity && block in BlocksOf(address, len, blockSize)
    ensures lo == hi || address + len <= lo || hi <= address ==> !(lo <= block < hi)
  {
    RoundedDown(address + done, blockSize);
    UnitFits(address + done, capacity, blockSize);
    assert Touches(block, blockSize, address, len);
    if hi <= address {
      UnitAbove(address + done, hi, blockSize);
    }
  }

  function AlignedStart(a: nat): nat { a - a % 4 }

  function AlignedEnd(x: nat): nat { if Words(x) then x else x - x % 4 + 4 }

  /** Every image from position lo on is mem with a prefix of data written at a. */
  ghost predicate AllTorn(images: seq<seq<bv8>>, lo: nat, mem: seq<bv8>, a: nat, data: seq<bv8>)
    requires a + |data| <= |mem|
  {
    forall k :: lo <= k < |images| ==> TornOverwrite(images[k], mem, a, data)
  }

  /** The aligned range around [lo + offset, lo + offset + len) stays in the aligned [lo, lo + size). */
  lemma {:induction false} AlignedBounds(lo: nat, size: nat, offset: nat, len: nat)
    requires Words(lo) && Words(size) && offset + len <= size
    ensures var a := lo + offset; var s, end := AlignedStart(a), AlignedEnd(a + len);
            && lo <= s <= a && a + len <= end <= lo + size && Words(s) && Words(end - s)
            && (Words(offset) && Words(len) ==> s == a && end == a + len)
  {
    hide AlignedStart, AlignedEnd, Words;
    AlignedOne(lo, size, offset);
    AlignedOne(lo, size, offset + len);
    WordDifference(AlignedEnd(lo + offset + len), AlignedStart(lo + offset));
    if Words(offset) && Words(len) {
      WordSum(offset, len);
    }
  }

  lemma {:induction false} AlignedOne(lo: nat, size: nat, offset: nat)
    requires Words(lo) && Words(size) && offset <= size
    ensures lo <= AlignedStart(lo + offset) <= lo + offset <= AlignedEnd(lo + offset) <= lo + size
    ensures Words(AlignedStart(lo + offset)) && Words(AlignedEnd(lo + offset))
    ensures Words(offset) ==> AlignedStart(lo + offset) == AlignedEnd(lo + offset)
  {}

  lemma StoreFits(t: seq<CacheEntry>, c: nat, blockSize: nat, capacity: nat)
    requires c < |t| && t[c].Resident() && blockSize > 0 && Words(blockSize) && WellFormed(t, blockSize, capacity)
    ensures Words(t[c].address) && |t[c].page| == blockSize && t[c].address + blockSize <= capacity
  {
    assert EntryWellFormed(t[c], blockSize, capacity);
    MultipleOfWords(t[c].address, blockSize);
  }

  lemma AppendTorn(before: seq<seq<bv8>>, added: seq<seq<bv8>>, mem: seq<bv8>, a: nat, data: seq<bv8>)
    requires a + |data| <= |mem| && AllTorn(added, 0, mem, a, data)
    ensures AllTorn(before + added, |before|, mem, a, data)
  {
    hide TornOverwrite;
    forall k | |before| <= k < |before + added| ensures TornOverwrite((before + added)[k], mem, a, data) {
      assert (before + added)[k] == added[k - |before|];
    }
  }

  /** Programming words that repeat flash outside [a, a + |data|), and clear bits inside it,
      is writing data there; cut short at j bytes it is writing a prefix p of data. */
  lemma PaddedBurn(disk: seq<bv8>, s: nat, words: seq<bv8>, a: nat, data: seq<bv8>, p: nat)
    requires s <= a && s + |words| <= |disk| && p <= |data| && a + |data| <= |disk|
    requires p == Max(0, Min(s + |words| - a, |data|))
    requires forall x {:trigger words[x - s]} :: s <= x < s + |words| && !(a <= x < a + |data|) ==>
               words[x - s] == disk[x]
    requires forall x {:trigger words[x - s]} :: s <= x < s + |words| && a <= x < a + |data| ==>
               words[x - s] == data[x - a]
    requires ClearsAll(disk, a, data)
    ensures Burn(disk, s, words) == Overwrite(disk, a, data[..p])
  {
    hide Burn, Overwrite;
    var burnt, plain := Burn(disk, s, words), Overwrite(disk, a, data[..p]);
    forall x | 0 <= x < |disk| ensures burnt[x] == plain[x] {
      if s <= x < s + |words| {
        assert burnt[x] == And(disk[x], words[x - s]);
        if a <= x < a + |data| {
          assert Clears(disk[a + (x - a)], data[x - a]);
          ClearsIsAnd(disk[x], data[x - a]);
        }
      }
    }
  }

  /** The aligned words of an updated page, cut at j bytes, have the shape PaddedBurn needs. */
  lemma AlignedWords(e: CacheEntry, disk: seq<bv8>, lo: nat, hi: nat, offset: nat, data: seq<bv8>, s: nat, end: nat,
                     j: nat)
    requires EntrySynced(e, disk, lo, hi) && offset + |data| <= |e.page|
    requires ClearsAll(disk, e.address + offset, data)
    requires lo <= e.address < hi ==> s == e.address + offset && end == s + |data|
    requires e.address <= s <= e.address + offset && e.address + offset + |data| <= end <= e.address + |e.page|
             && j <= end - s
    ensures var a := e.address + offset;
            var words := Overwrite(e.page, offset, data)[s - e.address..end - e.address];
            Burn(disk, s, words[..j]) == Overwrite(disk, a, data[..Max(0, Min(s + j - a, |data|))])
  {
    hide Burn, Overwrite, ClearsAll;
    var a := e.address + offset;
    var page := Overwrite(e.page, offset, data);
    var cut := page[s - e.address..end - e.address][..j];
    assert forall k :: 0 <= k < |cut| ==> cut[k] == page[s - e.address + k];
    forall x {:trigger cut[x - s]} | s <= x < s + |cut| && a <= x < a + |data| ensures cut[x - s] == data[x - a] {
      assert cut[x - s] == page[offset + (x - a)];
    }
    forall x {:trigger cut[x - s]} | s <= x < s + |cut| && !(a <= x < a + |data|) ensures cut[x - s] == disk[x] {
      var k := x - e.address;
      assert cut[x - s] == page[k] == e.page[k] == disk[e.address + k];
    }
    PaddedBurn(disk, s, cut, a, data, Max(0, Min(s + j - a, |data|)));
  }

  lemma StoreTorn(e: CacheEntry, disk: seq<bv8>, lo: nat, hi: nat, offset: nat, data: seq<bv8>, s: nat, end: nat)
    requires EntrySynced(e, disk, lo, hi) && offset + |data| <= |e.page| && e.address + |e.page| <= |disk|
    requires ClearsAll(disk, e.address + offset, data)
    requires lo <= e.address < hi ==> s == e.address + offset && end == s + |data|
    requires e.address <= s <= e.address + offset && e.address + offset + |data| <= end <= e.address + |e.page|
    requires Words(s) && Words(end - s)
    ensures var words := Overwrite(e.page, offset, data)[s - e.address..end - e.address];
            && Burn(disk, s, words) == Overwrite(disk, e.address + offset, data)
            && AllTorn(BurnImages(disk, s, words), 0, disk, e.address + offset, data)
  {
    hide Burn, Overwrite, ClearsAll, EntrySynced, TornBurn, Words, BurnImages;
    var a := e.address + offset;
    var words := Overwrite(e.page, offset, data)[s - e.address..end - e.address];
    assert Burn(disk, s, words) == Overwrite(disk, a, data) by {
      AlignedWords(e, disk, lo, hi, offset, data, s, end, end - s);
      assert words[..end - s] == words && data[..|data|] == data;
    }
    var images := BurnImages(disk, s, words);
    hide Max, Min;
    forall k | 0 <= k < |images| ensures TornOverwrite(images[k], disk, a, data) {
      ImageTorn(e, disk, lo, hi, offset, data, s, end, words, k);
    }
  }

  lemma ImageTorn(e: CacheEntry, disk: seq<bv8>, lo: nat, hi: nat, offset: nat, data: seq<bv8>, s: nat, end: nat,
                  words: seq<bv8>, k: nat)
    requires EntrySynced(e, disk, lo, hi) && offset + |data| <= |e.page| && e.address + |e.page| <= |disk|
    requires ClearsAll(disk, e.address + offset, data)
    requires lo <= e.address < hi ==> s == e.address + offset && end == s + |data|
    requires e.address <= s <= e.address + offset && e.address + offset + |data| <= end <= e.address + |e.page|
    requires words == Overwrite(e.page, offset, data)[s - e.address..end - e.address]
    requires Words(|words|) && k < |BurnImages(disk, s, words)|
    ensures TornOverwrite(BurnImages(disk, s, words)[k], disk, e.address + offset, data)
  {
    hide Burn, Overwrite, ClearsAll, EntrySynced, TornBurn, Words, BurnImages;
    var j := TornLength(disk, s, words, k);
    AlignedWords(e, disk, lo, hi, offset, data, s, end, j);
  }

  lemma TornLength(disk: seq<bv8>, s: nat, words: seq<bv8>, k: nat) returns (j: nat)
    requires s + |words| <= |disk| && Words(|words|) && k < |BurnImages(disk, s, words)|
    ensures j <= |words| && BurnImages(disk, s, words)[k] == Burn(disk, s, words[..j])
  {
    BurnImagesTorn(disk, s, words, k);
    j :| 0 <= j <= |words| && BurnImages(disk, s, words)[k] == Burn(disk, s, words[..j]);
  }

  lemma StoreSynced(t: seq<CacheEntry>, c: nat, offset: nat, data: seq<bv8>, disk: seq<bv8>, blockSize: nat, lo: nat,
                    hi: nat)
    requires c < |t| && t[c].Resident() && blockSize > 0 && WellFormed(t, blockSize, |disk|) && Synced(t, disk, lo, hi)
    requires offset + |data| <= |t[c].page| && t[c].address + |t[c].page| <= |disk|
    ensures var t' := t[c := t[c].(page := Overwrite(t[c].page, offset, data))];
            && WellFormed(t', blockSize, |disk|) && Residents(t') == Residents(t)
            && Synced(t', Overwrite(disk, t[c].address + offset, data), lo, hi)
  {
    var t' := t[c := t[c].(page := Overwrite(t[c].page, offset, data))];
    var a := t[c].address + offset;
    StoredEntry(t[c], offset, data, disk, lo, hi);
    assert forall i :: 0 <= i < |t| ==>
          t'[i].Resident() == t[i].Resident() && t'[i].address == t[i].address && |t'[i].page| == |t[i].page|;
    SameResidents(t, t');
    forall i | 0 <= i < |t'| && i != c
        && t'[i].Resident() ensures EntrySynced(t'[i], Overwrite(disk, a, data), lo, hi) {
      assert t[i].Resident() && EntrySynced(t[i], disk, lo, hi);
      Apart(t, i, c, blockSize, |disk|);
      OtherEntry(t[i], a, data, disk, lo, hi);
    }
    StoredWellFormed(t, t', blockSize, |disk|);
    hide EntrySynced, WellFormed, Overwrite, Offset;
  }

  lemma StoredWellFormed(t: seq<CacheEntry>, t': seq<CacheEntry>, blockSize: nat, capacity: nat)
    requires blockSize > 0 && WellFormed(t, blockSize, capacity) && |t| == |t'|
    requires forall i :: 0 <= i < |t| ==>
               t'[i].Resident() == t[i].Resident() && t'[i].address == t[i].address && |t'[i].page| == |t[i].page|
    ensures WellFormed(t', blockSize, capacity)
  {
    SameResidents(t, t');
    hide Offset, Distinct;
    forall i | 0 <= i < |t'| && t'[i].Resident() ensures EntryWellFormed(t'[i], blockSize, capacity) {
      assert t[i].Resident() && EntryWellFormed(t[i], blockSize, capacity);
    }
  }

  lemma SameResidents(t: seq<CacheEntry>, t': seq<CacheEntry>)
    requires |t| == |t'| && forall i :: 0 <= i < |t| ==>
               t'[i].Resident() == t[i].Resident() && t'[i].address == t[i].address
    ensures Residents(t) == Residents(t') && (Distinct(t) ==> Distinct(t'))
  {
    assert forall i :: 0 <= i < |t| && t[i].Resident() ==> t'[i].address in Residents(t');
  }

  lemma Apart(t: seq<CacheEntry>, i: nat, c: nat, blockSize: nat, capacity: nat)
    requires i < |t| && c < |t| && i != c && t[i].Resident() && t[c].Resident()
    requires blockSize > 0 && WellFormed(t, blockSize, capacity)
    ensures t[i].address + |t[i].page| <= t[c].address || t[c].address + |t[c].page| <= t[i].address
  {
    assert t[i].address != t[c].address;
    assert EntryWellFormed(t[i], blockSize, capacity) && EntryWellFormed(t[c], blockSize, capacity);
    if t[i].address < t[c].address {
      MultiplesApart(t[i].address, t[c].address, blockSize);
    } else {
      MultiplesApart(t[c].address, t[i].address, blockSize);
    }
  }

  lemma StoredEntry(e: CacheEntry, offset: nat, data: seq<bv8>, disk: seq<bv8>, lo: nat, hi: nat)
    requires EntrySynced(e, disk, lo, hi) && offset + |data| <= |e.page|
    ensures EntrySynced(e.(page := Overwrite(e.page, offset, data)), Overwrite(disk, e.address + offset, data), lo, hi)
  {
    var page, disk' := Overwrite(e.page, offset, data), Overwrite(disk, e.address + offset, data);
    hide Overwrite;
    assert forall k :: 0 <= k < |page| ==> Within(page[k], disk'[e.address + k]);
  }

  lemma OtherEntry(e: CacheEntry, a: nat, data: seq<bv8>, disk: seq<bv8>, lo: nat, hi: nat)
    requires EntrySynced(e, disk, lo, hi) && a + |data| <= |disk|
    requires e.address + |e.page| <= a || a + |data| <= e.address
    ensures EntrySynced(e, Overwrite(disk, a, data), lo, hi)
  {}

  lemma {:induction false} SegmentAligned(address: nat, len: nat, done: nat, block: nat, offset: nat, l: nat,
                                          blockSize: nat)
    requires done < len && blockSize > 0 && Words(blockSize)
    requires offset <= blockSize && Offset(block, blockSize) == 0 && block + offset == address + done
             && l == Min(len - done, blockSize - offset)
    ensures Words(address) && Words(len) && Words(done) ==> Words(offset) && Words(l) && Words(done + l)
  {
    MultipleOfWords(block, blockSize);
    hide Offset, Words;
    if Words(address) && Words(len) && Words(done) {
      WordSum(address, done);
      WordDifference(address + done, block);
      WordDifference(len, done);
      WordDifference(blockSize, offset);
      WordSum(done, l);
    }
  }

  /** Bytes not yet written still only clear bits. */
  lemma StillClears(disk: seq<bv8>, a: nat, data: seq<bv8>, done: nat, l: nat)
    requires a + |data| <= |disk| && done + l <= |data| && ClearsAll(disk, a, data)
    ensures ClearsAll(Overwrite(disk, a, data[..done]), a + done, data[done..done + l])
  {
    var disk' := Overwrite(disk, a, data[..done]);
    hide Overwrite;
    var part := data[done..done + l];
    forall i | 0 <= i < l ensures Clears(disk'[a + done + i], part[i]) {
      assert Clears(disk[a + (done + i)], data[done + i]);
    }
  }

  /** Images of the next segment are images of the whole write. */
  lemma TornSegment(images: seq<seq<bv8>>, mid: seq<seq<bv8>>, n: nat, disk: seq<bv8>, a: nat, data: seq<bv8>,
                    done: nat, l: nat)
    requires a + |data| <= |disk| && done + l <= |data| && mid <= images && n <= |mid|
    requires AllTorn(mid, n, disk, a, data)
    requires AllTorn(images, |mid|, Overwrite(disk, a, data[..done]), a + done, data[done..done + l])
    ensures AllTorn(images, n, disk, a, data)
    ensures Overwrite(Overwrite(disk, a, data[..done]), a + done, data[done..done + l])
            == Overwrite(disk, a, data[..done + l])
  {
    OverwriteTwice(disk, a, data, done, l, l);
    assert data[done..done + l][..l] == data[done..done + l];
    hide Overwrite;
    forall k | n <= k < |images| ensures TornOverwrite(images[k], disk, a, data) {
      if k < |mid| {
        assert images[k] == mid[k];
      } else {
        assert TornOverwrite(images[k], Overwrite(disk, a, data[..done]), a + done, data[done..done + l]);
        var j :| 0 <= j <= l && images[k]
            == Overwrite(Overwrite(disk, a, data[..done]), a + done, data[done..done + l][..j]);
        OverwriteTwice(disk, a, data, done, l, j);
      }
    }
  }

  lemma OverwriteTwice(disk: seq<bv8>, a: nat, data: seq<bv8>, done: nat, l: nat, j: nat)
    requires a + |data| <= |disk| && done + l <= |data| && j <= l
    ensures Overwrite(Overwrite(disk, a, data[..done]), a + done, data[done..done + l][..j])
            == Overwrite(disk, a, data[..done + j])
  {
    assert data[done..done + l][..j] == data[done..done + j];
    assert data[..done + j] == data[..done] + data[done..done + j];
  }

  // ----- erasing flash behind the cache

  function Blanked(t: seq<CacheEntry>, count: nat, a: nat, blockSize: nat): (r: seq<CacheEntry>)
    ensures |r| == |t|
  {
    var i := FindFrom(t, a, 0);
    if i < 0 then t else t[i := t[i].(page := Blanks(blockSize), lastUsed := Tick(Tick(count)))]
  }

  /** A flash erase of [a, a + n), with the cache told about the first block only, leaves the
      other blocks of the range lagging but nothing worse. */
  lemma BlankedSynced(t: seq<CacheEntry>, count: nat, a: nat, n: nat, disk: seq<bv8>, blockSize: nat,
                      lo: nat, hi: nat, lo': nat, hi': nat)
    requires blockSize > 0 && WellFormed(t, blockSize, |disk|) && Synced(t, disk, lo, hi)
    requires Offset(a, blockSize) == 0 && Offset(a + n, blockSize) == 0 && a + n <= |disk| && a < a + n
    requires lo' <= a + blockSize && a + n <= hi' && (lo == hi || (lo' <= lo && hi <= hi'))
    ensures var t' := Blanked(t, count, a, blockSize);
            && WellFormed(t', blockSize, |disk|) && Synced(t', Erased(disk, a, n), lo', hi')
            && Residents(t') == Residents(t)
  {
    var t' := Blanked(t, count, a, blockSize);
    BlankedShape(t, count, a, blockSize, |disk|);
    MultiplesApart(a, a + n, blockSize);
    StoredWellFormed(t, t', blockSize, |disk|);
    SameResidents(t, t');
    forall i | 0 <= i < |t'| && t'[i].Resident() ensures EntrySynced(t'[i], Erased(disk, a, n), lo', hi') {
      assert EntryWellFormed(t[i], blockSize, |disk|) && EntrySynced(t[i], disk, lo, hi);
      BlockPlace(t[i].address, a, n, blockSize);
      ErasedEntry(t[i], t'[i], a, n, disk, lo, hi, lo', hi');
    }
    hide *;
  }

  /** No block cached strictly inside [a, a + n) holds anything. */
  ghost predicate NoneStale(t: seq<CacheEntry>, a: nat, n: nat)
  {
    forall i :: 0 <= i < |t| && t[i].Resident() && a < t[i].address < a + n ==> t[i].page == Blanks(|t[i].page|)
  }

  /** Such an erase keeps the cache coherent exactly if the blocks it is not told about were
      cached blank, or not cached. */
  lemma BlankedExact(t: seq<CacheEntry>, count: nat, a: nat, n: nat, disk: seq<bv8>, blockSize: nat)
    requires blockSize > 0 && WellFormed(t, blockSize, |disk|) && Synced(t, disk, 0, 0)
    requires Offset(a, blockSize) == 0 && Offset(a + n, blockSize) == 0 && a + n <= |disk| && a < a + n
    ensures Synced(Blanked(t, count, a, blockSize), Erased(disk, a, n), 0, 0) <==> NoneStale(t, a, n)
  {
    var t' := Blanked(t, count, a, blockSize);
    BlankedShape(t, count, a, blockSize, |disk|);
    MultiplesApart(a, a + n, blockSize);
    hide Erased, Overwrite, Blanked, Offset;
    forall i | 0 <= i < |t| && t[i].Resident()
      ensures EntrySynced(t'[i], Erased(disk, a, n), 0, 0) <==>
                (a < t[i].address < a + n ==> t[i].page == Blanks(|t[i].page|))
    {
      assert EntryWellFormed(t[i], blockSize, |disk|) && EntrySynced(t[i], disk, 0, 0);
      BlockPlace(t[i].address, a, n, blockSize);
      ErasedExact(t[i], t'[i], a, n, disk);
    }
  }

  lemma ErasedExact(e: CacheEntry, e': CacheEntry, a: nat, n: nat, disk: seq<bv8>)
    requires EntrySynced(e, disk, 0, 0) && e.Resident() && a + n <= |disk| && (e.address == a ==> |e.page| <= n)
    requires e.address == a || e.address + |e.page| <= a || a + n <= e.address
             || (a < e.address && e.address + |e.page| <= a + n)
    requires if e.address == a then e'.address == a && e'.page == Blanks(|e.page|) else e' == e
    ensures EntrySynced(e', Erased(disk, a, n), 0, 0) <==> (a < e.address < a + n ==> e.page == Blanks(|e.page|))
  {
    hide Erased, Overwrite;
    ErasedPoints(disk, a, n);
    var disk' := Erased(disk, a, n);
    if a < e.address < a + n {
      assert forall k {:trigger e.page[k]} :: 0 <= k < |e.page| ==> disk'[e.address + k] == BLANK;
    } else if e.address != a {
      assert forall k {:trigger e.page[k]} :: 0 <= k < |e.page| ==> disk'[e.address + k] == disk[e.address + k];
    }
  }

  /** A page erase that breaks coherence: its second block is cached, and was not blank. */
  lemma StaleBlock()
    ensures var disk := seq(1024, i => 0 as bv8); var t := [CacheEntry(256, 1, false, disk[256..512])];
            && WellFormed(t, 256, |disk|) && Synced(t, disk, 0, 0)
            && !Synced(Blanked(t, 1, 0, 256), Erased(disk, 0, 1024), 0, 0)
  {
    var disk := seq(1024, i => 0 as bv8);
    var t := [CacheEntry(256, 1, false, disk[256..512])];
    assert t[0].page[0] != Blanks(256)[0];
    BlankedExact(t, 1, 0, 1024, disk, 256);
  }

  lemma BlankedShape(t: seq<CacheEntry>, count: nat, a: nat, blockSize: nat, capacity: nat)
    requires blockSize > 0 && WellFormed(t, blockSize, capacity)
    ensures var t' := Blanked(t, count, a, blockSize);
            forall i :: 0 <= i < |t| ==>
              && t'[i].Resident() == t[i].Resident() && t'[i].address == t[i].address && |t'[i].page| == |t[i].page|
              && (t[i].Resident() && t[i].address == a ==> t'[i].page == Blanks(|t[i].page|))
              && (t[i].address != a ==> t'[i] == t[i])
  {
    hide Offset;
    var c := FindFrom(t, a, 0);
    if c >= 0 {
      assert EntryWellFormed(t[c], blockSize, capacity);
    }
  }

  lemma BlockPlace(b: nat, a: nat, n: nat, blockSize: nat)
    requires blockSize > 0 && Offset(b, blockSize) == 0 && Offset(a, blockSize) == 0 && Offset(a + n, blockSize) == 0
    ensures b == a || b + blockSize <= a || a + n <= b || (a + blockSize <= b && b + blockSize <= a + n)
  {
    if b < a {
      MultiplesApart(b, a, blockSize);
    } else if a < b < a + n {
      MultiplesApart(a, b, blockSize);
      MultiplesApart(b, a + n, blockSize);
    }
  }

  lemma ErasedEntry(e: CacheEntry, e': CacheEntry, a: nat, n: nat, disk: seq<bv8>, lo: nat, hi: nat, lo': nat, hi': nat)
    requires EntrySynced(e, disk, lo, hi) && a + n <= |disk| && (lo == hi || (lo' <= lo && hi <= hi'))
    requires e'.address == e.address && |e'.page| == |e.page|
    requires e.address == a || e.address + |e.page| <= a || a + n <= e.address
             || (lo' <= e.address && e.address + |e.page| <= a + n <= hi')
    requires if e.address == a then e'.page == Blanks(|e.page|) else e'.page == e.page
    requires e.address == a ==> |e.page| <= n
    ensures EntrySynced(e', Erased(disk, a, n), lo', hi')
  {
    hide Erased, Overwrite;
    var disk' := Erased(disk, a, n);
    ErasedPoints(disk, a, n);
    if e.address == a {
    } else if e.address + |e.page| <= a || a + n <= e.address {
      assert forall k {:trigger e.page[k]} :: 0 <= k < |e.page| ==> disk'[e.address + k] == disk[e.address + k];
    } else {
      assert forall k :: 0 <= k < |e.page| ==> Within(e.page[k], disk'[e.address + k]);
    }
  }

  lemma ErasedPoints(disk: seq<bv8>, a: nat, n: nat)
    requires a + n <= |disk|
    ensures |Erased(disk, a, n)| == |disk|
    ensures forall i {:trigger Erased(disk, a, n)[i]} :: 0 <= i < |disk| ==>
              Erased(disk, a, n)[i] == if a <= i < a + n then BLANK else disk[i]
  {}

  /** A flash erase that meets no resident block needs no help from the cache. */
  lemma UnseenErase(t: seq<CacheEntry>, a: nat, n: nat, disk: seq<bv8>, blockSize: nat, lo: nat, hi: nat)
    requires blockSize > 0 && WellFormed(t, blockSize, |disk|) && Synced(t, disk, lo, hi) && a + n <= |disk|
    requires forall b :: b in Residents(t) ==> b + blockSize <= a || a + n <= b
    ensures Synced(t, Erased(disk, a, n), lo, hi)
  {
    forall i | 0 <= i < |t| && t[i].Resident() ensures EntrySynced(t[i], Erased(disk, a, n), lo, hi) {
      assert EntryWellFormed(t[i], blockSize, |disk|) && EntrySynced(t[i], disk, lo, hi)
          && t[i].address in Residents(t);
      OtherEntry(t[i], a, Blanks(n), disk, lo, hi);
    }
  }

  lemma ResidentAddress(t: seq<CacheEntry>, i: nat)
    requires i < |t|
    ensures t[i].Resident() ==> t[i].address in Residents(t)
  {}

  /** An empty cache agrees with any flash. */
  lemma EmptyCache(t: seq<CacheEntry>, blockSize: nat, disk: seq<bv8>, lo: nat, hi: nat)
    requires blockSize > 0 && Residents(t) == {}
    ensures WellFormed(t, blockSize, |disk|) && Synced(t, disk, lo, hi)
  {
    forall i | 0 <= i < |t| ensures !t[i].Resident() {
      ResidentAddress(t, i);
    }
  }

  // ----- replacement

  /** The victim is the slot the source's scan picks: an empty slot if there is one, else a
      slot no unpinned slot is older than. It can be pinned in exactly one case: slot 0, from
      which the scan starts without looking at the flag. */
  lemma {:induction false} VictimChoice(t: seq<CacheEntry>, count: nat, i: nat, lru: nat)
    requires i <= |t| && lru < |t| && lru <= i
    ensures var v := VictimFrom(t, count, i, lru);
            && ((exists k :: i <= k < |t| && !t[k].Resident()) ==>
                i <= v && !t[v].Resident() && forall k :: i <= k < v ==> t[k].Resident())
            && ((forall k :: i <= k < |t| ==> t[k].Resident()) ==>
                  && (v == lru || (i <= v && !t[v].pinned)) && t[v].lastUsed <= t[lru].lastUsed
                  && (v != lru ==> t[v].lastUsed < t[lru].lastUsed
                                   && forall k :: i <= k < v && !t[k].pinned ==> t[v].lastUsed < t[k].lastUsed)
                  && (forall k :: i <= k < |t| && !t[k].pinned ==> t[v].lastUsed <= t[k].lastUsed))
    decreases |t| - i
  {
    if i < |t| && t[i].Resident() {
      var next := if !t[i].pinned && count - t[i].lastUsed > count - t[lru].lastUsed then i else lru;
      VictimChoice(t, count, i + 1, next);
    }
  }

  lemma PinnedVictim(t: seq<CacheEntry>, count: nat)
    requires t != [] && forall k :: 0 <= k < |t| ==> t[k].Resident()
    ensures t[VictimFrom(t, count, 0, 0)].pinned
       <==> t[0].pinned && forall k :: 0 <= k < |t| && !t[k].pinned ==> t[0].lastUsed <= t[k].lastUsed
  {
    VictimChoice(t, count, 0, 0);
    var v := VictimFrom(t, count, 0, 0);
    if t[0].pinned && (forall k :: 0 <= k < |t| && !t[k].pinned ==> t[0].lastUsed <= t[k].lastUsed) {
      VictimStays(t, count, 0);
    }
  }

  /** A pinned block that is evicted: both slots are in use, and slot 0 is older. */
  lemma PinnedEvicted(page: seq<bv8>)
    requires page != []
    ensures var t := [CacheEntry(0, 1, true, page), CacheEntry(256, 2, false, page)];
            t[VictimFrom(t, 2, 0, 0)].pinned && 0 !in Residents(Paged(t, 2, 512, page))
  {
    var t := [CacheEntry(0, 1, true, page), CacheEntry(256, 2, false, page)];
    PinnedVictim(t, 2);
    assert t[1].address == 256 && FindFrom(t, 512, 0) == -1;
  }

  lemma {:induction false} VictimStays(t: seq<CacheEntry>, count: nat, i: nat)
    requires t != [] && i <= |t| && forall k :: 0 <= k < |t| ==> t[k].Resident()
    requires forall k :: 0 <= k < |t| && !t[k].pinned ==> t[0].lastUsed <= t[k].lastUsed
    ensures VictimFrom(t, count, i, 0) == 0
    decreases |t| - i
  {
    if i < |t| {
      VictimStays(t, count, i + 1);
    }
  }

  ghost predicate InBounds(trace: seq<nat>, blockSize: nat, capacity: nat)
  {
    forall k :: 0 <= k < |trace| ==> trace[k] + blockSize <= capacity
  }

  /** The table after a sequence of page-ins, oldest first. */
  ghost function Accessed(t: seq<CacheEntry>, count: nat, trace: seq<nat>, blockSize: nat,
                          disk: seq<bv8>): (r: seq<CacheEntry>)
    requires |t| > 0 && InBounds(trace, blockSize, |disk|)
    ensures |r| == |t|
  {
    if trace == [] then t
    else
      var a := trace[|trace| - 1];
      var before := trace[..|trace| - 1];
      Paged(Accessed(t, count, before, blockSize, disk), count + |before|, a, disk[a..a + blockSize])
  }

  // ----- age

  /** No block is pinned, and the counter is not behind any stamp. */
  ghost predicate InOrder(t: seq<CacheEntry>, count: nat)
  {
    count < COUNT_RANGE && forall i :: 0 <= i < |t| ==> !t[i].pinned && t[i].lastUsed <= count
  }

  /** Block x is resident, and was used after block b. */
  ghost predicate Outranks(t: seq<CacheEntry>, x: nat, b: nat)
  {
    exists i :: 0 <= i < |t| && t[i].Resident() && t[i].address == x && UsedAfter(t, t[i].lastUsed, b)
  }

  ghost predicate UsedAfter(t: seq<CacheEntry>, stamp: nat, b: nat)
  {
    forall j :: 0 <= j < |t| && t[j].Resident() && t[j].address == b ==> t[j].lastUsed < stamp
  }

  /** The resident blocks used after block b. */
  ghost function Newer(t: seq<CacheEntry>, b: nat): set<nat>
  {
    set x | x in Residents(t) && Outranks(t, x, b)
  }

  /** From t to t' only blocks in touched were paged in, those in sure at least once: every
      other block that is still resident has aged by the blocks in sure. */
  ghost predicate Aged(t: seq<CacheEntry>, t': seq<CacheEntry>, touched: set<nat>, sure: set<nat>)
  {
    forall b :: b in Residents(t') && b !in touched ==> b in Residents(t) && Newer(t, b) + sure <= Newer(t', b)
  }

  /** Aged, and still in order, unless pins or a wrapped counter had upset the order before. */
  ghost predicate Traced(t: seq<CacheEntry>, count: nat, t': seq<CacheEntry>, count': nat, touched: set<nat>,
                         sure: set<nat>)
  {
    InOrder(t, count) ==> InOrder(t', count') && Aged(t, t', touched, sure)
  }

  /** The cache after some page-ins, as in Traced until the counter wraps. */
  ghost predicate Stepped(s: CacheState, s': CacheState, touched: set<nat>, sure: set<nat>)
  {
    && Residents(s'.table) <= Residents(s.table) + touched && (s.wrapped ==> s'.wrapped)
    && (!s'.wrapped ==> Traced(s.table, s.count, s'.table, s'.count, touched, sure))
  }

  lemma Untouched(t: seq<CacheEntry>, count: nat)
    ensures Traced(t, count, t, count, {}, {})
  {}

  lemma TracedJoin(t: seq<CacheEntry>, count: nat, t1: seq<CacheEntry>, count1: nat, t2: seq<CacheEntry>, count2: nat,
                   touched1: set<nat>, sure1: set<nat>, touched2: set<nat>, sure2: set<nat>, touched: set<nat>,
                       sure: set<nat>)
    requires Traced(t, count, t1, count1, touched1, sure1) && Traced(t1, count1, t2, count2, touched2, sure2)
    requires touched1 + touched2 <= touched && sure <= sure1 + sure2
    ensures Traced(t, count, t2, count2, touched, sure)
  {
    hide InOrder, Residents, Newer;
  }

  lemma NoStep(s: CacheState, address: nat, len: nat, blockSize: nat)
    requires blockSize > 0
    ensures Stepped(s, s, BlocksOf(address, len, blockSize), {})
    ensures Stepped(s, s, BlocksOf(address, len, blockSize), BlocksOf(address, 0, blockSize))
  {}

  lemma StepsJoin(s: CacheState, s1: CacheState, s2: CacheState, touched1: set<nat>, sure1: set<nat>,
                  touched2: set<nat>, sure2: set<nat>)
    requires Stepped(s, s1, touched1, sure1) && Stepped(s1, s2, touched2, sure2)
    ensures Stepped(s, s2, touched1 + touched2, sure1 + sure2)
    ensures touched2 <= touched1 ==> touched1 + touched2 == touched1
    ensures touched1 <= touched2 ==> touched1 + touched2 == touched2
    ensures sure1 <= sure2 ==> sure1 + sure2 == sure2
    ensures sure2 <= sure1 ==> sure1 + sure2 == sure1
  {
    hide Residents, Traced;
    if !s2.wrapped {
      TracedJoin(s.table, s.count, s1.table, s1.count, s2.table, s2.count, touched1, sure1, touched2, sure2,
                 touched1 + touched2, sure1 + sure2);
    }
  }

  /** The next segment of a range. */
  lemma NextStep(s: CacheState, s1: CacheState, s2: CacheState, address: nat, len: nat, done: nat, l: nat,
                 blockSize: nat)
    requires blockSize > 0 && done + l <= len
    requires Stepped(s, s1, BlocksOf(address, len, blockSize), BlocksOf(address, done, blockSize))
    requires Stepped(s1, s2, BlocksOf(address + done, l, blockSize), BlocksOf(address + done, l, blockSize))
    ensures Stepped(s, s2, BlocksOf(address, len, blockSize), BlocksOf(address, done + l, blockSize))
  {
    var all, sure, more := BlocksOf(address, len, blockSize), BlocksOf(address, done, blockSize),
        BlocksOf(address + done, l, blockSize);
    assert more <= all && BlocksOf(address, done + l, blockSize) == sure + more;
    hide Stepped, BlocksOf;
    StepsJoin(s, s1, s2, all, sure, more, more);
  }

  lemma StepWider(s: CacheState, s': CacheState, b: nat, all: set<nat>)
    requires b in all && Stepped(s, s', {b}, {b})
    ensures Stepped(s, s', all, {})
  {
    hide InOrder, Newer, Residents;
  }

  lemma StoreTraced(t: seq<CacheEntry>, c: nat, page: seq<bv8>, count: nat)
    requires c < |t| && t[c].Resident() && page != []
    ensures Traced(t, count, t[c := t[c].(page := page)], count, {}, {})
  {
    PagesTraced(t, t[c := t[c].(page := page)], count);
    hide Traced;
  }

  /** A range inside one block touches only that block. */
  lemma OneBlock(block: nat, offset: nat, l: nat, blockSize: nat)
    requires blockSize > 0 && Offset(block, blockSize) == 0 && 0 < l && offset + l <= blockSize
    ensures BlocksOf(block + offset, l, blockSize) == {block}
  {
    forall b {:trigger Offset(b, blockSize)} | b in BlocksOf(block + offset, l, blockSize) ensures b == block {
      if b < block {
        MultiplesApart(b, block, blockSize);
      } else if block < b {
        MultiplesApart(block, b, blockSize);
      }
    }
    assert block in BlocksOf(block + offset, l, blockSize);
  }

  /** A new stamp and no pin: nothing that the entries hold has changed. */
  lemma Restamped(t: seq<CacheEntry>, c: nat, stamp: nat, disk: seq<bv8>, blockSize: nat, lo: nat, hi: nat)
    requires c < |t| && blockSize > 0 && WellFormed(t, blockSize, |disk|) && Synced(t, disk, lo, hi)
    ensures var t' := t[c := t[c].(lastUsed := stamp, pinned := false)];
            WellFormed(t', blockSize, |disk|) && Synced(t', disk, lo, hi)
  {
    hide Offset;
  }

  /** One page-in: while an old block stays resident, no block used after it is evicted. */
  lemma PagedTraced(t: seq<CacheEntry>, count: nat, a: nat, block: seq<bv8>)
    requires |t| > 0 && block != []
    ensures Tick(count) != 0 ==> Traced(t, count, Paged(t, count, a, block), Tick(count), {a}, {a})
  {
    if Tick(count) != 0 && InOrder(t, count) {
      var r := Paged(t, count, a, block);
      forall b | b in Residents(r) && b != a ensures b in Residents(t) && Newer(t, b) + {a} <= Newer(r, b) {
        PagedNewer(t, count, a, block, b);
      }
      hide Paged, Newer;
      PagedInOrder(t, count, a, block);
    }
  }

  lemma PagedInOrder(t: seq<CacheEntry>, count: nat, a: nat, block: seq<bv8>)
    requires |t| > 0 && block != [] && InOrder(t, count) && Tick(count) != 0
    ensures InOrder(Paged(t, count, a, block), Tick(count))
  {
    hide FindFrom, VictimFrom;
  }

  lemma PagedNewer(t: seq<CacheEntry>, count: nat, a: nat, block: seq<bv8>, b: nat)
    requires |t| > 0 && block != [] && InOrder(t, count) && Tick(count) != 0
    requires b in Residents(Paged(t, count, a, block)) && b != a
    ensures b in Residents(t) && Newer(t, b) + {a} <= Newer(Paged(t, count, a, block), b)
  {
    var r, s := Paged(t, count, a, block), SlotFor(t, count, a);
    PagedSlot(t, count, a, block);
    var j :| 0 <= j < |r| && r[j].Resident() && r[j].address == b;
    assert j != s && t[j] == r[j];
    forall x | x in Newer(t, b) + {a} ensures x in Newer(r, b) {
      if x == a {
        assert UsedAfter(r, r[s].lastUsed, b);
      } else {
        PagedOutranks(t, count, a, block, x, b, j);
      }
    }
    hide Paged, SlotFor, Outranks;
  }

  lemma PagedOutranks(t: seq<CacheEntry>, count: nat, a: nat, block: seq<bv8>, x: nat, b: nat, j: nat)
    requires |t| > 0 && block != [] && InOrder(t, count) && x != a && b != a && Outranks(t, x, b)
    requires j < |t| && t[j].Resident() && t[j].address == b && j != SlotFor(t, count, a)
    ensures x in Residents(Paged(t, count, a, block)) && Outranks(Paged(t, count, a, block), x, b)
  {
    var r, s := Paged(t, count, a, block), SlotFor(t, count, a);
    PagedSlot(t, count, a, block);
    var i :| 0 <= i < |t| && t[i].Resident() && t[i].address == x && UsedAfter(t, t[i].lastUsed, b);
    VictimChoice(t, count, 0, 0);
    hide VictimFrom, FindFrom;
    assert i != s;
    assert r[i] == t[i];
    assert UsedAfter(r, r[i].lastUsed, b);
  }

  /** Changing pages, but no address and no stamp. */
  lemma PagesTraced(t: seq<CacheEntry>, t': seq<CacheEntry>, count: nat)
    requires |t| == |t'| && forall i :: 0 <= i < |t| ==>
               t'[i].Resident() == t[i].Resident() && t'[i].address == t[i].address && t'[i].lastUsed == t[i].lastUsed
                   && t'[i].pinned == t[i].pinned
    ensures Traced(t, count, t', count, {}, {})
  {
    forall b | b in Residents(t') ensures b in Residents(t) && Newer(t, b) <= Newer(t', b) {
      forall x | x in Newer(t, b) ensures x in Newer(t', b) {
        var i :| 0 <= i < |t| && t[i].Resident() && t[i].address == x && UsedAfter(t, t[i].lastUsed, b);
        assert UsedAfter(t', t'[i].lastUsed, b);
      }
    }
  }

  /** Blanking a cached block stamps it anew. */
  lemma BlankedTraced(t: seq<CacheEntry>, count: nat, a: nat, blockSize: nat)
    requires blockSize > 0
    ensures FindFrom(t, a, 0) < 0 ==> Traced(t, count, Blanked(t, count, a, blockSize), count, {a}, {})
    ensures FindFrom(t, a, 0) >= 0 && Tick(count) != 0 && Tick(Tick(count)) != 0 ==>
              Traced(t, count, Blanked(t, count, a, blockSize), Tick(Tick(count)), {a}, {})
  {
    var c, r := FindFrom(t, a, 0), Blanked(t, count, a, blockSize);
    if c >= 0 && Tick(count) != 0 && Tick(Tick(count)) != 0 && InOrder(t, count) {
      hide FindFrom;
      forall b | b in Residents(r) && b != a ensures b in Residents(t) && Newer(t, b) <= Newer(r, b) {
        forall x | x in Newer(t, b) ensures x in Newer(r, b) {
          var i :| 0 <= i < |t| && t[i].Resident() && t[i].address == x && UsedAfter(t, t[i].lastUsed, b);
          assert UsedAfter(r, r[i].lastUsed, b);
        }
      }
    }
  }

  lemma {:induction false} AccessedTraced(t: seq<CacheEntry>, count: nat, trace: seq<nat>, blockSize: nat,
                                          disk: seq<bv8>)
    requires |t| > 0 && blockSize > 0 && InBounds(trace, blockSize, |disk|) && count + |trace| < COUNT_RANGE
    ensures Traced(t, count, Accessed(t, count, trace, blockSize, disk), count + |trace|, Values(trace), Values(trace))
  {
    hide Traced;
    if trace == [] {
      Untouched(t, count);
      assert Values(trace) == {};
    } else {
      var a, before := trace[|trace| - 1], trace[..|trace| - 1];
      AccessedTraced(t, count, before, blockSize, disk);
      assert Values(trace) == Values(before) + {a} by { assert trace == before + [a]; }
      var block := disk[a..a + blockSize];
      assert block != [];
      hide Accessed, Values, Paged;
      NextTraced(t, count, Accessed(t, count, before, blockSize, disk), count + |before|, Values(before), a, block);
    }
  }

  lemma NextTraced(t: seq<CacheEntry>, count: nat, t1: seq<CacheEntry>, count1: nat, touched: set<nat>, a: nat,
                   block: seq<bv8>)
    requires |t1| > 0 && block != [] && count1 + 1 < COUNT_RANGE && Traced(t, count, t1, count1, touched, touched)
    ensures Traced(t, count, Paged(t1, count1, a, block), count1 + 1, touched + {a}, touched + {a})
  {
    PagedTraced(t1, count1, a, block);
    hide Traced, Paged;
    TracedJoin(t, count, t1, count1, Paged(t1, count1, a, block), count1 + 1, touched, touched, {a}, {a}, touched + {a},
               touched + {a});
  }

  /** As many blocks can be newer than a resident block as there are other slots. */
  lemma NewerBound(t: seq<CacheEntry>, b: nat)
    requires b in Residents(t)
    ensures |Newer(t, b)| < |t|
  {
    assert b !in Newer(t, b);
    assert |Newer(t, b) + {b}| == |Newer(t, b)| + 1;
    SubsetSize(Newer(t, b) + {b}, Residents(t));
    ResidentsBound(t);
  }

  lemma {:induction false} ResidentsBound(t: seq<CacheEntry>)
    ensures |Residents(t)| <= |t|
  {
    if t == [] {
      assert Residents(t) == {};
    } else {
      var rest := t[..|t| - 1];
      ResidentsBound(rest);
      forall x | x in Residents(t) ensures x in Residents(rest) + {t[|t| - 1].address} {
        var i :| 0 <= i < |t| && t[i].Resident() && t[i].address == x;
        if i < |rest| {
          assert rest[i].Resident() && rest[i].address == x;
        }
      }
      SubsetSize(Residents(t), Residents(rest) + {t[|t| - 1].address});
    }
  }

  lemma {:induction false} SubsetSize(a: set<nat>, b: set<nat>)
    requires a <= b
    ensures |a| <= |b|
  {
    if a != {} {
      var x :| x in a;
      SubsetSize(a - {x}, b - {x});
    }
  }

  ghost function Values(trace: seq<nat>): set<nat> { set a | a in trace }

  /** Without pins, and before the 16-bit counter wraps, a block that is not touched while as
      many distinct other blocks as there are slots are touched is no longer resident. */
  lemma LruDistance(t: seq<CacheEntry>, count: nat, trace: seq<nat>, blockSize: nat, disk: seq<bv8>, b: nat)
    requires |t| > 0 && blockSize > 0 && InBounds(trace, blockSize, |disk|)
    requires forall i :: 0 <= i < |t| ==> !t[i].pinned && t[i].lastUsed <= count
    requires count + |trace| < COUNT_RANGE
    requires b !in trace && |Values(trace)| >= |t|
    ensures b !in Residents(Accessed(t, count, trace, blockSize, disk))
  {
    AccessedTraced(t, count, trace, blockSize, disk);
    var r := Accessed(t, count, trace, blockSize, disk);
    if b in Residents(r) {
      NewerBound(r, b);
      SubsetSize(Values(trace), Newer(r, b));
    }
  }

  /** Once the counter has wrapped it may outlive any number of others: stamps made since then
      look older than its own. */
  lemma OldAfterWrap(page: seq<bv8>, disk: seq<bv8>)
    requires |page| == 256 && |disk| >= 2048
    ensures var t := [CacheEntry(0, COUNT_RANGE - 1, false, page), CacheEntry(256, COUNT_RANGE - 2, false, page)];
            0 in Residents(Accessed(t, COUNT_RANGE - 1, [512, 768, 1024], 256, disk))
  {
    var t := [CacheEntry(0, COUNT_RANGE - 1, false, page), CacheEntry(256, COUNT_RANGE - 2, false, page)];
    var a: seq<nat> := [512];
    var b: seq<nat> := [512, 768];
    var c: seq<nat> := [512, 768, 1024];
    assert a[..0] == [] && b[..1] == a && c[..2] == b;
    NewestGoes(t[0], t[1], COUNT_RANGE - 1, 512, disk[512..768]);
    NewestGoes(t[0], CacheEntry(512, 0, false, disk[512..768]), COUNT_RANGE, 768, disk[768..1024]);
    NewestGoes(t[0], CacheEntry(768, 1, false, disk[768..1024]), COUNT_RANGE + 1, 1024, disk[1024..1280]);
    hide Paged;
    assert Accessed(t, COUNT_RANGE - 1, [], 256, disk) == t;
    assert Accessed(t, COUNT_RANGE - 1, a, 256, disk) == Paged(t, COUNT_RANGE - 1, 512, disk[512..768]);
    assert Accessed(t, COUNT_RANGE - 1, b, 256, disk) == [t[0], CacheEntry(768, 1, false, disk[768..1024])];
    assert Accessed(t, COUNT_RANGE - 1, c, 256, disk) == [t[0], CacheEntry(1024, 2, false, disk[1024..1280])];
  }

  lemma NewestGoes(e: CacheEntry, f: CacheEntry, count: nat, a: nat, block: seq<bv8>)
    requires e.Resident() && f.Resident() && !e.pinned && !f.pinned && f.lastUsed < e.lastUsed && a != e.address
             && a != f.address
    ensures Paged([e, f], count, a, block) == [e, CacheEntry(a, Tick(count), false, block)]
  {
    var t := [e, f];
    assert FindFrom(t, a, 2) == -1 && FindFrom(t, a, 1) == -1;
    assert VictimFrom(t, count, 2, 1) == 1 && VictimFrom(t, count, 1, 0) == 1;
  }
}
