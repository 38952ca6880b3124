/** MicroBitFlash: writing bytes anywhere in code flash, erasing a page first when bits must be set. */
module FlashWrite {
  import opened Arith
  import opened Nor

  datatype Status = Ok | InvalidParameter

  /** WORD_ADDR */
  function WordAddr(x: nat): (r: nat)
    ensures Words(r) && r <= x < r + 4
  {
    x - x % 4
  }

  /** The bytes the write loop puts at positions start to end of a page: the buffer where it
      lies, and what is at from elsewhere. */
  function Mixed(mem: seq<bv8>, from: nat, start: nat, end: nat, offset: nat, buffer: seq<bv8>): (r: seq<bv8>)
    requires start <= end && from + end <= |mem|
    ensures |r| == end - start
  {
    seq(end - start, j requires 0 <= j < end - start =>
      if offset <= start + j < offset + |buffer| then buffer[start + j - offset] else mem[from + start + j])
  }

  lemma MixedByte(mem: seq<bv8>, from: nat, start: nat, end: nat, offset: nat, buffer: seq<bv8>, j: nat)
    requires start <= end && from + end <= |mem| && j < end - start
    ensures Mixed(mem, from, start, end, offset, buffer)[j]
            == if offset <= start + j < offset + |buffer| then buffer[start + j - offset] else mem[from + start + j]
  {}

  /** mem0 became mem by programming data at a. */
  ghost predicate Programmed(mem: seq<bv8>, mem0: seq<bv8>, a: nat, data: seq<bv8>)
  {
    a + |data| <= |mem0| == |mem| && mem == Burn(mem0, a, data)
  }

  /** mem0 became mem by the write loop. */
  ghost predicate RangeBurned(mem: seq<bv8>, mem0: seq<bv8>, p: nat, from: nat, start: nat, end: nat, offset: nat,
                              buffer: seq<bv8>)
  {
    start <= end && p + end <= |mem0| && from + end <= |mem0|
        && mem == Burn(mem0, p + start, Mixed(mem0, from, start, end, offset, buffer))
  }

  /** Of the loop's data for positions from start on, those before w are programmed and those
      of word are collected. */
  ghost predicate Writing(mem: seq<bv8>, mem0: seq<bv8>, p: nat, start: nat, data: seq<bv8>, w: nat, word: seq<bv8>)
  {
    && |mem| == |mem0| && p + start + |data| <= |mem0| && start <= w && w + |word| <= start + |data|
    && Programmed(mem, mem0, p + start, data[..w - start]) && word == data[w - start..w - start + |word|]
  }

  /** What the write loop has yet to read is not what it has programmed. */
  ghost predicate Ahead(p: nat, from: nat, start: nat, end: nat)
  {
    from == p || from + end <= p + start || p + end <= from + start
  }

  /** Byte i completes a word. */
  predicate EndsWord(i: nat) { (i + 1) % 4 == 0 }

  /** How many of len bytes at address lie on address's page. */
  function OnPage(address: nat, len: nat, page: nat): (r: nat)
    requires page > 0
    ensures r <= len
  {
    Min(len, RoundDown(address, page) + page - address)
  }

  /** Flash after the page of address was saved at scratch and erased. */
  function Preserved(mem: seq<bv8>, p: nat, scratch: nat, page: nat): (r: seq<bv8>)
    requires p + page <= |mem| && scratch + page <= |mem|
    ensures |r| == |mem|
  {
    if scratch == p then Erased(mem, p, page) else Erased(Overwrite(mem, scratch, mem[p..p + page]), p, page)
  }

  /** In numbers: all of them, or as many as are left of the page. */
  lemma BytesOnPage(address: nat, len: nat, page: nat)
    requires page > 0
    ensures OnPage(address, len, page)
            == if address % page + len <= page then len else page - address % page
  {
    OffsetIsMod(address, page);
    hide Offset;
  }

  /** What flash_write leaves: in place if only bits are cleared; otherwise the page is
      rebuilt from its copy in the scratch page, and nothing beyond the page is written. */
  ghost function Written(mem: seq<bv8>, address: nat, buffer: seq<bv8>, scratch: nat, page: nat): (r: seq<bv8>)
    requires page > 0 && address + |buffer| <= |mem| && scratch + page <= |mem|
             && RoundDown(address, page) + page <= |mem|
    ensures |r| == |mem|
  {
    var p := RoundDown(address, page);
    if ClearsAll(mem, address, buffer) then Overwrite(mem, address, buffer)
    else if scratch == p then Overwrite(Erased(mem, p, page), address, buffer[..OnPage(address, |buffer|, page)])
    else Overwrite(Overwrite(mem, scratch, mem[p..p + page]), address, buffer[..OnPage(address, |buffer|, page)])
  }

  /** The range then equals the buffer exactly if no erase was needed, or the range ends on
      its page, or what lies behind the page was there already. */
  lemma WriteExact(mem: seq<bv8>, address: nat, buffer: seq<bv8>, scratch: nat, page: nat)
    requires page > 0 && address + |buffer| <= |mem| && scratch + page <= |mem|
             && RoundDown(address, page) + page <= |mem|
    requires scratch + page <= address || address + |buffer| <= scratch
    ensures var r := Written(mem, address, buffer, scratch, page); var n := OnPage(address, |buffer|, page);
            r[address..address + |buffer|] == buffer <==>
            ClearsAll(mem, address, buffer) || n == |buffer| || mem[address + n..address + |buffer|] == buffer[n..]
  {
    var r := Written(mem, address, buffer, scratch, page);
    var n := OnPage(address, |buffer|, page);
    hide Offset;
    if !ClearsAll(mem, address, buffer) {
      assert r[address..address + n] == buffer[..n];
      assert r[address + n..address + |buffer|] == mem[address + n..address + |buffer|];
      assert buffer == buffer[..n] + buffer[n..];
      assert r[address..address + |buffer|] == r[address..address + n] + r[address + n..address + |buffer|];
      assert r[address..address + |buffer|][n..] == r[address + n..address + |buffer|];
    }
  }

  /** Bytes outside the range and the scratch page are kept; with another page as scratch, so
      is the rest of the target page. */
  lemma WriteKeeps(mem: seq<bv8>, address: nat, buffer: seq<bv8>, scratch: nat, page: nat, i: nat)
    requires page > 0 && address + |buffer| <= |mem| && scratch + page <= |mem|
             && RoundDown(address, page) + page <= |mem|
    requires i < |mem| && !(address <= i < address + |buffer|) && !(scratch <= i < scratch + page)
    ensures Written(mem, address, buffer, scratch, page)[i] == mem[i]
  {
    hide Offset;
  }

  /** After an erase, the scratch page holds what the target page held. */
  lemma ScratchCopy(mem: seq<bv8>, address: nat, buffer: seq<bv8>, scratch: nat, page: nat)
    requires page > 0 && address + |buffer| <= |mem| && scratch + page <= |mem|
             && RoundDown(address, page) + page <= |mem|
    requires !ClearsAll(mem, address, buffer) && (scratch + page <= address || address + |buffer| <= scratch)
             && scratch != RoundDown(address, page)
    ensures Written(mem, address, buffer, scratch, page)[scratch..scratch + page]
            == mem[RoundDown(address, page)..RoundDown(address, page) + page]
  {
    hide Offset, RoundDown;
  }

  /** Using the target page itself as scratch loses the rest of it, unless that was blank. */
  lemma ScratchOnTarget(mem: seq<bv8>, address: nat, buffer: seq<bv8>, scratch: nat, page: nat)
    requires page > 0 && address + |buffer| <= |mem| && scratch + page <= |mem|
             && RoundDown(address, page) + page <= |mem|
    requires scratch == RoundDown(address, page) && !ClearsAll(mem, address, buffer)
    ensures var r := Written(mem, address, buffer, scratch, page);
            (forall i :: scratch <= i < scratch + page && !(address <= i < address + |buffer|) ==> r[i] == mem[i])
            <==> forall i :: scratch <= i < scratch + page && !(address <= i < address + |buffer|) ==> mem[i] == BLANK
  {
    var r := Written(mem, address, buffer, scratch, page);
    hide Offset;
    assert forall i :: scratch <= i < scratch + page && !(address <= i < address + |buffer|) ==> r[i] == BLANK;
  }

  /** A write that needs an erase and runs over the end of its page: the rest is lost. */
  lemma WriteCutShort()
    ensures var mem, buffer: seq<bv8> := seq(4096, i => 0), [1, 2, 3, 4];
            Written(mem, 1022, buffer, 3072, 1024)[1022..1026] != buffer
  {
    var mem, buffer: seq<bv8> := seq(4096, i => 0), [1, 2, 3, 4];
    assert Offset(1022, 1024) == 1022 && !Clears(mem[1022 + 0], buffer[0]);
    assert mem[1022 + 2..1022 + 4][0] != buffer[2..][0];
    WriteExact(mem, 1022, buffer, 3072, 1024);
  }

  /** A page that is its own scratch: the byte beside the one written is lost. */
  lemma ScratchLoses()
    ensures var mem: seq<bv8> := seq(4096, i => 0); Written(mem, 0, [1], 0, 1024)[1] == BLANK != mem[1]
  {
    var mem, buffer: seq<bv8> := seq(4096, i => 0), [1];
    assert !Clears(mem[0 + 0], buffer[0]) && RoundDown(0, 1024) == 0;
    ScratchOnTarget(mem, 0, buffer, 0, 1024);
  }

  class MicroBitFlash {
    const page: nat
    var mem: seq<bv8>

    ghost predicate Valid()
      reads this
    {
      page > 0 && Words(page)
    }

    constructor (page: nat, mem: seq<bv8>)
      requires page > 0 && Words(page)
      ensures Valid() && this.page == page && this.mem == mem
    {
      this.page, this.mem := page, mem;
    }

    /** Whether some bit would have to be set. */
    method NeedErase(source: seq<bv8>, address: nat) returns (erase: bool)
      requires address + |source| <= |mem|
      ensures erase <==> !ClearsAll(mem, address, source)
    {
      var k := 0;
      while k < |source|
        invariant 0 <= k <= |source| && forall j :: 0 <= j < k ==> Clears(mem[address + j], source[j])
      {
        SetsNoBit(mem[address + k], source[k]);
        if !mem[address + k] & source[k] != 0 {
          return true;
        }
        k := k + 1;
      }
      return false;
    }

    method ErasePage(p: nat)
      requires p + page <= |mem|
      modifies this
      ensures mem == Erased(old(mem), p, page)
    {
      mem := Erased(mem, p, page);
    }

    /** Programs whole words, one at a time. */
    method FlashBurn(address: nat, buffer: seq<bv8>)
      requires Words(|buffer|) && address + |buffer| <= |mem|
      modifies this
      ensures Programmed(mem, old(mem), address, buffer)
    {
      var i := 0;
      BurnNothing(mem, address);
      while i < |buffer|
        invariant 0 <= i <= |buffer| && Words(i) && Programmed(mem, old(mem), address, buffer[..i])
      {
        BurnTwice(old(mem), address, buffer[..i], buffer[i..i + 4]);
        assert buffer[..i] + buffer[i..i + 4] == buffer[..i + 4];
        mem := Burn(mem, address + i, buffer[i..i + 4]);
        i := i + 4;
      }
      assert buffer[..i] == buffer;
    }

    /** Adds byte i to the word being collected; the last one programs it. */
    method Collect(p: nat, i: nat, writeWord: seq<bv8>, b: bv8, ghost mem0: seq<bv8>, ghost start: nat,
                   ghost data: seq<bv8>, ghost w: nat)
      returns (word: seq<bv8>, ghost w': nat)
      requires Writing(mem, mem0, p, start, data, w, writeWord) && i == w + |writeWord|
      requires w + 4 <= start + |data| && |writeWord| < 4 && b == data[i - start] && Words(w)
      modifies this
      ensures Writing(mem, mem0, p, start, data, w', word) && |mem| == |mem0|
      ensures start <= w' && i + 1 == w' + |word| && |word| < 4 && Words(w')
    {
      ghost var before := mem;
      Collected(data, w - start, writeWord, b);
      WordEnds(w, |writeWord|, i);
      word, w' := writeWord + [b], w;
      if EndsWord(i) {
        hide Programmed;
        FlashBurn(p + i + 1 - |word|, word);
        WordBurned(mem, before, mem0, p + start, data, w - start, word);
        word, w' := [], w + 4;
      }
    }

    /** The write loop: collects four bytes, then programs them. */
    method BurnRange(p: nat, from: nat, start: nat, end: nat, offset: nat, buffer: seq<bv8>)
      requires start <= end && Words(start) && Words(end) && p + end <= |mem| && from + end <= |mem|
      requires Ahead(p, from, start, end)
      modifies this
      ensures RangeBurned(mem, old(mem), p, from, start, end, offset, buffer)
    {
      ghost var mem0, data, w := mem, Mixed(mem, from, start, end, offset, buffer), start;
      var i, writeWord := start, [];
      hide Words, Mixed, Writing, RangeBurned, Ahead;
      NothingYet(mem, p, start, data);
      while i < end
        invariant start <= w <= i <= end && Words(w) && i == w + |writeWord| && |writeWord| < 4
        invariant |mem| == |mem0| && Writing(mem, mem0, p, start, data, w, writeWord)
      {
        var b := if offset <= i < offset + |buffer| then buffer[i - offset] else mem[from + i];
        NextByte(mem, mem0, p, from, start, end, offset, buffer, data, w, writeWord, i, b);
        writeWord, w := Collect(p, i, writeWord, b, mem0, start, data, w);
        i := i + 1;
      }
      WholeRange(mem, mem0, p, from, start, end, offset, buffer, w, writeWord);
    }

    /** Copies the page at p to the scratch page, and erases it. */
    method Preserve(p: nat, scratch: nat)
      requires Valid() && p + page <= |mem| && scratch + page <= |mem|
      requires scratch == p || scratch + page <= p || p + page <= scratch
      modifies this
      ensures mem == Preserved(old(mem), p, scratch, page)
    {
      ghost var mem0 := mem;
      ErasePage(scratch);
      var copy := mem[p..p + page];
      BurnBlank(mem, scratch, copy);
      FlashBurn(scratch, copy);
      assert scratch != p ==> copy == mem0[p..p + page] && mem == Overwrite(mem0, scratch, copy);
      assert scratch == p ==> mem == Erased(mem0, p, page);
      ErasePage(p);
    }

    /** Writes a buffer at any address. Reads up to a word behind the range. */
    method FlashWrite(address: nat, buffer: seq<bv8>, scratch: nat) returns (r: Status)
      requires Valid() && address + |buffer| + 4 <= |mem| && RoundDown(address, page) + page <= |mem|
               && scratch + page <= |mem|
      modifies this
      ensures r == (if Offset(scratch, page) == 0 then Ok else InvalidParameter)
      ensures mem == if r == Ok then Written(old(mem), address, buffer, scratch, page) else old(mem)
    {
      if Offset(scratch, page) != 0 {
        return InvalidParameter;
      }
      ghost var mem0 := mem;
      var offset := Offset(address, page);
      var p := address - offset;
      var writeFrom, start, end := p, WordAddr(offset), WordAddr(offset + |buffer| + 4);
      var erase := NeedErase(buffer, address);
      PagesApart(p, address, scratch, page);
      hide Offset, Written, Burn, Overwrite, ClearsAll;
      if erase {
        Preserve(p, scratch);
        writeFrom, start, end := scratch, 0, page;
      }
      hide Preserved, RangeBurned, RoundDown, WordAddr;
      BurnRange(p, writeFrom, start, end, offset, buffer);
      if erase {
        Rebuilt(mem, mem0, p, scratch, page, address, buffer);
      } else {
        InPlace(mem, mem0, p, start, end, address, buffer);
        InPlaceWritten(mem0, address, buffer, scratch, page);
      }
      return Ok;
    }
  }

  lemma InPlaceWritten(mem: seq<bv8>, address: nat, buffer: seq<bv8>, scratch: nat, page: nat)
    requires page > 0 && address + |buffer| <= |mem| && scratch + page <= |mem|
             && RoundDown(address, page) + page <= |mem|
    requires ClearsAll(mem, address, buffer)
    ensures Written(mem, address, buffer, scratch, page) == Overwrite(mem, address, buffer)
  {}

  lemma SetsNoBit(o: bv8, n: bv8)
    ensures Clears(o, n) <==> !o & n == 0
  {}

  lemma BurnBlank(mem: seq<bv8>, a: nat, data: seq<bv8>)
    requires a + |data| <= |mem| && forall i :: a <= i < a + |data| ==> mem[i] == BLANK
    ensures Burn(mem, a, data) == Overwrite(mem, a, data)
  {
    forall i | 0 <= i < |data| ensures Clears(mem[a + i], data[i]) {
      assert mem[a + i] == BLANK;
    }
    BurnIsOverwrite(mem, a, data);
  }

  /** A word is complete at every fourth byte. */
  lemma WordEnds(w: nat, n: nat, i: nat)
    requires Words(w) && n < 4 && i == w + n
    ensures (EndsWord(i) <==> n == 3) && Words(w + 4) && Words(4)
  {}

  lemma NothingYet(mem: seq<bv8>, p: nat, start: nat, data: seq<bv8>)
    requires p + start + |data| <= |mem|
    ensures Writing(mem, mem, p, start, data, start, [])
  {
    BurnNothing(mem, p + start);
    assert data[..0] == [] && data[0..0] == [];
  }

  lemma Collected(data: seq<bv8>, done: nat, word: seq<bv8>, b: bv8)
    requires done + |word| < |data| && word == data[done..done + |word|] && b == data[done + |word|]
    ensures word + [b] == data[done..done + |word + [b]|]
  {}

  lemma WordBurned(mem: seq<bv8>, before: seq<bv8>, mem0: seq<bv8>, a: nat, data: seq<bv8>, done: nat, word: seq<bv8>)
    requires a + |data| <= |mem0| && done + 4 <= |data| && word == data[done..done + 4]
    requires Programmed(before, mem0, a, data[..done]) && Programmed(mem, before, a + done, word)
    ensures Programmed(mem, mem0, a, data[..done + 4])
    ensures data[done + 4..done + 4] == []
  {
    assert data[..done] + word == data[..done + 4];
    BurnTwice(mem0, a, data[..done], word);
  }

  /** What is read has not been programmed yet, so it is the next byte of the mix. */
  lemma NextByte(mem: seq<bv8>, mem0: seq<bv8>, p: nat, from: nat, start: nat, end: nat, offset: nat, buffer: seq<bv8>,
                 data: seq<bv8>, w: nat, word: seq<bv8>, i: nat, b: bv8)
    requires Ahead(p, from, start, end) && start <= end && from + end <= |mem0| == |mem|
             && data == Mixed(mem0, from, start, end, offset, buffer)
    requires Writing(mem, mem0, p, start, data, w, word)
    requires Words(w) && |word| < 4 && Words(end) && i == w + |word| < end
    requires b == if offset <= i < offset + |buffer| then buffer[i - offset] else mem[from + i]
    ensures start <= i && w + 4 <= start + |data| && b == data[i - start]
  {
    assert w + 4 <= end;
    hide Words;
    Unwritten(mem, mem0, p, start, data, w, word, from + i);
    MixedByte(mem0, from, start, end, offset, buffer, i - start);
  }

  /** Bytes not yet programmed are as they were. */
  lemma Unwritten(mem: seq<bv8>, mem0: seq<bv8>, p: nat, start: nat, data: seq<bv8>, w: nat, word: seq<bv8>, k: nat)
    requires Writing(mem, mem0, p, start, data, w, word) && k < |mem0| && !(p + start <= k < p + w)
    ensures |mem| == |mem0| && mem[k] == mem0[k]
  {}

  lemma WholeRange(mem: seq<bv8>, mem0: seq<bv8>, p: nat, from: nat, start: nat, end: nat, offset: nat,
                   buffer: seq<bv8>, w: nat, word: seq<bv8>)
    requires start <= end && p + end <= |mem0| && from + end <= |mem0|
    requires Words(w) && Words(end) && end == w + |word| && |word| < 4
    requires Writing(mem, mem0, p, start, Mixed(mem0, from, start, end, offset, buffer), w, word)
    ensures RangeBurned(mem, mem0, p, from, start, end, offset, buffer)
  {
    var data := Mixed(mem0, from, start, end, offset, buffer);
    assert data[..w - start] == data;
  }

  lemma PagesApart(p: nat, address: nat, scratch: nat, page: nat)
    requires page > 0 && p == RoundDown(address, page) && Offset(scratch, page) == 0
    ensures scratch == p || scratch + page <= p || p + page <= scratch
  {
    RoundedDown(address, page);
    if scratch < p {
      MultiplesApart(scratch, p, page);
    } else if p < scratch {
      MultiplesApart(p, scratch, page);
    }
  }

  /** In place: the bytes around the range are programmed over themselves. */
  lemma InPlace(mem': seq<bv8>, mem: seq<bv8>, p: nat, start: nat, end: nat, address: nat, buffer: seq<bv8>)
    requires p + start <= address && address + |buffer| <= p + end <= |mem| && start <= end && p <= address
    requires ClearsAll(mem, address, buffer)
    ensures RangeBurned(mem', mem, p, p, start, end, address - p, buffer) ==> mem' == Overwrite(mem, address, buffer)
  {
    var data := Mixed(mem, p, start, end, address - p, buffer);
    var o := Overwrite(mem, address, buffer);
    hide Clears, Mixed, Burn, Overwrite;
    forall j | 0 <= j < |data| ensures Clears(mem[p + start + j], data[j]) {
      InPlaceAt(mem, p, start, end, address, buffer, p + start + j);
    }
    BurnIsOverwrite(mem, p + start, data);
    forall i | 0 <= i < |mem| ensures Overwrite(mem, p + start, data)[i] == o[i] {
      InPlaceAt(mem, p, start, end, address, buffer, i);
    }
    assert Overwrite(mem, p + start, data) == o;
  }

  lemma InPlaceAt(mem: seq<bv8>, p: nat, start: nat, end: nat, address: nat, buffer: seq<bv8>, i: nat)
    requires p + start <= address && address + |buffer| <= p + end <= |mem| && start <= end && p <= address
    requires ClearsAll(mem, address, buffer) && i < |mem|
    ensures var data := Mixed(mem, p, start, end, address - p, buffer);
            && Overwrite(mem, p + start, data)[i] == Overwrite(mem, address, buffer)[i]
            && (p + start <= i < p + end ==> Clears(mem[i], data[i - p - start]))
  {
    hide Clears, Mixed, Overwrite;
    var data := Mixed(mem, p, start, end, address - p, buffer);
    OverwrittenAt(mem, p + start, data, i);
    OverwrittenAt(mem, address, buffer, i);
    ClearsItself(mem[i]);
    if p + start <= i < p + end {
      MixedByte(mem, p, start, end, address - p, buffer, i - p - start);
      if address <= i < address + |buffer| {
        assert Clears(mem[address + (i - address)], buffer[i - address]);
      }
    }
  }

  lemma ClearsItself(b: bv8)
    ensures Clears(b, b)
  {}

  /** By way of the scratch page: every byte of the blank page is programmed. */
  lemma Rebuilt(mem': seq<bv8>, mem: seq<bv8>, p: nat, scratch: nat, page: nat, address: nat, buffer: seq<bv8>)
    requires page > 0 && p + page <= |mem| && scratch + page <= |mem| && address + |buffer| <= |mem|
    requires p == RoundDown(address, page)
    requires scratch == p || scratch + page <= p || p + page <= scratch
    requires !ClearsAll(mem, address, buffer)
    ensures RangeBurned(mem', Preserved(mem, p, scratch, page), p, scratch, 0, page, address - p, buffer) ==>
              mem' == Written(mem, address, buffer, scratch, page)
  {
    var mem1 := Preserved(mem, p, scratch, page);
    var data := Mixed(mem1, scratch, 0, page, address - p, buffer);
    var r := Written(mem, address, buffer, scratch, page);
    hide ClearsAll, Written;
    BurnBlank(mem1, p, data);
    var o := Overwrite(mem1, p, data);
    forall i | 0 <= i < |mem| ensures o[i] == r[i] {
      RebuiltAt(mem, p, scratch, page, address, buffer, mem1, data, i);
    }
    assert o == r && Burn(mem1, p + 0, data) == r;
    hide Burn, Overwrite, Mixed, Preserved;
  }

  lemma RebuiltAt(mem: seq<bv8>, p: nat, scratch: nat, page: nat, address: nat, buffer: seq<bv8>, mem1: seq<bv8>,
                  data: seq<bv8>, i: nat)
    requires page > 0 && p + page <= |mem| && scratch + page <= |mem| && address + |buffer| <= |mem|
    requires p == RoundDown(address, page) <= address && i < |mem|
    requires scratch == p || scratch + page <= p || p + page <= scratch
    requires !ClearsAll(mem, address, buffer) && mem1 == Preserved(mem, p, scratch, page)
             && data == Mixed(mem1, scratch, 0, page, address - p, buffer)
    ensures Overwrite(mem1, p, data)[i] == Written(mem, address, buffer, scratch, page)[i]
  {
    hide *;
    WrittenAt(mem, address, buffer, scratch, page, i);
    OverwrittenAt(mem1, p, data, i);
    PlaceOnPage(address, |buffer|, page);
    if p <= i < p + page {
      RebuiltByte(mem, p, scratch, page, address - p, buffer, i - p);
    } else {
      PreservedAt(mem, p, scratch, page, i);
    }
  }

  lemma OverwrittenAt(mem: seq<bv8>, a: nat, data: seq<bv8>, i: nat)
    requires a + |data| <= |mem| && i < |mem|
    ensures Overwrite(mem, a, data)[i] == if a <= i < a + |data| then data[i - a] else mem[i]
  {}

  lemma RebuiltByte(mem: seq<bv8>, p: nat, scratch: nat, page: nat, offset: nat, buffer: seq<bv8>, k: nat)
    requires p + page <= |mem| && scratch + page <= |mem| && k < page
    requires scratch == p || scratch + page <= p || p + page <= scratch
    ensures Mixed(Preserved(mem, p, scratch, page), scratch, 0, page, offset, buffer)[k]
            == if offset <= k < offset + |buffer| then buffer[k - offset]
               else if scratch == p then BLANK else mem[p + k]
  {
    hide Mixed, Preserved;
    MixedByte(Preserved(mem, p, scratch, page), scratch, 0, page, offset, buffer, k);
    PreservedAt(mem, p, scratch, page, scratch + k);
  }

  lemma PlaceOnPage(address: nat, len: nat, page: nat)
    requires page > 0
    ensures var p, n := RoundDown(address, page), OnPage(address, len, page);
            p <= address < p + page && n == if address + len <= p + page then len else p + page - address
  {}

  lemma PreservedAt(mem: seq<bv8>, p: nat, scratch: nat, page: nat, i: nat)
    requires p + page <= |mem| && scratch + page <= |mem| && i < |mem|
    requires scratch == p || scratch + page <= p || p + page <= scratch
    ensures Preserved(mem, p, scratch, page)[i]
            == if p <= i < p + page then BLANK else if scratch <= i < scratch + page then mem[p + (i - scratch)]
               else mem[i]
  {
    var copy := Overwrite(mem, scratch, mem[p..p + page]);
    OverwrittenAt(mem, scratch, mem[p..p + page], i);
    OverwrittenAt(copy, p, Blanks(page), i);
    OverwrittenAt(mem, p, Blanks(page), i);
    hide Overwrite;
  }

  /** The memory after a write that needed an erase, byte by byte: the buffer as far as the
      page goes; the copy of the page in the scratch page, or blanks if that is the page
      itself; and nothing else has changed. */
  lemma WrittenAt(mem: seq<bv8>, address: nat, buffer: seq<bv8>, scratch: nat, page: nat, i: nat)
    requires page > 0 && address + |buffer| <= |mem| && scratch + page <= |mem|
             && RoundDown(address, page) + page <= |mem|
    requires !ClearsAll(mem, address, buffer) && i < |mem|
    ensures var p, n := RoundDown(address, page), OnPage(address, |buffer|, page);
            Written(mem, address, buffer, scratch, page)[i]
            == if address <= i < address + n then buffer[i - address]
               else if scratch <= i < scratch + page then (if scratch == p then BLANK else mem[p + (i - scratch)])
               else mem[i]
  {
    hide Offset, ClearsAll, OnPage, RoundDown;
  }
}
