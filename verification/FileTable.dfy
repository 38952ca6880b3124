/** The file table of MicroBitFileSystem: block chains, and what each step does to them. */
module FileTable {
  import opened Nor

  const UNUSED: nat := 0xFFFF
  const EOF: nat := 0xEFFF
  const DELETED: nat := 0
  const BLOCK_SIZE: nat := 256
  const ENTRIES_PER_BLOCK: nat := 128
  const MAX_BLOCKS: nat := 0x1000

  /** Where a block is in use: in the chain of the file that starts at the given block. */
  datatype Owner = NoOne | At(file: nat, index: nat)

  /** The files as the table chains them: by first block, the blocks of each in order. */
  type Chains = map<nat, seq<nat>>

  predicate IsFree(v: nat) { v == DELETED || v == UNUSED }

  /** fileTableWrite needs no erase: every bit of n is set in o. */
  predicate EraseFree(o: nat, n: nat)
  {
    o < 0x1_0000 && n < 0x1_0000 && SetsNone(o as bv16, n as bv16)
  }

  predicate SetsNone(o: bv16, n: bv16) { !o & n == 0 }

  /** The life cycle of a table entry: unused, end of file, next block, deleted. */
  lemma LifeCycle(block: nat, value: nat)
    requires block < MAX_BLOCKS && value < 0x1_0000
    ensures EraseFree(UNUSED, value) && EraseFree(EOF, block) && EraseFree(value, DELETED) && EraseFree(value, value)
  {
    assert block as bv16 < 0x1000;
    NoHighBits(block as bv16);
    EofBits();
    UnusedBits();
    AllOrNothing(value as bv16);
  }

  lemma EofBits()
    ensures EOF as bv16 == 0xEFFF
  {
    WordValue(0xEFFF);
    WordOf(EOF, 0xEFFF);
  }

  lemma UnusedBits()
    ensures UNUSED as bv16 == 0xFFFF
  {
    WordValue(0xFFFF);
    WordOf(UNUSED, 0xFFFF);
  }

  lemma WordValue(w: bv16)
    ensures w == 0xEFFF ==> w as nat == EOF
    ensures w == 0xFFFF ==> w as nat == UNUSED
  {}

  lemma WordOf(v: nat, w: bv16)
    requires v == w as nat
    ensures v as bv16 == w
  {}

  lemma BelowOnes(value: nat)
    requires value < 0xFFFF
    ensures value as bv16 != 0xFFFF
  {}

  lemma NoHighBits(b: bv16)
    requires b < 0x1000
    ensures !0xEFFF & b == 0
  {}

  lemma AllOrNothing(v: bv16)
    ensures !0xFFFF & v == 0 && !v & 0 == 0 && !v & v == 0 && (!v & 0xFFFF == 0 <==> v == 0xFFFF)
  {
  }

  /** Setting an entry back to unused is what needs an erase, unless nothing changes. */
  lemma RecycleNeedsErase(value: nat)
    requires value < 0x1_0000
    ensures EraseFree(value, UNUSED) <==> value == UNUSED
  {
    UnusedBits();
    if value < 0xFFFF {
      BelowOnes(value);
    }
    AllOrNothing(value as bv16);
  }

  function LowByte(w: bv16): bv8 { (w & 0xFF) as bv8 }
  function HighByte(w: bv16): bv8 { (w >> 8) as bv8 }

  /** The test on words is the one flash_write makes on their bytes. */
  lemma EraseFreeBytes(o: bv16, n: bv16)
    ensures SetsNone(o, n) <==> Clears(LowByte(o), LowByte(n)) && Clears(HighByte(o), HighByte(n))
  {}

  /** The table of a file system of size blocks, of which the first hold the table itself. */
  ghost predicate TableOk(table: seq<nat>, tableSize: nat, chains: Chains, owner: seq<Owner>)
  {
    && 0 < tableSize < |table| <= MAX_BLOCKS && |owner| == |table|
    && |table| <= ENTRIES_PER_BLOCK * tableSize
    && (forall b :: 0 <= b < |table| ==> EntryOk(table, tableSize, chains, owner, b))
    && (forall f :: f in chains ==> ChainOk(table, tableSize, owner, f, chains[f]))
  }

  /** An entry is reserved, free, or part of exactly the chain its owner names. */
  ghost predicate EntryOk(table: seq<nat>, tableSize: nat, chains: Chains, owner: seq<Owner>, b: nat)
    requires b < |table| == |owner|
  {
    && (b < tableSize ==> table[b] == tableSize && owner[b] == NoOne)
    && (tableSize <= b ==> (owner[b] == NoOne <==> table[b] == UNUSED || table[b] == DELETED))
    && (owner[b].At? ==> var (f, i) := (owner[b].file, owner[b].index);
        f in chains && i < |chains[f]| && chains[f][i] == b)
  }

  /** A chain starts at its file's first block and is linked up to an end marker; no block of
      it is in another chain, or twice in this one. */
  ghost predicate ChainOk(table: seq<nat>, tableSize: nat, owner: seq<Owner>, f: nat, chain: seq<nat>)
    requires |owner| == |table|
  {
    && chain != [] && chain[0] == f
    && forall i :: 0 <= i < |chain| ==> LinkOk(table, tableSize, owner, f, chain, i)
  }

  ghost predicate LinkOk(table: seq<nat>, tableSize: nat, owner: seq<Owner>, f: nat, chain: seq<nat>, i: nat)
    requires |owner| == |table| && i < |chain|
  {
    tableSize <= chain[i] < |table| && owner[chain[i]] == At(f, i) && table[chain[i]] == After(chain, i)
  }

  /** What follows block i of a chain. */
  function After(chain: seq<nat>, i: nat): nat { if i + 1 < |chain| then chain[i + 1] else EOF }

  /** No two chains share a block, and no chain repeats one. */
  lemma ChainsDisjoint(table: seq<nat>, tableSize: nat, chains: Chains, owner: seq<Owner>, f: nat, i: nat, g: nat,
                       j: nat)
    requires TableOk(table, tableSize, chains, owner) && f in chains && g in chains && i < |chains[f]|
             && j < |chains[g]|
    requires chains[f][i] == chains[g][j]
    ensures f == g && i == j
  {
    assert LinkOk(table, tableSize, owner, f, chains[f], i);
    assert LinkOk(table, tableSize, owner, g, chains[g], j);
  }

  // ----- conservation

  datatype Use = Reserved | Chained | Free | Dead

  ghost function UseOf(table: seq<nat>, tableSize: nat, owner: seq<Owner>, b: nat): Use
    requires b < |table| == |owner|
  {
    if b < tableSize then Reserved else if owner[b].At? then Chained else if table[b] == UNUSED then Free else Dead
  }

  ghost function Count(table: seq<nat>, tableSize: nat, owner: seq<Owner>, use: Use, n: nat): (r: nat)
    requires n <= |table| == |owner|
  {
    if n == 0 then 0 else Count(table, tableSize, owner, use, n - 1) + if UseOf(table, tableSize, owner, n - 1)
        == use then 1 else 0
  }

  ghost function CountValue(table: seq<nat>, value: nat): nat
  {
    if table == [] then 0 else CountValue(table[..|table| - 1], value) + if table[|table| - 1] == value then 1 else 0
  }

  /** Every block is reserved, in a chain, unused or deleted, and in one of these ways only. */
  lemma {:induction false} Conservation(table: seq<nat>, tableSize: nat, chains: Chains, owner: seq<Owner>, n: nat)
    requires TableOk(table, tableSize, chains, owner) && n <= |table|
    ensures Count(table, tableSize, owner, Reserved, n) + Count(table, tableSize, owner, Chained, n)
            + CountValue(table[..n], UNUSED) + CountValue(table[..n], DELETED) == n
    ensures Count(table, tableSize, owner, Reserved, n) == if n < tableSize then n else tableSize
  {
    if n > 0 {
      Conservation(table, tableSize, chains, owner, n - 1);
      assert table[..n][..n - 1] == table[..n - 1];
      assert EntryOk(table, tableSize, chains, owner, n - 1);
      if owner[n - 1].At? {
        var f, i := owner[n - 1].file, owner[n - 1].index;
        assert ChainOk(table, tableSize, owner, f, chains[f]);
        assert LinkOk(table, tableSize, owner, f, chains[f], i);
        LinkValue(table, tableSize, chains, owner, f, i);
      }
    }
  }

  /** A chained entry is a block number or the end marker. */
  lemma LinkValue(table: seq<nat>, tableSize: nat, chains: Chains, owner: seq<Owner>, f: nat, i: nat)
    requires TableOk(table, tableSize, chains, owner) && f in chains && i < |chains[f]|
    ensures LinkOk(table, tableSize, owner, f, chains[f], i)
    ensures var v := table[chains[f][i]]; v == EOF || tableSize <= v < |table|
  {
    assert LinkOk(table, tableSize, owner, f, chains[f], i);
    if i + 1 < |chains[f]| {
      assert LinkOk(table, tableSize, owner, f, chains[f], i + 1);
    }
  }

  // ----- what the operations do to the table

  /** A fresh table: its own blocks reserved, and the root directory. */
  lemma Formatted(table: seq<nat>, tableSize: nat, chains: Chains, owner: seq<Owner>)
    requires 0 < tableSize < |table| <= MAX_BLOCKS && |owner| == |table| <= ENTRIES_PER_BLOCK * tableSize
    requires forall b :: 0 <= b < |table| ==>
               table[b] == if b < tableSize then tableSize else if b == tableSize then EOF else UNUSED
    requires forall b :: 0 <= b < |table| ==> owner[b] == if b == tableSize then At(tableSize, 0) else NoOne
    requires chains == map[tableSize := [tableSize]]
    ensures TableOk(table, tableSize, chains, owner)
  {}

  /** A free block becomes a file of one block. */
  lemma Started(table: seq<nat>, tableSize: nat, chains: Chains, owner: seq<Owner>, b: nat)
    requires TableOk(table, tableSize, chains, owner) && b < |table| && table[b] == UNUSED
    ensures b !in chains && TableOk(table[b := EOF], tableSize, chains[b := [b]], owner[b := At(b, 0)])
    ensures owner[b] == NoOne && tableSize <= b
  {
    FreeUnlinked(table, tableSize, chains, owner, b);
    var table', chains', owner' := table[b := EOF], chains[b := [b]], owner[b := At(b, 0)];
    forall k | 0 <= k < |table| ensures EntryOk(table', tableSize, chains', owner', k) {
      assert EntryOk(table, tableSize, chains, owner, k);
    }
    forall f | f in chains' ensures ChainOk(table', tableSize, owner', f, chains'[f]) {
      if f != b {
        ChainKept(table, table', tableSize, chains, owner, owner', f);
      }
    }
    hide EntryOk, ChainOk;
  }

  lemma HeadOfChain(table: seq<nat>, tableSize: nat, chains: Chains, owner: seq<Owner>, f: nat)
    requires TableOk(table, tableSize, chains, owner) && f in chains
    ensures f in chains[f]
  {
    assert ChainOk(table, tableSize, owner, f, chains[f]);
    assert chains[f][0] == f;
  }

  /** A free block is in no chain, and is no chain's name. */
  lemma FreeUnlinked(table: seq<nat>, tableSize: nat, chains: Chains, owner: seq<Owner>, b: nat)
    requires TableOk(table, tableSize, chains, owner) && b < |table| && (table[b] == UNUSED || table[b] == DELETED)
    ensures tableSize <= b && owner[b] == NoOne && b !in chains
    ensures forall f :: f in chains ==> b !in chains[f]
  {
    assert EntryOk(table, tableSize, chains, owner, b);
    forall f | f in chains ensures b !in chains[f] {
      assert ChainOk(table, tableSize, owner, f, chains[f]);
      forall i | 0 <= i < |chains[f]| ensures chains[f][i] != b {
        assert LinkOk(table, tableSize, owner, f, chains[f], i);
      }
    }
    if b in chains {
      HeadOfChain(table, tableSize, chains, owner, b);
      assert false;
    }
  }

  /** Changes outside a chain's blocks leave it alone. */
  lemma ChainKept(table: seq<nat>, table': seq<nat>, tableSize: nat, chains: Chains, owner: seq<Owner>,
                  owner': seq<Owner>, f: nat)
    requires |table'| == |owner'| == |table| == |owner| && f in chains && ChainOk(table, tableSize, owner, f, chains[f])
    requires forall k :: 0 <= k < |table| && owner[k].At? && owner[k].file == f ==>
               table'[k] == table[k] && owner'[k] == owner[k]
    ensures ChainOk(table', tableSize, owner', f, chains[f])
  {
    forall i | 0 <= i < |chains[f]| ensures LinkOk(table', tableSize, owner', f, chains[f], i) {
      assert LinkOk(table, tableSize, owner, f, chains[f], i);
    }
  }

  /** A free block is linked behind the last block of a file. */
  lemma Extended(table: seq<nat>, tableSize: nat, chains: Chains, owner: seq<Owner>, f: nat, b: nat)
    requires TableOk(table, tableSize, chains, owner) && f in chains && b < |table| && table[b] == UNUSED
    ensures var chain := chains[f]; chain != [] && var last := chain[|chain| - 1];
            && last < |table| && last != b && table[last] == EOF && owner[b] == NoOne
            && TableOk(table[b := EOF][last := b], tableSize, chains[f := chain + [b]], owner[b := At(f, |chain|)])
  {
    FreeUnlinked(table, tableSize, chains, owner, b);
    var chain := chains[f];
    assert ChainOk(table, tableSize, owner, f, chain);
    var last := chain[|chain| - 1];
    assert LinkOk(table, tableSize, owner, f, chain, |chain| - 1);
    assert last in chain;
    var table', chains', owner' := table[b := EOF][last := b], chains[f := chain + [b]], owner[b := At(f, |chain|)];
    ExtendedChain(table, tableSize, chains, owner, f, b);
    forall g | g in chains' ensures ChainOk(table', tableSize, owner', g, chains'[g]) {
      if g != f {
        assert ChainOk(table, tableSize, owner, g, chains[g]);
        assert owner[last].file == f;
        ChainKept(table, table', tableSize, chains, owner, owner', g);
      }
    }
    hide ChainOk;
    forall k | 0 <= k < |table| ensures EntryOk(table', tableSize, chains', owner', k) {
      assert EntryOk(table, tableSize, chains, owner, k);
    }
  }

  lemma ExtendedChain(table: seq<nat>, tableSize: nat, chains: Chains, owner: seq<Owner>, f: nat, b: nat)
    requires TableOk(table, tableSize, chains, owner) && f in chains && b < |table| && b !in chains[f] && tableSize <= b
    ensures var chain := chains[f]; chain != [] && var last := chain[|chain| - 1];
            last < |table| && ChainOk(table[b := EOF][last := b], tableSize, owner[b := At(f, |chain|)], f, chain + [b])
  {
    var chain := chains[f];
    assert ChainOk(table, tableSize, owner, f, chain);
    var n := |chain| - 1;
    var last := chain[n];
    assert LinkOk(table, tableSize, owner, f, chain, n);
    var table', owner' := table[b := EOF][last := b], owner[b := At(f, |chain|)];
    forall i | 0 <= i < |chain + [b]| ensures LinkOk(table', tableSize, owner', f, chain + [b], i) {
      if i < |chain| {
        assert LinkOk(table, tableSize, owner, f, chain, i);
        assert chain[i] in chain;
        if i < n {
          assert owner[last] == At(f, n);
        }
      }
    }
  }

  /** The chain of f is deleted as far as its first n blocks. */
  ghost predicate DeletedTo(table': seq<nat>, table: seq<nat>, chain: seq<nat>, n: nat)
  {
    && |table'| == |table| && n <= |chain|
    && (forall b :: 0 <= b < |table| && b !in chain[..n] ==> table'[b] == table[b])
    && (forall i :: 0 <= i < n ==> chain[i] < |table| && table'[chain[i]] == DELETED)
  }

  /** Deleting a whole chain frees exactly its blocks. */
  lemma Removed(table: seq<nat>, tableSize: nat, chains: Chains, owner: seq<Owner>, f: nat, table': seq<nat>,
                owner': seq<Owner>)
    requires TableOk(table, tableSize, chains, owner) && f in chains && DeletedTo(table', table, chains[f], |chains[f]|)
    requires |owner'| == |owner| && forall b :: 0 <= b < |owner| ==>
               owner'[b] == if owner[b].At? && owner[b].file == f then NoOne else owner[b]
    ensures TableOk(table', tableSize, chains - {f}, owner')
    ensures forall b :: 0 <= b < |table| ==>
              table'[b] == if owner[b].At? && owner[b].file == f then DELETED else table[b]
  {
    var chain := chains[f];
    assert chain[..|chain|] == chain;
    assert ChainOk(table, tableSize, owner, f, chain);
    forall b | 0 <= b < |table|
      ensures table'[b] == if owner[b].At? && owner[b].file == f then DELETED else table[b]
      ensures EntryOk(table', tableSize, chains - {f}, owner', b)
    {
      assert EntryOk(table, tableSize, chains, owner, b);
      if b in chain {
        var i :| 0 <= i < |chain| && chain[i] == b;
        assert LinkOk(table, tableSize, owner, f, chain, i);
      }
    }
    forall g | g in chains - {f} ensures ChainOk(table', tableSize, owner', g, chains[g]) {
      assert ChainOk(table, tableSize, owner, g, chains[g]);
      ChainKept(table, table', tableSize, chains, owner, owner', g);
    }
    hide ChainOk, EntryOk;
  }

  /** Some deleted entries have become unused, and nothing else has changed. */
  ghost predicate Upcycled(table': seq<nat>, table: seq<nat>)
  {
    |table'| == |table| && forall b :: 0 <= b < |table| ==>
          table'[b] == table[b] || (table[b] == DELETED && table'[b] == UNUSED)
  }

  lemma UpcycledOk(table: seq<nat>, table': seq<nat>, tableSize: nat, chains: Chains, owner: seq<Owner>)
    requires TableOk(table, tableSize, chains, owner) && Upcycled(table', table)
    ensures TableOk(table', tableSize, chains, owner)
  {
    forall b | 0 <= b < |table| ensures EntryOk(table', tableSize, chains, owner, b) {
      assert EntryOk(table, tableSize, chains, owner, b);
    }
    forall f | f in chains ensures ChainOk(table', tableSize, owner, f, chains[f]) {
      assert ChainOk(table, tableSize, owner, f, chains[f]);
      forall k | 0 <= k < |table| && owner[k].At? && owner[k].file == f ensures table'[k] == table[k] {
        assert EntryOk(table, tableSize, chains, owner, k);
      }
      ChainKept(table, table', tableSize, chains, owner, owner, f);
    }
    hide ChainOk, EntryOk;
  }

  /** The scan never looks at the block allocated last: with that one deleted, and all others
      in use, it finds nothing. */
  lemma LastBlockUnseen()
    ensures var words, last := [1, EOF, DELETED], 2;
            && TableOk(words, 1, map[1 := [1]], [NoOne, At(1, 0), NoOne])
            && words[last] == DELETED && (forall b :: 0 <= b < |words| && b != last ==>
                                          words[b] != UNUSED && words[b] != DELETED)
            && RoundRobin(words, |words|, last) == WORDS
  {
    var words, owner: seq<Owner> := [1, EOF, DELETED], [NoOne, At(1, 0), NoOne];
    assert LinkOk(words, 1, owner, 1, [1], 0);
    assert FirstUnused(words, 2, 2) == 2 && FirstUnused(words, 1, 2) == 2;
  }

  // ----- the scan for a free block

  /** The first unused entry at or after lo and before hi, or hi. */
  function FirstUnused(words: seq<nat>, lo: nat, hi: nat): (r: nat)
    requires lo <= hi <= |words|
    ensures lo <= r <= hi && (r < hi ==> words[r] == UNUSED)
    ensures forall i :: lo <= i < r ==> words[i] != UNUSED
    decreases hi - lo
  {
    if lo == hi || words[lo] == UNUSED then lo else FirstUnused(words, lo + 1, hi)
  }

  const WORDS: nat := 0x1_0000

  /** Round robin over the table, as the comment on getFreeBlock has it; WORDS for none. */
  function RoundRobin(words: seq<nat>, size: nat, last: nat): nat
    requires last < size <= |words|
  {
    var b := FirstUnused(words, last + 1, size);
    if b < size then b
    else
      var c := FirstUnused(words, 0, last);
      if c < last then c else WORDS
  }

  /** What the loop does without the modulo on its increment: it runs on behind the table,
      up to the wrap-around of its 16-bit counter; WORDS for none. */
  function RunsOn(words: seq<nat>, size: nat, last: nat): nat
    requires last < size <= |words| == WORDS
  {
    var start := if last + 1 == size then 0 else last + 1;
    if start == 0 then var c := FirstUnused(words, 0, last); if c < last then c else WORDS
    else
      var b := FirstUnused(words, start, WORDS);
      if b < WORDS then b
      else
        var c := FirstUnused(words, 0, last);
        if c < last then c else WORDS
  }

  /** The two scans agree exactly if there is an unused entry between the last block and the
      end of the table, or nothing behind the table looks like one, or the scan starts over. */
  lemma RunsOnAgrees(words: seq<nat>, size: nat, last: nat)
    requires last < size < |words| == WORDS
    ensures RunsOn(words, size, last) == RoundRobin(words, size, last) <==>
            last + 1 == size || (exists b :: last < b < size && words[b] == UNUSED) || forall b :: size <= b < WORDS ==>
                  words[b] != UNUSED
  {
    if last + 1 < size {
      var b, c := FirstUnused(words, last + 1, size), FirstUnused(words, last + 1, WORDS);
    }
  }

  /** A free block that the scan without the modulo passes by: block 2 is the only unused one
      and lies before the last block allocated, and a word behind the table looks unused. */
  lemma RunsPast(words: seq<nat>)
    requires |words| == WORDS && words[..5] == [1, EOF, UNUSED, EOF, EOF] && words[5] == UNUSED
    ensures RoundRobin(words, 5, 3) == 2 && RunsOn(words, 5, 3) == 5
  {
    assert words[0] == words[..5][0] && words[1] == words[..5][1] && words[2] == words[..5][2]
        && words[4] == words[..5][4];
    assert FirstUnused(words, 4, 5) == 5 && FirstUnused(words, 2, 3) == 2 && FirstUnused(words, 1, 3) == 2;
    assert FirstUnused(words, 4, WORDS) == FirstUnused(words, 5, WORDS) == 5;
  }
}
