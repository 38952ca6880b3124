/** NOR flash: programming can only clear bits, erasing sets every bit of a block. */
module Nor {

  const BLANK: bv8 := 0xFF

  /** A C string, and never equal to erased flash. */
  ghost predicate Storable(s: seq<bv8>)
  {
    forall i :: 0 <= i < |s| ==> s[i] != 0 && s[i] != BLANK
  }

  /** The source's test: programming n over o sets no bit that o has cleared. */
  predicate Clears(o: bv8, n: bv8) { (o ^ n) & n == 0 }

  lemma ClearsIsAnd(o: bv8, n: bv8)
    ensures Clears(o, n) <==> o & n == n
  {}

  ghost predicate ClearsAll(mem: seq<bv8>, a: nat, data: seq<bv8>)
    requires a + |data| <= |mem|
  {
    forall i :: 0 <= i < |data| ==> Clears(mem[a + i], data[i])
  }

  function And(o: bv8, n: bv8): bv8 { o & n }

  /** What programming leaves at a: each byte ANDed with the byte programmed over it. */
  function Burn(mem: seq<bv8>, a: nat, data: seq<bv8>): (r: seq<bv8>)
    requires a + |data| <= |mem|
    ensures |r| == |mem|
    ensures forall i {:trigger r[i]} :: 0 <= i < |mem| ==>
              r[i] == if a <= i < a + |data| then And(mem[i], data[i - a]) else mem[i]
  {
    seq(|mem|, i requires 0 <= i < |mem| => if a <= i < a + |data| then And(mem[i], data[i - a]) else mem[i])
  }

  function Overwrite(mem: seq<bv8>, a: nat, data: seq<bv8>): (r: seq<bv8>)
    requires a + |data| <= |mem|
    ensures |r| == |mem|
    ensures forall i {:trigger r[i]} :: 0 <= i < |mem| ==> r[i] == if a <= i < a + |data| then data[i - a] else mem[i]
  {
    mem[..a] + data + mem[a + |data|..]
  }

  function Blanks(n: nat): (r: seq<bv8>)
    ensures |r| == n && forall i {:trigger r[i]} :: 0 <= i < n ==> r[i] == BLANK
  {
    seq(n, i => BLANK)
  }

  function Erased(mem: seq<bv8>, a: nat, n: nat): (r: seq<bv8>)
    requires a + n <= |mem|
  {
    Overwrite(mem, a, Blanks(n))
  }

  lemma BurnNothing(mem: seq<bv8>, a: nat)
    requires a <= |mem|
    ensures Burn(mem, a, []) == mem
  {}

  lemma BurnTwice(mem: seq<bv8>, a: nat, x: seq<bv8>, y: seq<bv8>)
    requires a + |x| + |y| <= |mem|
    ensures Burn(Burn(mem, a, x), a + |x|, y) == Burn(mem, a, x + y)
  {}

  /** On cells whose bits are only cleared, programming is plain assignment; and only there. */
  lemma BurnIsOverwrite(mem: seq<bv8>, a: nat, data: seq<bv8>)
    requires a + |data| <= |mem|
    ensures ClearsAll(mem, a, data) <==> Burn(mem, a, data) == Overwrite(mem, a, data)
  {
    var b, o := Burn(mem, a, data), Overwrite(mem, a, data);
    forall i | 0 <= i < |data| ensures Clears(mem[a + i], data[i]) <==> b[a + i] == o[a + i] {
      ClearsIsAnd(mem[a + i], data[i]);
    }
    if ClearsAll(mem, a, data) {
      forall i | 0 <= i < |mem| ensures b[i] == o[i] {
        if a <= i < a + |data| {
          assert Clears(mem[a + (i - a)], data[i - a]);
        }
      }
    }
  }

  /** The bits of x are among the bits of y. */
  predicate Within(x: bv8, y: bv8) { x & y == x }

  /** img is mem after power failed while data was being programmed at a. */
  ghost predicate TornBurn(img: seq<bv8>, mem: seq<bv8>, a: nat, data: seq<bv8>)
    requires a + |data| <= |mem|
  {
    exists j :: 0 <= j <= |data| && img == Burn(mem, a, data[..j])
  }

  ghost predicate TornOverwrite(img: seq<bv8>, mem: seq<bv8>, a: nat, data: seq<bv8>)
    requires a + |data| <= |mem|
  {
    exists j :: 0 <= j <= |data| && img == Overwrite(mem, a, data[..j])
  }
}
