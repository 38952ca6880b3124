/** Facts about rounding to a block or page size that is only known at run time. */
module Arith {

  function Min(a: int, b: int): int { if a < b then a else b }
  function Max(a: int, b: int): int { if a < b then b else a }

  /** Whole 32-bit words. */
  predicate Words(x: nat) { x % 4 == 0 }

  /** x % d, by repeated subtraction: the proofs then need no nonlinear arithmetic. */
  function Offset(x: nat, d: nat): (r: nat)
    requires d > 0
    ensures r < d && r <= x
    ensures x < d ==> r == x
  {
    if x < d then x else Offset(x - d, d)
  }

  /** The start of the size-d unit that holds x: (x / d) * d in the source. */
  function RoundDown(x: nat, d: nat): nat
    requires d > 0
  {
    x - Offset(x, d)
  }

  lemma {:induction false} OffsetIsMod(x: nat, d: nat)
    requires d > 0
    ensures Offset(x, d) == x % d && RoundDown(x, d) == (x / d) * d
  {
    if x >= d {
      OffsetIsMod(x - d, d);
      var q, r := (x - d) / d, (x - d) % d;
      assert x == (q + 1) * d + r;
      QuotientUnique(x, d, q + 1, r);
    }
  }

  lemma QuotientUnique(x: nat, d: nat, q: nat, r: nat)
    requires d > 0 && r < d && x == q * d + r
    ensures x % d == r && x / d == q
  {
    var q', r' := x / d, x % d;
    if q' < q {
      MulAhead(q', q, d);
    } else if q < q' {
      MulAhead(q, q', d);
    }
  }

  lemma MulAhead(a: nat, b: nat, d: nat)
    requires a < b
    ensures a * d + d <= b * d
  {
    assert b * d == a * d + d + (b - a - 1) * d;
  }

  lemma {:induction false} OffsetOfProduct(k: nat, d: nat)
    requires d > 0
    ensures Offset(k * d, d) == 0
  {
    if k > 0 {
      OffsetOfProduct(k - 1, d);
      assert k * d == (k - 1) * d + d;
      assert (k - 1) * d >= 0;
    }
  }

  /** A step that stays inside a unit, or lands exactly on its end. */
  lemma {:induction false} OffsetStep(x: nat, w: nat, d: nat)
    requires d > 0
    ensures Offset(x, d) + w < d ==> Offset(x + w, d) == Offset(x, d) + w
    ensures Offset(x, d) + w == d ==> Offset(x + w, d) == 0
  {
    if x >= d {
      OffsetStep(x - d, w, d);
    }
  }

  lemma RoundedDown(x: nat, d: nat)
    requires d > 0
    ensures Offset(RoundDown(x, d), d) == 0
  {
    if x >= d {
      RoundedDown(x - d, d);
    }
  }

  /** Distinct multiples of d are at least d apart. */
  lemma {:induction false} MultiplesApart(a: nat, b: nat, d: nat)
    requires d > 0 && Offset(a, d) == 0 && Offset(b, d) == 0 && a < b
    ensures a + d <= b
  {
    if a >= d {
      MultiplesApart(a - d, b - d, d);
    }
  }

  /** The unit that holds x ends at or before any multiple of d above x. */
  lemma UnitFits(x: nat, end: nat, d: nat)
    requires d > 0 && x < end && Offset(end, d) == 0
    ensures RoundDown(x, d) + d <= end
  {
    RoundedDown(x, d);
    MultiplesApart(RoundDown(x, d), end, d);
  }

  /** A multiple of d that is at most x is at most the start of x's unit. */
  lemma UnitAbove(x: nat, lo: nat, d: nat)
    requires d > 0 && lo <= x && Offset(lo, d) == 0
    ensures lo <= RoundDown(x, d)
  {
    RoundedDown(x, d);
    if RoundDown(x, d) < lo {
      MultiplesApart(RoundDown(x, d), lo, d);
    }
  }

  lemma {:induction false} MultiplesSum(a: nat, b: nat, d: nat)
    requires d > 0 && Offset(a, d) == 0 && Offset(b, d) == 0
    ensures Offset(a + b, d) == 0
  {
    if a >= d {
      MultiplesSum(a - d, b, d);
    }
  }

  /** Divisibility is transitive. */
  lemma {:induction false} MultipleOfMultiple(a: nat, b: nat, d: nat)
    requires b > 0 && d > 0 && Offset(a, b) == 0 && Offset(b, d) == 0
    ensures Offset(a, d) == 0
  {
    if a >= b {
      MultipleOfMultiple(a - b, b, d);
      MultiplesSum(a - b, b, d);
    }
  }

  lemma {:induction false} MultipleOfWords(a: nat, b: nat)
    requires b > 0 && Offset(a, b) == 0 && Words(b)
    ensures Words(a)
  {
    if a >= b {
      MultipleOfWords(a - b, b);
    }
  }

  lemma {:induction false} WordDifference(a: nat, b: nat)
    requires Words(a) && Words(b) && b <= a
    ensures Words(a - b) && (a - b) / 4 * 4 == a - b
  {}

  lemma {:induction false} WordSum(a: nat, b: nat)
    requires Words(a) && Words(b)
    ensures Words(a + b)
  {}
}
