/** MicroBitCompassCalibrator: the hill climb that looks for the centre of the samples. */
module Compass {

  const CALIBRATION_INCREMENT: int := 200

  datatype Sample3D = Sample3D(x: int, y: int, z: int)

  const ORIGIN: Sample3D := Sample3D(0, 0, 0)

  function DSquared(a: Sample3D, b: Sample3D): (r: int)
    ensures r >= 0
  {
    SquareNonNegative(a.x - b.x);
    SquareNonNegative(a.y - b.y);
    SquareNonNegative(a.z - b.z);
    (a.x - b.x) * (a.x - b.x) + (a.y - b.y) * (a.y - b.y) + (a.z - b.z) * (a.z - b.z)
  }

  lemma SquareNonNegative(a: int)
    ensures a * a >= 0
  {}

  /** The squared distance, by its coordinates; it is symmetric, and zero for the same point only. */
  lemma DistanceIs(a: Sample3D, b: Sample3D)
    ensures var x, y, z := a.x - b.x, a.y - b.y, a.z - b.z; DSquared(a, b) == x * x + y * y + z * z
    ensures DSquared(a, b) == DSquared(b, a)
    ensures DSquared(a, b) == 0 <==> a == b
  {
    var x, y, z := a.x - b.x, a.y - b.y, a.z - b.z;
    SquareNonNegative(x);
    SquareNonNegative(y);
    SquareNonNegative(z);
    assert x != 0 ==> x * x > 0;
    assert y != 0 ==> y * y > 0;
    assert z != 0 ==> z * z > 0;
    assert x * x == (b.x - a.x) * (b.x - a.x) && y * y == (b.y - a.y) * (b.y - a.y)
        && z * z == (b.z - a.z) * (b.z - a.z);
  }

  /** The distance of the furthest sample. */
  function Furthest(c: Sample3D, data: seq<Sample3D>): (r: int)
    requires data != []
    ensures exists i :: 0 <= i < |data| && DSquared(c, data[i]) == r
    ensures forall i :: 0 <= i < |data| ==> DSquared(c, data[i]) <= r
  {
    var n := |data| - 1;
    var d := DSquared(c, data[n]);
    if n == 0 then d
    else
      var r := Furthest(c, data[..n]);
      if d > r then d else r
  }

  function Closest(c: Sample3D, data: seq<Sample3D>): (r: int)
    requires data != []
    ensures exists i :: 0 <= i < |data| && DSquared(c, data[i]) == r
    ensures forall i :: 0 <= i < |data| ==> r <= DSquared(c, data[i])
  {
    var n := |data| - 1;
    var d := DSquared(c, data[n]);
    if n == 0 then d
    else
      var r := Closest(c, data[..n]);
      if d < r then d else r
  }

  /** How far the samples are from lying on a sphere around c. */
  function Score(c: Sample3D, data: seq<Sample3D>): (r: int)
    requires data != []
    ensures r >= 0
  {
    Furthest(c, data) - Closest(c, data)
  }

  /** The score is zero exactly if all samples are equally far from c. */
  lemma ScoreZero(c: Sample3D, data: seq<Sample3D>)
    requires data != []
    ensures Score(c, data) == 0 <==> forall i, j :: 0 <= i < |data| && 0 <= j < |data| ==>
              DSquared(c, data[i]) == DSquared(c, data[j])
  {
    hide DSquared;
  }

  /** The greatest difference between the distances of two samples. */
  lemma ScoreIs(c: Sample3D, data: seq<Sample3D>)
    requires data != []
    ensures exists i, j :: 0 <= i < |data| && 0 <= j < |data|
                           && Score(c, data) == DSquared(c, data[i]) - DSquared(c, data[j])
    ensures forall i, j :: 0 <= i < |data| && 0 <= j < |data| ==>
              DSquared(c, data[i]) - DSquared(c, data[j]) <= Score(c, data)
  {
    hide DSquared;
    var i :| 0 <= i < |data| && DSquared(c, data[i]) == Furthest(c, data);
    var j :| 0 <= j < |data| && DSquared(c, data[j]) == Closest(c, data);
    assert Score(c, data) == DSquared(c, data[i]) - DSquared(c, data[j]);
  }

  method MeasureScore(c: Sample3D, data: seq<Sample3D>) returns (score: int)
    requires data != []
    ensures score == Score(c, data)
    ensures exists i, j :: 0 <= i < |data| && 0 <= j < |data| && score == DSquared(c, data[i]) - DSquared(c, data[j])
    ensures forall i, j :: 0 <= i < |data| && 0 <= j < |data| ==> DSquared(c, data[i]) - DSquared(c, data[j]) <= score
  {
    hide DSquared, Closest, Furthest;
    var minD, maxD := DSquared(c, data[0]), DSquared(c, data[0]);
    var i := 1;
    FirstSample(c, data);
    while i < |data|
      invariant 1 <= i <= |data| && minD == Closest(c, data[..i]) && maxD == Furthest(c, data[..i])
    {
      NextSample(c, data, i);
      var d := DSquared(c, data[i]);
      if d < minD {
        minD := d;
      }
      if d > maxD {
        maxD := d;
      }
      i := i + 1;
    }
    assert data[..i] == data;
    ScoreIs(c, data);
    return maxD - minD;
  }

  lemma FirstSample(c: Sample3D, data: seq<Sample3D>)
    requires data != []
    ensures Closest(c, data[..1]) == Furthest(c, data[..1]) == DSquared(c, data[0])
  {
    hide DSquared;
  }

  lemma NextSample(c: Sample3D, data: seq<Sample3D>, i: nat)
    requires 0 < i < |data|
    ensures var d := DSquared(c, data[i]);
            && Closest(c, data[..i + 1]) == (if d < Closest(c, data[..i]) then d else Closest(c, data[..i]))
            && Furthest(c, data[..i + 1]) == (if d > Furthest(c, data[..i]) then d else Furthest(c, data[..i]))
  {
    hide DSquared;
    assert data[..i + 1][..i] == data[..i] && data[..i + 1][i] == data[i];
  }

  function Shift(c: Sample3D, x: int, y: int, z: int): Sample3D { Sample3D(c.x + x, c.y + y, c.z + z) }

  predicate Step(d: int) { d == -CALIBRATION_INCREMENT || d == 0 || d == CALIBRATION_INCREMENT }

  lemma StepIs(d: int)
    ensures Step(d) <==> d == -200 || d == 0 || d == 200
  {}

  /** None of the 27 points around c, and c among them, scores less. */
  ghost predicate NoneBetter(c: Sample3D, score: int, data: seq<Sample3D>)
    requires data != []
  {
    forall x, y, z :: Step(x) && Step(y) && Step(z) ==> score <= Score(Shift(c, x, y, z), data)
  }

  ghost predicate LocalOptimum(c: Sample3D, data: seq<Sample3D>)
    requires data != []
  {
    NoneBetter(c, Score(c, data), data)
  }

  ghost predicate Near(c: Sample3D, t: Sample3D)
  {
    exists x, y, z :: Step(x) && Step(y) && Step(z) && t == Shift(c, x, y, z)
  }

  /** The best point so far, if it changed, is a point around c with the lower score. */
  ghost predicate Improved(c: Sample3D, score: int, best: Sample3D, score': int, best': Sample3D, data: seq<Sample3D>)
    requires data != []
  {
    (score' == score && best' == best) || (score' < score && score' == Score(best', data) && Near(c, best'))
  }

  method ClimbZ(c: Sample3D, x: int, y: int, score: int, best: Sample3D, data: seq<Sample3D>) returns (score': int,
      best': Sample3D)
    requires data != [] && Step(x) && Step(y)
    ensures Improved(c, score, best, score', best', data)
    ensures forall z :: Step(z) ==> score' <= Score(Shift(c, x, y, z), data)
  {
    score', best' := score, best;
    hide Score;
    var z := -CALIBRATION_INCREMENT;
    while z <= CALIBRATION_INCREMENT
      invariant Step(z) || z == 2 * CALIBRATION_INCREMENT
      invariant Improved(c, score, best, score', best', data)
      invariant forall d :: Step(d) && d < z ==> score' <= Score(Shift(c, x, y, d), data)
    {
      var t := Shift(c, x, y, z);
      var s := MeasureScore(t, data);
      if s < score' {
        score', best' := s, t;
      }
      z := z + CALIBRATION_INCREMENT;
    }
  }

  method ClimbY(c: Sample3D, x: int, score: int, best: Sample3D, data: seq<Sample3D>) returns (score': int,
      best': Sample3D)
    requires data != [] && Step(x)
    ensures Improved(c, score, best, score', best', data)
    ensures forall y, z :: Step(y) && Step(z) ==> score' <= Score(Shift(c, x, y, z), data)
  {
    score', best' := score, best;
    hide Score;
    var y := -CALIBRATION_INCREMENT;
    while y <= CALIBRATION_INCREMENT
      invariant Step(y) || y == 2 * CALIBRATION_INCREMENT
      invariant Improved(c, score, best, score', best', data)
      invariant forall d, z :: Step(d) && Step(z) && d < y ==> score' <= Score(Shift(c, x, d, z), data)
    {
      score', best' := ClimbZ(c, x, y, score', best', data);
      y := y + CALIBRATION_INCREMENT;
    }
  }

  /** One round of the climb: the best of the points around c, if it is better. */
  method ClimbRound(c: Sample3D, score: int, best: Sample3D, data: seq<Sample3D>) returns (score': int, best': Sample3D)
    requires data != []
    ensures Improved(c, score, best, score', best', data) && NoneBetter(c, score', data)
  {
    score', best' := score, best;
    hide Score;
    var x := -CALIBRATION_INCREMENT;
    while x <= CALIBRATION_INCREMENT
      invariant Step(x) || x == 2 * CALIBRATION_INCREMENT
      invariant Improved(c, score, best, score', best', data)
      invariant forall d, y, z :: Step(d) && Step(y) && Step(z) && d < x ==> score' <= Score(Shift(c, d, y, z), data)
    {
      score', best' := ClimbY(c, x, score', best', data);
      x := x + CALIBRATION_INCREMENT;
    }
  }

  /** Integer division as C has it. */
  function Truncated(a: int, n: int): int
    requires n > 0
  {
    if a >= 0 then a / n else -(-a / n)
  }

  /** The quotient has the sign of a, and is the greatest whose multiple does not exceed it. */
  lemma TruncatedIs(a: int, n: int)
    requires n > 0
    ensures CutOff(Truncated(a, n), a, n)
  {
    hide CutOff;
    if a >= 0 {
      CutAbove(a, n);
    } else {
      CutBelow(a, n, -a / n);
    }
  }

  lemma CutAbove(a: nat, n: nat)
    requires n > 0
    ensures CutOff(a / n, a, n)
  {
    Quotient(a, n);
  }

  lemma CutBelow(a: int, n: int, q: int)
    requires a < 0 < n && q == -a / n
    ensures CutOff(-q, a, n)
  {
    Quotient(-a, n);
    Negated(n, q);
    var x, y := n * q, n * (q + 1);
    assert n * -q == -x && n * (-q - 1) == -y;
  }

  lemma Quotient(a: nat, n: nat)
    requires n > 0
    ensures n * (a / n) <= a < n * (a / n + 1)
  {
    assert a == n * (a / n) + a % n;
  }

  lemma Negated(n: int, q: int)
    ensures n * -q == -(n * q) && n * (-q - 1) == -(n * (q + 1))
  {}

  /** Coordinates add up, sample by sample. */
  lemma {:induction false} SumConcat(a: seq<Sample3D>, b: seq<Sample3D>)
    ensures var s, t := Sum(a), Sum(b); Sum(a + b) == Sample3D(s.x + t.x, s.y + t.y, s.z + t.z)
    ensures |a| == 1 ==> Sum(a) == a[0]
  {
    if b == [] {
      assert a + b == a;
    } else {
      var n := |b| - 1;
      SumConcat(a, b[..n]);
      assert (a + b)[..|a + b| - 1] == a + b[..n];
    }
    if |a| == 1 {
      assert a[..0] == [];
    }
  }

  function Sum(data: seq<Sample3D>): Sample3D
  {
    if data == [] then ORIGIN
    else
      var n := |data| - 1;
      Shift(Sum(data[..n]), data[n].x, data[n].y, data[n].z)
  }

  function CentreOfMass(data: seq<Sample3D>): Sample3D
    requires data != []
  {
    var s := Sum(data);
    Sample3D(Truncated(s.x, |data|), Truncated(s.y, |data|), Truncated(s.z, |data|))
  }

  /** Each coordinate is the sum of the samples', divided by their number and cut off. */
  lemma CentreIs(data: seq<Sample3D>)
    requires data != []
    ensures var c, s := CentreOfMass(data), Sum(data);
            CutOff(c.x, s.x, |data|) && CutOff(c.y, s.y, |data|) && CutOff(c.z, s.z, |data|)
  {
    var s := Sum(data);
    hide Truncated;
    TruncatedIs(s.x, |data|);
    TruncatedIs(s.y, |data|);
    TruncatedIs(s.z, |data|);
  }

  ghost predicate CutOff(t: int, a: int, n: int)
  {
    if a >= 0 then 0 <= t && n * t <= a < n * (t + 1) else t <= 0 && n * (t - 1) < a <= n * t
  }

  /** Neither around the centre of mass nor around the origin is there a point that scores
      less than the centre of mass. */
  ghost predicate Stuck(data: seq<Sample3D>)
    requires data != []
  {
    var m := CentreOfMass(data);
    NoneBetter(m, Score(m, data), data) && NoneBetter(ORIGIN, Score(m, data), data)
  }

  /** The climb ends, in a local optimum that is better than the centre of mass where it
      started; except that a climb that is stuck ends at the origin, however bad that is:
      best is only set by an improvement, and is the origin before. */
  method ApproximateCentre(data: seq<Sample3D>) returns (c: Sample3D)
    requires data != []
    ensures if Stuck(data) then c == ORIGIN
            else LocalOptimum(c, data) && Score(c, data) < Score(CentreOfMass(data), data)
  {
    var centre, best := ORIGIN, ORIGIN;
    var i := 0;
    while i < |data|
      invariant 0 <= i <= |data| && centre == Sum(data[..i])
    {
      assert data[..i + 1][..i] == data[..i];
      centre := Shift(centre, data[i].x, data[i].y, data[i].z);
      i := i + 1;
    }
    assert data[..i] == data;
    centre := Sample3D(Truncated(centre.x, |data|), Truncated(centre.y, |data|), Truncated(centre.z, |data|));
    c := centre;
    var score := MeasureScore(c, data);
    hide Score, NoneBetter, Truncated;
    ghost var found := false;
    while true
      invariant centre == CentreOfMass(data) && 0 <= score
      invariant if found then score == Score(c, data) && best == c && score < Score(centre, data) && !Stuck(data)
                else && score == Score(centre, data) && best == ORIGIN
                     && (c == centre || (c == ORIGIN && NoneBetter(centre, score, data)))
      decreases score, best != c
    {
      ghost var before := score;
      score, best := ClimbRound(c, score, best, data);
      if score < before {
        ScoreBound(best, data);
        if !found {
          NotStuck(c, best, data);
        }
        found := true;
      }
      if best.x == c.x && best.y == c.y && best.z == c.z {
        break;
      }
      c := best;
    }
  }

  lemma NotStuck(c: Sample3D, t: Sample3D, data: seq<Sample3D>)
    requires data != [] && Near(c, t) && (c == CentreOfMass(data) || c == ORIGIN)
             && Score(t, data) < Score(CentreOfMass(data), data)
    ensures !Stuck(data)
  {
    var x, y, z :| Step(x) && Step(y) && Step(z) && t == Shift(c, x, y, z);
    hide Score, Truncated, Step;
  }

  lemma ScoreBound(c: Sample3D, data: seq<Sample3D>)
    requires data != []
    ensures Score(c, data) >= 0
  {}

  /** A start that could not be better is always given up. */
  lemma PerfectStart(data: seq<Sample3D>)
    requires data != [] && Score(CentreOfMass(data), data) == 0
    ensures Stuck(data)
  {
    hide Score, CentreOfMass;
  }

  /** For these samples, for instance: the perfect centre is (1100, 0, 0), and the origin is
      far off. */
  lemma PerfectCentreLost()
    ensures var data := [Sample3D(1000, 0, 0), Sample3D(1200, 0, 0)];
            CentreOfMass(data) == Sample3D(1100, 0, 0) && Score(CentreOfMass(data), data) == 0 && Stuck(data)
                && Score(ORIGIN, data) == 440000
  {
    var a, b, c := Sample3D(1000, 0, 0), Sample3D(1200, 0, 0), Sample3D(1100, 0, 0);
    assert DSquared(c, a) == 10000 && DSquared(c, b) == 10000 && DSquared(ORIGIN, a) == 1000000
        && DSquared(ORIGIN, b) == 1440000;
    hide DSquared;
    TwoSamples(a, b, c);
    TwoSamples(a, b, ORIGIN);
    MassOfTwo(a, b);
    hide *;
    PerfectStart([a, b]);
  }

  lemma MassOfTwo(a: Sample3D, b: Sample3D)
    requires a.x >= 0 && a.y == a.z == b.y == b.z == 0 && b.x >= 0
    ensures CentreOfMass([a, b]) == Sample3D((a.x + b.x) / 2, 0, 0)
  {
    assert [a, b][..1] == [a] && [a][..0] == [];
    assert Sum([a]) == a;
  }

  lemma TwoSamples(a: Sample3D, b: Sample3D, c: Sample3D)
    ensures Score(c, [a, b]) == if DSquared(c, a) >= DSquared(c, b) then DSquared(c, a) - DSquared(c, b)
            else DSquared(c, b) - DSquared(c, a)
  {
    hide DSquared;
    assert [a, b][..1] == [a];
  }
}
