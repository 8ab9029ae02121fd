/**
  Peak ranking and reduced-mobility (K0) calculation.

  Smoothing and peak detection are SciPy numerics and are not modelled: the
  ranking works on the candidate list they produce, a list of (index, height)
  pairs in ascending index order. The candidates are sorted by height,
  highest first, with Python's stable sort (equal heights keep their input
  order even with `reverse=True`), and the first ten are kept.

  The K0 calculation maps every ranked peak, in order, to
  L^2 / (t_d * V) * (273.15 / T_K) * (P / 1013.25), where the drift time
  t_d = (index + 32) * resolution / 10^6 and T_K is the drift-tube
  temperature in kelvin. Arithmetic is over the reals.
*/
module Ims {

  /** The number of ranked peaks that are kept. */
  const TopPeakCount: nat := 10

  /** Index bias before the drift region begins (written `31 + 1` in the source). */
  const PositionOffset: nat := 31 + 1

  const NominalTemperature: real := 273.15
  const NominalPressure: real := 1013.25
  const CelsiusToKelvin: real := 273.15
  const ResolutionScale: real := 1000000.0

  datatype Peak = Peak(index: nat, height: real)

  // ---------------------------------------------------------------------
  // Ranking
  // ---------------------------------------------------------------------

  /** Heights never increase along the list. */
  predicate NonIncreasing(s: seq<Peak>)
  {
    forall k, l :: 0 <= k < l < |s| ==> s[k].height >= s[l].height
  }

  /** Inserts `p` in front of the first element that is not strictly higher,
      so `p` precedes every element of equal height. */
  function InsertByHeight(p: Peak, sorted: seq<Peak>): (r: seq<Peak>)
    ensures multiset(r) == multiset(sorted) + multiset{p}
  {
    if |sorted| == 0 then [p]
    else if sorted[0].height > p.height then
      assert sorted == [sorted[0]] + sorted[1..];
      [sorted[0]] + InsertByHeight(p, sorted[1..])
    else
      [p] + sorted
  }

  lemma NonIncreasingCons(x: Peak, s: seq<Peak>)
    requires NonIncreasing(s)
    requires forall y :: y in s ==> x.height >= y.height
    ensures NonIncreasing([x] + s)
  {
    var r := [x] + s;
    forall k, l | 0 <= k < l < |r|
      ensures r[k].height >= r[l].height
    {
      assert r[l] == s[l - 1];
      if k > 0 {
        assert r[k] == s[k - 1];
      }
    }
  }

  lemma {:induction false} InsertKeepsNonIncreasing(p: Peak, sorted: seq<Peak>)
    requires NonIncreasing(sorted)
    ensures NonIncreasing(InsertByHeight(p, sorted))
    decreases |sorted|
  {
    if |sorted| == 0 {
    } else if sorted[0].height > p.height {
      var tail := sorted[1..];
      InsertKeepsNonIncreasing(p, tail);
      InsertMembers(p, tail);
      forall y | y in InsertByHeight(p, tail)
        ensures sorted[0].height >= y.height
      {
        if y != p {
          var m :| 0 <= m < |tail| && tail[m] == y;
          assert sorted[m + 1] == y;
        }
      }
      NonIncreasingCons(sorted[0], InsertByHeight(p, tail));
    } else {
      forall y | y in sorted
        ensures p.height >= y.height
      {
        var m :| 0 <= m < |sorted| && sorted[m] == y;
      }
      NonIncreasingCons(p, sorted);
    }
  }

  /** Python's stable `sorted(..., key=height, reverse=True)`. */
  function SortByHeight(s: seq<Peak>): (r: seq<Peak>)
    ensures multiset(r) == multiset(s)
    ensures NonIncreasing(r)
  {
    if |s| == 0 then []
    else
      assert s == [s[0]] + s[1..];
      InsertKeepsNonIncreasing(s[0], SortByHeight(s[1..]));
      InsertByHeight(s[0], SortByHeight(s[1..]))
  }

  /** Python's slice `s[:n]`. */
  function Take(s: seq<Peak>, n: nat): seq<Peak>
  {
    if |s| <= n then s else s[..n]
  }

  /** The ranking step of `process_spectrum`: at most ten peaks, highest
      first, drawn from the candidates, none of them lower than any
      candidate left out. */
  function TopPeaks(candidates: seq<Peak>): (r: seq<Peak>)
    ensures |r| == if |candidates| < TopPeakCount then |candidates| else TopPeakCount
    ensures NonIncreasing(r)
    ensures multiset(r) <= multiset(candidates)
    ensures forall x, y :: x in multiset(r) && y in multiset(candidates) - multiset(r) ==> x.height >= y.height
  {
    var sorted := SortByHeight(candidates);
    PrefixDominatesRest(sorted, TopPeakCount);
    Take(sorted, TopPeakCount)
  }

  lemma PrefixDominatesRest(sorted: seq<Peak>, n: nat)
    requires NonIncreasing(sorted)
    ensures multiset(Take(sorted, n)) <= multiset(sorted)
    ensures forall x, y :: x in multiset(Take(sorted, n)) && y in multiset(sorted) - multiset(Take(sorted, n)) ==> x.height >= y.height
  {
    var r := Take(sorted, n);
    if |sorted| > n {
      var rest := sorted[n..];
      assert sorted == r + rest;
      assert multiset(sorted) == multiset(r) + multiset(rest);
      forall x: Peak, y: Peak | x in multiset(r) && y in multiset(sorted) - multiset(r)
        ensures x.height >= y.height
      {
        var k :| 0 <= k < |r| && r[k] == x;
        assert y in multiset(rest);
        var l :| 0 <= l < |rest| && rest[l] == y;
        assert sorted[k] == x && sorted[n + l] == y;
      }
    } else {
      assert multiset(sorted) - multiset(r) == multiset{};
    }
  }

  /** The elements of height `h`, in list order. */
  function OfHeight(s: seq<Peak>, h: real): seq<Peak>
  {
    if |s| == 0 then []
    else (if s[0].height == h then [s[0]] else []) + OfHeight(s[1..], h)
  }

  lemma OfHeightCons(p: Peak, s: seq<Peak>, h: real)
    ensures OfHeight([p] + s, h) == (if p.height == h then [p] else []) + OfHeight(s, h)
  {
    assert ([p] + s)[1..] == s;
  }

  lemma {:induction false} InsertKeepsEqualHeightOrder(p: Peak, sorted: seq<Peak>, h: real)
    requires NonIncreasing(sorted)
    ensures OfHeight(InsertByHeight(p, sorted), h) == OfHeight([p] + sorted, h)
    decreases |sorted|
  {
    if |sorted| > 0 && sorted[0].height > p.height {
      var head := sorted[0];
      var tail := sorted[1..];
      var inserted := InsertByHeight(p, tail);
      assert sorted == [head] + tail;
      assert InsertByHeight(p, sorted) == [head] + inserted;
      InsertKeepsEqualHeightOrder(p, tail, h);
      OfHeightCons(head, inserted, h);
      OfHeightCons(p, tail, h);
      OfHeightCons(p, sorted, h);
      OfHeightCons(head, tail, h);
      var pPart := if p.height == h then [p] else [];
      var headPart := if head.height == h then [head] else [];
      assert pPart == [] || headPart == [];
      assert OfHeight(InsertByHeight(p, sorted), h) == headPart + (pPart + OfHeight(tail, h));
      assert OfHeight([p] + sorted, h) == pPart + (headPart + OfHeight(tail, h));
      if pPart == [] {
        assert pPart + OfHeight(tail, h) == OfHeight(tail, h);
        assert pPart + (headPart + OfHeight(tail, h)) == headPart + OfHeight(tail, h);
      } else {
        assert headPart + (pPart + OfHeight(tail, h)) == pPart + OfHeight(tail, h);
        assert headPart + OfHeight(tail, h) == OfHeight(tail, h);
      }
    }
  }

  /** Stability: for every height, the peaks of that height appear in the
      sorted list in the same order as in the input. */
  lemma {:induction false} SortIsStable(s: seq<Peak>, h: real)
    ensures OfHeight(SortByHeight(s), h) == OfHeight(s, h)
  {
    if |s| > 0 {
      SortIsStable(s[1..], h);
      InsertKeepsEqualHeightOrder(s[0], SortByHeight(s[1..]), h);
      OfHeightCons(s[0], SortByHeight(s[1..]), h);
      OfHeightCons(s[0], s[1..], h);
      assert s == [s[0]] + s[1..];
    }
  }

  lemma {:induction false} OfHeightTake(s: seq<Peak>, n: nat, h: real)
    ensures OfHeight(Take(s, n), h) <= OfHeight(s, h)
  {
    if |s| > n {
      if n == 0 {
        assert Take(s, n) == [];
      } else {
        var tail := s[1..];
        OfHeightTake(tail, n - 1, h);
        assert Take(s, n) == [s[0]] + Take(tail, n - 1);
        assert s == [s[0]] + tail;
        OfHeightCons(s[0], Take(tail, n - 1), h);
        OfHeightCons(s[0], tail, h);
        PrefixCons(if s[0].height == h then [s[0]] else [], OfHeight(Take(tail, n - 1), h), OfHeight(tail, h));
      }
    }
  }

  lemma PrefixCons(front: seq<Peak>, a: seq<Peak>, b: seq<Peak>)
    requires a <= b
    ensures front + a <= front + b
  {
    assert front + b == (front + a) + b[|a|..];
  }

  /** The kept peaks of each height are the first ones of that height in
      the candidate list, in candidate order. */
  lemma TopPeaksStable(s: seq<Peak>, h: real)
    ensures OfHeight(TopPeaks(s), h) <= OfHeight(s, h)
  {
    SortIsStable(s, h);
    OfHeightTake(SortByHeight(s), TopPeakCount, h);
  }

  /** Indices strictly ascending, as peak detection reports them. */
  predicate IndexAscending(s: seq<Peak>)
  {
    forall k, l :: 0 <= k < l < |s| ==> s[k].index < s[l].index
  }

  /** `a` ranks before `b`: higher, or as high and earlier. */
  predicate Before(a: Peak, b: Peak)
  {
    a.height > b.height || (a.height == b.height && a.index < b.index)
  }

  /** Height descending, and index ascending among equal heights. */
  predicate RankOrdered(s: seq<Peak>)
  {
    forall k, l :: 0 <= k < l < |s| ==> Before(s[k], s[l])
  }

  lemma RankOrderedCons(x: Peak, s: seq<Peak>)
    requires RankOrdered(s)
    requires forall y :: y in s ==> Before(x, y)
    ensures RankOrdered([x] + s)
  {
    var r := [x] + s;
    forall k, l | 0 <= k < l < |r|
      ensures Before(r[k], r[l])
    {
      assert r[l] == s[l - 1];
      if k > 0 {
        assert r[k] == s[k - 1];
      }
    }
  }

  lemma InsertMembers(p: Peak, sorted: seq<Peak>)
    ensures forall x :: x in InsertByHeight(p, sorted) <==> x == p || x in sorted
  {
    var r := InsertByHeight(p, sorted);
    forall x
      ensures x in r <==> x == p || x in sorted
    {
      assert x in r <==> x in multiset(r);
      assert x in sorted <==> x in multiset(sorted);
    }
  }

  lemma {:induction false} InsertKeepsRankOrder(p: Peak, sorted: seq<Peak>)
    requires RankOrdered(sorted)
    requires forall x :: x in sorted ==> p.index < x.index
    ensures RankOrdered(InsertByHeight(p, sorted))
    decreases |sorted|
  {
    if |sorted| == 0 {
    } else if sorted[0].height > p.height {
      var head := sorted[0];
      var tail := sorted[1..];
      InsertKeepsRankOrder(p, tail);
      InsertMembers(p, tail);
      var rest := InsertByHeight(p, tail);
      forall y | y in rest
        ensures Before(head, y)
      {
        if y != p {
          var m :| 0 <= m < |tail| && tail[m] == y;
          assert sorted[m + 1] == y;
        }
      }
      RankOrderedCons(head, rest);
    } else {
      forall y | y in sorted
        ensures Before(p, y)
      {
        var m :| 0 <= m < |sorted| && sorted[m] == y;
        if m > 0 {
          assert Before(sorted[0], sorted[m]);
        }
      }
      RankOrderedCons(p, sorted);
    }
  }

  lemma SortMembers(s: seq<Peak>)
    ensures forall x :: x in SortByHeight(s) <==> x in s
  {
    forall x
      ensures x in SortByHeight(s) <==> x in s
    {
      assert x in SortByHeight(s) <==> x in multiset(SortByHeight(s));
      assert x in s <==> x in multiset(s);
    }
  }

  /** For candidates in ascending index order, the ranked list is ordered by
      height descending and, among equal heights, by index ascending. */
  lemma {:induction false} SortedRankOrder(s: seq<Peak>)
    requires IndexAscending(s)
    ensures RankOrdered(SortByHeight(s))
  {
    if |s| > 0 {
      var tail := s[1..];
      SortedRankOrder(tail);
      SortMembers(tail);
      forall x | x in SortByHeight(tail)
        ensures s[0].index < x.index
      {
        var m :| 0 <= m < |tail| && tail[m] == x;
        assert s[m + 1] == x;
      }
      InsertKeepsRankOrder(s[0], SortByHeight(tail));
    }
  }

  /** The ten kept peaks inherit the rank order of the sorted candidates. */
  lemma RankedPeaksOrder(s: seq<Peak>)
    requires IndexAscending(s)
    ensures RankOrdered(TopPeaks(s))
  {
    SortedRankOrder(s);
  }

  // ---------------------------------------------------------------------
  // K0
  // ---------------------------------------------------------------------

  /** Drift-tube conditions of one polarity of one measurement. */
  datatype Conditions = Conditions(
    temperature: real,   // degrees Celsius
    pressure: real,
    voltage: real,
    tubeLength: real,
    resolution: real)

  /** The conditions under which the formula divides by no zero. */
  predicate Computable(c: Conditions)
  {
    c.voltage != 0.0 && c.resolution != 0.0 && Kelvin(c) != 0.0
  }

  /** The drift-tube temperature converted to kelvin. */
  function Kelvin(c: Conditions): real
  {
    c.temperature + CelsiusToKelvin
  }

  function Square(x: real): real
  {
    x * x
  }

  /** Drift time, in seconds, of a peak at `index`. */
  function DriftTime(index: nat, c: Conditions): real
  {
    (index + PositionOffset) as real * (c.resolution / ResolutionScale)
  }

  lemma DriftTimeNonZero(index: nat, c: Conditions)
    requires Computable(c)
    ensures DriftTime(index, c) * c.voltage != 0.0
  {
    var n := (index + PositionOffset) as real;
    var r := c.resolution / ResolutionScale;
    assert n > 0.0 && r != 0.0;
    assert n * r != 0.0;
  }

  /** K0 of a peak at `index`. */
  function ReducedMobility(index: nat, c: Conditions): real
    requires Computable(c)
  {
    DriftTimeNonZero(index, c);
    var k := Square(c.tubeLength) / (DriftTime(index, c) * c.voltage);
    k * (NominalTemperature / Kelvin(c)) * (c.pressure / NominalPressure)
  }

  /** The squared tube length corrected to nominal temperature and
      pressure: the quantity every peak's K0 shares. */
  function MobilityConstant(c: Conditions): real
    requires Kelvin(c) != 0.0
  {
    Square(c.tubeLength) * (NominalTemperature / Kelvin(c)) * (c.pressure / NominalPressure)
  }

  /** `calculate_k0_value`: one K0 per peak, in peak order, each depending
      only on the peak's index. */
  method CalculateK0Values(peaks: seq<Peak>, c: Conditions) returns (k0s: seq<real>)
    requires Computable(c)
    ensures |k0s| == |peaks|
    ensures forall k :: 0 <= k < |peaks| ==> k0s[k] == ReducedMobility(peaks[k].index, c)
  {
    k0s := [];
    var n := 0;
    while n < |peaks|
      invariant n <= |peaks|
      invariant |k0s| == n
      invariant forall k :: 0 <= k < n ==> k0s[k] == ReducedMobility(peaks[k].index, c)
    {
      k0s := k0s + [ReducedMobility(peaks[n].index, c)];
      n := n + 1;
    }
  }

  /** The defining relation of K0: multiplied by the drift time and the
      voltage it gives the same corrected squared length for every peak. */
  lemma K0TimesDriftTime(index: nat, c: Conditions)
    requires Computable(c)
    ensures ReducedMobility(index, c) * (DriftTime(index, c) * c.voltage) == MobilityConstant(c)
  {
    DriftTimeNonZero(index, c);
    CancelDivision(Square(c.tubeLength), DriftTime(index, c) * c.voltage,
      NominalTemperature / Kelvin(c), c.pressure / NominalPressure);
  }

  lemma CancelDivision(a: real, d: real, f: real, g: real)
    requires d != 0.0
    ensures (a / d) * f * g * d == a * f * g
  {
    assert (a / d) * d == a;
    assert (a / d) * f * g * d == ((a / d) * d) * f * g;
  }

  /** Physical conditions: positive voltage, resolution, absolute
      temperature and pressure, and a tube of non-zero length. */
  predicate Physical(c: Conditions)
  {
    && c.voltage > 0.0
    && c.resolution > 0.0
    && Kelvin(c) > 0.0
    && c.pressure > 0.0
    && c.tubeLength != 0.0
  }

  /** Under physical conditions a later peak (longer drift) has a strictly
      smaller K0, so K0 order is the reverse of index order. */
  lemma K0DecreasesWithIndex(i: nat, j: nat, c: Conditions)
    requires Physical(c) && i < j
    ensures ReducedMobility(i, c) > ReducedMobility(j, c)
  {
    K0TimesDriftTime(i, c);
    K0TimesDriftTime(j, c);
    MobilityConstantPositive(c);
    DriftTimeIncreases(i, j, c);
    InverseProportion(
      ReducedMobility(i, c), ReducedMobility(j, c),
      DriftTime(i, c) * c.voltage, DriftTime(j, c) * c.voltage,
      MobilityConstant(c));
  }

  /** Two quantities whose products with increasing positive factors give
      the same positive constant decrease. */
  lemma InverseProportion(ki: real, kj: real, di: real, dj: real, constant: real)
    requires ki * di == constant && kj * dj == constant
    requires 0.0 < di < dj && constant > 0.0
    ensures ki > kj
  {
    if kj <= 0.0 {
      MulKeepsOrder(kj, 0.0, dj);
      assert false;
    }
    if ki <= kj {
      MulKeepsOrder(ki, kj, di);
      MulStrictlyIncreases(kj, di, dj);
      assert false;
    }
  }

  lemma MobilityConstantPositive(c: Conditions)
    requires Physical(c)
    ensures MobilityConstant(c) > 0.0
  {
    SquarePositive(c.tubeLength);
    QuotientPositive(NominalTemperature, Kelvin(c));
    QuotientPositive(c.pressure, NominalPressure);
    PositiveProduct3(Square(c.tubeLength), NominalTemperature / Kelvin(c), c.pressure / NominalPressure);
  }

  lemma PositiveProduct3(a: real, b: real, d: real)
    requires a > 0.0 && b > 0.0 && d > 0.0
    ensures a * b * d > 0.0
  {
    ProductPositive(a, b);
    ProductPositive(a * b, d);
  }

  lemma ProductPositive(a: real, b: real)
    requires a > 0.0 && b > 0.0
    ensures a * b > 0.0
  {
  }

  lemma QuotientPositive(a: real, b: real)
    requires a > 0.0 && b > 0.0
    ensures a / b > 0.0
  {
  }

  lemma MulKeepsOrder(a: real, b: real, x: real)
    requires a <= b && x > 0.0
    ensures a * x <= b * x
  {
  }

  lemma MulStrictlyIncreases(k: real, a: real, b: real)
    requires k > 0.0 && a < b
    ensures k * a < k * b
  {
  }

  lemma SquarePositive(x: real)
    requires x != 0.0
    ensures Square(x) > 0.0
  {
    PositiveSquareOf(x, Square(x));
  }

  lemma PositiveSquareOf(x: real, s: real)
    requires x != 0.0 && s == x * x
    ensures s > 0.0
  {
    if x < 0.0 {
      PositiveProductOf(-x, -x, s);
    } else {
      PositiveProductOf(x, x, s);
    }
  }

  lemma PositiveProductOf(a: real, b: real, s: real)
    requires a > 0.0 && b > 0.0 && s == a * b
    ensures s > 0.0
  {
  }

  lemma DriftTimeIncreases(i: nat, j: nat, c: Conditions)
    requires Physical(c) && i < j
    ensures 0.0 < DriftTime(i, c) * c.voltage < DriftTime(j, c) * c.voltage
  {
    var r := c.resolution / ResolutionScale;
    var ni := (i + PositionOffset) as real;
    var nj := (j + PositionOffset) as real;
    QuotientPositive(c.resolution, ResolutionScale);
    ScaledOrder(ni, nj, r, c.voltage);
  }

  lemma ScaledOrder(a: real, b: real, r: real, v: real)
    requires 0.0 < a < b && r > 0.0 && v > 0.0
    ensures 0.0 < a * r * v < b * r * v
  {
    ProductPositive(a, r);
    MulStrictlyIncreases(r, a, b);
    assert a * r < b * r;
    ProductPositive(a * r, v);
    MulStrictlyIncreases(v, a * r, b * r);
    assert a * r * v == v * (a * r);
    assert b * r * v == v * (b * r);
  }
}
