/** Size distributions given as a piecewise linear cumulative distribution function
    (traffic_gen/custom_rand.py), with exact arithmetic. */
module CustomRands {
  import opened Outcomes
  import opened Interpolation

  type Cdf = seq<(real, real)>

  ghost function Sizes(cdf: Cdf): seq<real> { seq(|cdf|, i requires 0 <= i < |cdf| => cdf[i].0) }

  ghost function Percentiles(cdf: Cdf): seq<real> { seq(|cdf|, i requires 0 <= i < |cdf| => cdf[i].1) }

  // A list of points from percentile 0 to percentile 100 that grows strictly in both coordinates.
  ghost predicate Accepted(cdf: Cdf) {
    && |cdf| >= 2
    && cdf[0].1 == 0.0 && cdf[|cdf| - 1].1 == 100.0
    && Increasing(Sizes(cdf)) && Increasing(Percentiles(cdf))
  }

  ghost function ValueAt(cdf: Cdf, y: real): real
    requires Accepted(cdf) && y <= 100.0
  {
    Interpolate(Percentiles(cdf), Sizes(cdf), y)
  }

  ghost function PercentileAt(cdf: Cdf, x: real): real
    requires Accepted(cdf) && x <= cdf[|cdf| - 1].0
  {
    Interpolate(Sizes(cdf), Percentiles(cdf), x)
  }

  // The two lookups are inverse to each other, and both are strictly increasing.
  lemma PercentileOfValue(cdf: Cdf, y: real)
    requires Accepted(cdf) && y <= 100.0
    ensures ValueAt(cdf, y) <= cdf[|cdf| - 1].0
    ensures PercentileAt(cdf, ValueAt(cdf, y)) == y
  {
    InterpolateInverts(Percentiles(cdf), Sizes(cdf), y);
  }

  lemma ValueOfPercentile(cdf: Cdf, x: real)
    requires Accepted(cdf) && x <= cdf[|cdf| - 1].0
    ensures PercentileAt(cdf, x) <= 100.0
    ensures ValueAt(cdf, PercentileAt(cdf, x)) == x
  {
    InterpolateInverts(Sizes(cdf), Percentiles(cdf), x);
  }

  lemma ValueGrows(cdf: Cdf, y: real, z: real)
    requires Accepted(cdf) && y < z <= 100.0
    ensures ValueAt(cdf, y) < ValueAt(cdf, z)
  {
    InterpolateGrows(Percentiles(cdf), Sizes(cdf), y, z);
  }

  lemma PercentileGrows(cdf: Cdf, x: real, z: real)
    requires Accepted(cdf) && x < z <= cdf[|cdf| - 1].0
    ensures PercentileAt(cdf, x) < PercentileAt(cdf, z)
  {
    InterpolateGrows(Sizes(cdf), Percentiles(cdf), x, z);
  }

  // Both lookups go through the points of the distribution.
  lemma LookupsAtPoints(cdf: Cdf, i: nat)
    requires Accepted(cdf) && i < |cdf|
    ensures cdf[i].1 <= 100.0 && ValueAt(cdf, cdf[i].1) == cdf[i].0
    ensures cdf[i].0 <= cdf[|cdf| - 1].0 && PercentileAt(cdf, cdf[i].0) == cdf[i].1
  {
    InterpolateAt(Percentiles(cdf), Sizes(cdf), i);
    InterpolateAt(Sizes(cdf), Percentiles(cdf), i);
  }

  // Sizes below the first one, and only those, are extrapolated to negative percentiles.
  lemma NegativeBelowFirst(cdf: Cdf, x: real)
    requires Accepted(cdf) && x <= cdf[|cdf| - 1].0
    ensures PercentileAt(cdf, x) < 0.0 <==> x < cdf[0].0
    ensures PercentileAt(cdf, x) <= 100.0
  {
    hide PercentileAt, ValueAt, Increasing;
    LookupsAtPoints(cdf, 0);
    hide Accepted;
    if x < cdf[0].0 {
      PercentileGrows(cdf, x, cdf[0].0);
    } else if cdf[0].0 < x {
      PercentileGrows(cdf, cdf[0].0, x);
    }
    ValueOfPercentile(cdf, x);
  }

  // The area under the value curve from percentile 0 to y, over 100.
  ghost function IntegralAt(cdf: Cdf, y: real): real
    requires Accepted(cdf) && y <= 100.0
  {
    DoubleArea(Percentiles(cdf), Sizes(cdf), y) / 200.0
  }

  // The integral between two percentiles lies between the two rectangles, for every pair of them:
  // it is the integral of the value function, since that grows.
  lemma IntegralBetween(cdf: Cdf, a: real, b: real)
    requires Accepted(cdf) && a <= b <= 100.0
    ensures var area := 100.0 * (IntegralAt(cdf, b) - IntegralAt(cdf, a));
      ValueAt(cdf, a) * (b - a) <= area <= ValueAt(cdf, b) * (b - a)
  {
    hide Interpolate, DoubleArea, Increasing, DoubleRectangle;
    AreaBetween(Percentiles(cdf), Sizes(cdf), a, b);
    HalfRectangle(ValueAt(cdf, a), b - a);
    HalfRectangle(ValueAt(cdf, b), b - a);
  }

  lemma HalfRectangle(v: real, w: real)
    ensures DoubleRectangle(v, w) / 2.0 == v * w
  {
  }

  lemma IntegralStartsAtZero(cdf: Cdf)
    requires Accepted(cdf)
    ensures IntegralAt(cdf, 0.0) == 0.0
  {
    assert Percentiles(cdf)[0] < Percentiles(cdf)[1];
    assert Percentiles(cdf)[1] <= 100.0 by {
      assert |cdf| > 2 ==> Percentiles(cdf)[1] < Percentiles(cdf)[|cdf| - 1];
    }
    SegmentIs(Percentiles(cdf), 0.0, 1);
  }

  // So the mean size lies between the smallest and the largest one.
  lemma MeanBetween(cdf: Cdf)
    requires Accepted(cdf)
    ensures cdf[0].0 <= IntegralAt(cdf, 100.0) <= cdf[|cdf| - 1].0
  {
    hide IntegralAt, ValueAt, PercentileAt, Increasing;
    IntegralBetween(cdf, 0.0, 100.0);
    IntegralStartsAtZero(cdf);
    LookupsAtPoints(cdf, 0);
    LookupsAtPoints(cdf, |cdf| - 1);
  }

  class CustomRand {
    var cdf: Cdf

    constructor ()
    {
      cdf := [];
    }

    // The head of the list is read first.
    method TestCdf(cdf: Cdf) returns (r: Outcome<bool>)
      ensures r == if cdf == [] then IndexError else Returned(Accepted(cdf))
    {
      if cdf == [] {
        return IndexError;
      }
      if cdf[0].1 != 0.0 {
        return Returned(false);
      }
      if cdf[|cdf| - 1].1 != 100.0 {
        return Returned(false);
      }
      for i := 1 to |cdf|
        invariant Increasing(Sizes(cdf[..i])) && Increasing(Percentiles(cdf[..i]))
      {
        if cdf[i].1 <= cdf[i - 1].1 || cdf[i].0 <= cdf[i - 1].0 {
          assert !(Sizes(cdf)[i - 1] < Sizes(cdf)[i] && Percentiles(cdf)[i - 1] < Percentiles(cdf)[i]);
          return Returned(false);
        }
        OneMorePoint(cdf, i);
      }
      assert cdf[..|cdf|] == cdf;
      return Returned(true);
    }

    method SetCdf(cdf: Cdf) returns (r: Outcome<bool>)
      modifies this
      ensures r == if cdf == [] then IndexError else Returned(Accepted(cdf))
      ensures this.cdf == if Accepted(cdf) then cdf else old(this.cdf)
    {
      r := TestCdf(cdf);
      if r == Returned(true) {
        this.cdf := cdf;
      }
    }

    // There is no result beyond percentile 100.
    method GetValueFromPercentile(y: real) returns (r: Option<real>)
      requires Accepted(cdf)
      ensures r == if y <= 100.0 then Some(ValueAt(cdf, y)) else None
    {
      hide Line, ValueAt, Increasing;
      for i := 1 to |cdf|
        invariant i > 1 ==> cdf[i - 1].1 < y
      {
        if y <= cdf[i].1 {
          OnSegment(cdf, y, i);
          var ((x0, y0), (x1, y1)) := (cdf[i - 1], cdf[i]);
          return Some(Line(y0, y1, x0, x1, y));
        }
      }
      return None;
    }

    // -1 stands for sizes outside [0, last size]; sizes between 0 and the first one are
    // extrapolated to negative percentiles.
    method GetPercentileFromValue(x: real) returns (r: real)
      requires Accepted(cdf)
      ensures r == if 0.0 <= x <= cdf[|cdf| - 1].0 then PercentileAt(cdf, x) else -1.0
      ensures 0.0 <= r <= 100.0 <==> 0.0 <= x && cdf[0].0 <= x <= cdf[|cdf| - 1].0
    {
      hide Line;
      if x < 0.0 || x > cdf[|cdf| - 1].0 {
        return -1.0;
      }
      for i := 1 to |cdf|
        invariant i > 1 ==> cdf[i - 1].0 < x
      {
        if x <= cdf[i].0 {
          var ((x0, y0), (x1, y1)) := (cdf[i - 1], cdf[i]);
          assert Sizes(cdf)[i - 1] < Sizes(cdf)[i];
          SegmentIs(Sizes(cdf), x, i);
          NegativeBelowFirst(cdf, x);
          return Line(x0, x1, y0, y1, x);
        }
      }
      assert false;
    }

    method GetAvg() returns (avg: real)
      requires Accepted(cdf)
      ensures avg == IntegralAt(cdf, 100.0)
    {
      hide Increasing, DoubleAreaUpTo, TrapezoidArea, IntegralAt;
      NoArea(cdf);
      var s := 0.0;
      var (lastX, lastY) := cdf[0];
      for i := 1 to |cdf|
        invariant (lastX, lastY) == cdf[i - 1]
        invariant 2.0 * s == DoubleAreaUpTo(Percentiles(cdf), Sizes(cdf), i - 1)
      {
        var (x, y) := cdf[i];
        MoreArea(cdf, i);
        Halves(lastX, x, y - lastY);
        s := s + TrapezoidArea(lastX, x, y - lastY);
        lastX := x;
        lastY := y;
      }
      AverageOf(cdf, s);
      return s / 100.0;
    }

    // Beyond percentile 100 the whole integral.
    method GetIntegralY(y: real) returns (s: real)
      requires Accepted(cdf)
      ensures s == IntegralAt(cdf, if y <= 100.0 then y else 100.0)
    {
      hide Line, ValueAt, Increasing, DoubleAreaUpTo, SliceArea, IntegralAt;
      s := 0.0;
      NoArea(cdf);
      for i := 1 to |cdf|
        invariant 200.0 * s == DoubleAreaUpTo(Percentiles(cdf), Sizes(cdf), i - 1)
        invariant i > 1 ==> cdf[i - 1].1 < y
      {
        var ((x0, y0), (x1, y1)) := (cdf[i - 1], cdf[i]);
        if y <= cdf[i].1 {
          LastSlice(cdf, y, i, s);
          return s + SliceArea(x0, Line(y0, y1, x0, x1, y), y - y0);
        } else {
          WholeSlice(cdf, i, s);
          s := s + SliceArea(x0, x1, y1 - y0);
        }
      }
      WholeArea(cdf, s);
    }
  }

  // The area of a slice with the given sizes at its ends.
  function TrapezoidArea(a: real, b: real, width: real): real {
    (b + a) / 2.0 * width
  }

  // The same over 100.
  function SliceArea(a: real, b: real, width: real): real {
    0.5 * (a + b) * width / 100.0
  }

  lemma SliceIsHalf(a: real, b: real, width: real)
    ensures 200.0 * SliceArea(a, b, width) == (a + b) * width
  {
  }

  lemma Scaled(s: real, slice: real)
    ensures 200.0 * (s + slice) == 200.0 * s + 200.0 * slice
  {
  }

  lemma WholeSlice(cdf: Cdf, i: nat, s: real)
    requires 1 <= i < |cdf| && 200.0 * s == DoubleAreaUpTo(Percentiles(cdf), Sizes(cdf), i - 1)
    ensures 200.0 * (s + SliceArea(cdf[i - 1].0, cdf[i].0, cdf[i].1 - cdf[i - 1].1))
      == DoubleAreaUpTo(Percentiles(cdf), Sizes(cdf), i)
  {
    hide DoubleAreaUpTo, SliceArea;
    var slice := SliceArea(cdf[i - 1].0, cdf[i].0, cdf[i].1 - cdf[i - 1].1);
    MoreArea(cdf, i);
    SliceIsHalf(cdf[i - 1].0, cdf[i].0, cdf[i].1 - cdf[i - 1].1);
    Scaled(s, slice);
  }

  lemma LastSlice(cdf: Cdf, y: real, i: nat, s: real)
    requires Accepted(cdf) && 1 <= i < |cdf| && y <= cdf[i].1 && (i > 1 ==> cdf[i - 1].1 < y)
    requires 200.0 * s == DoubleAreaUpTo(Percentiles(cdf), Sizes(cdf), i - 1)
    ensures cdf[i - 1].1 < cdf[i].1 && y <= 100.0
    ensures var (x0, y0) := cdf[i - 1]; var (x1, y1) := cdf[i];
      s + SliceArea(x0, Line(y0, y1, x0, x1, y), y - y0) == IntegralAt(cdf, y)
  {
    hide Line, ValueAt, Increasing, DoubleAreaUpTo, SliceArea, IntegralAt;
    OnSegment(cdf, y, i);
    var (x0, y0) := cdf[i - 1];
    var v := Line(y0, cdf[i].1, x0, cdf[i].0, y);
    SliceIsHalf(x0, v, y - y0);
    Scaled(s, SliceArea(x0, v, y - y0));
  }

  lemma WholeArea(cdf: Cdf, s: real)
    requires Accepted(cdf) && 200.0 * s == DoubleAreaUpTo(Percentiles(cdf), Sizes(cdf), |cdf| - 1)
    ensures s == IntegralAt(cdf, 100.0)
  {
    AreaAtEnd(cdf);
    hide DoubleArea, DoubleAreaUpTo, Increasing;
  }

  lemma MoreArea(cdf: Cdf, i: nat)
    requires 1 <= i < |cdf|
    ensures DoubleAreaUpTo(Percentiles(cdf), Sizes(cdf), i)
      == DoubleAreaUpTo(Percentiles(cdf), Sizes(cdf), i - 1) + (cdf[i - 1].0 + cdf[i].0) * (cdf[i].1 - cdf[i - 1].1)
  {
  }

  lemma NoArea(cdf: Cdf)
    requires Accepted(cdf)
    ensures DoubleAreaUpTo(Percentiles(cdf), Sizes(cdf), 0) == 0.0
  {
  }

  // What the lookups compute from the two points around a percentile.
  lemma OnSegment(cdf: Cdf, y: real, i: nat)
    requires Accepted(cdf) && 1 <= i < |cdf| && y <= cdf[i].1 && (i > 1 ==> cdf[i - 1].1 < y)
    ensures cdf[i - 1].1 < cdf[i].1 && y <= 100.0
    ensures var (x0, y0) := cdf[i - 1]; var (x1, y1) := cdf[i];
      var v := Line(y0, y1, x0, x1, y);
      && ValueAt(cdf, y) == v
      && 200.0 * IntegralAt(cdf, y) == DoubleAreaUpTo(Percentiles(cdf), Sizes(cdf), i - 1) + (x0 + v) * (y - y0)
  {
    hide Line;
    assert Percentiles(cdf)[i - 1] < Percentiles(cdf)[i];
    assert i < |cdf| - 1 ==> Percentiles(cdf)[i] < Percentiles(cdf)[|cdf| - 1];
    SegmentIs(Percentiles(cdf), y, i);
    hide Increasing, DoubleAreaUpTo, Segment;
  }

  lemma Halves(a: real, b: real, width: real)
    ensures 2.0 * TrapezoidArea(a, b, width) == (a + b) * width
  {
  }

  lemma AreaAtEnd(cdf: Cdf)
    requires Accepted(cdf)
    ensures DoubleArea(Percentiles(cdf), Sizes(cdf), 100.0) == DoubleAreaUpTo(Percentiles(cdf), Sizes(cdf), |cdf| - 1)
  {
    assert Percentiles(cdf)[|cdf| - 2] < Percentiles(cdf)[|cdf| - 1];
    SegmentIs(Percentiles(cdf), 100.0, |cdf| - 1);
    InterpolateAt(Percentiles(cdf), Sizes(cdf), |cdf| - 1);
  }

  lemma AverageOf(cdf: Cdf, s: real)
    requires Accepted(cdf) && 2.0 * s == DoubleAreaUpTo(Percentiles(cdf), Sizes(cdf), |cdf| - 1)
    ensures s / 100.0 == IntegralAt(cdf, 100.0)
  {
    AreaAtEnd(cdf);
    hide DoubleArea, DoubleAreaUpTo, Increasing;
  }

  lemma OneMorePoint(cdf: Cdf, i: nat)
    requires 1 <= i < |cdf| && cdf[i - 1].0 < cdf[i].0 && cdf[i - 1].1 < cdf[i].1
    requires Increasing(Sizes(cdf[..i])) && Increasing(Percentiles(cdf[..i]))
    ensures Increasing(Sizes(cdf[..i + 1])) && Increasing(Percentiles(cdf[..i + 1]))
  {
    var shorter, longer := cdf[..i], cdf[..i + 1];
    forall j, k | 0 <= j < k < i + 1
      ensures Sizes(longer)[j] < Sizes(longer)[k] && Percentiles(longer)[j] < Percentiles(longer)[k]
    {
      assert k < i ==> Sizes(shorter)[j] < Sizes(shorter)[k] && Percentiles(shorter)[j] < Percentiles(shorter)[k];
      assert j < i - 1 ==>
        Sizes(shorter)[j] < Sizes(shorter)[i - 1] && Percentiles(shorter)[j] < Percentiles(shorter)[i - 1];
    }
  }
}
