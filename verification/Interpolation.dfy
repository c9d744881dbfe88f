/** Piecewise linear interpolation between two increasing lists of numbers. */
module Interpolation {

  ghost predicate Increasing(s: seq<real>) {
    forall i, j :: 0 <= i < j < |s| ==> s[i] < s[j]
  }

  // The two lists that an interpolation runs between.
  ghost predicate Curve(keys: seq<real>, vals: seq<real>) {
    |keys| == |vals| >= 2 && Increasing(keys) && Increasing(vals)
  }

  // The straight line through (k0, v0) and (k1, v1).
  function Line(k0: real, k1: real, v0: real, v1: real, k: real): real
    requires k0 != k1
  {
    v0 + Slope(k0, k1, v0, v1) * (k - k0)
  }

  function Slope(k0: real, k1: real, v0: real, v1: real): (slope: real)
    requires k0 != k1
    ensures slope * (k1 - k0) == v1 - v0
  {
    (v1 - v0) / (k1 - k0)
  }

  lemma SlopePositive(k0: real, k1: real, v0: real, v1: real)
    requires k0 < k1 && v0 < v1
    ensures Slope(k0, k1, v0, v1) > 0.0
  {
  }

  lemma LineGrows(k0: real, k1: real, v0: real, v1: real, k: real, l: real)
    requires k0 < k1 && v0 < v1 && k < l
    ensures Line(k0, k1, v0, v1, k) < Line(k0, k1, v0, v1, l)
  {
    var slope := Slope(k0, k1, v0, v1);
    SlopePositive(k0, k1, v0, v1);
    hide Slope;
    var a, b := k - k0, l - k0;
    TimesGrows(slope, a, b);
    assert Line(k0, k1, v0, v1, k) == v0 + slope * a;
    assert Line(k0, k1, v0, v1, l) == v0 + slope * b;
    hide Line;
  }

  lemma TimesGrows(s: real, a: real, b: real)
    requires s > 0.0 && a < b
    ensures s * a < s * b
  {
    var d := b - a;
    assert s * d > 0.0;
    assert b == a + d;
  }

  lemma LineEnds(k0: real, k1: real, v0: real, v1: real)
    requires k0 < k1
    ensures Line(k0, k1, v0, v1, k0) == v0
    ensures Line(k0, k1, v0, v1, k1) == v1
  {
    hide Slope;
  }

  // Exchanging the coordinates inverts the line.
  lemma LineInverts(k0: real, k1: real, v0: real, v1: real, k: real)
    requires k0 < k1 && v0 < v1
    ensures Line(v0, v1, k0, k1, Line(k0, k1, v0, v1, k)) == k
  {
    hide Slope;
    var up, down := Slope(k0, k1, v0, v1), Slope(v0, v1, k0, k1);
    UnitProduct(k1 - k0, v1 - v0, up, down);
    assert down * (up * (k - k0)) == (down * up) * (k - k0);
  }

  lemma UnitProduct(dk: real, dv: real, up: real, down: real)
    requires dk > 0.0 && dv > 0.0 && up * dk == dv && down * dv == dk
    ensures down * up == 1.0
  {
    assert (down * up) * dk == down * (up * dk);
    assert down * (up * dk) == down * dv;
    assert (down * up - 1.0) * dk == 0.0;
  }

  // The number of the segment that the key belongs to: the first key not below it ends it. Keys
  // below the first one belong to the first segment.
  ghost function Segment(keys: seq<real>, k: real): (i: nat)
    requires |keys| >= 2 && k <= keys[|keys| - 1]
    ensures 1 <= i < |keys| && k <= keys[i]
    ensures forall j :: 1 <= j < i ==> keys[j] < k
  {
    SegmentFrom(keys, k, 1)
  }

  ghost function SegmentFrom(keys: seq<real>, k: real, from: nat): (i: nat)
    requires 1 <= from < |keys| && k <= keys[|keys| - 1]
    requires forall j :: 1 <= j < from ==> keys[j] < k
    ensures from <= i < |keys| && k <= keys[i]
    ensures forall j :: 1 <= j < i ==> keys[j] < k
    decreases |keys| - from
  {
    if k <= keys[from] then from else SegmentFrom(keys, k, from + 1)
  }

  lemma SegmentIs(keys: seq<real>, k: real, i: nat)
    requires Increasing(keys) && |keys| >= 2 && k <= keys[|keys| - 1]
    requires 1 <= i < |keys| && k <= keys[i] && (i == 1 || keys[i - 1] < k)
    ensures Segment(keys, k) == i
  {
  }

  ghost function Interpolate(keys: seq<real>, vals: seq<real>, k: real): real
    requires Curve(keys, vals) && k <= keys[|keys| - 1]
  {
    var i := Segment(keys, k);
    Line(keys[i - 1], keys[i], vals[i - 1], vals[i], k)
  }

  // Keys of a segment have values of the same segment.
  lemma SameSegment(keys: seq<real>, vals: seq<real>, k: real)
    requires Curve(keys, vals) && k <= keys[|keys| - 1]
    ensures var v, i := Interpolate(keys, vals, k), Segment(keys, k);
      v <= vals[i] && (i == 1 || vals[i - 1] < v) && v <= vals[|vals| - 1]
  {
    var i := Segment(keys, k);
    LineEnds(keys[i - 1], keys[i], vals[i - 1], vals[i]);
    if k < keys[i] {
      LineGrows(keys[i - 1], keys[i], vals[i - 1], vals[i], k, keys[i]);
    }
    if i > 1 {
      LineGrows(keys[i - 1], keys[i], vals[i - 1], vals[i], keys[i - 1], k);
    }
  }

  lemma InterpolateInverts(keys: seq<real>, vals: seq<real>, k: real)
    requires Curve(keys, vals) && k <= keys[|keys| - 1]
    ensures Interpolate(keys, vals, k) <= vals[|vals| - 1]
    ensures Interpolate(vals, keys, Interpolate(keys, vals, k)) == k
  {
    var v, i := Interpolate(keys, vals, k), Segment(keys, k);
    SameSegment(keys, vals, k);
    SegmentIs(vals, v, i);
    LineInverts(keys[i - 1], keys[i], vals[i - 1], vals[i], k);
  }

  lemma InterpolateGrows(keys: seq<real>, vals: seq<real>, k: real, l: real)
    requires Curve(keys, vals) && k < l <= keys[|keys| - 1]
    ensures Interpolate(keys, vals, k) < Interpolate(keys, vals, l)
  {
    var i, j := Segment(keys, k), Segment(keys, l);
    SameSegment(keys, vals, k);
    SameSegment(keys, vals, l);
    if i == j {
      LineGrows(keys[i - 1], keys[i], vals[i - 1], vals[i], k, l);
    } else {
      assert i < j;
      assert i == j - 1 || vals[i] < vals[j - 1];
    }
  }

  // The curve goes through its points.
  lemma InterpolateAt(keys: seq<real>, vals: seq<real>, i: nat)
    requires Curve(keys, vals) && i < |keys|
    ensures keys[i] <= keys[|keys| - 1] && Interpolate(keys, vals, keys[i]) == vals[i]
  {
    var s := if i == 0 then 1 else i;
    assert i < |keys| - 1 ==> keys[i] < keys[|keys| - 1];
    SegmentIs(keys, keys[i], s);
    LineEnds(keys[s - 1], keys[s], vals[s - 1], vals[s]);
  }

  // ---------- the area under the curve ----------

  ghost function DoubleRectangle(value: real, width: real): real { 2.0 * value * width }

  // Twice the area of the first i segments.
  ghost function DoubleAreaUpTo(keys: seq<real>, vals: seq<real>, i: nat): real
    requires i < |keys| == |vals|
  {
    if i == 0 then 0.0 else
      DoubleAreaUpTo(keys, vals, i - 1) + (vals[i - 1] + vals[i]) * (keys[i] - keys[i - 1])
  }

  // Twice the area from the first key to k, counted negative to the left of the first key.
  ghost function DoubleArea(keys: seq<real>, vals: seq<real>, k: real): real
    requires Curve(keys, vals) && k <= keys[|keys| - 1]
  {
    var i := Segment(keys, k);
    DoubleAreaUpTo(keys, vals, i - 1) + (vals[i - 1] + Interpolate(keys, vals, k)) * (k - keys[i - 1])
  }

  // Within a segment the area is a trapezoid.
  lemma Trapezoid(keys: seq<real>, vals: seq<real>, i: nat, k: real, l: real)
    requires Curve(keys, vals) && 1 <= i < |keys| && k <= l
    ensures
      var a := Line(keys[i - 1], keys[i], vals[i - 1], vals[i], k);
      var b := Line(keys[i - 1], keys[i], vals[i - 1], vals[i], l);
      (vals[i - 1] + b) * (l - keys[i - 1]) - (vals[i - 1] + a) * (k - keys[i - 1]) == (a + b) * (l - k)
  {
    assert keys[i - 1] < keys[i];
    hide Slope, Increasing;
    var x, s, u, w := vals[i - 1], Slope(keys[i - 1], keys[i], vals[i - 1], vals[i]), k - keys[i - 1], l - keys[i - 1];
    assert (x + (x + s * w)) * w == 2.0 * (x * w) + s * w * w;
    assert (x + (x + s * u)) * u == 2.0 * (x * u) + s * u * u;
    assert ((x + s * u) + (x + s * w)) * (w - u) == 2.0 * (x * w) - 2.0 * (x * u) + s * w * w - s * u * u;
  }

  // The area between k and l lies between the rectangles on the two values.
  lemma {:induction false} AreaBetween(keys: seq<real>, vals: seq<real>, k: real, l: real)
    requires Curve(keys, vals) && k <= l <= keys[|keys| - 1]
    ensures var area := DoubleArea(keys, vals, l) - DoubleArea(keys, vals, k);
      DoubleRectangle(Interpolate(keys, vals, k), l - k) <= area <= DoubleRectangle(Interpolate(keys, vals, l), l - k)
    decreases Segment(keys, l)
  {
    hide Interpolate, DoubleArea, Increasing;
    if k < l {
      hide DoubleRectangle;
      var i, j := Segment(keys, k), Segment(keys, l);
      if i == j {
        AreaWithin(keys, vals, k, l);
      } else {
        var m := keys[j - 1];
        Before(keys, k, l);
        AreaBetween(keys, vals, k, m);
        LastSegment(keys, vals, l);
        NotBelow(keys, vals, k, m);
        NotBelow(keys, vals, m, l);
        Rectangles(Interpolate(keys, vals, k), vals[j - 1], Interpolate(keys, vals, l), k, m, l);
      }
    }
  }

  lemma AreaWithin(keys: seq<real>, vals: seq<real>, k: real, l: real)
    requires Curve(keys, vals) && k <= l <= keys[|keys| - 1] && Segment(keys, k) == Segment(keys, l)
    ensures var area := DoubleArea(keys, vals, l) - DoubleArea(keys, vals, k);
      DoubleRectangle(Interpolate(keys, vals, k), l - k) <= area <= DoubleRectangle(Interpolate(keys, vals, l), l - k)
  {
    hide *;
    NotBelow(keys, vals, k, l);
    AreaIsTrapezoid(keys, vals, k, l);
    SumTimes(Interpolate(keys, vals, k), Interpolate(keys, vals, l), l - k);
  }

  lemma AreaIsTrapezoid(keys: seq<real>, vals: seq<real>, k: real, l: real)
    requires Curve(keys, vals) && k <= l <= keys[|keys| - 1] && Segment(keys, k) == Segment(keys, l)
    ensures DoubleArea(keys, vals, l) - DoubleArea(keys, vals, k)
      == (Interpolate(keys, vals, k) + Interpolate(keys, vals, l)) * (l - k)
  {
    hide Line, DoubleAreaUpTo, Increasing, Segment;
    Trapezoid(keys, vals, Segment(keys, k), k, l);
  }

  lemma NotBelow(keys: seq<real>, vals: seq<real>, k: real, l: real)
    requires Curve(keys, vals) && k <= l <= keys[|keys| - 1]
    ensures Interpolate(keys, vals, k) <= Interpolate(keys, vals, l)
  {
    if k < l {
      InterpolateGrows(keys, vals, k, l);
    }
  }

  // The last segment boundary before l is not before k, if k is in an earlier segment.
  lemma Before(keys: seq<real>, k: real, l: real)
    requires Increasing(keys) && |keys| >= 2 && k <= l <= keys[|keys| - 1]
    requires Segment(keys, k) != Segment(keys, l)
    ensures 2 <= Segment(keys, l) && k <= keys[Segment(keys, l) - 1] < l
    ensures Segment(keys, keys[Segment(keys, l) - 1]) < Segment(keys, l)
  {
    var i, j := Segment(keys, k), Segment(keys, l);
    assert i < j;
    assert i == j - 1 || keys[i] < keys[j - 1];
    SegmentIs(keys, keys[j - 1], j - 1);
  }

  lemma SumTimes(a: real, b: real, d: real)
    requires a <= b && 0.0 <= d
    ensures DoubleRectangle(a, d) <= (a + b) * d <= DoubleRectangle(b, d)
  {
    assert (b - a) * d >= 0.0;
    assert (a + b) * d == 2.0 * a * d + (b - a) * d;
    assert (a + b) * d == 2.0 * b * d - (b - a) * d;
  }

  // From the start of the segment of l to l.
  lemma LastSegment(keys: seq<real>, vals: seq<real>, l: real)
    requires Curve(keys, vals) && l <= keys[|keys| - 1] && Segment(keys, l) >= 2
    ensures var (m, v) := (keys[Segment(keys, l) - 1], vals[Segment(keys, l) - 1]);
      && m < l
      && Interpolate(keys, vals, m) == v
      && DoubleArea(keys, vals, l) - DoubleArea(keys, vals, m) == (v + Interpolate(keys, vals, l)) * (l - m)
  {
    var j := Segment(keys, l);
    SegmentIs(keys, keys[j - 1], j - 1);
    InterpolateAt(keys, vals, j - 1);
  }

  lemma Rectangles(a: real, b: real, c: real, k: real, m: real, l: real)
    requires a <= b <= c && k <= m <= l
    ensures DoubleRectangle(a, l - k) <= DoubleRectangle(a, m - k) + (b + c) * (l - m)
    ensures DoubleRectangle(b, m - k) + (b + c) * (l - m) <= DoubleRectangle(c, l - k)
  {
    RectangleSplit(a, k, m, l);
    RectangleSplit(c, k, m, l);
    SumTimes(b, c, l - m);
    Wider(a, b, l - m);
    Wider(a, c, l - m);
    Wider(b, c, l - m);
    Wider(b, c, m - k);
    hide DoubleRectangle;
  }

  lemma RectangleSplit(value: real, k: real, m: real, l: real)
    ensures DoubleRectangle(value, l - k) == DoubleRectangle(value, m - k) + DoubleRectangle(value, l - m)
  {
  }

  lemma Wider(a: real, b: real, width: real)
    requires a <= b && width >= 0.0
    ensures DoubleRectangle(a, width) <= DoubleRectangle(b, width)
    ensures DoubleRectangle(a, width) == a * width + a * width && DoubleRectangle(b, width) == b * width + b * width
  {
    assert (b - a) * width >= 0.0;
  }
}
