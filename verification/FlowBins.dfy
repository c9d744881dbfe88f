/** The choice of size bins from a size distribution (traffic_gen/flow_bins.py). */
module FlowBins {
  import opened Outcomes
  import opened CustomRands

  // int() of a float cuts towards zero.
  function Trunc(r: real): int {
    if r >= 0.0 then r.Floor else -((-r).Floor)
  }

  function Ceil(r: real): int { -((-r).Floor) }

  // The lines printed for an accepted distribution: a size and its percentile each.
  datatype Printed = InvalidCdf | Bins(lines: seq<(int, real)>)

  // A visited point: a size in whole bytes and the percentile it was found at.
  type Visit = (int, real)

  ghost predicate IsVisit(cdf: Cdf, v: Visit)
    requires Accepted(cdf)
  {
    1.0 <= v.1 <= 100.0 && v.0 == Trunc(ValueAt(cdf, v.1))
  }

  // From one visit to the next the percentile goes down by at most 1 and the size does not grow. A
  // size above 1000 at most halves: if one percentile down would be less, the next visit is its half,
  // at the percentile of that.
  ghost predicate IsStep(cdf: Cdf, v: Visit, w: Visit)
    requires Accepted(cdf)
  {
    && v.0 > 0 && 1.0 < v.1 <= 100.0
    && v.1 - 1.0 <= w.1 < v.1 && w.0 <= v.0
    && var p := if v.1 > 2.0 then v.1 - 1.0 else 1.0;
       var next := Trunc(ValueAt(cdf, p));
       if v.0 > 1000 && next < v.0 / 2 then
         (v.0 / 2) as real <= cdf[|cdf| - 1].0 && w == (v.0 / 2, PercentileAt(cdf, (v.0 / 2) as real))
       else w == (next, p)
  }

  // The way down from percentile 100, until percentile 1 has been used or no bytes are left.
  ghost predicate Descent(cdf: Cdf, visits: seq<Visit>)
    requires Accepted(cdf)
  {
    && visits != [] && visits[0].1 == 100.0
    && (forall k :: 0 <= k < |visits| ==> IsVisit(cdf, visits[k]))
    && (forall k :: 0 <= k < |visits| - 1 ==> IsStep(cdf, visits[k], visits[k + 1]))
  }

  ghost predicate AtBottom(visits: seq<Visit>)
    requires visits != []
  {
    var last := visits[|visits| - 1]; last.0 <= 0 || last.1 <= 1.0
  }

  // Next to each other on the way down are percentiles exactly 1 apart, or the last one is 1, or it is
  // where the size is exactly half of a large one that would otherwise have shrunk to less.
  lemma OneOrHalf(cdf: Cdf, visits: seq<Visit>, k: nat)
    requires Accepted(cdf) && Descent(cdf, visits) && k + 1 < |visits|
    ensures var (v, w) := (visits[k], visits[k + 1]);
      && 1.0 < v.1 <= 100.0
      && (|| (v.1 > 2.0 && w.1 == v.1 - 1.0)
          || (v.1 <= 2.0 && w.1 == 1.0)
          || (v.0 > 1000 && w.0 == v.0 / 2 && ValueAt(cdf, w.1) == (v.0 / 2) as real
              && ValueAt(cdf, v.1 - 1.0) < (v.0 / 2) as real))
  {
    var (v, w) := (visits[k], visits[k + 1]);
    assert IsStep(cdf, v, w);
    var p := if v.1 > 2.0 then v.1 - 1.0 else 1.0;
    TruncBounds(ValueAt(cdf, p));
    if v.0 > 1000 && Trunc(ValueAt(cdf, p)) < v.0 / 2 {
      ValueOfPercentile(cdf, (v.0 / 2) as real);
      if v.1 - 1.0 < p {
        ValueGrows(cdf, v.1 - 1.0, p);
      }
    }
    hide Accepted, ValueAt, PercentileAt, Trunc;
  }

  // There is only one way down.
  lemma DescentIsUnique(cdf: Cdf, v: seq<Visit>, w: seq<Visit>, k: nat)
    requires Accepted(cdf) && Descent(cdf, v) && AtBottom(v) && Descent(cdf, w) && AtBottom(w)
    requires k < |v|
    ensures |v| == |w| && v[k] == w[k]
  {
    hide Accepted, ValueAt, PercentileAt, Trunc;
    SameStart(cdf, v, w, k);
    SameStart(cdf, w, v, |w| - 1);
    SameStart(cdf, v, w, |v| - 1);
  }

  lemma {:induction false} SameStart(cdf: Cdf, v: seq<Visit>, w: seq<Visit>, k: nat)
    requires Accepted(cdf) && Descent(cdf, v) && Descent(cdf, w) && AtBottom(w)
    requires k < |v|
    ensures k < |w| && v[k] == w[k]
  {
    hide Accepted, ValueAt, PercentileAt, Trunc;
    if k == 0 {
      assert IsVisit(cdf, v[0]) && IsVisit(cdf, w[0]);
    } else {
      SameStart(cdf, v, w, k - 1);
      assert IsStep(cdf, v[k - 1], v[k - 1 + 1]);
      assert k < |w|;
      assert IsStep(cdf, w[k - 1], w[k - 1 + 1]);
    }
  }

  ghost function SizesWithBytes(visits: seq<Visit>): set<int> {
    if visits == [] then {} else
      var x := visits[|visits| - 1].0;
      SizesWithBytes(visits[..|visits| - 1]) + if x > 0 then {x} else {}
  }

  ghost predicate Falling(bins: seq<int>) {
    forall i, j :: 0 <= i < j < |bins| ==> bins[i] > bins[j]
  }

  ghost predicate AtMostHalving(bins: seq<int>) {
    forall i, j :: 0 <= i < j == i + 1 < |bins| && bins[i] > 1000 ==> bins[j] >= bins[i] / 2
  }

  lemma FallFurther(bins: seq<int>, x: int)
    requires Falling(bins) && AtMostHalving(bins)
    requires bins != [] ==> x < bins[|bins| - 1] && (bins[|bins| - 1] > 1000 ==> x >= bins[|bins| - 1] / 2)
    ensures Falling(bins + [x]) && AtMostHalving(bins + [x])
  {
  }

  // The bins are the sizes visited, as long as they have bytes, each size once. Each bin above
  // 1000 is followed by one that is not less than half of it.
  ghost predicate BinsOf(bins: seq<int>, visits: seq<Visit>) {
    && (forall x :: x in bins <==> x in SizesWithBytes(visits))
    && Falling(bins) && AtMostHalving(bins)
  }

  lemma TruncBounds(r: real)
    ensures r >= 0.0 ==> Trunc(r) as real <= r < Trunc(r) as real + 1.0
    ensures r < 0.0 ==> Trunc(r) as real - 1.0 < r <= Trunc(r) as real <= 0.0
  {
  }

  lemma CeilStep(p: real, q: real)
    requires p > 1.0 && q == if p > 2.0 then p - 1.0 else 1.0
    ensures Ceil(q) <= Ceil(p) - 1
  {
  }

  // When the next size would be less than half of the last one, the half lies strictly between two
  // percentiles: it has a percentile of its own, and no error is reported.
  lemma HalfBetween(cdf: Cdf, x: int, p: real, q: real)
    requires Accepted(cdf) && IsVisit(cdf, (x, p)) && q < p && x > 1000
    requires Trunc(ValueAt(cdf, q)) < x / 2
    ensures 0.0 <= (x / 2) as real <= cdf[|cdf| - 1].0
    ensures q < PercentileAt(cdf, (x / 2) as real) < p
    ensures Trunc(ValueAt(cdf, PercentileAt(cdf, (x / 2) as real))) == x / 2
  {
    var half, low, high := (x / 2) as real, ValueAt(cdf, q), ValueAt(cdf, p);
    TruncBounds(high);
    TruncBounds(low);
    assert low < half < high;
    PercentileOfValue(cdf, p);
    PercentileOfValue(cdf, q);
    PercentileGrows(cdf, low, half);
    PercentileGrows(cdf, half, high);
    ValueOfPercentile(cdf, half);
  }

  lemma NextNotLarger(cdf: Cdf, x: int, p: real, q: real)
    requires Accepted(cdf) && IsVisit(cdf, (x, p)) && q < p && x > 0
    ensures Trunc(ValueAt(cdf, q)) <= x
  {
    ValueGrows(cdf, q, p);
    TruncBounds(ValueAt(cdf, q));
    TruncBounds(ValueAt(cdf, p));
  }

  // The bins when the last visit has not been looked at yet.
  ghost predicate BinsSoFar(bins: seq<int>, visits: seq<Visit>) {
    && visits != []
    && BinsOf(bins, visits[..|visits| - 1])
    && (bins == [] <==> |visits| == 1)
    && (bins != [] ==>
          var x, last := visits[|visits| - 1].0, bins[|bins| - 1];
          x <= last && (last > 1000 ==> x >= last / 2))
  }

  lemma TakeBin(bins: seq<int>, visits: seq<Visit>)
    requires BinsSoFar(bins, visits) && visits[|visits| - 1].0 > 0
    ensures var x := visits[|visits| - 1].0;
      var taken := if bins == [] || x != bins[|bins| - 1] then bins + [x] else bins;
      BinsOf(taken, visits) && taken != [] && taken[|taken| - 1] == x
  {
    var x := visits[|visits| - 1].0;
    assert SizesWithBytes(visits) == SizesWithBytes(visits[..|visits| - 1]) + {x};
    hide SizesWithBytes;
    if bins == [] || x != bins[|bins| - 1] {
      FallFurther(bins, x);
    }
    hide Falling, AtMostHalving;
    var longer := bins + [x];
    assert forall y :: y in longer <==> y in bins || y == x;
    assert bins != [] ==> bins[|bins| - 1] in bins;
  }

  // A last visit without bytes adds no bin.
  lemma NoBin(bins: seq<int>, visits: seq<Visit>)
    requires BinsSoFar(bins, visits) && visits[|visits| - 1].0 <= 0
    ensures BinsOf(bins, visits)
  {
  }

  lemma GoDown(cdf: Cdf, visits: seq<Visit>, bins: seq<int>, w: Visit)
    requires Accepted(cdf) && Descent(cdf, visits) && BinsOf(bins, visits)
    requires bins != [] && bins[|bins| - 1] == visits[|visits| - 1].0
    requires IsVisit(cdf, w) && IsStep(cdf, visits[|visits| - 1], w)
    ensures Descent(cdf, visits + [w]) && BinsSoFar(bins, visits + [w])
  {
    hide IsVisit, Accepted;
    assert (visits + [w])[..|visits|] == visits;
  }

  lemma StartAtTop(cdf: Cdf, x: int)
    requires Accepted(cdf) && x == Trunc(ValueAt(cdf, 100.0))
    ensures Descent(cdf, [(x, 100.0)]) && BinsSoFar([], [(x, 100.0)])
  {
  }

  // The size one percentile down, or the half of a large size if that is more.
  method NextVisit(r: CustomRand, x: int, p: real) returns (x1: int, p1: real)
    requires Accepted(r.cdf) && IsVisit(r.cdf, (x, p)) && x > 0 && p > 1.0
    ensures IsVisit(r.cdf, (x1, p1)) && IsStep(r.cdf, (x, p), (x1, p1))
    ensures x1 + Ceil(p1) < x + Ceil(p)
  {
    hide Accepted, ValueAt, PercentileAt, Trunc;
    if p > 2.0 {
      p1 := p - 1.0;
    } else {
      p1 := 1.0;
    }
    var next := r.GetValueFromPercentile(p1);
    x1 := Trunc(next.value);
    CeilStep(p, p1);
    NextNotLarger(r.cdf, x, p, p1);
    if x1 < x / 2 && x > 1000 {
      HalfBetween(r.cdf, x, p, p1);
      x1 := x / 2;
      p1 := r.GetPercentileFromValue(x1 as real);
      CeilGrows(p1, p);
    }
    if p1 < 0.0 {
      assert false;
    }
  }

  lemma CeilGrows(p: real, q: real)
    requires p <= q
    ensures Ceil(p) <= Ceil(q)
  {
  }

  lemma {:induction false} BinsFit(cdf: Cdf, visits: seq<Visit>, x: int)
    requires Accepted(cdf) && (forall k :: 0 <= k < |visits| ==> IsVisit(cdf, visits[k]))
    requires x in SizesWithBytes(visits)
    ensures 0 < x && x as real <= cdf[|cdf| - 1].0
  {
    var v := visits[|visits| - 1];
    if v.0 == x && x > 0 {
      assert IsVisit(cdf, v);
      TruncBounds(ValueAt(cdf, v.1));
      PercentileOfValue(cdf, v.1);
    } else {
      BinsFit(cdf, visits[..|visits| - 1], x);
    }
  }

  lemma Ends(cdf: Cdf)
    requires Accepted(cdf)
    ensures |cdf| >= 2
  {
  }

  lemma BinsInside(cdf: Cdf, bins: seq<int>, visits: seq<Visit>)
    requires Accepted(cdf) && Descent(cdf, visits) && BinsOf(bins, visits)
    ensures Falling(bins) && AtMostHalving(bins)
    ensures forall x :: x in bins ==> 0 < x && x as real <= cdf[|cdf| - 1].0
  {
    Ends(cdf);
    hide Accepted, ValueAt, IsVisit, IsStep;
    forall x | x in bins
      ensures 0 < x && x as real <= cdf[|cdf| - 1].0
    {
      BinsFit(cdf, visits, x);
    }
  }

  // The loop: from each size go on to the size one percentile down, or to half the size. The
  // percentile of the half is never negative, so the script does not stop with its error message.
  method ChooseBins(r: CustomRand) returns (bins: seq<int>, ghost visits: seq<Visit>)
    requires Accepted(r.cdf)
    ensures Falling(bins) && AtMostHalving(bins)
    ensures forall x :: x in bins ==> 0 < x && x as real <= r.cdf[|r.cdf| - 1].0
    ensures Descent(r.cdf, visits) && AtBottom(visits)
    ensures BinsOf(bins, visits)
  {
    hide Accepted, BinsOf, ValueAt;
    var top := r.GetValueFromPercentile(100.0);
    var x := Trunc(top.value);
    var p := 100.0;
    bins := [];
    visits := [(x, p)];
    StartAtTop(r.cdf, x);
    while x > 0
      invariant Descent(r.cdf, visits) && visits[|visits| - 1] == (x, p)
      invariant BinsSoFar(bins, visits)
      decreases x + Ceil(p)
    {
      hide Descent, BinsSoFar;
      TakeBin(bins, visits);
      if |bins| == 0 || x != bins[|bins| - 1] {
        bins := bins + [x];
      }
      if p <= 1.0 {
        break;
      }
      var x1, p1 := NextVisit(r, x, p);
      GoDown(r.cdf, visits, bins, (x1, p1));
      x := x1;
      p := p1;
      visits := visits + [(x, p)];
    }
    if x <= 0 {
      NoBin(bins, visits);
    }
    BinsInside(r.cdf, bins, visits);
  }

  ghost predicate Ascending(s: seq<int>) {
    forall i, j :: 0 <= i < j < |s| ==> s[i] <= s[j]
  }

  ghost predicate Rising(s: seq<int>) {
    forall i, j :: 0 <= i < j < |s| ==> s[i] < s[j]
  }

  // Insertion into an ascending list.
  method Insert(sorted: seq<int>, x: int) returns (r: seq<int>)
    requires Ascending(sorted)
    ensures Ascending(r) && (Rising(sorted) && x !in sorted ==> Rising(r))
    ensures multiset(r) == multiset(sorted) + multiset{x}
  {
    var k := 0;
    while k < |sorted| && sorted[k] < x
      invariant k <= |sorted| && forall i :: 0 <= i < k ==> sorted[i] < x
    {
      k := k + 1;
    }
    InsertKeepsOrder(sorted, k, x);
    hide Ascending, Rising;
    assert sorted == sorted[..k] + sorted[k..];
    r := sorted[..k] + [x] + sorted[k..];
  }

  lemma InsertKeepsOrder(sorted: seq<int>, k: nat, x: int)
    requires Ascending(sorted) && k <= |sorted|
    requires (forall i :: 0 <= i < k ==> sorted[i] < x) && (k < |sorted| ==> x <= sorted[k])
    ensures Ascending(sorted[..k] + [x] + sorted[k..])
    ensures Rising(sorted) && x !in sorted ==> Rising(sorted[..k] + [x] + sorted[k..])
  {
    assert forall i :: k <= i < |sorted| ==> x <= sorted[i];
    assert x !in sorted ==> forall i :: k <= i < |sorted| ==> x < sorted[i];
  }

  method Sort(s: seq<int>) returns (r: seq<int>)
    ensures Ascending(r) && multiset(r) == multiset(s)
    ensures (forall i, j :: 0 <= i < j < |s| ==> s[i] != s[j]) ==> Rising(r)
  {
    r := [];
    for i := 0 to |s|
      invariant Ascending(r) && multiset(r) == multiset(s[..i])
      invariant (forall i, j :: 0 <= i < j < |s| ==> s[i] != s[j]) ==> Rising(r)
    {
      assert s[..i + 1] == s[..i] + [s[i]];
      assert s[i] in r ==> s[i] in multiset(s[..i]);
      r := Insert(r, s[i]);
    }
    assert s[..|s|] == s;
  }

  // The percentile printed for a size is the one whose value is exactly that size.
  ghost predicate LineOk(cdf: Cdf, line: (int, real))
    requires Accepted(cdf)
  {
    && 0 < line.0 && line.0 as real <= cdf[|cdf| - 1].0
    && line.1 == PercentileAt(cdf, line.0 as real) <= 100.0
    && ValueAt(cdf, line.1) == line.0 as real
  }

  // The printed lines: sizes and percentiles rise, and sizes above 1000 at most double.
  ghost predicate LinesOk(cdf: Cdf, lines: seq<(int, real)>)
    requires Accepted(cdf)
  {
    && (forall i :: 0 <= i < |lines| ==> LineOk(cdf, lines[i]))
    && RisingLines(lines) && AtMostDoubling(lines)
  }

  ghost predicate RisingLines(lines: seq<(int, real)>) {
    forall i, j :: 0 <= i < j < |lines| ==> lines[i].0 < lines[j].0 && lines[i].1 < lines[j].1
  }

  ghost predicate AtMostDoubling(lines: seq<(int, real)>) {
    forall i, j :: 0 <= i < j == i + 1 < |lines| && lines[j].0 > 1000 ==> lines[i].0 >= lines[j].0 / 2
  }

  lemma RiseFurther(lines: seq<(int, real)>, line: (int, real))
    requires RisingLines(lines) && AtMostDoubling(lines)
    requires lines != [] ==> var last := lines[|lines| - 1];
      last.0 < line.0 && last.1 < line.1 && (line.0 > 1000 ==> last.0 >= line.0 / 2)
    ensures RisingLines(lines + [line]) && AtMostDoubling(lines + [line])
  {
  }

  lemma LineAdded(cdf: Cdf, lines: seq<(int, real)>, x: int)
    requires Accepted(cdf) && LinesOk(cdf, lines) && 0 < x && x as real <= cdf[|cdf| - 1].0
    requires lines != [] ==> lines[|lines| - 1].0 < x && (x > 1000 ==> lines[|lines| - 1].0 >= x / 2)
    ensures LinesOk(cdf, lines + [(x, PercentileAt(cdf, x as real))])
  {
    Ends(cdf);
    hide Accepted, LineOk;
    var p := PercentileAt(cdf, x as real);
    NewLine(cdf, lines, x);
    hide ValueAt, PercentileAt;
    RiseFurther(lines, (x, p));
    hide RisingLines, AtMostDoubling;
  }

  lemma NewLine(cdf: Cdf, lines: seq<(int, real)>, x: int)
    requires Accepted(cdf) && 0 < x && x as real <= cdf[|cdf| - 1].0
    requires lines != [] ==> LineOk(cdf, lines[|lines| - 1]) && lines[|lines| - 1].0 < x
    ensures LineOk(cdf, (x, PercentileAt(cdf, x as real)))
    ensures lines != [] ==> lines[|lines| - 1].1 < PercentileAt(cdf, x as real)
  {
    hide ValueAt, PercentileAt;
    ValueOfPercentile(cdf, x as real);
    if lines != [] {
      PercentileGrows(cdf, lines[|lines| - 1].0 as real, x as real);
    }
  }

  // Next to each other in ascending order are bins that were chosen next to each other.
  lemma SortedBins(bins: seq<int>, visits: seq<Visit>, sorted: seq<int>, i: nat)
    requires BinsOf(bins, visits) && Rising(sorted) && multiset(sorted) == multiset(bins)
    requires i < |sorted|
    ensures sorted[i] in SizesWithBytes(visits)
    ensures i > 0 && sorted[i] > 1000 ==> sorted[i - 1] >= sorted[i] / 2
  {
    hide SizesWithBytes;
    assert sorted[i] in multiset(bins);
    if i > 0 && sorted[i] > 1000 {
      assert sorted[i - 1] in multiset(bins);
      var j :| 0 <= j < |bins| && bins[j] == sorted[i];
      var k :| 0 <= k < |bins| && bins[k] == sorted[i - 1];
      assert j < k;
      assert bins[j + 1] in multiset(sorted);
      var m :| 0 <= m < |sorted| && sorted[m] == bins[j + 1];
      assert m < i;
    }
  }

  // The printed sizes are the sizes with bytes met on the way down.
  ghost predicate PrintedAll(lines: seq<(int, real)>, visits: seq<Visit>) {
    forall x :: x in SizesWithBytes(visits) <==> exists i :: 0 <= i < |lines| && lines[i].0 == x
  }

  method PrintBins(r: CustomRand, bins: seq<int>, ghost visits: seq<Visit>) returns (lines: seq<(int, real)>)
    requires Accepted(r.cdf) && Descent(r.cdf, visits) && BinsOf(bins, visits)
    ensures LinesOk(r.cdf, lines) && PrintedAll(lines, visits)
  {
    hide Accepted, ValueAt, PercentileAt, LinesOk, IsVisit, IsStep, BinsOf;
    Different(bins, visits);
    var sorted := Sort(bins);
    hide Rising, Ascending;
    lines := [];
    NoLines(r.cdf);
    for i := 0 to |sorted|
      invariant |lines| == i && forall k :: 0 <= k < i ==> lines[k].0 == sorted[k]
      invariant LinesOk(r.cdf, lines)
    {
      var x := sorted[i];
      SortedBins(bins, visits, sorted, i);
      BinsFit(r.cdf, visits, x);
      LineAdded(r.cdf, lines, x);
      var p := r.GetPercentileFromValue(x as real);
      lines := lines + [(x, p)];
    }
    AllPrinted(bins, visits, sorted, lines);
  }

  lemma Different(bins: seq<int>, visits: seq<Visit>)
    requires BinsOf(bins, visits)
    ensures forall i, j :: 0 <= i < j < |bins| ==> bins[i] != bins[j]
  {
  }

  lemma AllPrinted(bins: seq<int>, visits: seq<Visit>, sorted: seq<int>, lines: seq<(int, real)>)
    requires BinsOf(bins, visits) && multiset(sorted) == multiset(bins)
    requires |lines| == |sorted| && forall k :: 0 <= k < |sorted| ==> lines[k].0 == sorted[k]
    ensures PrintedAll(lines, visits)
  {
    forall x
      ensures x in SizesWithBytes(visits) <==> exists i :: 0 <= i < |lines| && lines[i].0 == x
    {
      assert x in SizesWithBytes(visits) <==> x in multiset(bins);
      assert x in sorted <==> x in multiset(sorted);
      if x in sorted {
        var k :| 0 <= k < |sorted| && sorted[k] == x;
        assert lines[k].0 == x;
      }
    }
  }

  lemma NoLines(cdf: Cdf)
    requires Accepted(cdf)
    ensures LinesOk(cdf, [])
  {
  }

  // The script: an empty file fails on its first point, an unacceptable distribution is refused,
  // and otherwise the sizes met on the way down from percentile 100 are printed.
  method FlowBins(cdf: Cdf) returns (printed: Outcome<Printed>, ghost visits: seq<Visit>)
    ensures printed.IndexError? <==> cdf == []
    ensures printed == Returned(InvalidCdf) <==> cdf != [] && !Accepted(cdf)
    ensures printed.Returned? && printed.value.Bins? ==>
      && Descent(cdf, visits) && AtBottom(visits)
      && LinesOk(cdf, printed.value.lines) && PrintedAll(printed.value.lines, visits)
  {
    visits := [];
    var customRand := new CustomRand();
    var ok := customRand.SetCdf(cdf);
    if ok.IndexError? {
      return IndexError, visits;
    }
    if !ok.value {
      return Returned(InvalidCdf), visits;
    }
    hide Accepted, Descent, LinesOk, BinsOf, PrintedAll;
    var bins: seq<int>;
    bins, visits := ChooseBins(customRand);
    var lines := PrintBins(customRand, bins, visits);
    return Returned(Bins(lines)), visits;
  }
}
