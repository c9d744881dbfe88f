/** Chains of adjacent ranks that miss the same packet (plot,
    analysis/src/models/bitmap-repartition.py). */
module MissChains {

  // What was received: rows of (rank, packet), possibly repeated.
  datatype Bitmaps = Bitmaps(numRanks: nat, numPkts: nat, received: seq<(int, int)>) {
    predicate Missed(rank: int, packet: int) {
      0 <= packet < numPkts && (rank, packet) !in received
    }

    // The packet column of the rows of bitmaps_misses for one rank.
    function MissedBy(rank: int): set<int> {
      set packet | 0 <= packet < numPkts && Missed(rank, packet)
    }

    // The rank that is t places after start on the ring misses the packet.
    ghost predicate MissedAfter(start: nat, t: nat, packet: int)
      requires numRanks > 0
    {
      Missed((start + t) % numRanks, packet)
    }

    // The ranks from start on, i + 1 of them going round the ring, all miss the packet.
    ghost predicate Window(start: nat, i: nat, packet: int)
      requires numRanks > 0
    {
      forall t: nat :: t <= i ==> MissedAfter(start, t, packet)
    }

    ghost function Pairs(): set<(int, int)> {
      set rank, packet | 0 <= rank < numRanks && 0 <= packet < numPkts :: (rank, packet)
    }

    // All windows of i + 1 ranks, as pairs of a starting rank and a packet.
    ghost function Windows(i: nat): set<(int, int)>
      requires numRanks > 0
    {
      set x | x in Pairs() && Window(x.0, i, x.1)
    }

    ghost function WindowsBelow(first: nat, i: nat): set<(int, int)>
      requires numRanks > 0
    {
      set x | x in Windows(i) && x.0 < first
    }

    ghost function Previous(rank: nat): nat
      requires rank < numRanks
    {
      if rank == 0 then numRanks - 1 else rank - 1
    }

    // Exactly the i + 1 ranks from start on miss the packet, and their neighbours do not.
    ghost predicate MaximalRun(start: nat, i: nat, packet: int)
      requires start < numRanks
    {
      && Window(start, i, packet)
      && !Missed(Previous(start), packet)
      && !MissedAfter(start, i + 1, packet)
    }

    ghost function Runs(i: nat): set<(int, int)>
      requires numRanks > 0
    {
      set x | x in Pairs() && MaximalRun(x.0, i, x.1)
    }

    ghost function MissedByAll(): set<int> {
      set packet | 0 <= packet < numPkts && MissedEverywhere(packet)
    }

    ghost predicate MissedEverywhere(packet: int) {
      forall rank :: 0 <= rank < numRanks ==> Missed(rank, packet)
    }
  }

  // ---------- cardinalities ----------

  ghost function Image<T, U>(f: T -> U, s: set<T>): set<U> { set x <- s :: f(x) }

  lemma {:induction false} ImageSize<T, U>(f: T -> U, s: set<T>)
    requires forall x, y :: x in s && y in s && f(x) == f(y) ==> x == y
    ensures |Image(f, s)| == |s|
  {
    if s != {} {
      var x :| x in s;
      ImageSize(f, s - {x});
      assert Image(f, s) == Image(f, s - {x}) + {f(x)};
    }
  }

  lemma SplitSize<T>(s: set<T>, a: set<T>, b: set<T>)
    requires s == a + b && a !! b
    ensures |s| == |a| + |b|
  {
  }

  // ---------- counting the windows ----------

  lemma WindowLonger(b: Bitmaps, start: nat, i: nat, packet: int)
    requires b.numRanks > 0
    ensures b.Window(start, i + 1, packet) <==> b.Window(start, i, packet) && b.MissedAfter(start, i + 1, packet)
  {
    hide Bitmaps.MissedAfter;
  }

  // The windows that start at one rank, next to those that start below it.
  lemma OneMoreStart(b: Bitmaps, first: nat, i: nat, packets: set<int>)
    requires first < b.numRanks
    requires forall p :: p in packets <==> 0 <= p < b.numPkts && b.Window(first, i, p)
    ensures |b.WindowsBelow(first + 1, i)| == |b.WindowsBelow(first, i)| + |packets|
  {
    var f := (p: int) => (first as int, p);
    var here := Image(f, packets);
    ImageSize(f, packets);
    hide Bitmaps.Window;
    var below, upTo := b.WindowsBelow(first, i), b.WindowsBelow(first + 1, i);
    forall x
      ensures x in upTo <==> x in below || x in here
    {
      assert x in here ==> x == f(x.1);
      assert x in b.Pairs() <==> 0 <= x.0 < b.numRanks && 0 <= x.1 < b.numPkts;
      assert x.1 in packets ==> f(x.1) in here;
    }
    assert upTo == below + here;
    assert below !! here;
    SplitSize(upTo, below, here);
  }

  // The counts when the first i joins for this starting rank have been made.
  ghost predicate Counted(b: Bitmaps, counts: seq<int>, first: nat, i: nat)
    requires b.numRanks > 0
  {
    && |counts| == b.numRanks
    && (forall k :: 0 <= k < |counts| && k < i ==> counts[k] == |b.WindowsBelow(first + 1, k)|)
    && (forall k :: i <= k < |counts| ==> counts[k] == |b.WindowsBelow(first, k)|)
  }

  // The packets that are left when the first i joins have been made.
  ghost predicate Joined(b: Bitmaps, first: nat, i: nat, packets: set<int>)
    requires b.numRanks > 0
  {
    forall p :: p in packets <==>
      0 <= p < b.numPkts && if i == 0 then b.Missed(first, p) else b.Window(first, i - 1, p)
  }

  lemma JoinCounted(b: Bitmaps, counts: seq<int>, first: nat, i: nat, packets: set<int>)
    requires first < b.numRanks && i < b.numRanks && Counted(b, counts, first, i) && Joined(b, first, i + 1, packets)
    ensures Counted(b, counts[i := counts[i] + |packets|], first, i + 1)
  {
    hide Bitmaps.Window, Bitmaps.WindowsBelow;
    OneMoreStart(b, first, i, packets);
  }

  lemma NextStart(b: Bitmaps, counts: seq<int>, first: nat)
    requires b.numRanks > 0 && Counted(b, counts, first, b.numRanks)
    ensures Counted(b, counts, first + 1, 0)
  {
    hide Bitmaps.WindowsBelow;
  }

  lemma NoStart(b: Bitmaps, counts: seq<int>)
    requires 0 < b.numRanks == |counts| && forall k :: 0 <= k < |counts| ==> counts[k] == 0
    ensures Counted(b, counts, 0, 0)
  {
    forall k | 0 <= k < |counts|
      ensures b.WindowsBelow(0, k) == {}
    {
    }
  }

  lemma AllStarts(b: Bitmaps, counts: seq<int>)
    requires b.numRanks > 0 && Counted(b, counts, b.numRanks, 0)
    ensures forall i :: 0 <= i < |counts| ==> counts[i] == |b.Windows(i)|
  {
    forall i | 0 <= i < |counts|
      ensures counts[i] == |b.Windows(i)|
    {
      assert b.WindowsBelow(b.numRanks, i) == b.Windows(i);
    }
  }

  // Join the misses of one rank with those of its neighbours, one after the other.
  method CountFrom(b: Bitmaps, missChains: array<int>, firstRank: nat)
    requires firstRank < b.numRanks && Counted(b, missChains[..], firstRank, 0)
    modifies missChains
    ensures Counted(b, missChains[..], firstRank, b.numRanks)
  {
    var firstRankMisses := b.MissedBy(firstRank);
    assert Joined(b, firstRank, 0, firstRankMisses);
    assert missChains.Length == b.numRanks;
    hide *;
    for i := 0 to b.numRanks
      invariant Counted(b, missChains[..], firstRank, i)
      invariant Joined(b, firstRank, i, firstRankMisses)
    {
      var secondRank := (firstRank + i) % b.numRanks;
      var secondRankMisses := b.MissedBy(secondRank);
      Narrow(b, firstRank, i, firstRankMisses, secondRankMisses);
      firstRankMisses := firstRankMisses * secondRankMisses;
      ghost var before := missChains[..];
      JoinCounted(b, before, firstRank, i, firstRankMisses);
      missChains[i] := missChains[i] + |firstRankMisses|;
      assert missChains[..] == before[i := before[i] + |firstRankMisses|];
    }
  }

  method CountWindows(b: Bitmaps) returns (missChains: array<int>)
    ensures fresh(missChains) && missChains.Length == b.numRanks
    ensures forall i :: 0 <= i < b.numRanks ==> missChains[i] == |b.Windows(i)|
  {
    missChains := new int[b.numRanks](_ => 0);
    if b.numRanks > 0 {
      NoStart(b, missChains[..]);
    }
    for firstRank := 0 to b.numRanks
      invariant b.numRanks > 0 ==> Counted(b, missChains[..], firstRank, 0)
    {
      hide Counted;
      CountFrom(b, missChains, firstRank);
      NextStart(b, missChains[..], firstRank);
    }
    if b.numRanks > 0 {
      AllStarts(b, missChains[..]);
    }
  }

  lemma Narrow(b: Bitmaps, firstRank: nat, i: nat, before: set<int>, joined: set<int>)
    requires firstRank < b.numRanks && joined == b.MissedBy((firstRank + i) % b.numRanks)
    requires Joined(b, firstRank, i, before)
    ensures Joined(b, firstRank, i + 1, before * joined)
  {
    forall p | 0 <= p < b.numPkts
      ensures p in before * joined <==> b.Window(firstRank, i, p)
    {
      if i == 0 {
        assert (firstRank + 0) % b.numRanks == firstRank;
        assert b.MissedAfter(firstRank, 0, p) <==> b.Missed(firstRank, p);
      } else {
        WindowLonger(b, firstRank, i - 1, p);
      }
    }
  }

  // ---------- the correction in place ----------

  ghost function At(raw: seq<int>, k: nat): int { if k < |raw| then raw[k] else 0 }

  ghost function SecondDifference(raw: seq<int>, k: nat): int {
    At(raw, k) - 2 * At(raw, k + 1) + At(raw, k + 2)
  }

  // The sum over all i >= m of (i - j + 1) * c[i].
  ghost function Weighted(c: seq<int>, j: nat, m: nat): int
    decreases |c| - m
  {
    if m >= |c| then 0 else (m - j + 1) * c[m] + Weighted(c, j, m + 1)
  }

  // What that sum comes to when c holds the second differences of raw.
  ghost function Collapsed(raw: seq<int>, j: nat, m: nat): int {
    (m - j + 1) * At(raw, m) - (m - j) * At(raw, m + 1)
  }

  lemma CollapseStep(raw: seq<int>, j: nat, m: nat)
    ensures Collapsed(raw, j, m) == (m - j + 1) * SecondDifference(raw, m) + Collapsed(raw, j, m + 1)
  {
    var d, x, y, z := m - j, At(raw, m), At(raw, m + 1), At(raw, m + 2);
    assert (d + 1) * (x - 2 * y + z) == (d + 1) * x - 2 * ((d + 1) * y) + (d + 1) * z;
    assert (d + 2) * y == (d + 1) * y + y && d * y == (d + 1) * y - y;
  }

  lemma {:induction false} WeightedCollapses(raw: seq<int>, c: seq<int>, j: nat, m: nat)
    requires |c| == |raw| && forall k :: 0 <= k < |c| ==> c[k] == SecondDifference(raw, k)
    requires j <= m <= |c|
    ensures Weighted(c, j, m) == Collapsed(raw, j, m)
    decreases |c| - m
  {
    if m < |c| {
      CollapseStep(raw, j, m);
      WeightedCollapses(raw, c, j, m + 1);
    }
  }

  // The corrected vector solves the triangular system that says how often each chain was counted,
  // and it is the only vector that does.
  lemma CorrectionSolves(raw: seq<int>, c: seq<int>)
    requires |c| == |raw|
    ensures (forall k :: 0 <= k < |c| ==> c[k] == SecondDifference(raw, k)) <==>
            (forall j :: 0 <= j < |c| ==> raw[j] == Weighted(c, j, j))
  {
    if forall k :: 0 <= k < |c| ==> c[k] == SecondDifference(raw, k) {
      forall j | 0 <= j < |c|
        ensures raw[j] == Weighted(c, j, j)
      {
        WeightedCollapses(raw, c, j, j);
      }
    }
    if forall j :: 0 <= j < |c| ==> raw[j] == Weighted(c, j, j) {
      forall k | 0 <= k < |c|
        ensures c[k] == SecondDifference(raw, k)
      {
        SolutionIsUnique(raw, c, k);
      }
    }
  }

  lemma SolutionIsUnique(raw: seq<int>, c: seq<int>, k: nat)
    requires |c| == |raw| && k < |c|
    requires forall j :: 0 <= j < |c| ==> raw[j] == Weighted(c, j, j)
    ensures c[k] == SecondDifference(raw, k)
  {
    WeightedShift(c, k, k + 1);
    WeightedShift(c, k + 1, k + 2);
    WeightedShift(c, k, k + 2);
  }

  // The plain sum of c from m on.
  ghost function Tail(c: seq<int>, m: nat): int
    decreases |c| - m
  {
    if m >= |c| then 0 else c[m] + Tail(c, m + 1)
  }

  lemma {:induction false} WeightedShift(c: seq<int>, j: nat, m: nat)
    ensures Weighted(c, j, m) == Weighted(c, j + 1, m) + Tail(c, m)
    decreases |c| - m
  {
    if m < |c| {
      WeightedShift(c, j, m + 1);
      assert (m - j + 1) * c[m] == (m - (j + 1) + 1) * c[m] + c[m];
    }
  }

  // Since each chain is counted several times, correct the values, longest chains first.
  method Correct(c: array<int>)
    modifies c
    ensures forall k :: 0 <= k < c.Length ==> c[k] == SecondDifference(old(c[..]), k)
  {
    ghost var raw := c[..];
    var i := c.Length - 1;
    while i > 0
      invariant -1 <= i < c.Length && (c.Length > 0 ==> i >= 0)
      invariant forall k :: i < k < c.Length ==> c[k] == SecondDifference(raw, k)
      invariant forall k :: 0 <= k <= i ==> c[k] == raw[k] - Collapsed(raw, k, i + 1)
    {
      assert c[i] == SecondDifference(raw, i);
      for j := 0 to i
        invariant forall k :: i <= k < c.Length ==> c[k] == SecondDifference(raw, k)
        invariant forall k :: 0 <= k < j ==> c[k] == raw[k] - Collapsed(raw, k, i)
        invariant forall k :: j <= k < i ==> c[k] == raw[k] - Collapsed(raw, k, i + 1)
      {
        CollapseStep(raw, j, i);
        c[j] := c[j] - c[i] * (i - j + 1);
      }
      i := i - 1;
    }
  }

  // The printed checksum: the number of missed packets over all ranks.
  method Checksum(c: array<int>, ghost raw: seq<int>) returns (s: int)
    requires |raw| == c.Length && forall k :: 0 <= k < c.Length ==> c[k] == SecondDifference(raw, k)
    ensures s == At(raw, 0)
  {
    s := 0;
    ghost var cs := c[..];
    for i := 0 to c.Length
      invariant s + Weighted(cs, 0, i) == Weighted(cs, 0, 0)
    {
      s := s + (i + 1) * c[i];
    }
    WeightedCollapses(raw, cs, 0, 0);
  }

  // ---------- from windows to runs ----------

  // Windows that cannot be made longer at their end.
  ghost function Ends(b: Bitmaps, i: nat): set<(int, int)>
    requires b.numRanks > 0
  {
    set x | x in b.Windows(i) && !b.MissedAfter(x.0, i + 1, x.1)
  }

  // Those among them that could have started earlier.
  ghost function LateEnds(b: Bitmaps, i: nat): set<(int, int)>
    requires b.numRanks > 0
  {
    set x | x in Ends(b, i) && b.Missed(b.Previous(x.0), x.1)
  }

  lemma WindowsSplit(b: Bitmaps, i: nat)
    requires b.numRanks > 0
    ensures |b.Windows(i)| == |b.Windows(i + 1)| + |Ends(b, i)|
  {
    forall x | x in b.Pairs()
      ensures x in b.Windows(i) <==> x in b.Windows(i + 1) || x in Ends(b, i)
    {
      WindowLonger(b, x.0, i, x.1);
    }
    forall x | x in b.Windows(i + 1)
      ensures x !in Ends(b, i)
    {
      WindowLonger(b, x.0, i, x.1);
    }
    hide Bitmaps.Window, Bitmaps.MissedAfter, Bitmaps.Pairs;
    assert b.Windows(i) == b.Windows(i + 1) + Ends(b, i);
    SplitSize(b.Windows(i), b.Windows(i + 1), Ends(b, i));
  }

  lemma EndsSplit(b: Bitmaps, i: nat)
    requires b.numRanks > 0
    ensures |Ends(b, i)| == |b.Runs(i)| + |LateEnds(b, i)|
  {
    hide Bitmaps.Window, Bitmaps.MissedAfter, Bitmaps.Missed, Bitmaps.Previous;
    assert Ends(b, i) == b.Runs(i) + LateEnds(b, i);
    SplitSize(Ends(b, i), b.Runs(i), LateEnds(b, i));
  }

  // Starting one rank earlier reaches every rank one step later.
  lemma StartEarlier(b: Bitmaps, start: nat, t: nat, packet: int)
    requires start < b.numRanks
    ensures b.MissedAfter(b.Previous(start), t + 1, packet) <==> b.MissedAfter(start, t, packet)
    ensures b.MissedAfter(b.Previous(start), 0, packet) <==> b.Missed(b.Previous(start), packet)
  {
    var n := b.numRanks;
    if start == 0 {
      assert (n - 1 + (t + 1)) % n == t % n by {
        OnceRound(n, t);
      }
    }
    assert b.Previous(start) % n == b.Previous(start);
  }

  lemma OnceRound(n: nat, t: nat)
    requires n > 0
    ensures (n + t) % n == t % n
  {
    var q, r, q', r' := t / n, t % n, (n + t) / n, (n + t) % n;
    assert t == n * q + r && n + t == n * q' + r';
    assert n * (q + 1 - q') == r' - r by {
      assert n * (q + 1 - q') == n * q + n - n * q';
    }
    SmallMultiple(n, q + 1 - q');
  }

  lemma SmallMultiple(n: int, d: int)
    requires n > 0 && -n < n * d < n
    ensures d == 0
  {
    assert n * d == n + n * (d - 1) && n * d == -n - n * (-1 - d);
    assert d >= 1 ==> n * (d - 1) >= 0;
    assert d <= -1 ==> n * (-1 - d) >= 0;
  }

  lemma ExtendedWindow(b: Bitmaps, start: nat, i: nat, packet: int)
    requires start < b.numRanks
    ensures b.Window(b.Previous(start), i + 1, packet) <==>
      b.Missed(b.Previous(start), packet) && b.Window(start, i, packet)
  {
    StartEarlier(b, start, 0, packet);
    forall t: nat
      ensures b.MissedAfter(b.Previous(start), t + 1, packet) <==> b.MissedAfter(start, t, packet)
    {
      StartEarlier(b, start, t, packet);
    }
    hide Bitmaps.MissedAfter, Bitmaps.Missed, Bitmaps.Previous;
    var before := b.Previous(start);
    if b.MissedAfter(before, 0, packet) && b.Window(start, i, packet) {
      forall t: nat | t <= i + 1
        ensures b.MissedAfter(before, t, packet)
      {
        assert t > 0 ==> (b.MissedAfter(before, t - 1 + 1, packet) <==> b.MissedAfter(start, t - 1, packet));
      }
    }
    if b.Window(before, i + 1, packet) {
      assert b.MissedAfter(before, 0, packet);
      forall t: nat | t <= i
        ensures b.MissedAfter(start, t, packet)
      {
        assert b.MissedAfter(before, t + 1, packet);
      }
    }
  }

  lemma EarlierEnd(b: Bitmaps, i: nat, start: nat, packet: int)
    requires start < b.numRanks
    ensures (start, packet) in LateEnds(b, i) <==> (b.Previous(start), packet) in Ends(b, i + 1)
  {
    ExtendedWindow(b, start, i, packet);
    StartEarlier(b, start, i + 1, packet);
    hide Bitmaps.Window, Bitmaps.MissedAfter;
  }

  // The late ends, started one rank earlier, are the ends of the next longer windows.
  lemma LateEndsAreLonger(b: Bitmaps, i: nat)
    requires b.numRanks > 0
    ensures |LateEnds(b, i)| == |Ends(b, i + 1)|
  {
    var shift := (x: (int, int)) => (if x.0 <= 0 then b.numRanks - 1 else x.0 - 1, x.1);
    var late, ends := LateEnds(b, i), Ends(b, i + 1);
    ImageSize(shift, late);
    forall x | x in late
      ensures shift(x) in ends
    {
      EarlierEnd(b, i, x.0, x.1);
    }
    forall y | y in ends
      ensures y in Image(shift, late)
    {
      var x := (if y.0 + 1 == b.numRanks then 0 else y.0 + 1, y.1);
      EarlierEnd(b, i, x.0, x.1);
      assert shift(x) == y;
    }
    hide Ends, LateEnds;
    assert Image(shift, late) == ends;
  }

  lemma RunsAreSecondDifferences(b: Bitmaps, i: nat)
    requires b.numRanks > 0
    ensures |b.Runs(i)| == |b.Windows(i)| - 2 * |b.Windows(i + 1)| + |b.Windows(i + 2)|
  {
    WindowsSplit(b, i);
    WindowsSplit(b, i + 1);
    EndsSplit(b, i);
    LateEndsAreLonger(b, i);
  }

  // ---------- windows that go all the way round ----------

  lemma FullWindow(b: Bitmaps, start: nat, i: nat, packet: int)
    requires start < b.numRanks <= i + 1
    ensures b.Window(start, i, packet) <==> b.MissedEverywhere(packet)
  {
    if b.Window(start, i, packet) {
      forall rank | 0 <= rank < b.numRanks
        ensures b.Missed(rank, packet)
      {
        var t := if start <= rank then rank - start else rank - start + b.numRanks;
        assert b.MissedAfter(start, t, packet);
        StepsTo(b.numRanks, start, rank, t);
      }
    }
  }

  lemma StepsTo(n: nat, start: nat, rank: nat, t: nat)
    requires start < n && rank < n && (start + t == rank || start + t == n + rank)
    ensures (start + t) % n == rank
  {
    OnceRound(n, rank);
    assert rank % n == rank;
  }

  lemma {:induction false} FullWindowsBelow(b: Bitmaps, first: nat, i: nat)
    requires first <= b.numRanks <= i + 1 && b.numRanks > 0
    ensures |b.WindowsBelow(first, i)| == first * |b.MissedByAll()|
  {
    if first == 0 {
      assert b.WindowsBelow(0, i) == {};
    } else {
      FullWindowsBelow(b, first - 1, i);
      forall p
        ensures p in b.MissedByAll() <==> 0 <= p < b.numPkts && b.Window(first - 1, i, p)
      {
        FullWindow(b, first - 1, i, p);
      }
      OneMoreStart(b, first - 1, i, b.MissedByAll());
      assert first * |b.MissedByAll()| == (first - 1) * |b.MissedByAll()| + |b.MissedByAll()|;
    }
  }

  lemma FullWindows(b: Bitmaps, i: nat)
    requires 0 < b.numRanks <= i + 1
    ensures |b.Windows(i)| == b.numRanks * |b.MissedByAll()|
  {
    FullWindowsBelow(b, b.numRanks, i);
    assert b.WindowsBelow(b.numRanks, i) == b.Windows(i);
  }

  // What the computation reports for chains of k + 1 ranks: the maximal runs of that length, plus
  // or minus one per rank and packet missed by everybody in the last two places.
  ghost function Reported(b: Bitmaps, k: nat): int
    requires b.numRanks > 0
  {
    |b.Runs(k)|
    + (if k == b.numRanks - 1 then b.numRanks * |b.MissedByAll()| else 0)
    - (if k == b.numRanks - 2 then b.numRanks * |b.MissedByAll()| else 0)
  }

  lemma CorrectedCounts(b: Bitmaps, raw: seq<int>, k: nat)
    requires |raw| == b.numRanks && forall i :: 0 <= i < |raw| ==> raw[i] == |b.Windows(i)|
    requires k < b.numRanks
    ensures SecondDifference(raw, k) == Reported(b, k)
  {
    RunsAreSecondDifferences(b, k);
    hide Bitmaps.Windows, Bitmaps.Runs, Bitmaps.MissedByAll;
    if k + 2 >= b.numRanks {
      FullWindows(b, k + 2);
    }
    if k + 1 >= b.numRanks {
      FullWindows(b, k + 1);
      FullWindows(b, k);
    } else if k + 2 >= b.numRanks {
      FullWindows(b, k + 1);
    }
  }

  // The chains are counted right exactly if no packet is missed by all ranks.
  lemma RightIffNobodyMissesAll(b: Bitmaps)
    requires b.numRanks > 0
    ensures (forall k: nat :: k < b.numRanks ==> Reported(b, k) == |b.Runs(k)|) <==> b.MissedByAll() == {}
  {
    var n, m := b.numRanks, |b.MissedByAll()|;
    assert Reported(b, n - 1) == |b.Runs(n - 1)| + n * m;
    assert n * m == 0 <==> m == 0;
  }

  // The whole computation on the misses: counts of chains, and how many misses there are.
  method ChainRepartition(b: Bitmaps) returns (missChains: array<int>, checksum: int)
    ensures fresh(missChains) && missChains.Length == b.numRanks
    ensures forall k :: 0 <= k < b.numRanks ==> missChains[k] == Reported(b, k)
    ensures b.numRanks > 0 ==> checksum == |b.Windows(0)|
  {
    missChains := CountWindows(b);
    ghost var raw := missChains[..];
    Correct(missChains);
    checksum := Checksum(missChains, raw);
    forall k | 0 <= k < b.numRanks
      ensures missChains[k] == Reported(b, k)
    {
      CorrectedCounts(b, raw, k);
    }
  }

  // A window of one rank is a miss.
  lemma SingleWindows(b: Bitmaps, rank: nat, packet: int)
    requires rank < b.numRanks && 0 <= packet < b.numPkts
    ensures (rank, packet) in b.Windows(0) <==> (rank, packet) !in b.received
  {
    assert (rank, packet) in b.Pairs();
    assert (rank + 0) % b.numRanks == rank;
    assert b.MissedAfter(rank, 0, packet) <==> b.Missed(rank, packet);
  }
}
