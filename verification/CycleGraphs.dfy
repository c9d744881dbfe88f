/** Graphs given as a table from parents to their lists of children: simple paths and
    elementary cycles. */
module CycleGraphs {
  import opened Lists
  import opened Rotations

  type Graph<T> = map<T, seq<T>>

  ghost predicate Child<T>(g: Graph<T>, p: T, c: T) {
    p in g && c in g[p]
  }

  // Consecutive nodes are joined by edges, and no node repeats.
  ghost predicate IsSimplePath<T>(g: Graph<T>, p: seq<T>) {
    && |p| >= 1
    && (forall i :: 0 <= i < |p| - 1 ==> Child(g, p[i], p[i + 1]))
    && Distinct(p)
  }

  // A simple path whose last node has an edge back to the first one.
  ghost predicate IsElementaryCycle<T>(g: Graph<T>, c: seq<T>) {
    IsSimplePath(g, c) && Child(g, c[|c| - 1], c[0])
  }

  ghost function NodesOf<T>(g: Graph<T>): set<T> {
    g.Keys + set p, c | p in g && c in g[p] :: c
  }

  // Where a node of the list is first met.
  function IndexOf<T(==)>(s: seq<T>, x: T): (i: nat)
    requires x in s
    ensures i < |s| && s[i] == x && x !in s[..i]
  {
    if s[0] == x then 0 else
      assert x in s[1..];
      var i := 1 + IndexOf(s[1..], x);
      assert s[..i] == [s[0]] + s[1..][..i - 1];
      i
  }

  lemma IndexIn<T(!new)>(s: seq<T>, x: T, i: nat)
    requires Distinct(s) && i < |s| && s[i] == x
    ensures x in s && IndexOf(s, x) == i
  {
    assert s[i] in s;
  }

  lemma SuffixIsCycle<T(!new)>(g: Graph<T>, path: seq<T>, child: T)
    requires IsSimplePath(g, path) && Child(g, path[|path| - 1], child) && child in path
    ensures IsElementaryCycle(g, path[IndexOf(path, child)..])
  {
    var k := IndexOf(path, child);
    var c := path[k..];
    forall i | 0 <= i < |c| - 1
      ensures Child(g, c[i], c[i + 1])
    {
      assert Child(g, path[k + i], path[k + i + 1]);
    }
  }

  lemma ExtendPath<T(!new)>(g: Graph<T>, path: seq<T>, child: T)
    requires IsSimplePath(g, path) && Child(g, path[|path| - 1], child) && child !in path
    ensures IsSimplePath(g, path + [child])
  {
    var longer := path + [child];
    forall i, j | 0 <= i < j < |longer|
      ensures longer[i] != longer[j]
    {
      assert i < |path| ==> path[i] in path;
    }
    forall i | 0 <= i < |longer| - 1
      ensures Child(g, longer[i], longer[i + 1])
    {
      if i < |path| - 1 {
        assert Child(g, path[i], path[i + 1]);
      }
    }
  }

  lemma PathPrefix<T(!new)>(g: Graph<T>, path: seq<T>, n: nat)
    requires IsSimplePath(g, path) && 1 <= n <= |path|
    ensures IsSimplePath(g, path[..n])
  {
    var q := path[..n];
    forall i | 0 <= i < |q| - 1
      ensures Child(g, q[i], q[i + 1])
    {
      assert Child(g, path[i], path[i + 1]);
    }
  }

  // A simple path visits nodes of the graph only, except that a lone start need not be one.
  lemma PathInNodes<T(!new)>(g: Graph<T>, path: seq<T>, i: nat)
    requires IsSimplePath(g, path) && i < |path|
    requires path[0] in g
    ensures path[i] in NodesOf(g)
  {
    if i > 0 {
      assert Child(g, path[i - 1], path[i - 1 + 1]);
    }
  }

  lemma PathFits<T(!new)>(g: Graph<T>, path: seq<T>)
    requires IsSimplePath(g, path) && path[0] in g
    ensures |path| <= |NodesOf(g)|
  {
    forall i | 0 <= i < |path|
      ensures path[i] in NodesOf(g)
    {
      PathInNodes(g, path, i);
    }
    DistinctFits(path, NodesOf(g));
  }

  // Going round an elementary cycle from any of its nodes is an elementary cycle.
  lemma RotateCycle<T(!new)>(g: Graph<T>, c: seq<T>, k: nat)
    requires IsElementaryCycle(g, c) && k < |c|
    ensures IsElementaryCycle(g, c[k..] + c[..k])
    ensures Rotation(c, c[k..] + c[..k])
  {
    var d := c[k..] + c[..k];
    assert RotatedBy(c, d, k);
    forall i, j | 0 <= i < j < |d|
      ensures d[i] != d[j]
    {
      var i', j' := Around(c, k, i), Around(c, k, j);
      assert d[i] == c[i'] && d[j] == c[j'];
      assert i' < j' ==> c[i'] != c[j'];
      assert j' < i' ==> c[j'] != c[i'];
    }
    forall i | 0 <= i < |d| - 1
      ensures Child(g, d[i], d[i + 1])
    {
      Next(g, c, Around(c, k, i));
      assert d[i] == c[Around(c, k, i)] && d[i + 1] == c[Around(c, k, i + 1)];
    }
    Next(g, c, Around(c, k, |d| - 1));
  }

  ghost function Around<T>(c: seq<T>, k: nat, i: nat): nat
    requires k < |c| && i < |c|
  {
    if k + i < |c| then k + i else k + i - |c|
  }

  lemma Next<T(!new)>(g: Graph<T>, c: seq<T>, i: nat)
    requires IsElementaryCycle(g, c) && i < |c|
    ensures Child(g, c[i], c[if i + 1 < |c| then i + 1 else 0])
  {
    if i + 1 < |c| {
      assert Child(g, c[i], c[i + 1]);
    }
  }
}
