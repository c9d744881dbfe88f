/** Directed graphs given as lists of (parent, child) pairs: walks, cycles, ancestor chains,
    and the tables of parent counts and children that the sorting functions work on. */
module PairGraphs {
  import opened Lists

  ghost predicate Edge<T>(pairs: seq<(T, T)>, parent: T, child: T) {
    (parent, child) in pairs
  }

  ghost predicate IsWalk<T(!new)>(pairs: seq<(T, T)>, w: seq<T>) {
    && |w| >= 1
    && forall i :: 0 <= i < |w| - 1 ==> Edge(pairs, w[i], w[i + 1])
  }

  // A walk with at least one edge that comes back to where it started; a self-loop counts.
  ghost predicate IsClosedWalk<T(!new)>(pairs: seq<(T, T)>, w: seq<T>) {
    IsWalk(pairs, w) && |w| >= 2 && w[0] == w[|w| - 1]
  }

  ghost predicate HasCycle<T(!new)>(pairs: seq<(T, T)>) {
    exists w: seq<T> :: IsClosedWalk(pairs, w)
  }

  ghost function Elements<T>(pairs: seq<(T, T)>): (s: set<T>)
  {
    (set e <- pairs :: e.0) + (set e <- pairs :: e.1)
  }

  // Some chain of k edges leads down to x.
  ghost predicate HasChain<T(!new)>(pairs: seq<(T, T)>, x: T, k: nat) {
    k == 0 || exists p :: Edge(pairs, p, x) && HasChain(pairs, p, k - 1)
  }

  // The longest chain of ancestors of x has exactly k edges.
  ghost predicate HasDepth<T(!new)>(pairs: seq<(T, T)>, x: T, k: nat) {
    HasChain(pairs, x, k) && !HasChain(pairs, x, k + 1)
  }

  // Every node exactly once, and each parent before its child.
  ghost predicate IsTopologicalOrder<T(!new)>(pairs: seq<(T, T)>, nodes: set<T>, order: seq<T>) {
    && Distinct(order)
    && (forall x :: x in order <==> x in nodes)
    && (forall i, j :: 0 <= i < |order| && 0 <= j < |order| && Edge(pairs, order[i], order[j]) ==> i < j)
  }

  // The number of pairs (p, x) in the list whose parent p has not been processed.
  ghost function CountInto<T>(pairs: seq<(T, T)>, done: set<T>, x: T): nat {
    if pairs == [] then 0 else
      var e := pairs[|pairs| - 1];
      CountInto(pairs[..|pairs| - 1], done, x) + if e.1 == x && e.0 !in done then 1 else 0
  }

  // The children of p, in list order, repeated as often as the list repeats them.
  ghost function ChildrenOf<T>(pairs: seq<(T, T)>, p: T): seq<T> {
    if pairs == [] then [] else
      var e := pairs[|pairs| - 1];
      ChildrenOf(pairs[..|pairs| - 1], p) + if e.0 == p then [e.1] else []
  }

  // The tables describe the list: counts of parents, and children up to reordering.
  // A node without children may be a key of the second table or not.
  ghost predicate Describes<T(!new)>(pairs: seq<(T, T)>, numParents: map<T, int>, children: map<T, seq<T>>) {
    && Elements(pairs) <= numParents.Keys
    && children.Keys <= numParents.Keys
    && (forall x :: x in numParents ==> numParents[x] == CountInto(pairs, {}, x))
    && (forall p :: p in children ==> multiset(children[p]) == multiset(ChildrenOf(pairs, p)))
    && (forall p :: p !in children ==> ChildrenOf(pairs, p) == [])
  }

  lemma EdgeEnds<T(!new)>(pairs: seq<(T, T)>)
    ensures forall p, c :: Edge(pairs, p, c) ==> p in Elements(pairs) && c in Elements(pairs)
  {
  }

  lemma {:induction false} CountZero<T(!new)>(pairs: seq<(T, T)>, done: set<T>, x: T)
    ensures CountInto(pairs, done, x) == 0 <==> forall p :: Edge(pairs, p, x) ==> p in done
  {
    if pairs != [] {
      var e := pairs[|pairs| - 1];
      var rest := pairs[..|pairs| - 1];
      assert pairs == rest + [e];
      CountZero(rest, done, x);
      if e.1 == x && e.0 !in done {
        assert Edge(pairs, e.0, x);
      }
    }
  }

  lemma {:induction false} ChildrenAreEdges<T(!new)>(pairs: seq<(T, T)>, p: T, c: T)
    ensures c in ChildrenOf(pairs, p) <==> Edge(pairs, p, c)
  {
    if pairs != [] {
      var e := pairs[|pairs| - 1];
      assert pairs == pairs[..|pairs| - 1] + [e];
      ChildrenAreEdges(pairs[..|pairs| - 1], p, c);
    }
  }

  // Processing one more parent takes its children off the counts, with multiplicity.
  lemma {:induction false} ProcessOne<T>(pairs: seq<(T, T)>, done: set<T>, p: T, x: T)
    requires p !in done
    ensures CountInto(pairs, done + {p}, x) == CountInto(pairs, done, x) - multiset(ChildrenOf(pairs, p))[x]
  {
    if pairs != [] {
      ProcessOne(pairs[..|pairs| - 1], done, p, x);
    }
  }

  // Ranks that grow along every edge rule cycles out.
  lemma {:induction false} RankedWalkGrows<T(!new)>(pairs: seq<(T, T)>, rank: T -> int, w: seq<T>)
    requires IsWalk(pairs, w)
    requires forall a, b :: Edge(pairs, a, b) ==> rank(a) < rank(b)
    ensures rank(w[|w| - 1]) >= rank(w[0]) + |w| - 1
  {
    if |w| > 1 {
      RankedWalkGrows(pairs, rank, w[1..]);
      assert Edge(pairs, w[0], w[1]);
    }
  }

  lemma RankedHasNoCycle<T(!new)>(pairs: seq<(T, T)>, rank: T -> int)
    requires forall a, b :: Edge(pairs, a, b) ==> rank(a) < rank(b)
    ensures !HasCycle(pairs)
  {
    if HasCycle(pairs) {
      var w: seq<T> :| IsClosedWalk(pairs, w);
      RankedWalkGrows(pairs, rank, w);
    }
  }

  lemma TopologicalOrderHasNoCycle<T(!new)>(pairs: seq<(T, T)>, nodes: set<T>, order: seq<T>)
    requires IsTopologicalOrder(pairs, nodes, order)
    requires Elements(pairs) <= nodes
    ensures !HasCycle(pairs)
  {
    ghost var rank := (x: T) => if x in order then (var i :| 0 <= i < |order| && order[i] == x; i) else 0;
    forall a, b | Edge(pairs, a, b)
      ensures rank(a) < rank(b)
    {
      assert (a, b).0 in Elements(pairs) && (a, b).1 in Elements(pairs);
    }
    RankedHasNoCycle(pairs, rank);
  }

  ghost predicate HasParentIn<T(!new)>(pairs: seq<(T, T)>, s: set<T>, x: T) {
    exists p :: p in s && Edge(pairs, p, x)
  }

  // Some walk leads from a cycle to x.
  ghost predicate OnOrBelowCycle<T(!new)>(pairs: seq<(T, T)>, x: T) {
    exists c: seq<T>, w: seq<T> :: IsClosedWalk(pairs, c) && WalkTo(pairs, c[0], w, x)
  }

  ghost predicate WalkTo<T(!new)>(pairs: seq<(T, T)>, start: T, w: seq<T>, end: T) {
    IsWalk(pairs, w) && w[0] == start && w[|w| - 1] == end
  }

  ghost predicate HasChild<T(!new)>(pairs: seq<(T, T)>, x: T) {
    exists c :: Edge(pairs, x, c)
  }

  // In a finite set in which everybody has a parent, everybody is on or below a cycle: walk upwards
  // until a node repeats.
  lemma ParentsEverywhereGiveCycle<T(!new)>(pairs: seq<(T, T)>, s: set<T>, x: T)
    requires x in s
    requires forall y {:trigger HasParentIn(pairs, s, y)} :: y in s ==> HasParentIn(pairs, s, y)
    ensures OnOrBelowCycle(pairs, x) && HasCycle(pairs)
  {
    ClimbToRepeat(pairs, s, [x], s - {x});
  }

  lemma {:induction false} ClimbToRepeat<T(!new)>(pairs: seq<(T, T)>, s: set<T>, w: seq<T>, rest: set<T>)
    requires forall x {:trigger HasParentIn(pairs, s, x)} :: x in s ==> HasParentIn(pairs, s, x)
    requires IsWalk(pairs, w) && (forall i :: 0 <= i < |w| ==> w[i] in s)
    requires forall x :: x in s && x !in w ==> x in rest
    ensures OnOrBelowCycle(pairs, w[|w| - 1])
    decreases |rest|
  {
    assert w[0] in s && HasParentIn(pairs, s, w[0]);
    var p :| p in s && Edge(pairs, p, w[0]);
    var longer := [p] + w;
    assert IsWalk(pairs, longer);
    if p in w {
      var i :| 0 <= i < |w| && w[i] == p;
      var c := longer[..i + 2];
      assert IsClosedWalk(pairs, c) && WalkTo(pairs, c[0], longer, w[|w| - 1]);
    } else {
      assert |rest - {p}| < |rest|;
      ClimbToRepeat(pairs, s, longer, rest - {p});
    }
  }

  lemma BelowCycleInElements<T(!new)>(pairs: seq<(T, T)>, x: T)
    requires OnOrBelowCycle(pairs, x)
    ensures x in Elements(pairs)
  {
    var c: seq<T>, w: seq<T> :| IsClosedWalk(pairs, c) && WalkTo(pairs, c[0], w, x);
    EdgeEnds(pairs);
    assert Edge(pairs, c[0], c[0 + 1]);
    if |w| > 1 {
      assert Edge(pairs, w[|w| - 2], w[|w| - 2 + 1]);
    }
  }

  // A chain can be cut at the top.
  lemma {:induction false} ChainsShrink<T(!new)>(pairs: seq<(T, T)>, x: T, k: nat)
    requires HasChain(pairs, x, k + 1)
    ensures HasChain(pairs, x, k)
  {
    if k > 0 {
      var p :| Edge(pairs, p, x) && HasChain(pairs, p, k);
      ChainsShrink(pairs, p, k - 1);
    }
  }

  lemma {:induction false} ChainsShrinkTo<T(!new)>(pairs: seq<(T, T)>, x: T, j: nat, k: nat)
    requires j <= k && HasChain(pairs, x, k)
    ensures HasChain(pairs, x, j)
    decreases k
  {
    if j < k {
      ChainsShrink(pairs, x, k - 1);
      ChainsShrinkTo(pairs, x, j, k - 1);
    }
  }

  // An element has at most one depth.
  lemma DepthIsUnique<T(!new)>(pairs: seq<(T, T)>, x: T, j: nat, k: nat)
    requires HasDepth(pairs, x, j) && HasDepth(pairs, x, k)
    ensures j == k
  {
    if j < k {
      ChainsShrinkTo(pairs, x, j + 1, k);
    } else if k < j {
      ChainsShrinkTo(pairs, x, k + 1, j);
    }
  }
}
