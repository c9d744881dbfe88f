/** The elementary cycles of a graph, by a stack of simple paths
    (find_cycles, simulation/bindings/python/topsort.py). */
module FindCycles {
  import opened Lists
  import opened Rotations
  import opened CycleGraphs

  // Some reported cycle is the given one up to rotation.
  ghost predicate Listed<T(!new)>(cycles: seq<seq<T>>, c: seq<T>) {
    exists i :: 0 <= i < |cycles| && Rotation(cycles[i], c)
  }

  // Only elementary cycles are reported, and none twice up to rotation.
  ghost predicate Sound<T(!new)>(g: Graph<T>, cycles: seq<seq<T>>) {
    && (forall i :: 0 <= i < |cycles| ==> IsElementaryCycle(g, cycles[i]))
    && forall i, j :: 0 <= i < j < |cycles| ==> !Rotation(cycles[i], cycles[j])
  }

  ghost predicate Complete<T(!new)>(g: Graph<T>, cycles: seq<seq<T>>) {
    forall c :: IsElementaryCycle(g, c) ==> Listed(cycles, c)
  }

  ghost predicate PathFrom<T>(g: Graph<T>, root: T, p: seq<T>) {
    IsSimplePath(g, p) && p[0] == root
  }

  // ---------- one child of the path on top of the stack ----------

  // What has to be true of a path and one of its children once that child has been looked at:
  // a cycle has been reported, or the longer path waits on the stack or has been explored.
  ghost predicate Seen<T(!new)>(explored: set<seq<T>>, paths: seq<seq<T>>, visited: set<T>, cycles: seq<seq<T>>,
                                p: seq<T>, c: T) {
    if c in p then Listed(cycles, p[IndexOf(p, c)..])
    else c in visited && (p + [c] in explored || p + [c] in paths)
  }

  ghost predicate AllSeen<T(!new)>(g: Graph<T>, explored: set<seq<T>>, paths: seq<seq<T>>, visited: set<T>,
                                   cycles: seq<seq<T>>) {
    forall p, c :: p in explored && p != [] && Child(g, p[|p| - 1], c) ==> Seen(explored, paths, visited, cycles, p, c)
  }

  // Every visited node ends a simple path from one of the roots that have been started.
  ghost predicate Reached<T(!new)>(g: Graph<T>, roots: set<T>, visited: set<T>) {
    forall v :: v in visited ==> exists p: seq<T> :: IsSimplePath(g, p) && p[0] in roots && p[|p| - 1] == v
  }

  ghost predicate StackOk<T(!new)>(g: Graph<T>, root: T, paths: seq<seq<T>>) {
    forall i :: 0 <= i < |paths| ==> PathFrom(g, root, paths[i])
  }

  // What reporting more cycles, stacking more paths and visiting more nodes never undoes.
  ghost predicate Grows<T(!new)>(paths: seq<seq<T>>, paths': seq<seq<T>>, visited: set<T>, visited': set<T>,
                                 cycles: seq<seq<T>>, cycles': seq<seq<T>>) {
    paths <= paths' && visited <= visited' && cycles <= cycles'
  }

  lemma SeenGrows<T(!new)>(explored: set<seq<T>>, paths: seq<seq<T>>, paths': seq<seq<T>>,
                           visited: set<T>, visited': set<T>,
                           cycles: seq<seq<T>>, cycles': seq<seq<T>>, p: seq<T>, c: T)
    requires Seen(explored, paths, visited, cycles, p, c)
    requires Grows(paths, paths', visited, visited', cycles, cycles')
    ensures Seen(explored, paths', visited', cycles', p, c)
  {
    if c in p {
      var i :| 0 <= i < |cycles| && Rotation(cycles[i], p[IndexOf(p, c)..]);
      assert cycles'[i] == cycles[i];
    } else if p + [c] in paths {
      var i :| 0 <= i < |paths| && paths[i] == p + [c];
      assert paths'[i] == p + [c];
    }
  }

  // Report the cycle unless some earlier one is a rotation of it.
  method Report<T(==,!new)>(ghost g: Graph<T>, before: seq<seq<T>>, cycle: seq<T>) returns (cycles: seq<seq<T>>)
    requires Sound(g, before) && IsElementaryCycle(g, cycle)
    ensures Sound(g, cycles) && Listed(cycles, cycle) && before <= cycles
  {
    var isDup := false;
    for k := 0 to |before|
      invariant !isDup
      invariant forall i :: 0 <= i < k ==> !Rotation(before[i], cycle)
    {
      hide IsElementaryCycle, Rotation;
      var rotated := IsRotated(before[k], cycle);
      assert IsElementaryCycle(g, before[k]);
      NonEmpty(g, before[k]);
      if rotated.value {
        isDup := true;
        break;
      }
    }
    cycles := before;
    if !isDup {
      Reflexive(cycle);
      cycles := before + [cycle];
      assert Rotation(cycles[|before|], cycle);
    }
  }

  lemma NonEmpty<T(!new)>(g: Graph<T>, c: seq<T>)
    requires IsElementaryCycle(g, c)
    ensures c != []
  {
  }

  // The body of the loop over the children of the path taken from the stack.
  method VisitChild<T(==,!new)>(g: Graph<T>, ghost root: T, ghost roots: set<T>, ghost explored: set<seq<T>>,
                                path: seq<T>, child: T,
                                paths0: seq<seq<T>>, visited0: set<T>, cycles0: seq<seq<T>>)
    returns (paths: seq<seq<T>>, visited: set<T>, cycles: seq<seq<T>>)
    requires PathFrom(g, root, path) && root in roots && Child(g, path[|path| - 1], child)
    requires StackOk(g, root, paths0) && Reached(g, roots, visited0) && Sound(g, cycles0)
    ensures Grows(paths0, paths, visited0, visited, cycles0, cycles)
    ensures StackOk(g, root, paths) && Reached(g, roots, visited) && Sound(g, cycles)
    ensures Seen(explored, paths, visited, cycles, path, child)
    ensures paths == paths0 || (child !in path && paths == paths0 + [path + [child]])
  {
    paths, visited, cycles := paths0, visited0, cycles0;
    hide Sound, IsElementaryCycle, Listed, Child;
    if child in path {
      SuffixIsCycle(g, path, child);
      cycles := Report(g, cycles, path[IndexOf(path, child)..]);
    } else {
      ExtendPath(g, path, child);
      hide IsSimplePath;
      paths := paths + [path + [child]];
      assert paths[|paths0|] == path + [child];
      visited := visited + {child};
      NowReached(g, roots, visited0, path + [child]);
    }
  }

  lemma NowReached<T(!new)>(g: Graph<T>, roots: set<T>, visited: set<T>, p: seq<T>)
    requires IsSimplePath(g, p) && p[0] in roots && Reached(g, roots, visited)
    ensures Reached(g, roots, visited + {p[|p| - 1]})
  {
  }

  // ---------- the stack gets lighter ----------

  // More than the number of simple paths that can still be stacked on top of a path with room for
  // m more nodes, when no node has more than d children.
  function Weight(d: nat, m: nat): (w: nat)
    ensures w >= 1
  {
    if m == 0 then 1 else 1 + d * Weight(d, m - 1)
  }

  function StackWeight<T>(paths: seq<seq<T>>, d: nat, n: nat): nat {
    if paths == [] then 0 else
      var top := paths[|paths| - 1];
      StackWeight(paths[..|paths| - 1], d, n) + Weight(d, if |top| < n then n - |top| else 0)
  }

  // What stacking one child of the path costs; a path through all n nodes has no new child.
  function ChildWeight<T>(path: seq<T>, d: nat, n: nat): nat {
    if |path| < n then Weight(d, n - |path| - 1) else 0
  }

  lemma PushWeight<T(!new)>(g: Graph<T>, paths: seq<seq<T>>, path: seq<T>, child: T, d: nat, n: nat)
    requires IsSimplePath(g, path + [child]) && path != [] && path[0] in g && n == |NodesOf(g)|
    ensures StackWeight(paths + [path + [child]], d, n) == StackWeight(paths, d, n) + ChildWeight(path, d, n)
  {
    PathFits(g, path + [child]);
    assert (paths + [path + [child]])[..|paths|] == paths;
  }

  // The children of the path taken from the stack weigh less than the path.
  lemma ChildrenWeighLess<T>(path: seq<T>, children: nat, d: nat, n: nat)
    requires children <= d
    ensures children * ChildWeight(path, d, n) < Weight(d, if |path| < n then n - |path| else 0)
  {
    var w := ChildWeight(path, d, n);
    assert children * w <= d * w;
  }

  function MaxChildren<T(!new)>(g: Graph<T>, order: seq<T>): (d: nat)
    requires forall x :: x in order ==> x in g
    ensures forall x :: x in order ==> |g[x]| <= d
  {
    if order == [] then 0 else
      var rest := MaxChildren(g, order[1..]);
      assert forall x :: x in order ==> x == order[0] || x in order[1..];
      if |g[order[0]]| > rest then |g[order[0]]| else rest
  }

  // ---------- all children of one path ----------

  method VisitChildren<T(==,!new)>(g: Graph<T>, ghost root: T, ghost roots: set<T>, ghost explored: set<seq<T>>,
                                   path: seq<T>, paths0: seq<seq<T>>, visited0: set<T>, cycles0: seq<seq<T>>,
                                   ghost d: nat, ghost n: nat)
    returns (paths: seq<seq<T>>, visited: set<T>, cycles: seq<seq<T>>)
    requires PathFrom(g, root, path) && root in roots && root in g && path[|path| - 1] in g
    requires n == |NodesOf(g)| && |g[path[|path| - 1]]| <= d
    requires StackOk(g, root, paths0) && Reached(g, roots, visited0) && Sound(g, cycles0)
    ensures Grows(paths0, paths, visited0, visited, cycles0, cycles)
    ensures StackOk(g, root, paths) && Reached(g, roots, visited) && Sound(g, cycles)
    ensures forall c :: Child(g, path[|path| - 1], c) ==> Seen(explored, paths, visited, cycles, path, c)
    ensures StackWeight(paths, d, n)
            < StackWeight(paths0, d, n) + Weight(d, if |path| < n then n - |path| else 0)
  {
    paths, visited, cycles := paths0, visited0, cycles0;
    var children := g[path[|path| - 1]];
    ghost var w := ChildWeight(path, d, n);
    for k := 0 to |children|
      invariant Grows(paths0, paths, visited0, visited, cycles0, cycles)
      invariant StackOk(g, root, paths) && Reached(g, roots, visited) && Sound(g, cycles)
      invariant forall j :: 0 <= j < k ==> Seen(explored, paths, visited, cycles, path, children[j])
      invariant StackWeight(paths, d, n) <= StackWeight(paths0, d, n) + k * w
    {
      hide StackOk, Reached, Sound, Seen, StackWeight, IsSimplePath, ChildWeight, NodesOf;
      ghost var paths1, visited1, cycles1 := paths, visited, cycles;
      paths, visited, cycles := VisitChild(g, root, roots, explored, path, children[k], paths, visited, cycles);
      forall j | 0 <= j < k
        ensures Seen(explored, paths, visited, cycles, path, children[j])
      {
        SeenGrows(explored, paths1, paths, visited1, visited, cycles1, cycles, path, children[j]);
      }
      if paths != paths1 {
        ExtendPath(g, path, children[k]);
        PushWeight(g, paths1, path, children[k], d, n);
      }
      assert (k + 1) * w == k * w + w;
    }
    ChildrenWeighLess(path, |children|, d, n);
  }

  // ---------- all paths from one root ----------

  ghost predicate RootComplete<T(!new)>(g: Graph<T>, root: T, cycles: seq<seq<T>>) {
    forall p, c :: PathFrom(g, root, p) && Child(g, p[|p| - 1], c) && c in p ==> Listed(cycles, p[IndexOf(p, c)..])
  }

  // The path on top of the stack counts as explored once its children have been seen.
  lemma TopExplored<T(!new)>(g: Graph<T>, explored: set<seq<T>>, path: seq<T>,
                             paths: seq<seq<T>>, visited: set<T>, cycles: seq<seq<T>>,
                             paths': seq<seq<T>>, visited': set<T>, cycles': seq<seq<T>>)
    requires AllSeen(g, explored, paths + [path], visited, cycles) && path != []
    requires Grows(paths, paths', visited, visited', cycles, cycles')
    requires forall c :: Child(g, path[|path| - 1], c) ==> Seen(explored + {path}, paths', visited', cycles', path, c)
    ensures AllSeen(g, explored + {path}, paths', visited', cycles')
  {
    forall p, c | p in explored && p != [] && Child(g, p[|p| - 1], c)
      ensures Seen(explored + {path}, paths', visited', cycles', p, c)
    {
      assert Seen(explored, paths + [path], visited, cycles, p, c);
      assert Seen(explored + {path}, paths, visited, cycles, p, c);
      SeenGrows(explored + {path}, paths, paths', visited, visited', cycles, cycles', p, c);
    }
  }

  // With the stack empty every simple path from the root has been explored.
  lemma {:induction false} AllExplored<T(!new)>(g: Graph<T>, root: T, explored: set<seq<T>>, visited: set<T>,
                                                cycles: seq<seq<T>>, p: seq<T>)
    requires AllSeen(g, explored, [], visited, cycles) && [root] in explored
    requires PathFrom(g, root, p)
    ensures p in explored
    decreases |p|
  {
    if |p| == 1 {
      assert p == [root];
    } else {
      var q, c := p[..|p| - 1], p[|p| - 1];
      PathPrefix(g, p, |p| - 1);
      AllExplored(g, root, explored, visited, cycles, q);
      assert Child(g, p[|p| - 2], p[|p| - 2 + 1]);
      assert c !in q;
      assert Seen(explored, [], visited, cycles, q, c);
      assert q + [c] == p;
    }
  }

  lemma RootDone<T(!new)>(g: Graph<T>, root: T, explored: set<seq<T>>, visited: set<T>, cycles: seq<seq<T>>)
    requires AllSeen(g, explored, [], visited, cycles) && [root] in explored
    ensures RootComplete(g, root, cycles)
  {
    forall p, c | PathFrom(g, root, p) && Child(g, p[|p| - 1], c) && c in p
      ensures Listed(cycles, p[IndexOf(p, c)..])
    {
      AllExplored(g, root, explored, visited, cycles, p);
      assert Seen(explored, [], visited, cycles, p, c);
    }
  }

  // The worklist loop for one root.
  method ExploreRoot<T(==,!new)>(g: Graph<T>, root: T, ghost roots: set<T>, visited0: set<T>, cycles0: seq<seq<T>>,
                                 ghost d: nat)
    returns (visited: set<T>, cycles: seq<seq<T>>)
    requires root in g && root in roots && forall x :: x in g ==> |g[x]| <= d
    requires Reached(g, roots, visited0) && Sound(g, cycles0)
    ensures visited0 <= visited && cycles0 <= cycles
    ensures Reached(g, roots, visited) && Sound(g, cycles) && RootComplete(g, root, cycles)
  {
    hide Reached, Sound, Listed, Seen, IsElementaryCycle;
    visited, cycles := visited0, cycles0;
    var paths := [[root]];
    ghost var explored: set<seq<T>> := {};
    ghost var n := |NodesOf(g)|;
    assert PathFrom(g, root, paths[0]);
    while paths != []
      invariant visited0 <= visited && cycles0 <= cycles
      invariant StackOk(g, root, paths) && Reached(g, roots, visited) && Sound(g, cycles)
      invariant AllSeen(g, explored, paths, visited, cycles)
      invariant [root] in explored || [root] in paths
      decreases StackWeight(paths, d, n)
    {
      hide IsSimplePath, AllSeen;
      var path := paths[|paths| - 1];
      ghost var before := paths;
      paths := paths[..|paths| - 1];
      assert before == paths + [path];
      assert PathFrom(g, root, before[|before| - 1]);
      assert StackOk(g, root, paths);
      NonEmptyPath(g, path);
      var parent := path[|path| - 1];
      ghost var visited1, cycles1, paths1 := visited, cycles, paths;
      if parent in g {
        paths, visited, cycles := VisitChildren(g, root, roots, explored + {path}, path, paths, visited, cycles, d, n);
      }
      TopExplored(g, explored, path, paths1, visited1, cycles1, paths, visited, cycles);
      explored := explored + {path};
    }
    RootDone(g, root, explored, visited, cycles);
  }

  lemma NonEmptyPath<T(!new)>(g: Graph<T>, p: seq<T>)
    requires IsSimplePath(g, p)
    ensures p != []
  {
  }

  // ---------- the whole search ----------

  // The first node of the path that lies on the cycle.
  lemma {:induction false} FirstMeeting<T(!new)>(q: seq<T>, c: seq<T>) returns (k: nat)
    requires q != [] && q[|q| - 1] in c
    ensures k < |q| && q[k] in c && forall i :: 0 <= i < k ==> q[i] !in c
  {
    k := 0;
    while q[k] !in c
      invariant k < |q| && forall i :: 0 <= i < k ==> q[i] !in c
      decreases |q| - k
    {
      k := k + 1;
    }
  }

  // Walk to the cycle, then once round it.
  lemma WalkThenRound<T(!new)>(g: Graph<T>, q: seq<T>, k: nat, d: seq<T>)
    requires IsSimplePath(g, q) && k < |q| && IsElementaryCycle(g, d) && q[k] == d[0]
    requires forall i :: 0 <= i < k ==> q[i] !in d
    ensures IsSimplePath(g, q[..k] + d)
  {
    var p := q[..k] + d;
    forall i, j | 0 <= i < j < |p|
      ensures p[i] != p[j]
    {
      assert k <= j ==> p[j] in d;
    }
    forall i | 0 <= i < |p| - 1
      ensures Child(g, p[i], p[i + 1])
    {
      if i < k {
        assert p[i] == q[i] && p[i + 1] == q[i + 1];
        assert Child(g, q[i], q[i + 1]);
      } else {
        assert Child(g, d[i - k], d[i - k + 1]);
      }
    }
  }

  // A cycle that can be reached from a finished root has been reported.
  lemma ReachableIsListed<T(!new)>(g: Graph<T>, root: T, cycles: seq<seq<T>>, q: seq<T>, c: seq<T>)
    requires RootComplete(g, root, cycles) && PathFrom(g, root, q)
    requires IsElementaryCycle(g, c) && q[|q| - 1] in c
    ensures Listed(cycles, c)
  {
    var k := FirstMeeting(q, c);
    var m :| 0 <= m < |c| && c[m] == q[k];
    var d := c[m..] + c[..m];
    RotateCycle(g, c, m);
    SameElements(c, m);
    WalkThenRound(g, q, k, d);
    RoundIsListed(g, root, cycles, q, k, d);
    var i :| 0 <= i < |cycles| && Rotation(cycles[i], d);
    Symmetric(c, d);
    Transitive(cycles[i], d, c);
  }

  lemma SameElements<T(!new)>(c: seq<T>, m: nat)
    requires m <= |c|
    ensures forall x :: x in c[m..] + c[..m] <==> x in c
  {
    assert c == c[..m] + c[m..];
  }

  lemma RoundIsListed<T(!new)>(g: Graph<T>, root: T, cycles: seq<seq<T>>, q: seq<T>, k: nat, d: seq<T>)
    requires k < |q|
    requires IsElementaryCycle(g, d) && IsSimplePath(g, q[..k] + d)
    requires RootComplete(g, root, cycles) && q[0] == root && q[k] == d[0]
    ensures Listed(cycles, d)
  {
    hide Listed;
    var p := q[..k] + d;
    assert p[0] == root;
    assert p[k] == d[0] && p[|p| - 1] == d[|d| - 1];
    IndexIn(p, d[0], k);
    assert p[k..] == d;
  }

  lemma NothingMissed<T(!new)>(g: Graph<T>, roots: set<T>, visited: set<T>, cycles: seq<seq<T>>)
    requires Reached(g, roots, visited)
    requires forall r :: r in roots ==> RootComplete(g, r, cycles)
    requires forall x :: x in g ==> x in roots || x in visited
    ensures Complete(g, cycles)
  {
    forall c | IsElementaryCycle(g, c)
      ensures Listed(cycles, c)
    {
      var x := c[0];
      assert x in g by {
        assert |c| > 1 ==> Child(g, c[0], c[0 + 1]);
      }
      var q: seq<T>;
      if x in roots {
        q := [x];
      } else {
        q :| IsSimplePath(g, q) && q[0] in roots && q[|q| - 1] == x;
      }
      ReachableIsListed(g, q[0], cycles, q, c);
    }
  }

  lemma RootCompleteGrows<T(!new)>(g: Graph<T>, root: T, cycles: seq<seq<T>>, cycles': seq<seq<T>>)
    requires RootComplete(g, root, cycles) && cycles <= cycles'
    ensures RootComplete(g, root, cycles')
  {
    forall p, c | PathFrom(g, root, p) && Child(g, p[|p| - 1], c) && c in p
      ensures Listed(cycles', p[IndexOf(p, c)..])
    {
      var i :| 0 <= i < |cycles| && Rotation(cycles[i], p[IndexOf(p, c)..]);
      assert cycles'[i] == cycles[i];
    }
  }

  // The reported cycles are the elementary cycles of the graph, each once up to rotation. The
  // parents may come in any order, and children may repeat or have no entry of their own.
  method FindCycles<T(==,!new)>(g: Graph<T>, order: seq<T>) returns (cycles: seq<seq<T>>)
    requires Distinct(order) && forall x :: x in order <==> x in g
    ensures Sound(g, cycles)
    ensures Complete(g, cycles)
  {
    cycles := [];
    var visited: set<T> := {};
    ghost var roots: set<T> := {};
    ghost var d := MaxChildren(g, order);
    for k := 0 to |order|
      invariant Sound(g, cycles) && Reached(g, roots, visited)
      invariant forall r :: r in roots ==> RootComplete(g, r, cycles)
      invariant forall j :: 0 <= j < k ==> order[j] in roots || order[j] in visited
    {
      hide Sound, Reached, RootComplete;
      var parent := order[k];
      assert parent in order;
      if parent in visited {
        continue;
      }
      ghost var cycles1 := cycles;
      MoreRoots(g, roots, parent, visited);
      visited, cycles := ExploreRoot(g, parent, roots + {parent}, visited, cycles, d);
      forall r | r in roots
        ensures RootComplete(g, r, cycles)
      {
        RootCompleteGrows(g, r, cycles1, cycles);
      }
      roots := roots + {parent};
    }
    NothingMissed(g, roots, visited, cycles);
  }

  lemma MoreRoots<T(!new)>(g: Graph<T>, roots: set<T>, root: T, visited: set<T>)
    requires Reached(g, roots, visited)
    ensures Reached(g, roots + {root}, visited)
  {
  }
}
