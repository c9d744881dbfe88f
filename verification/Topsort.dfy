/** Topological sorting of (parent, child) pairs, as one list and level by level
    (simulation/bindings/python/topsort.py). */
module Topsort {
  import opened Lists
  import opened PairGraphs

  datatype SortResult<T> =
    | Sorted(answer: seq<T>)
    | CycleError(answer: seq<T>, numParents: map<T, int>, children: map<T, seq<T>>)

  datatype Ending<T> =
    | StopIteration
    | LevelsCycleError(numParents: map<T, int>, children: map<T, seq<T>>)

  // Every parent of a listed element is listed before it.
  ghost predicate ParentsFirst<T(!new)>(pairs: seq<(T, T)>, order: seq<T>) {
    forall k, p :: 0 <= k < |order| && Edge(pairs, p, order[k]) ==> p in order[..k]
  }

  ghost predicate Closed<T(!new)>(pairs: seq<(T, T)>, done: set<T>) {
    forall p, x :: x in done && Edge(pairs, p, x) ==> p in done
  }

  // Each remaining count is the number of pairs from parents that have not been processed.
  ghost predicate Counted<T(!new)>(pairs: seq<(T, T)>, done: set<T>, numParents: map<T, int>) {
    forall x :: x in numParents ==> numParents[x] == CountInto(pairs, done, x)
  }

  // The children lists of exactly the unprocessed parents are left.
  ghost predicate ListsLeft<T(!new)>(pairs: seq<(T, T)>, done: set<T>, children: map<T, seq<T>>) {
    && (forall p :: p in children ==> p !in done && multiset(children[p]) == multiset(ChildrenOf(pairs, p)))
    && (forall p :: p !in children ==> p in done || ChildrenOf(pairs, p) == [])
  }

  // The two tables when the elements of done have been processed.
  ghost predicate Tables<T(!new)>(pairs: seq<(T, T)>, nodes: set<T>, done: set<T>,
                                  numParents: map<T, int>, children: map<T, seq<T>>) {
    && done <= nodes
    && numParents.Keys == nodes - done
    && Counted(pairs, done, numParents)
    && ListsLeft(pairs, done, children)
    && Closed(pairs, done)
  }

  // The details that come with a CycleError: what was sorted before the sort got stuck, and the
  // tables of everything else. Each leftover element still waits for a leftover parent.
  ghost predicate Stuck<T(!new)>(pairs: seq<(T, T)>, nodes: set<T>, done: set<T>,
                                 numParents: map<T, int>, children: map<T, seq<T>>) {
    && Tables(pairs, nodes, done, numParents, children)
    && numParents != map[]
    && forall x :: x in numParents ==> numParents[x] > 0
  }

  method BuildTables<T(!new)>(pairs: seq<(T, T)>) returns (numParents: map<T, int>, children: map<T, seq<T>>)
    ensures numParents.Keys == Elements(pairs)
    ensures Describes(pairs, numParents, children)
    ensures forall p :: p in children ==> children[p] == ChildrenOf(pairs, p)
  {
    hide *;
    numParents, children := map[], map[];
    NoTables(pairs);
    for i := 0 to |pairs|
      invariant TablesOf(pairs[..i], numParents, children)
    {
      var (parent, child) := pairs[i];
      TablesStep(pairs, i, numParents, children);
      if parent !in numParents {
        numParents := numParents[parent := 0];
      }
      if child !in numParents {
        numParents := numParents[child := 0];
      }
      numParents := numParents[child := numParents[child] + 1];
      children := children[parent := (if parent in children then children[parent] else []) + [child]];
    }
    assert pairs[..|pairs|] == pairs;
    TablesDescribe(pairs, numParents, children);
  }

  ghost predicate TablesOf<T(!new)>(pairs: seq<(T, T)>, numParents: map<T, int>, children: map<T, seq<T>>) {
    CountsOf(pairs, numParents) && ListsOf(pairs, children) && children.Keys <= numParents.Keys
  }

  ghost predicate CountsOf<T(!new)>(pairs: seq<(T, T)>, numParents: map<T, int>) {
    && numParents.Keys == Elements(pairs)
    && (forall x {:trigger numParents[x]} {:trigger x in numParents} ::
          x in numParents ==> numParents[x] == CountInto(pairs, {}, x))
  }

  ghost predicate ListsOf<T(!new)>(pairs: seq<(T, T)>, children: map<T, seq<T>>) {
    && (forall p {:trigger children[p]} {:trigger p in children} ::
          p in children ==> children[p] == ChildrenOf(pairs, p))
    && (forall p {:trigger p in children} :: p !in children ==> ChildrenOf(pairs, p) == [])
  }

  lemma NoTables<T(!new)>(pairs: seq<(T, T)>)
    ensures TablesOf(pairs[..0], map[], map[])
  {
  }

  lemma TablesDescribe<T(!new)>(pairs: seq<(T, T)>, numParents: map<T, int>, children: map<T, seq<T>>)
    requires TablesOf(pairs, numParents, children)
    ensures numParents.Keys == Elements(pairs)
    ensures Describes(pairs, numParents, children)
    ensures forall p :: p in children ==> children[p] == ChildrenOf(pairs, p)
  {
    hide Elements, CountInto, ChildrenOf;
  }

  lemma TablesStep<T(!new)>(pairs: seq<(T, T)>, i: nat, numParents: map<T, int>, children: map<T, seq<T>>)
    requires i < |pairs| && TablesOf(pairs[..i], numParents, children)
    ensures var (parent, child) := pairs[i];
      var n1 := if parent in numParents then numParents else numParents[parent := 0];
      var n2 := if child in n1 then n1 else n1[child := 0];
      var list := if parent in children then children[parent] else [];
      TablesOf(pairs[..i + 1], n2[child := n2[child] + 1], children[parent := list + [child]])
  {
    CountsStep(pairs, i, numParents);
    ListsStep(pairs, i, children);
    hide CountsOf, ListsOf;
  }

  lemma CountsStep<T(!new)>(pairs: seq<(T, T)>, i: nat, numParents: map<T, int>)
    requires i < |pairs| && CountsOf(pairs[..i], numParents)
    ensures var (parent, child) := pairs[i];
      var n1 := if parent in numParents then numParents else numParents[parent := 0];
      var n2 := if child in n1 then n1 else n1[child := 0];
      CountsOf(pairs[..i + 1], n2[child := n2[child] + 1])
  {
    OneMorePair(pairs, i);
    hide Elements, CountInto, ChildrenOf;
  }

  lemma ListsStep<T(!new)>(pairs: seq<(T, T)>, i: nat, children: map<T, seq<T>>)
    requires i < |pairs| && ListsOf(pairs[..i], children)
    ensures var (parent, child) := pairs[i];
      var list := if parent in children then children[parent] else [];
      ListsOf(pairs[..i + 1], children[parent := list + [child]])
  {
    OneMorePair(pairs, i);
    hide Elements, CountInto, ChildrenOf;
  }

  // What the i-th pair adds to the elements, the counts and the lists.
  lemma OneMorePair<T(!new)>(pairs: seq<(T, T)>, i: nat)
    requires i < |pairs|
    ensures Elements(pairs[..i + 1]) == Elements(pairs[..i]) + {pairs[i].0, pairs[i].1}
    ensures forall x :: x !in Elements(pairs[..i]) ==> CountInto(pairs[..i], {}, x) == 0
    ensures forall x :: CountInto(pairs[..i + 1], {}, x)
                        == CountInto(pairs[..i], {}, x) + if x == pairs[i].1 then 1 else 0
    ensures forall p :: ChildrenOf(pairs[..i + 1], p)
                        == ChildrenOf(pairs[..i], p) + if p == pairs[i].0 then [pairs[i].1] else []
  {
    var before, now := pairs[..i], pairs[..i + 1];
    assert now == before + [pairs[i]] && now[..|now| - 1] == before;
    forall x | x !in Elements(before)
      ensures CountInto(before, {}, x) == 0
    {
      NotMentioned(before, x);
    }
  }

  lemma NotMentioned<T(!new)>(pairs: seq<(T, T)>, x: T)
    requires x !in Elements(pairs)
    ensures CountInto(pairs, {}, x) == 0
  {
    EdgeEnds(pairs);
    CountZero(pairs, {}, x);
  }

  // Each count still has to go down by the number of times that the list names the element.
  ghost predicate Pending<T(!new)>(pairs: seq<(T, T)>, done: set<T>, counts: map<T, int>, list: seq<T>) {
    forall x :: x in counts ==> counts[x] == CountInto(pairs, done, x) + multiset(list)[x]
  }

  // What taking p out of the tables leaves to be counted down: one for each entry of its list.
  lemma TakeParent<T(!new)>(pairs: seq<(T, T)>, nodes: set<T>, done: set<T>, p: T,
                            numParents: map<T, int>, children: map<T, seq<T>>)
    requires Elements(pairs) <= nodes && Tables(pairs, nodes, done, numParents, children)
    requires p in numParents && numParents[p] == 0
    ensures var list := if p in children then children[p] else [];
      && (forall c :: c in list ==> c in numParents && c != p)
      && Pending(pairs, done + {p}, numParents, list)
    ensures Closed(pairs, done + {p}) && ListsLeft(pairs, done + {p}, children - {p})
  {
    var list := if p in children then children[p] else [];
    assert multiset(list) == multiset(ChildrenOf(pairs, p));
    CountZero(pairs, done, p);
    EdgeEnds(pairs);
    forall c | c in list
      ensures c in numParents && c != p
    {
      assert c in multiset(list);
      ChildrenAreEdges(pairs, p, c);
    }
    forall x | x in numParents
      ensures numParents[x] == CountInto(pairs, done + {p}, x) + multiset(list)[x]
    {
      ProcessOne(pairs, done, p, x);
    }
  }

  // Whatever is left over is on or below a cycle.
  lemma StuckMeansCycle<T(!new)>(pairs: seq<(T, T)>, nodes: set<T>, done: set<T>, numParents: map<T, int>, x: T)
    requires Elements(pairs) <= nodes
    requires numParents.Keys == nodes - done && Counted(pairs, done, numParents)
    requires x in numParents && forall y :: y in numParents ==> numParents[y] != 0
    ensures OnOrBelowCycle(pairs, x) && HasCycle(pairs)
  {
    var s := numParents.Keys;
    EdgeEnds(pairs);
    forall y | y in s
      ensures HasParentIn(pairs, s, y)
    {
      CountZero(pairs, done, y);
      var p :| Edge(pairs, p, y) && p !in done;
    }
    assert x in s;
    ParentsEverywhereGiveCycle(pairs, s, x);
  }

  // The elements whose count of unprocessed parents is zero.
  method Roots<T(!new)>(numParents: map<T, int>) returns (roots: seq<T>)
    ensures Distinct(roots)
    ensures forall x :: x in roots <==> x in numParents && numParents[x] == 0
  {
    var keys := InSomeOrder(numParents.Keys);
    roots := [];
    for k := 0 to |keys|
      invariant Distinct(roots)
      invariant forall x :: x in roots <==> x in keys[..k] && numParents[x] == 0
    {
      assert keys[k] !in keys[..k];
      if numParents[keys[k]] == 0 {
        roots := roots + [keys[k]];
      }
    }
    assert keys[..|keys|] == keys;
  }

  // The answer so far: it holds every element whose count has come down to zero, parents first.
  ghost predicate Queued<T(!new)>(pairs: seq<(T, T)>, answer: seq<T>, numParents: map<T, int>) {
    && Distinct(answer)
    && ParentsFirst(pairs, answer)
    && forall x :: x in numParents ==> (x in answer <==> numParents[x] == 0)
  }

  lemma RootsQueued<T(!new)>(pairs: seq<(T, T)>, roots: seq<T>, numParents: map<T, int>)
    requires Counted(pairs, {}, numParents) && Distinct(roots)
    requires forall x :: x in roots <==> x in numParents && numParents[x] == 0
    ensures Queued(pairs, roots, numParents)
  {
    forall k, p | 0 <= k < |roots|
      ensures !Edge(pairs, p, roots[k])
    {
      assert roots[k] in roots;
      CountZero(pairs, {}, roots[k]);
    }
  }

  lemma QueueChild<T(!new)>(pairs: seq<(T, T)>, done: set<T>, answer: seq<T>, child: T)
    requires ParentsFirst(pairs, answer) && Distinct(answer) && child !in answer
    requires CountInto(pairs, done, child) == 0
    requires forall x :: x in done ==> x in answer
    ensures ParentsFirst(pairs, answer + [child]) && Distinct(answer + [child])
  {
    CountZero(pairs, done, child);
    var longer := answer + [child];
    forall k, p | 0 <= k < |longer| && Edge(pairs, p, longer[k])
      ensures p in longer[..k]
    {
      assert longer[..k] == answer[..k];
    }
  }

  // Taking one off the count of the first child in the list: it is queued if that makes it zero.
  lemma CountDown<T(!new)>(pairs: seq<(T, T)>, done: set<T>, answer: seq<T>, counts: map<T, int>, list: seq<T>)
    requires Queued(pairs, answer, counts) && Pending(pairs, done, counts, list)
    requires list != [] && list[0] in counts && forall x :: x in done ==> x in answer
    ensures var child := list[0];
      var lower := counts[child := counts[child] - 1];
      && Pending(pairs, done, lower, list[1..])
      && Queued(pairs, if lower[child] == 0 then answer + [child] else answer, lower)
  {
    hide CountInto;
    assert list == [list[0]] + list[1..];
    if counts[list[0]] == 1 {
      QueueChild(pairs, done, answer, list[0]);
    }
    hide ParentsFirst, Distinct;
  }

  lemma CountedDown<T(!new)>(pairs: seq<(T, T)>, done: set<T>, counts: map<T, int>)
    requires Pending(pairs, done, counts, [])
    ensures Counted(pairs, done, counts)
  {
    hide CountInto;
  }

  ghost predicate AddedFrom<T>(before: seq<T>, answer: seq<T>, counts: set<T>) {
    before <= answer && forall x :: x in answer ==> x in before || x in counts
  }

  lemma AddedMore<T>(before: seq<T>, answer: seq<T>, counts: set<T>, child: T)
    requires AddedFrom(before, answer, counts) && child in counts
    ensures AddedFrom(before, answer + [child], counts) && forall x :: x in before ==> x in answer
  {
  }

  // One round of the inner loop: count the child down, and queue it if its count reaches zero.
  method KnockDownChild<T(!new)>(ghost pairs: seq<(T, T)>, ghost done: set<T>, child: T, ghost rest: seq<T>,
                                 ghost start: seq<T>, before: seq<T>, counts: map<T, int>)
    returns (answer: seq<T>, numParents: map<T, int>)
    requires child in counts && Pending(pairs, done, counts, [child] + rest)
    requires Queued(pairs, before, counts) && AddedFrom(start, before, counts.Keys)
    requires forall x :: x in done ==> x in start
    ensures Queued(pairs, answer, numParents) && AddedFrom(start, answer, counts.Keys)
    ensures numParents.Keys == counts.Keys && Pending(pairs, done, numParents, rest)
  {
    hide Queued, Pending;
    AddedMore(start, before, counts.Keys, child);
    hide AddedFrom;
    CountDown(pairs, done, before, counts, [child] + rest);
    assert ([child] + rest)[1..] == rest;
    answer, numParents := before, counts[child := counts[child] - 1];
    if numParents[child] == 0 {
      answer := answer + [child];
    }
  }

  // Count down the children in the list, appending to the answer those that reach zero.
  method KnockDown<T(!new)>(ghost pairs: seq<(T, T)>, ghost done: set<T>, list: seq<T>,
                            before: seq<T>, counts: map<T, int>)
    returns (answer: seq<T>, numParents: map<T, int>)
    requires forall c :: c in list ==> c in counts
    requires Pending(pairs, done, counts, list)
    requires forall x :: x in done ==> x in before
    requires Queued(pairs, before, counts)
    ensures AddedFrom(before, answer, counts.Keys)
    ensures Queued(pairs, answer, numParents)
    ensures numParents.Keys == counts.Keys && Counted(pairs, done, numParents)
  {
    answer, numParents := before, counts;
    assert list[0..] == list;
    assert AddedFrom(before, answer, counts.Keys);
    hide *;
    for j := 0 to |list|
      invariant AddedFrom(before, answer, counts.Keys)
      invariant Queued(pairs, answer, numParents)
      invariant numParents.Keys == counts.Keys
      invariant Pending(pairs, done, numParents, list[j..])
    {
      assert list[j..] == [list[j]] + list[j + 1..];
      answer, numParents := KnockDownChild(pairs, done, list[j], list[j + 1..], before, answer, numParents);
    }
    assert list[|list|..] == [];
    CountedDown(pairs, done, numParents);
  }

  method Topsort<T(!new)>(pairs: seq<(T, T)>) returns (r: SortResult<T>)
    ensures r.CycleError? <==> HasCycle(pairs)
    ensures r.Sorted? ==> IsTopologicalOrder(pairs, Elements(pairs), r.answer)
    ensures r.CycleError? ==>
      && Distinct(r.answer) && ParentsFirst(pairs, r.answer)
      && Stuck(pairs, Elements(pairs), SetOf(r.answer), r.numParents, r.children)
    ensures r.CycleError? ==> forall x :: x in r.numParents <==> OnOrBelowCycle(pairs, x)
  {
    var numParents, children := BuildTables(pairs);
    ghost var nodes, done := Elements(pairs), {};
    var answer := Roots(numParents);
    RootsQueued(pairs, answer, numParents);
    var i := 0;
    while i < |answer|
      invariant i <= |answer|
      invariant Tables(pairs, nodes, done, numParents, children)
      invariant Queued(pairs, answer, numParents)
      invariant ProcessedSoFar(answer, i, nodes, done)
      decreases |numParents|
    {
      NextInQueue(pairs, nodes, done, answer, i, numParents);
      ghost var before := answer;
      var parent := answer[i];
      answer, numParents, children := Process(pairs, nodes, done, parent, answer, numParents, children);
      NowProcessed(before, answer, i, nodes, done);
      done := done + {parent};
      i := i + 1;
    }
    Conclude(pairs, nodes, done, answer, numParents);
    if numParents != map[] {
      forall x
        ensures x in numParents <==> OnOrBelowCycle(pairs, x)
      {
        LeftoverIffBelowCycle(pairs, answer, numParents, children, x);
      }
      return CycleError(answer, numParents, children);
    }
    return Sorted(answer);
  }

  ghost predicate ProcessedSoFar<T(!new)>(answer: seq<T>, i: nat, nodes: set<T>, done: set<T>) {
    && i <= |answer|
    && (forall x :: x in done <==> x in answer[..i])
    && (forall x :: x in answer ==> x in nodes)
  }

  lemma NextInQueue<T(!new)>(pairs: seq<(T, T)>, nodes: set<T>, done: set<T>, answer: seq<T>, i: nat,
                              numParents: map<T, int>)
    requires i < |answer| && ProcessedSoFar(answer, i, nodes, done)
    requires numParents.Keys == nodes - done
    requires Queued(pairs, answer, numParents)
    ensures answer[i] in numParents && numParents[answer[i]] == 0
    ensures forall x :: x in done ==> x in answer
  {
  }

  lemma NowProcessed<T(!new)>(before: seq<T>, answer: seq<T>, i: nat, nodes: set<T>, done: set<T>)
    requires i < |before| && ProcessedSoFar(before, i, nodes, done)
    requires before <= answer && forall x :: x in answer ==> x in before || x in nodes
    ensures ProcessedSoFar(answer, i + 1, nodes, done + {before[i]})
  {
    assert answer[..i + 1] == before[..i] + [before[i]];
  }

  lemma QueuedWithout<T(!new)>(pairs: seq<(T, T)>, answer: seq<T>, counts: map<T, int>, p: T)
    requires Queued(pairs, answer, counts)
    ensures Queued(pairs, answer, counts - {p})
  {
  }

  // The loop body of the sort: delete the parent, knock its children down, forget its list.
  method Process<T(!new)>(ghost pairs: seq<(T, T)>, ghost nodes: set<T>, ghost done: set<T>, parent: T,
                          before: seq<T>, counts: map<T, int>, lists: map<T, seq<T>>)
    returns (answer: seq<T>, numParents: map<T, int>, children: map<T, seq<T>>)
    requires Elements(pairs) <= nodes && parent in before && parent in counts && counts[parent] == 0
    requires Tables(pairs, nodes, done, counts, lists)
    requires Queued(pairs, before, counts)
    requires forall x :: x in done ==> x in before
    ensures Tables(pairs, nodes, done + {parent}, numParents, children)
    ensures Queued(pairs, answer, numParents)
    ensures before <= answer && (forall x :: x in answer ==> x in before || x in nodes)
    ensures |numParents| < |counts|
  {
    hide Distinct, ParentsFirst, Closed, ListsLeft, Queued, Counted, Tables, Elements;
    TakeParent(pairs, nodes, done, parent, counts, lists);
    QueuedWithout(pairs, before, counts, parent);
    answer, numParents, children := before, counts - {parent}, lists;
    if parent in children {
      answer, numParents := KnockDown(pairs, done + {parent}, children[parent], answer, numParents);
      children := children - {parent};
    }
    assert lists - {parent} == children;
    ParentGone(pairs, nodes, done, parent, counts, lists, numParents, children);
  }

  lemma ParentGone<T(!new)>(pairs: seq<(T, T)>, nodes: set<T>, done: set<T>, p: T,
                            counts: map<T, int>, lists: map<T, seq<T>>,
                            numParents: map<T, int>, children: map<T, seq<T>>)
    requires p in counts && Tables(pairs, nodes, done, counts, lists)
    requires numParents.Keys == counts.Keys - {p}
    requires Counted(pairs, done + {p}, numParents)
    requires Closed(pairs, done + {p})
    requires ListsLeft(pairs, done + {p}, lists - {p}) && children == lists - {p}
    ensures Tables(pairs, nodes, done + {p}, numParents, children)
    ensures |numParents| < |counts|
  {
    assert |numParents.Keys| < |counts.Keys|;
  }

  lemma Conclude<T(!new)>(pairs: seq<(T, T)>, nodes: set<T>, done: set<T>, answer: seq<T>, numParents: map<T, int>)
    requires Elements(pairs) <= nodes && ProcessedSoFar(answer, |answer|, nodes, done)
    requires numParents.Keys == nodes - done && Counted(pairs, done, numParents)
    requires Queued(pairs, answer, numParents)
    ensures done == SetOf(answer) && Distinct(answer) && ParentsFirst(pairs, answer)
    ensures numParents != map[] <==> HasCycle(pairs)
    ensures forall x :: x in numParents ==> numParents[x] > 0
    ensures numParents == map[] ==> IsTopologicalOrder(pairs, nodes, answer)
  {
    assert answer[..|answer|] == answer;
    if x :| x in numParents {
      StuckMeansCycle(pairs, nodes, done, numParents, x);
    } else {
      assert nodes - done == {};
      forall i, j | 0 <= i < |answer| && 0 <= j < |answer| && Edge(pairs, answer[i], answer[j])
        ensures i < j
      {
        assert answer[i] in answer[..j];
      }
      TopologicalOrderHasNoCycle(pairs, nodes, answer);
    }
  }

  // A walk that ends at a listed element has come through elements listed before it.
  lemma {:induction false} WalkRises<T(!new)>(pairs: seq<(T, T)>, answer: seq<T>, w: seq<T>, j: nat) returns (i: nat)
    requires ParentsFirst(pairs, answer) && IsWalk(pairs, w) && j < |answer| && w[|w| - 1] == answer[j]
    ensures i + |w| - 1 <= j && answer[i] == w[0]
  {
    if |w| == 1 {
      i := j;
    } else {
      var front := w[..|w| - 1];
      assert Edge(pairs, w[|w| - 2], w[|w| - 2 + 1]);
      var k :| 0 <= k < j && answer[k] == front[|front| - 1];
      assert forall m :: 0 <= m < |front| - 1 ==> Edge(pairs, front[m], front[m + 1]) by {
        assert forall m :: 0 <= m < |w| - 1 ==> Edge(pairs, w[m], w[m + 1]);
      }
      i := WalkRises(pairs, answer, front, k);
    }
  }

  lemma ListedNotBelowCycle<T(!new)>(pairs: seq<(T, T)>, answer: seq<T>, x: T)
    requires Distinct(answer) && ParentsFirst(pairs, answer) && x in answer
    ensures !OnOrBelowCycle(pairs, x)
  {
    if OnOrBelowCycle(pairs, x) {
      var c: seq<T>, w: seq<T> :| IsClosedWalk(pairs, c) && WalkTo(pairs, c[0], w, x);
      var j :| 0 <= j < |answer| && answer[j] == x;
      var k := WalkRises(pairs, answer, w, j);
      var _ := WalkRises(pairs, answer, c, k);
    }
  }

  // The details of a CycleError name exactly the elements on or below a cycle.
  lemma LeftoverIffBelowCycle<T(!new)>(pairs: seq<(T, T)>, answer: seq<T>, numParents: map<T, int>,
                                       children: map<T, seq<T>>, x: T)
    requires Distinct(answer) && ParentsFirst(pairs, answer)
    requires Stuck(pairs, Elements(pairs), SetOf(answer), numParents, children)
    ensures x in numParents <==> OnOrBelowCycle(pairs, x)
  {
    if x in numParents {
      StuckMeansCycle(pairs, Elements(pairs), SetOf(answer), numParents, x);
    }
    if OnOrBelowCycle(pairs, x) {
      BelowCycleInElements(pairs, x);
      if x in answer {
        ListedNotBelowCycle(pairs, answer, x);
      }
    }
  }

  // So the remark that each of them has a child is right exactly if every element on or below a
  // cycle has one.
  lemma LeftoversHaveChildrenIff<T(!new)>(pairs: seq<(T, T)>, answer: seq<T>, numParents: map<T, int>,
                                          children: map<T, seq<T>>)
    requires Distinct(answer) && ParentsFirst(pairs, answer)
    requires Stuck(pairs, Elements(pairs), SetOf(answer), numParents, children)
    ensures (forall x :: x in numParents ==> HasChild(pairs, x)) <==>
            (forall x :: OnOrBelowCycle(pairs, x) ==> HasChild(pairs, x))
  {
    hide *;
    forall x
      ensures x in numParents <==> OnOrBelowCycle(pairs, x)
    {
      LeftoverIffBelowCycle(pairs, answer, numParents, children, x);
    }
  }

  // The pairs (2,3), (3,2), (3,4) end in a CycleError whose details name 4, which has no child.
  method LeftoverWithoutChild() returns (r: SortResult<int>)
    ensures r.CycleError? && 4 in r.numParents && !HasChild([(2, 3), (3, 2), (3, 4)], 4)
  {
    var pairs := [(2, 3), (3, 2), (3, 4)];
    assert pairs[0] in pairs && pairs[1] in pairs && pairs[2] in pairs;
    assert Edge(pairs, 2, 3) && Edge(pairs, 3, 2) && Edge(pairs, 3, 4);
    assert IsClosedWalk(pairs, [3, 2, 3]) && WalkTo(pairs, [3, 2, 3][0], [3, 4], 4);
    assert forall c :: !Edge(pairs, 4, c);
    hide Edge, IsClosedWalk, WalkTo, Stuck;
    r := Topsort(pairs);
  }

  // ---------- level by level ----------

  // Level k holds, once each, the nodes whose longest chain of ancestors has k edges.
  ghost predicate IsLevel<T(!new)>(pairs: seq<(T, T)>, nodes: set<T>, k: nat, level: seq<T>) {
    Distinct(level) && level != [] && forall x :: x in level <==> x in nodes && HasDepth(pairs, x, k)
  }

  ghost predicate LevelsByDepth<T(!new)>(pairs: seq<(T, T)>, nodes: set<T>, levels: seq<seq<T>>) {
    forall k :: 0 <= k < |levels| ==> IsLevel(pairs, nodes, k, levels[k])
  }

  // The nodes without a chain of k edges above them.
  ghost function Shallow<T(!new)>(pairs: seq<(T, T)>, nodes: set<T>, k: nat): set<T> {
    set x | x in nodes && !HasChain(pairs, x, k)
  }

  // The elements without unprocessed parents are the next level.
  lemma NextLevel<T(!new)>(pairs: seq<(T, T)>, nodes: set<T>, k: nat, numParents: map<T, int>, level: seq<T>)
    requires numParents.Keys == nodes - Shallow(pairs, nodes, k)
    requires Elements(pairs) <= nodes && Counted(pairs, Shallow(pairs, nodes, k), numParents)
    requires forall x :: x in level <==> x in numParents && numParents[x] == 0
    ensures forall x :: x in level <==> x in nodes && HasDepth(pairs, x, k)
    ensures Shallow(pairs, nodes, k + 1) == Shallow(pairs, nodes, k) + SetOf(level)
  {
    var done := Shallow(pairs, nodes, k);
    EdgeEnds(pairs);
    forall x | x in nodes
      ensures HasChain(pairs, x, k) ==> (x in level <==> !HasChain(pairs, x, k + 1))
      ensures HasChain(pairs, x, k + 1) ==> HasChain(pairs, x, k)
    {
      CountZero(pairs, done, x);
      if HasChain(pairs, x, k + 1) {
        ChainsShrink(pairs, x, k);
      }
    }
  }

  // Take one off the count of each child in the list.
  method CountChildren<T(!new)>(list: seq<T>, counts: map<T, int>) returns (numParents: map<T, int>)
    requires forall c :: c in list ==> c in counts
    ensures numParents.Keys == counts.Keys
    ensures forall x :: x in counts ==> numParents[x] == counts[x] - multiset(list)[x]
  {
    numParents := counts;
    for j := 0 to |list|
      invariant numParents.Keys == counts.Keys
      invariant forall x :: x in counts ==> numParents[x] == counts[x] - multiset(list[..j])[x]
    {
      assert list[..j + 1] == list[..j] + [list[j]];
      assert list[j] in list;
      numParents := numParents[list[j] := numParents[list[j]] - 1];
    }
    assert list[..|list|] == list;
  }

  // The members of the level that have not been processed yet.
  ghost predicate Waiting<T>(rest: seq<T>, numParents: map<T, int>) {
    Distinct(rest) && forall x :: x in rest ==> x in numParents && numParents[x] == 0
  }

  // The inner loop of the generator: a whole level is deleted and counted off.
  method ProcessLevel<T(!new)>(ghost pairs: seq<(T, T)>, ghost nodes: set<T>, ghost before: set<T>, level: seq<T>,
                               counts: map<T, int>, lists: map<T, seq<T>>)
    returns (numParents: map<T, int>, children: map<T, seq<T>>)
    requires Elements(pairs) <= nodes && Tables(pairs, nodes, before, counts, lists)
    requires Waiting(level, counts)
    ensures Tables(pairs, nodes, before + SetOf(level), numParents, children)
  {
    numParents, children := counts, lists;
    ghost var done := before;
    for j := 0 to |level|
      invariant Tables(pairs, nodes, done, numParents, children)
      invariant Waiting(level[j..], numParents)
      invariant done == before + SetOf(level[..j])
    {
      hide Tables, Distinct;
      assert level[j..] == [level[j]] + level[j + 1..];
      assert level[..j + 1] == level[..j] + [level[j]];
      numParents, children := ProcessMember(pairs, nodes, done, level[j], level[j + 1..], numParents, children);
      done := done + {level[j]};
    }
    assert level[..|level|] == level;
  }

  method ProcessMember<T(!new)>(ghost pairs: seq<(T, T)>, ghost nodes: set<T>, ghost done: set<T>, parent: T,
                                ghost rest: seq<T>, counts: map<T, int>, lists: map<T, seq<T>>)
    returns (numParents: map<T, int>, children: map<T, seq<T>>)
    requires Elements(pairs) <= nodes && Tables(pairs, nodes, done, counts, lists)
    requires Waiting([parent] + rest, counts)
    ensures Tables(pairs, nodes, done + {parent}, numParents, children)
    ensures Waiting(rest, numParents)
  {
    hide Closed, ListsLeft, Counted, Tables, Elements;
    assert parent in [parent] + rest;
    TakeParent(pairs, nodes, done, parent, counts, lists);
    numParents, children := counts - {parent}, lists;
    ghost var list := if parent in lists then lists[parent] else [];
    if parent in children {
      numParents := CountChildren(children[parent], numParents);
      children := children - {parent};
    }
    assert children == lists - {parent};
    CountedOff(pairs, done + {parent}, parent, list, rest, counts, numParents);
    ParentGone(pairs, nodes, done, parent, counts, lists, numParents, children);
  }

  lemma CountedOff<T(!new)>(pairs: seq<(T, T)>, done: set<T>, parent: T, list: seq<T>, rest: seq<T>,
                            counts: map<T, int>, numParents: map<T, int>)
    requires Pending(pairs, done, counts, list)
    requires numParents.Keys == counts.Keys - {parent}
    requires forall x :: x in numParents ==> numParents[x] == counts[x] - multiset(list)[x]
    requires Waiting([parent] + rest, counts)
    ensures Counted(pairs, done, numParents) && Waiting(rest, numParents)
  {
    var all := [parent] + rest;
    forall i | 0 <= i < |rest|
      ensures rest[i] != parent && rest[i] in counts && counts[rest[i]] == 0
    {
      assert all[i + 1] in all && all[0] != all[i + 1];
    }
    forall i, j | 0 <= i < j < |rest|
      ensures rest[i] != rest[j]
    {
      assert all[i + 1] == rest[i] && all[j + 1] == rest[j];
    }
  }

  // The state of the generator after it has yielded the given levels.
  ghost predicate Yielded<T(!new)>(pairs: seq<(T, T)>, nodes: set<T>, levels: seq<seq<T>>,
                                   numParents: map<T, int>, children: map<T, seq<T>>) {
    && LevelsByDepth(pairs, nodes, levels)
    && Tables(pairs, nodes, Shallow(pairs, nodes, |levels|), numParents, children)
  }

  method YieldLevel<T(!new)>(ghost pairs: seq<(T, T)>, ghost nodes: set<T>, before: seq<seq<T>>, level: seq<T>,
                             counts: map<T, int>, lists: map<T, seq<T>>)
    returns (levels: seq<seq<T>>, numParents: map<T, int>, children: map<T, seq<T>>)
    requires Elements(pairs) <= nodes && Yielded(pairs, nodes, before, counts, lists)
    requires Distinct(level) && level != [] && forall x :: x in level <==> x in counts && counts[x] == 0
    ensures Yielded(pairs, nodes, levels, numParents, children)
    ensures levels == before + [level] && |numParents| < |counts|
  {
    hide Closed, ListsLeft, Counted, Elements, HasDepth, Shallow, Distinct;
    ghost var k := |before|;
    NextLevel(pairs, nodes, k, counts, level);
    levels := before + [level];
    numParents, children := ProcessLevel(pairs, nodes, Shallow(pairs, nodes, k), level, counts, lists);
    Smaller(nodes, Shallow(pairs, nodes, k), level, counts, numParents);
  }

  lemma Smaller<T>(nodes: set<T>, done: set<T>, level: seq<T>, counts: map<T, int>, numParents: map<T, int>)
    requires counts.Keys == nodes - done && numParents.Keys == nodes - (done + SetOf(level))
    requires level != [] && forall x :: x in level ==> x in counts
    ensures |numParents| < |counts|
  {
    assert level[0] in level;
    assert numParents.Keys < counts.Keys;
    ProperSubsetSmaller(numParents.Keys, counts.Keys);
  }

  lemma ProperSubsetSmaller<T>(a: set<T>, b: set<T>)
    requires a < b
    ensures |a| < |b|
  {
    assert b == a + (b - a) && b - a != {};
  }

  // The levels, then how the generator ends. The tables may be given directly; pairs is then any
  // list of pairs that they describe.
  method TopsortLevelsCore<T(!new)>(ghost pairs: seq<(T, T)>, numParents0: map<T, int>, children0: map<T, seq<T>>)
    returns (levels: seq<seq<T>>, end: Ending<T>)
    requires Describes(pairs, numParents0, children0)
    ensures LevelsByDepth(pairs, numParents0.Keys, levels)
    ensures end.LevelsCycleError? <==> HasCycle(pairs)
    ensures end.StopIteration? ==> Shallow(pairs, numParents0.Keys, |levels|) == numParents0.Keys
    ensures end.LevelsCycleError? ==>
      Stuck(pairs, numParents0.Keys, Shallow(pairs, numParents0.Keys, |levels|), end.numParents, end.children)
    ensures end.LevelsCycleError? ==> forall x :: x in end.numParents <==> OnOrBelowCycle(pairs, x)
  {
    hide *;
    var numParents, children := numParents0, children0;
    ghost var nodes := numParents0.Keys;
    levels := [];
    NothingYielded(pairs, numParents, children);
    while true
      invariant Yielded(pairs, nodes, levels, numParents, children)
      decreases |numParents|
    {
      var level := Roots(numParents);
      if level == [] {
        break;
      }
      levels, numParents, children := YieldLevel(pairs, nodes, levels, level, numParents, children);
    }
    LevelsConclude(pairs, nodes, levels, numParents, children);
    if numParents != map[] {
      return levels, LevelsCycleError(numParents, children);
    }
    return levels, StopIteration;
  }

  lemma NothingYielded<T(!new)>(pairs: seq<(T, T)>, numParents: map<T, int>, children: map<T, seq<T>>)
    requires Describes(pairs, numParents, children)
    ensures Elements(pairs) <= numParents.Keys && Yielded(pairs, numParents.Keys, [], numParents, children)
  {
    assert Shallow(pairs, numParents.Keys, 0) == {};
  }

  lemma LevelsConclude<T(!new)>(pairs: seq<(T, T)>, nodes: set<T>, levels: seq<seq<T>>,
                                numParents: map<T, int>, children: map<T, seq<T>>)
    requires Elements(pairs) <= nodes && Yielded(pairs, nodes, levels, numParents, children)
    requires forall x :: x in numParents ==> numParents[x] != 0
    ensures LevelsByDepth(pairs, nodes, levels)
    ensures numParents != map[] <==> HasCycle(pairs)
    ensures numParents == map[] ==> Shallow(pairs, nodes, |levels|) == nodes
    ensures numParents != map[] ==> Stuck(pairs, nodes, Shallow(pairs, nodes, |levels|), numParents, children)
    ensures forall x :: x in numParents <==> OnOrBelowCycle(pairs, x)
  {
    var k := |levels|;
    forall x
      ensures x in numParents <==> OnOrBelowCycle(pairs, x)
    {
      if x in numParents {
        StuckMeansCycle(pairs, nodes, Shallow(pairs, nodes, k), numParents, x);
      } else if OnOrBelowCycle(pairs, x) {
        BelowCycleInElements(pairs, x);
        BelowCycleChain(pairs, x, k);
      }
    }
    if x :| x in numParents {
      StuckMeansCycle(pairs, nodes, Shallow(pairs, nodes, k), numParents, x);
    } else {
      assert nodes - Shallow(pairs, nodes, k) == {};
      forall x | x in nodes
        ensures !HasChain(pairs, x, k)
      {
        assert x !in nodes - Shallow(pairs, nodes, k);
      }
      BoundedChainsNoCycle(pairs, nodes, k);
    }
  }

  // A closed walk gives chains of every length.
  lemma BoundedChainsNoCycle<T(!new)>(pairs: seq<(T, T)>, nodes: set<T>, k: nat)
    requires Elements(pairs) <= nodes
    requires forall x :: x in nodes ==> !HasChain(pairs, x, k)
    ensures !HasCycle(pairs)
  {
    EdgeEnds(pairs);
    if HasCycle(pairs) {
      var w: seq<T> :| IsClosedWalk(pairs, w);
      assert Edge(pairs, w[|w| - 2], w[|w| - 2 + 1]);
      LoopChain(pairs, w, |w| - 1, k);
    }
  }

  // Below a cycle there are chains of every length.
  lemma BelowCycleChain<T(!new)>(pairs: seq<(T, T)>, x: T, k: nat)
    requires OnOrBelowCycle(pairs, x)
    ensures HasChain(pairs, x, k)
  {
    var c: seq<T>, w: seq<T> :| IsClosedWalk(pairs, c) && WalkTo(pairs, c[0], w, x);
    LoopChain(pairs, c, 0, k);
    ChainBelow(pairs, w, k);
  }

  lemma {:induction false} ChainBelow<T(!new)>(pairs: seq<(T, T)>, w: seq<T>, k: nat)
    requires IsWalk(pairs, w) && HasChain(pairs, w[0], k)
    ensures HasChain(pairs, w[|w| - 1], k)
  {
    if |w| > 1 {
      assert Edge(pairs, w[0], w[0 + 1]) && HasChain(pairs, w[1], k + 1);
      ChainsShrink(pairs, w[1], k);
      ChainBelow(pairs, w[1..], k);
    }
  }

  lemma {:induction false} LoopChain<T(!new)>(pairs: seq<(T, T)>, w: seq<T>, i: nat, k: nat)
    requires IsClosedWalk(pairs, w) && i < |w|
    ensures HasChain(pairs, w[i], k)
    decreases k
  {
    if k > 0 {
      var j := if i == 0 then |w| - 2 else i - 1;
      LoopChain(pairs, w, j, k - 1);
      assert Edge(pairs, w[j], w[j + 1]);
    }
  }

  method TopsortLevels<T(!new)>(pairs: seq<(T, T)>) returns (levels: seq<seq<T>>, end: Ending<T>)
    ensures LevelsByDepth(pairs, Elements(pairs), levels)
    ensures end.LevelsCycleError? <==> HasCycle(pairs)
    ensures end.StopIteration? ==> IsTopologicalOrder(pairs, Elements(pairs), Flatten(levels))
    ensures end.LevelsCycleError? ==>
      Stuck(pairs, Elements(pairs), Shallow(pairs, Elements(pairs), |levels|), end.numParents, end.children)
    ensures end.LevelsCycleError? ==> forall x :: x in end.numParents <==> OnOrBelowCycle(pairs, x)
  {
    var numParents, children := BuildTables(pairs);
    hide *;
    levels, end := TopsortLevelsCore(pairs, numParents, children);
    if end.StopIteration? {
      LevelsPartition(pairs, Elements(pairs), levels);
    }
  }

  ghost function Flatten<T>(levels: seq<seq<T>>): seq<T> {
    if levels == [] then [] else Flatten(levels[..|levels| - 1]) + levels[|levels| - 1]
  }

  // Levels by depth are disjoint, and laid end to end they run from parents to children; when
  // there are no deeper elements they are all of them.
  lemma {:induction false} LevelsPartition<T(!new)>(pairs: seq<(T, T)>, nodes: set<T>, levels: seq<seq<T>>)
    requires Elements(pairs) <= nodes
    requires LevelsByDepth(pairs, nodes, levels)
    ensures IsTopologicalOrder(pairs, Shallow(pairs, nodes, |levels|), Flatten(levels))
  {
    if levels == [] {
      assert Shallow(pairs, nodes, 0) == {};
    } else {
      var k := |levels| - 1;
      LevelsPartition(pairs, nodes, levels[..k]);
      assert IsLevel(pairs, nodes, k, levels[k]);
      AppendLevel(pairs, nodes, k, Flatten(levels[..k]), levels[k]);
    }
  }

  lemma AppendLevel<T(!new)>(pairs: seq<(T, T)>, nodes: set<T>, k: nat, prefix: seq<T>, last: seq<T>)
    requires Elements(pairs) <= nodes
    requires IsTopologicalOrder(pairs, Shallow(pairs, nodes, k), prefix)
    requires IsLevel(pairs, nodes, k, last)
    ensures IsTopologicalOrder(pairs, Shallow(pairs, nodes, k + 1), prefix + last)
  {
    var all := prefix + last;
    forall x | HasChain(pairs, x, k + 1)
      ensures HasChain(pairs, x, k)
    {
      ChainsShrink(pairs, x, k);
    }
    forall x
      ensures x in all <==> x in Shallow(pairs, nodes, k + 1)
    {
      assert x in all <==> x in prefix || x in last;
    }
    forall i, j | 0 <= i < j < |all|
      ensures all[i] != all[j]
    {
      if i < |prefix| <= j {
        assert prefix[i] in prefix && last[j - |prefix|] in last;
      }
    }
    forall i, j | 0 <= i < |all| && 0 <= j < |all| && Edge(pairs, all[i], all[j])
      ensures i < j
    {
      assert |prefix| <= i ==> all[i] in last;
      assert |prefix| <= j ==> all[j] in last;
      assert j < |prefix| ==> prefix[j] in prefix;
      assert |prefix| <= i ==> HasChain(pairs, all[j], k + 1);
    }
  }
}
