/** Registered types as a finite labelled graph, with pointer attributes, container attributes, derived
    types and aggregations as edges; its walks, and the trails that a backtracking search visits
    (StaticInformation, simulation/utils/print-introspected-doxygen.cc). */
module TypeGraphs {
  import opened Lists

  type TypeId = nat

  datatype Checker = PointerChecker(pointee: TypeId) | ContainerChecker(item: TypeId) | OtherChecker

  datatype Attribute = Attribute(name: string, checker: Checker)

  datatype Edge = Edge(step: string, target: TypeId)

  // Everything that the walk asks about types. The derived types of a type are all its
  // descendants, as TypeId::IsChildOf says.
  datatype Registry = Registry(
    objectType: TypeId,
    registered: seq<TypeId>,
    name: TypeId -> string,
    attributes: TypeId -> seq<Attribute>,
    isChildOf: (TypeId, TypeId) -> bool)
  {
    // Followed are attributes that point to something more special than Object, and containers.
    function AttributeEdge(info: Attribute): seq<Edge> {
      match info.checker
      case PointerChecker(pointee) => if pointee == objectType then [] else [Edge(info.name, pointee)]
      case ContainerChecker(item) => [Edge(info.name + "/[i]", item)]
      case OtherChecker => []
    }

    function ChildEdge(tid: TypeId, child: TypeId): seq<Edge> {
      if isChildOf(child, tid) then [Edge("$" + name(child), child)] else []
    }

    // A type aggregated with itself leads to itself.
    function AggregateEdge(tid: TypeId, item: (TypeId, TypeId)): seq<Edge> {
      if item.1 == tid then [Edge("$" + name(item.0), item.0)]
      else if item.0 == tid then [Edge("$" + name(item.1), item.1)]
      else []
    }

    function AttributeEdges(attributes: seq<Attribute>): seq<Edge> {
      Concat(info => AttributeEdge(info), attributes)
    }

    function ChildEdges(tid: TypeId, candidates: seq<TypeId>): seq<Edge> {
      Concat(child => ChildEdge(tid, child), candidates)
    }

    function AggregateEdges(tid: TypeId, aggregates: seq<(TypeId, TypeId)>): seq<Edge> {
      Concat(item => AggregateEdge(tid, item), aggregates)
    }

    // The labelled edges out of a type, in the order in which they are followed.
    function Edges(tid: TypeId, aggregates: seq<(TypeId, TypeId)>): seq<Edge> {
      AttributeEdges(attributes(tid)) + ChildEdges(tid, registered) + AggregateEdges(tid, aggregates)
    }
  }

  function Concat<T>(f: T -> seq<Edge>, s: seq<T>): seq<Edge> {
    if s == [] then [] else Concat(f, s[..|s| - 1]) + f(s[|s| - 1])
  }

  lemma {:induction false} ConcatPrefix<T>(f: T -> seq<Edge>, s: seq<T>, i: nat)
    requires i <= |s|
    ensures Concat(f, s[..i]) <= Concat(f, s)
    ensures i < |s| ==> Concat(f, s[..i + 1]) == Concat(f, s[..i]) + f(s[i])
    decreases |s|
  {
    if i < |s| {
      assert s[..i + 1][..i] == s[..i];
      ConcatPrefix(f, s[..|s| - 1], i);
      assert s[..|s| - 1][..i] == s[..i];
    } else {
      assert s[..i] == s;
    }
  }

  // A finite set of types that no edge leaves.
  datatype Graph = Graph(reg: Registry, aggregates: seq<(TypeId, TypeId)>, types: set<TypeId>) {
    function Edges(tid: TypeId): seq<Edge> { reg.Edges(tid, aggregates) }

    function FirstEdges(tid: TypeId, candidates: seq<TypeId>): seq<Edge> {
      reg.AttributeEdges(reg.attributes(tid)) + reg.ChildEdges(tid, candidates)
    }

    ghost predicate Valid() {
      forall tid, i :: tid in types && 0 <= i < |Edges(tid)| ==> Edges(tid)[i].target in types
    }
  }

  // ---------- which edges there are ----------

  // Where an edge comes from: an attribute, a registered type or an aggregation, by its number.
  datatype Entry = OfAttribute(i: nat) | OfChild(j: nat) | OfAggregate(m: nat)

  // The edge that an entry gives, said of the registry alone. A pointer to a plain Object gives none.
  ghost predicate Gives(g: Graph, tid: TypeId, entry: Entry, e: Edge) {
    match entry
    case OfAttribute(i) =>
      && i < |g.reg.attributes(tid)|
      && var info := g.reg.attributes(tid)[i];
         || (info.checker == PointerChecker(e.target) && e.target != g.reg.objectType && e.step == info.name)
         || (info.checker == ContainerChecker(e.target) && e.step == info.name + "/[i]")
    case OfChild(j) =>
      && j < |g.reg.registered| && g.reg.registered[j] == e.target
      && g.reg.isChildOf(e.target, tid) && e.step == "$" + g.reg.name(e.target)
    case OfAggregate(m) =>
      && m < |g.aggregates| && g.aggregates[m] in {(tid, e.target), (e.target, tid)}
      && e.step == "$" + g.reg.name(e.target)
  }

  // Attributes come before registered types, and these before aggregations.
  ghost predicate ComesBefore(a: Entry, b: Entry) {
    match (a, b)
    case (OfAttribute(i), OfAttribute(j)) => i < j
    case (OfAttribute(_), _) => true
    case (OfChild(i), OfChild(j)) => i < j
    case (OfChild(_), OfAggregate(_)) => true
    case (OfAggregate(i), OfAggregate(j)) => i < j
    case _ => false
  }

  // The numbers of the items that the function makes an edge of.
  ghost function Positions<T>(f: T -> seq<Edge>, s: seq<T>): seq<nat> {
    if s == [] then [] else
      var n := |s| - 1;
      Positions(f, s[..n]) + if f(s[n]) != [] then [n] else []
  }

  ghost predicate PositionsOk<T>(f: T -> seq<Edge>, s: seq<T>, ps: seq<nat>) {
    && (forall k :: 0 <= k < |ps| ==> ps[k] < |s|)
    && (forall k, l :: 0 <= k < l < |ps| ==> ps[k] < ps[l])
    && forall i: nat :: i < |s| && f(s[i]) != [] ==> i in ps
  }

  ghost predicate EdgesAt<T>(f: T -> seq<Edge>, s: seq<T>, ps: seq<nat>, es: seq<Edge>) {
    |ps| == |es| && forall k :: 0 <= k < |ps| ==> ps[k] < |s| && f(s[ps[k]]) == [es[k]]
  }

  lemma {:induction false} PositionsOfEdges<T>(f: T -> seq<Edge>, s: seq<T>)
    requires forall x :: x in s ==> |f(x)| <= 1
    ensures PositionsOk(f, s, Positions(f, s)) && EdgesAt(f, s, Positions(f, s), Concat(f, s))
  {
    if s != [] {
      hide PositionsOk, EdgesAt;
      var n := |s| - 1;
      assert s[n] in s && forall x :: x in s[..n] ==> x in s;
      PositionsOfEdges(f, s[..n]);
      OnePosition(f, s, Positions(f, s[..n]));
      OneEdge(f, s, Positions(f, s[..n]), Concat(f, s[..n]));
    }
  }

  lemma OnePosition<T>(f: T -> seq<Edge>, s: seq<T>, ps: seq<nat>)
    requires s != [] && PositionsOk(f, s[..|s| - 1], ps)
    ensures PositionsOk(f, s, ps + if f(s[|s| - 1]) != [] then [|s| - 1] else [])
  {
    var front := s[..|s| - 1];
    assert forall i :: 0 <= i < |front| ==> front[i] == s[i];
  }

  lemma OneEdge<T>(f: T -> seq<Edge>, s: seq<T>, ps: seq<nat>, es: seq<Edge>)
    requires s != [] && EdgesAt(f, s[..|s| - 1], ps, es) && |f(s[|s| - 1])| <= 1
    ensures EdgesAt(f, s, ps + (if f(s[|s| - 1]) != [] then [|s| - 1] else []), es + f(s[|s| - 1]))
  {
  }

  // Entries and edges side by side.
  ghost predicate Matching(g: Graph, tid: TypeId, entries: seq<Entry>, edges: seq<Edge>) {
    |entries| == |edges| && forall k :: 0 <= k < |entries| ==> Gives(g, tid, entries[k], edges[k])
  }

  ghost predicate InOrder(entries: seq<Entry>) {
    forall a, b :: 0 <= a < b < |entries| ==> ComesBefore(entries[a], entries[b])
  }

  lemma JoinEntries(g: Graph, tid: TypeId, a: seq<Entry>, ea: seq<Edge>, b: seq<Entry>, eb: seq<Edge>)
    requires Matching(g, tid, a, ea) && Matching(g, tid, b, eb) && InOrder(a) && InOrder(b)
    requires forall x, y :: x in a && y in b ==> ComesBefore(x, y)
    ensures Matching(g, tid, a + b, ea + eb) && InOrder(a + b)
  {
    hide Gives, ComesBefore;
    var all := a + b;
    forall i, j | 0 <= i < j < |all|
      ensures ComesBefore(all[i], all[j])
    {
      assert i < |a| <= j ==> a[i] in a && b[j - |a|] in b;
    }
  }

  // The entries of one kind, when the function makes of each the edge that it gives.
  lemma EntriesOf<T>(g: Graph, tid: TypeId, f: T -> seq<Edge>, s: seq<T>, entry: nat -> Entry)
    returns (entries: seq<Entry>)
    requires forall x :: x in s ==> |f(x)| <= 1
    requires forall i: nat, e {:trigger Gives(g, tid, entry(i), e)} ::
      Gives(g, tid, entry(i), e) <==> i < |s| && f(s[i]) == [e]
    requires forall i: nat, j: nat :: i < j ==> ComesBefore(entry(i), entry(j))
    ensures Matching(g, tid, entries, Concat(f, s)) && InOrder(entries)
    ensures forall x :: x in entries ==> exists i: nat :: x == entry(i)
    ensures forall i: nat, e :: Gives(g, tid, entry(i), e) ==> entry(i) in entries
  {
    hide Gives, ComesBefore, Positions, Concat;
    PositionsOfEdges(f, s);
    var ps := Positions(f, s);
    entries := seq(|ps|, k requires 0 <= k < |ps| => entry(ps[k]));
    forall i: nat, e | Gives(g, tid, entry(i), e)
      ensures entry(i) in entries
    {
      assert f(s[i]) != [];
      var k :| 0 <= k < |ps| && ps[k] == i;
      assert entries[k] == entry(i);
    }
  }

  lemma AttributeGives(g: Graph, tid: TypeId) returns (entries: seq<Entry>)
    ensures Matching(g, tid, entries, g.reg.AttributeEdges(g.reg.attributes(tid))) && InOrder(entries)
    ensures forall x :: x in entries ==> x.OfAttribute?
    ensures forall x: Entry, e :: x.OfAttribute? && Gives(g, tid, x, e) ==> x in entries
  {
    hide Concat, Matching, InOrder;
    var entry := (i: nat) => OfAttribute(i);
    assert forall x: Entry :: x.OfAttribute? ==> x == entry(x.i);
    entries := EntriesOf(g, tid, info => g.reg.AttributeEdge(info), g.reg.attributes(tid), entry);
  }

  lemma ChildGives(g: Graph, tid: TypeId) returns (entries: seq<Entry>)
    ensures Matching(g, tid, entries, g.reg.ChildEdges(tid, g.reg.registered)) && InOrder(entries)
    ensures forall x :: x in entries ==> x.OfChild?
    ensures forall x: Entry, e :: x.OfChild? && Gives(g, tid, x, e) ==> x in entries
  {
    hide Concat, Matching, InOrder;
    var entry := (j: nat) => OfChild(j);
    assert forall x: Entry :: x.OfChild? ==> x == entry(x.j);
    entries := EntriesOf(g, tid, child => g.reg.ChildEdge(tid, child), g.reg.registered, entry);
  }

  lemma AggregateGives(g: Graph, tid: TypeId) returns (entries: seq<Entry>)
    ensures Matching(g, tid, entries, g.reg.AggregateEdges(tid, g.aggregates)) && InOrder(entries)
    ensures forall x :: x in entries ==> x.OfAggregate?
    ensures forall x: Entry, e :: x.OfAggregate? && Gives(g, tid, x, e) ==> x in entries
  {
    hide Concat, Matching, InOrder;
    var entry := (m: nat) => OfAggregate(m);
    assert forall x: Entry :: x.OfAggregate? ==> x == entry(x.m);
    entries := EntriesOf(g, tid, item => g.reg.AggregateEdge(tid, item), g.aggregates, entry);
  }

  // The edges out of a type are exactly those that entries give, one for each entry that gives one,
  // in the order of the entries.
  lemma EdgesFromEntries(g: Graph, tid: TypeId) returns (entries: seq<Entry>)
    ensures Matching(g, tid, entries, g.Edges(tid)) && InOrder(entries)
    ensures forall entry, e :: Gives(g, tid, entry, e) ==> entry in entries
  {
    var a := AttributeGives(g, tid);
    var c := ChildGives(g, tid);
    var m := AggregateGives(g, tid);
    hide Matching, InOrder, Gives, Registry.AttributeEdges, Registry.ChildEdges, Registry.AggregateEdges;
    var ea, ec, em := g.reg.AttributeEdges(g.reg.attributes(tid)), g.reg.ChildEdges(tid, g.reg.registered),
      g.reg.AggregateEdges(tid, g.aggregates);
    JoinEntries(g, tid, a, ea, c, ec);
    assert forall x :: x in a + c ==> x in a || x in c;
    JoinEntries(g, tid, a + c, ea + ec, m, em);
    entries := a + c + m;
    forall entry, e | Gives(g, tid, entry, e)
      ensures entry in entries
    {
      assert entry in a || entry in c || entry in m;
    }
  }

  // No entry gives two edges.
  lemma GivesOne(g: Graph, tid: TypeId, entry: Entry, d: Edge, e: Edge)
    requires Gives(g, tid, entry, d) && Gives(g, tid, entry, e)
    ensures d == e
  {
  }

  // There is an edge exactly for the pointees and the items of attributes, the descendants, and the
  // other members of aggregations.
  lemma EdgeIff(g: Graph, tid: TypeId, e: Edge)
    ensures e in g.Edges(tid) <==> exists entry :: Gives(g, tid, entry, e)
  {
    var entries := EdgesFromEntries(g, tid);
    hide Registry.Edges;
    if entry :| Gives(g, tid, entry, e) {
      var k :| 0 <= k < |entries| && entries[k] == entry;
      GivesOne(g, tid, entry, g.Edges(tid)[k], e);
    }
    if k :| 0 <= k < |g.Edges(tid)| && g.Edges(tid)[k] == e {
      assert Gives(g, tid, entries[k], e);
    }
  }

  // ---------- walks: the reference definition ----------

  // A walk is given by the number of the edge taken at each type, so that two edges with the same
  // label and target make different walks.
  ghost predicate IsWalk(g: Graph, tid: TypeId, walk: seq<nat>)
    decreases |walk|
  {
    walk == [] || (walk[0] < |g.Edges(tid)| && IsWalk(g, g.Edges(tid)[walk[0]].target, walk[1..]))
  }

  ghost function TypesAlong(g: Graph, tid: TypeId, walk: seq<nat>): (types: seq<TypeId>)
    requires IsWalk(g, tid, walk)
    ensures |types| == |walk| + 1
    decreases |walk|
  {
    [tid] + if walk == [] then [] else TypesAlong(g, g.Edges(tid)[walk[0]].target, walk[1..])
  }

  ghost function StepsAlong(g: Graph, tid: TypeId, walk: seq<nat>): seq<string>
    requires IsWalk(g, tid, walk)
    decreases |walk|
  {
    if walk == [] then [] else
      var e := g.Edges(tid)[walk[0]];
      [e.step] + StepsAlong(g, e.target, walk[1..])
  }

  // No type is met twice, and none of those seen before.
  ghost predicate NonRepeating(g: Graph, tid: TypeId, walk: seq<nat>, seen: set<TypeId>) {
    && IsWalk(g, tid, walk)
    && Distinct(TypesAlong(g, tid, walk))
    && forall t :: t in TypesAlong(g, tid, walk) ==> t !in seen
  }

  // ---------- trails: what the backtracking search visits, in its order ----------

  datatype Trail = Trail(walk: seq<nat>, steps: seq<string>, end: TypeId)

  function Trails(g: Graph, tid: TypeId, seen: set<TypeId>): seq<Trail>
    requires g.Valid() && tid in g.types
    decreases |g.types - seen|, 0, 0
  {
    if tid in seen then [] else
      assert g.types - (seen + {tid}) == (g.types - seen) - {tid};
      [Trail([], [], tid)] + Branches(g, g.Edges(tid), seen + {tid})
  }

  function Branches(g: Graph, edges: seq<Edge>, seen: set<TypeId>): seq<Trail>
    requires g.Valid() && forall i :: 0 <= i < |edges| ==> edges[i].target in g.types
    decreases |g.types - seen|, 1, |edges|
  {
    if edges == [] then [] else
      var k := |edges| - 1;
      Branches(g, edges[..k], seen) + Extend(k, edges[k].step, Trails(g, edges[k].target, seen))
  }

  function Extend(k: nat, step: string, trails: seq<Trail>): (r: seq<Trail>) {
    seq(|trails|, i requires 0 <= i < |trails| => Trail([k] + trails[i].walk, [step] + trails[i].steps, trails[i].end))
  }

  // Each trail is a non-repeating walk with its labels and its last type.
  lemma {:induction false} TrailsSound(g: Graph, tid: TypeId, seen: set<TypeId>)
    requires g.Valid() && tid in g.types
    ensures forall t :: t in Trails(g, tid, seen) ==>
      && NonRepeating(g, tid, t.walk, seen)
      && t.steps == StepsAlong(g, tid, t.walk)
      && t.end == TypesAlong(g, tid, t.walk)[|t.walk|]
    decreases |g.types - seen|, 0, 0
  {
    if tid !in seen {
      assert g.types - (seen + {tid}) == (g.types - seen) - {tid};
      BranchesSound(g, tid, g.Edges(tid), seen);
    }
  }

  lemma {:induction false} BranchesSound(g: Graph, tid: TypeId, edges: seq<Edge>, seen: set<TypeId>)
    requires g.Valid() && tid in g.types && tid !in seen && edges <= g.Edges(tid)
    ensures forall t :: t in Branches(g, edges, seen + {tid}) ==>
      && NonRepeating(g, tid, t.walk, seen)
      && t.steps == StepsAlong(g, tid, t.walk)
      && t.end == TypesAlong(g, tid, t.walk)[|t.walk|]
      && t.walk != [] && t.walk[0] < |edges|
    decreases |g.types - (seen + {tid})|, 1, |edges|
  {
    if edges != [] {
      hide Registry.Edges;
      var k := |edges| - 1;
      var below := seen + {tid};
      BranchesSound(g, tid, edges[..k], seen);
      TrailsSound(g, edges[k].target, below);
      var trails := Trails(g, edges[k].target, below);
      forall i | 0 <= i < |trails|
        ensures var t := Extend(k, edges[k].step, trails)[i];
          && NonRepeating(g, tid, t.walk, seen)
          && t.steps == StepsAlong(g, tid, t.walk)
          && t.end == TypesAlong(g, tid, t.walk)[|t.walk|]
      {
        assert trails[i] in trails;
        StepFirst(g, tid, k, trails[i].walk, seen);
      }
    }
  }

  lemma StepFirst(g: Graph, tid: TypeId, k: nat, walk: seq<nat>, seen: set<TypeId>)
    requires k < |g.Edges(tid)|
    ensures NonRepeating(g, tid, [k] + walk, seen) <==>
      tid !in seen && NonRepeating(g, g.Edges(tid)[k].target, walk, seen + {tid})
    ensures IsWalk(g, tid, [k] + walk) <==> IsWalk(g, g.Edges(tid)[k].target, walk)
    ensures IsWalk(g, tid, [k] + walk) ==>
      var e := g.Edges(tid)[k];
      && StepsAlong(g, tid, [k] + walk) == [e.step] + StepsAlong(g, e.target, walk)
      && TypesAlong(g, tid, [k] + walk) == [tid] + TypesAlong(g, e.target, walk)
  {
    hide Registry.Edges;
    assert ([k] + walk)[1..] == walk;
    if IsWalk(g, tid, [k] + walk) {
      var below := TypesAlong(g, g.Edges(tid)[k].target, walk);
      var all := TypesAlong(g, tid, [k] + walk);
      assert all == [tid] + below;
      assert forall i :: 0 <= i < |below| ==> below[i] == all[i + 1];
      assert all[0] == tid;
    }
  }

  // Every non-repeating walk is visited.
  lemma {:induction false} TrailsComplete(g: Graph, tid: TypeId, seen: set<TypeId>, walk: seq<nat>)
    requires g.Valid() && tid in g.types && NonRepeating(g, tid, walk, seen)
    ensures exists t :: t in Trails(g, tid, seen) && t.walk == walk
    decreases |walk|
  {
    assert tid !in seen by {
      assert TypesAlong(g, tid, walk)[0] == tid;
    }
    var trails := Trails(g, tid, seen);
    if walk == [] {
      assert trails[0].walk == walk;
    } else {
      var k, rest := walk[0], walk[1..];
      assert walk == [k] + rest;
      StepFirst(g, tid, k, rest, seen);
      var e := g.Edges(tid)[k];
      TrailsComplete(g, e.target, seen + {tid}, rest);
      var t :| t in Trails(g, e.target, seen + {tid}) && t.walk == rest;
      BranchHas(g, g.Edges(tid), seen + {tid}, k, t);
    }
  }

  lemma {:induction false} BranchHas(g: Graph, edges: seq<Edge>, seen: set<TypeId>, k: nat, t: Trail)
    requires g.Valid() && forall i :: 0 <= i < |edges| ==> edges[i].target in g.types
    requires k < |edges| && t in Trails(g, edges[k].target, seen)
    ensures Trail([k] + t.walk, [edges[k].step] + t.steps, t.end) in Branches(g, edges, seen)
  {
    var last := |edges| - 1;
    hide Trails, Registry.Edges;
    if k < last {
      BranchHas(g, edges[..last], seen, k, t);
    } else {
      var trails := Trails(g, edges[k].target, seen);
      hide Graph.Valid;
      var i :| 0 <= i < |trails| && trails[i] == t;
      var ex := Extend(k, edges[k].step, trails);
      assert ex[i] in ex;
    }
  }

  // The order of a search that records a type before what is below it and follows the edges as
  // they are numbered.
  ghost predicate Earlier(a: seq<nat>, b: seq<nat>) {
    b != [] && (a == [] || a[0] < b[0] || (a[0] == b[0] && Earlier(a[1..], b[1..])))
  }

  lemma {:induction false} EarlierDiffers(a: seq<nat>, b: seq<nat>)
    requires Earlier(a, b)
    ensures a != b && !Earlier(b, a)
  {
    if a != [] && a[0] == b[0] {
      EarlierDiffers(a[1..], b[1..]);
    }
  }

  // The walks are visited in this order, so that no walk is visited twice.
  lemma {:induction false} TrailsInOrder(g: Graph, tid: TypeId, seen: set<TypeId>)
    requires g.Valid() && tid in g.types
    ensures forall i, j :: 0 <= i < j < |Trails(g, tid, seen)| ==>
      Earlier(Trails(g, tid, seen)[i].walk, Trails(g, tid, seen)[j].walk)
    decreases |g.types - seen|, 0, 0
  {
    if tid !in seen {
      assert g.types - (seen + {tid}) == (g.types - seen) - {tid};
      var branches := Branches(g, g.Edges(tid), seen + {tid});
      BranchesInOrder(g, g.Edges(tid), seen + {tid});
      assert forall j :: 0 <= j < |branches| ==> branches[j] in branches;
    }
  }

  lemma {:induction false} BranchesInOrder(g: Graph, edges: seq<Edge>, seen: set<TypeId>)
    requires g.Valid() && forall i :: 0 <= i < |edges| ==> edges[i].target in g.types
    ensures forall i, j :: 0 <= i < j < |Branches(g, edges, seen)| ==>
      Earlier(Branches(g, edges, seen)[i].walk, Branches(g, edges, seen)[j].walk)
    ensures forall t :: t in Branches(g, edges, seen) ==> t.walk != [] && t.walk[0] < |edges|
    decreases |g.types - seen|, 1, |edges|
  {
    if edges != [] {
      var k := |edges| - 1;
      BranchesInOrder(g, edges[..k], seen);
      TrailsInOrder(g, edges[k].target, seen);
      var front, trails := Branches(g, edges[..k], seen), Trails(g, edges[k].target, seen);
      var last := Extend(k, edges[k].step, trails);
      var all := front + last;
      assert Branches(g, edges, seen) == all;
      forall i, j | 0 <= i < j < |all|
        ensures Earlier(all[i].walk, all[j].walk)
      {
        if i < |front| <= j {
          assert front[i] in front;
        } else if |front| <= i {
          assert all[i].walk[1..] == trails[i - |front|].walk;
          assert all[j].walk[1..] == trails[j - |front|].walk;
        }
      }
      forall t | t in all
        ensures t.walk != [] && t.walk[0] < |edges|
      {
        assert t in front || t in last;
      }
    }
  }

  lemma TrailsOnce(g: Graph, tid: TypeId, seen: set<TypeId>)
    requires g.Valid() && tid in g.types
    ensures forall i, j :: 0 <= i < j < |Trails(g, tid, seen)| ==>
      Trails(g, tid, seen)[i].walk != Trails(g, tid, seen)[j].walk
  {
    var trails := Trails(g, tid, seen);
    TrailsInOrder(g, tid, seen);
    forall i, j | 0 <= i < j < |trails|
      ensures trails[i].walk != trails[j].walk
    {
      EarlierDiffers(trails[i].walk, trails[j].walk);
    }
  }
}
