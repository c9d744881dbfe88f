/** The search for configuration paths on its member stacks
    (StaticInformation, simulation/utils/print-introspected-doxygen.cc). */
module TypePaths {
  import opened Lists
  import opened TypeGraphs
  import opened TypeRecords

  class StaticInformation {
    const g: Graph
    var output: seq<(TypeId, string)>
    var currentPath: seq<string>
    var alreadyProcessed: seq<TypeId>

    constructor (g: Graph)
      ensures this.g == g && output == [] && currentPath == [] && alreadyProcessed == []
    {
      this.g, output, currentPath, alreadyProcessed := g, [], [], [];
    }

    method GetCurrentPath() returns (path: string)
      ensures path == PathString(currentPath)
    {
      path := "";
      for i := 0 to |currentPath|
        invariant path == PathString(currentPath[..i])
      {
        assert currentPath[..i + 1][..i] == currentPath[..i];
        path := path + "/" + currentPath[i];
      }
      assert currentPath[..|currentPath|] == currentPath;
    }

    method RecordOutput(tid: TypeId)
      modifies this`output
      ensures output == old(output) + [(tid, PathString(currentPath))]
    {
      var path := GetCurrentPath();
      output := output + [(tid, path)];
    }

    method HasAlreadyBeenProcessed(tid: TypeId) returns (b: bool)
      ensures b <==> tid in alreadyProcessed
    {
      for i := 0 to |alreadyProcessed|
        invariant tid !in alreadyProcessed[..i]
      {
        if alreadyProcessed[i] == tid {
          return true;
        }
      }
      assert alreadyProcessed[..|alreadyProcessed|] == alreadyProcessed;
      return false;
    }

    // The records of the edges of tid followed so far are on the output behind its own record.
    ghost predicate Followed(tid: TypeId, edges: seq<Edge>, base: seq<(TypeId, string)>)
      requires g.Valid() && tid in g.types
      reads this
    {
      && edges <= g.Edges(tid)
      && output == base + Records(currentPath, Branches(g, edges, SetOf(alreadyProcessed) + {tid}))
    }

    // Append one record for each non-repeating walk from tid that avoids the types being
    // processed, in the order of the trails, and leave both stacks as they were.
    method DoGather(tid: TypeId)
      requires g.Valid() && tid in g.types
      modifies this`output, this`currentPath, this`alreadyProcessed
      ensures currentPath == old(currentPath) && alreadyProcessed == old(alreadyProcessed)
      ensures output == old(output) + Records(currentPath, Trails(g, tid, SetOf(alreadyProcessed)))
      decreases |g.types - SetOf(alreadyProcessed)|, 2
    {
      hide Branches, Trails, Records, Registry.Edges, SetOf, Graph.Valid;
      var processed := HasAlreadyBeenProcessed(tid);
      RecordsOfTrails(g, currentPath, alreadyProcessed, tid, output);
      if processed {
        return;
      }
      RecordOutput(tid);
      ghost var base := output;
      GatherAttributes(tid, base);
      GatherChildren(tid, base);
      GatherAggregates(tid, base);
    }

    // Push the step and the type, search from the target, pop both.
    method Descend(tid: TypeId, ghost edges: seq<Edge>, step: string, target: TypeId, ghost base: seq<(TypeId, string)>)
      requires g.Valid() && tid in g.types && tid !in alreadyProcessed
      requires edges + [Edge(step, target)] <= g.Edges(tid)
      requires Followed(tid, edges, base)
      modifies this`output, this`currentPath, this`alreadyProcessed
      ensures currentPath == old(currentPath) && alreadyProcessed == old(alreadyProcessed)
      ensures Followed(tid, edges + [Edge(step, target)], base)
      decreases |g.types - SetOf(alreadyProcessed)|, 0
    {
      hide Branches, Trails, Records, SetOf, Registry.Edges, Graph.Valid;
      EdgeInside(g, tid, edges, step, target);
      ghost var path, stack, seen := currentPath, alreadyProcessed, SetOf(alreadyProcessed);
      FewerLeft(g.types, stack, tid);
      currentPath := currentPath + [step];
      alreadyProcessed := alreadyProcessed + [tid];
      ghost var before := output;
      DoGather(target);
      alreadyProcessed := alreadyProcessed[..|alreadyProcessed| - 1];
      currentPath := currentPath[..|currentPath| - 1];
      assert output == before + Records(path + [step], Trails(g, target, seen + {tid}));
      OneMoreBranch(g, path, edges, step, target, seen + {tid});
    }

    method GatherAttributes(tid: TypeId, ghost base: seq<(TypeId, string)>)
      requires g.Valid() && tid in g.types && tid !in alreadyProcessed
      requires output == base
      modifies this`output, this`currentPath, this`alreadyProcessed
      ensures currentPath == old(currentPath) && alreadyProcessed == old(alreadyProcessed)
      ensures Followed(tid, g.reg.AttributeEdges(g.reg.attributes(tid)), base)
      decreases |g.types - SetOf(alreadyProcessed)|, 1
    {
      var attributes := g.reg.attributes(tid);
      for i := 0 to |attributes|
        invariant currentPath == old(currentPath) && alreadyProcessed == old(alreadyProcessed)
        invariant Followed(tid, g.reg.AttributeEdges(attributes[..i]), base)
      {
        hide Followed, Concat, Graph.Valid;
        AttributeStep(g, tid, i);
        ghost var edges := g.reg.AttributeEdges(attributes[..i]);
        assert edges + [] == edges;
        var info := attributes[i];
        match info.checker
        case PointerChecker(pointee) =>
          if g.reg.objectType == pointee {
            continue;
          }
          Descend(tid, edges, info.name, pointee, base);
        case ContainerChecker(item) =>
          Descend(tid, edges, info.name + "/[i]", item, base);
        case OtherChecker =>
      }
      assert attributes[..|attributes|] == attributes;
    }

    method GatherChildren(tid: TypeId, ghost base: seq<(TypeId, string)>)
      requires g.Valid() && tid in g.types && tid !in alreadyProcessed
      requires Followed(tid, g.reg.AttributeEdges(g.reg.attributes(tid)), base)
      modifies this`output, this`currentPath, this`alreadyProcessed
      ensures currentPath == old(currentPath) && alreadyProcessed == old(alreadyProcessed)
      ensures Followed(tid, g.FirstEdges(tid, g.reg.registered), base)
      decreases |g.types - SetOf(alreadyProcessed)|, 1
    {
      var registered := g.reg.registered;
      assert g.FirstEdges(tid, registered[..0]) == g.reg.AttributeEdges(g.reg.attributes(tid));
      for j := 0 to |registered|
        invariant currentPath == old(currentPath) && alreadyProcessed == old(alreadyProcessed)
        invariant Followed(tid, g.FirstEdges(tid, registered[..j]), base)
      {
        hide Followed, Concat, Graph.Valid, Graph.FirstEdges;
        ChildStep(g, tid, j);
        ghost var edges := g.FirstEdges(tid, registered[..j]);
        assert edges + [] == edges;
        var child := registered[j];
        if g.reg.isChildOf(child, tid) {
          var childName := "$" + g.reg.name(child);
          Descend(tid, edges, childName, child, base);
        }
      }
      assert registered[..|registered|] == registered;
    }

    method GatherAggregates(tid: TypeId, ghost base: seq<(TypeId, string)>)
      requires g.Valid() && tid in g.types && tid !in alreadyProcessed
      requires Followed(tid, g.FirstEdges(tid, g.reg.registered), base)
      modifies this`output, this`currentPath, this`alreadyProcessed
      ensures currentPath == old(currentPath) && alreadyProcessed == old(alreadyProcessed)
      ensures Followed(tid, g.Edges(tid), base)
      decreases |g.types - SetOf(alreadyProcessed)|, 1
    {
      var aggregates := g.aggregates;
      assert g.reg.Edges(tid, aggregates[..0]) == g.FirstEdges(tid, g.reg.registered);
      for j := 0 to |aggregates|
        invariant currentPath == old(currentPath) && alreadyProcessed == old(alreadyProcessed)
        invariant Followed(tid, g.reg.Edges(tid, aggregates[..j]), base)
      {
        hide Followed, Concat, Graph.Valid, Registry.Edges;
        AggregateStep(g, tid, j);
        ghost var edges := g.reg.Edges(tid, aggregates[..j]);
        assert edges + [] == edges;
        var item := aggregates[j];
        if item.0 == tid || item.1 == tid {
          var other := tid;
          if item.0 == tid {
            other := item.1;
          }
          if item.1 == tid {
            other := item.0;
          }
          var name := "$" + g.reg.name(other);
          Descend(tid, edges, name, other, base);
        }
      }
      assert aggregates[..|aggregates|] == aggregates;
    }

    // Uniquefy sorts and shortens a copy of the records, so it has no effect here: a gathering from
    // the start appends different records only if no edge is doubled.
    method Gather(tid: TypeId)
      requires g.Valid() && tid in g.types
      modifies this`output, this`currentPath, this`alreadyProcessed
      ensures currentPath == old(currentPath) && alreadyProcessed == old(alreadyProcessed)
      ensures output == old(output) + Records(currentPath, Trails(g, tid, SetOf(alreadyProcessed)))
      ensures old(currentPath) == [] && old(alreadyProcessed) == [] ==>
        && output == old(output) + RecordsFrom(g, tid)
        && (Doubled(g, tid) ==> !Distinct(RecordsFrom(g, tid)))
        && (WellNamed(g) ==> (Distinct(RecordsFrom(g, tid)) <==> !Doubled(g, tid)))
    {
      DoGather(tid);
      DifferentIffNotDoubled(g, tid);
      hide Trails, Distinct, Doubled, WellNamed;
      assert alreadyProcessed == [] ==> SetOf(alreadyProcessed) == {};
    }

    // One gathering for each root object: the records are all different exactly if no two of the
    // searches make the same one.
    method GatherAll(roots: seq<TypeId>)
      requires g.Valid() && forall r :: r in roots ==> r in g.types
      requires currentPath == [] && alreadyProcessed == []
      modifies this`output, this`currentPath, this`alreadyProcessed
      ensures currentPath == [] && alreadyProcessed == []
      ensures output == old(output) + AllRecords(g, roots)
      ensures Distinct(AllRecords(g, roots)) <==> forall i, a, j, b :: !CollidingSearches(g, roots, i, a, j, b)
    {
      for n := 0 to |roots|
        invariant currentPath == [] && alreadyProcessed == []
        invariant output == old(output) + AllRecords(g, roots[..n])
      {
        hide *;
        assert roots[n] in roots;
        OneMoreRoot(g, roots, n);
        JoinRecords(old(output), AllRecords(g, roots[..n]), RecordsFrom(g, roots[n]));
        Gather(roots[n]);
      }
      assert roots[..|roots|] == roots;
      AllDifferentIff(g, roots);
    }
  }

  // The record of the type itself and those of its branches are the records of all its trails; a
  // type that is being processed has none.
  lemma RecordsOfTrails(g: Graph, path: seq<string>, stack: seq<TypeId>, tid: TypeId, output: seq<(TypeId, string)>)
    requires g.Valid() && tid in g.types
    ensures var seen := SetOf(stack);
      output + Records(path, Trails(g, tid, seen)) ==
      if tid in stack then output
      else output + [(tid, PathString(path))] + Records(path, Branches(g, g.Edges(tid), seen + {tid}))
  {
    if tid !in stack {
      assert path + [] == path;
      RecordsAppend(path, [Trail([], [], tid)], Branches(g, g.Edges(tid), SetOf(stack) + {tid}));
    }
  }

  // Each loop follows the next edges of the type, if the entry it looks at gives any.
  lemma AttributeStep(g: Graph, tid: TypeId, i: nat)
    requires i < |g.reg.attributes(tid)|
    ensures var infos := g.reg.attributes(tid);
      && g.reg.AttributeEdges(infos[..i + 1]) == g.reg.AttributeEdges(infos[..i]) + g.reg.AttributeEdge(infos[i])
      && g.reg.AttributeEdges(infos[..i + 1]) <= g.Edges(tid)
  {
    ConcatPrefix(info => g.reg.AttributeEdge(info), g.reg.attributes(tid), i);
    ConcatPrefix(info => g.reg.AttributeEdge(info), g.reg.attributes(tid), i + 1);
  }

  lemma ChildStep(g: Graph, tid: TypeId, j: nat)
    requires j < |g.reg.registered|
    ensures var types := g.reg.registered;
      && g.FirstEdges(tid, types[..j + 1]) == g.FirstEdges(tid, types[..j]) + g.reg.ChildEdge(tid, types[j])
      && g.FirstEdges(tid, types[..j + 1]) <= g.Edges(tid)
  {
    ConcatPrefix(child => g.reg.ChildEdge(tid, child), g.reg.registered, j);
    ConcatPrefix(child => g.reg.ChildEdge(tid, child), g.reg.registered, j + 1);
  }

  lemma AggregateStep(g: Graph, tid: TypeId, j: nat)
    requires j < |g.aggregates|
    ensures var pairs := g.aggregates;
      && g.reg.Edges(tid, pairs[..j + 1]) == g.reg.Edges(tid, pairs[..j]) + g.reg.AggregateEdge(tid, pairs[j])
      && g.reg.Edges(tid, pairs[..j + 1]) <= g.Edges(tid)
  {
    ConcatPrefix(item => g.reg.AggregateEdge(tid, item), g.aggregates, j);
    ConcatPrefix(item => g.reg.AggregateEdge(tid, item), g.aggregates, j + 1);
  }

  lemma EdgeInside(g: Graph, tid: TypeId, edges: seq<Edge>, step: string, target: TypeId)
    requires g.Valid() && tid in g.types && edges + [Edge(step, target)] <= g.Edges(tid)
    ensures target in g.types && edges <= g.Edges(tid)
    ensures forall i :: 0 <= i < |edges| ==> edges[i].target in g.types
  {
    var es := edges + [Edge(step, target)];
    assert forall i :: 0 <= i < |es| ==> es[i] == g.Edges(tid)[i];
    assert es[|edges|].target == target;
  }

  lemma FewerLeft(types: set<TypeId>, stack: seq<TypeId>, tid: TypeId)
    requires tid in types && tid !in stack
    ensures SetOf(stack + [tid]) == SetOf(stack) + {tid}
    ensures |types - SetOf(stack + [tid])| < |types - SetOf(stack)|
  {
    assert types - SetOf(stack + [tid]) == (types - SetOf(stack)) - {tid};
  }

  lemma OneMoreBranch(g: Graph, path: seq<string>, edges: seq<Edge>, step: string, target: TypeId, seen: set<TypeId>)
    requires g.Valid() && target in g.types
    requires forall i :: 0 <= i < |edges| ==> edges[i].target in g.types
    ensures Records(path, Branches(g, edges, seen)) + Records(path + [step], Trails(g, target, seen))
      == Records(path, Branches(g, edges + [Edge(step, target)], seen))
  {
    var longer := edges + [Edge(step, target)];
    assert longer[..|edges|] == edges;
    RecordsExtend(path, |edges|, step, Trails(g, target, seen));
    RecordsAppend(path, Branches(g, edges, seen), Extend(|edges|, step, Trails(g, target, seen)));
  }
}
