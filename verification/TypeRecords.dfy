/** The records of a search through registered types: a type with the path it was found at, and when
    they are all different (StaticInformation, simulation/utils/print-introspected-doxygen.cc). */
module TypeRecords {
  import opened Lists
  import opened TypeGraphs

  // "/" in front of each step.
  function PathString(steps: seq<string>): string {
    if steps == [] then "" else PathString(steps[..|steps| - 1]) + "/" + steps[|steps| - 1]
  }

  lemma PathFurther(a: string, b: string, step: string)
    ensures a + b + "/" + step == a + (b + "/" + step)
  {
  }

  // Paths join to paths, from one step on, whatever the steps hold.
  lemma {:induction false} PathsJoin(a: seq<string>, b: seq<string>)
    ensures PathString(a + b) == PathString(a) + PathString(b)
    ensures |b| == 1 ==> PathString(b) == "/" + b[0]
  {
    if b == [] {
      assert a + b == a;
    } else {
      var n := |b| - 1;
      assert (a + b)[..|a + b| - 1] == a + b[..n];
      PathsJoin(a, b[..n]);
      PathFurther(PathString(a), PathString(b[..n]), b[n]);
      assert PathString(b) == PathString(b[..n]) + "/" + b[n];
      assert PathString(a + b) == PathString(a + b[..n]) + "/" + b[n];
      hide PathString;
      assert |b| == 1 ==> PathString(b[..n]) + "/" == "/";
    }
  }

  function Records(above: seq<string>, trails: seq<Trail>): (r: seq<(TypeId, string)>) {
    seq(|trails|, i requires 0 <= i < |trails| => (trails[i].end, PathString(above + trails[i].steps)))
  }

  lemma RecordsAppend(above: seq<string>, a: seq<Trail>, b: seq<Trail>)
    ensures Records(above, a + b) == Records(above, a) + Records(above, b)
  {
  }

  // Records of extended trails are the records of the trails from one step further down.
  lemma RecordsExtend(above: seq<string>, k: nat, step: string, trails: seq<Trail>)
    ensures Records(above, Extend(k, step, trails)) == Records(above + [step], trails)
  {
    forall i | 0 <= i < |trails|
      ensures above + Extend(k, step, trails)[i].steps == above + [step] + trails[i].steps
    {
    }
  }

  // ---------- walks, cut and joined ----------

  ghost function EndOf(g: Graph, tid: TypeId, walk: seq<nat>): TypeId
    requires IsWalk(g, tid, walk)
  {
    TypesAlong(g, tid, walk)[|walk|]
  }

  lemma NoSteps(g: Graph, tid: TypeId)
    ensures IsWalk(g, tid, []) && TypesAlong(g, tid, []) == [tid] && StepsAlong(g, tid, []) == []
  {
  }

  // A walk goes over its first edge, and on from there.
  lemma FirstEdge(g: Graph, tid: TypeId, walk: seq<nat>)
    requires IsWalk(g, tid, walk) && walk != []
    ensures walk[0] < |g.Edges(tid)|
    ensures var e := g.Edges(tid)[walk[0]];
      && IsWalk(g, e.target, walk[1..])
      && TypesAlong(g, tid, walk) == [tid] + TypesAlong(g, e.target, walk[1..])
      && StepsAlong(g, tid, walk) == [e.step] + StepsAlong(g, e.target, walk[1..])
  {
    hide Registry.Edges;
  }

  lemma {:induction false} WalkPrefix(g: Graph, tid: TypeId, walk: seq<nat>, m: nat)
    requires IsWalk(g, tid, walk) && m <= |walk|
    ensures IsWalk(g, tid, walk[..m])
    ensures TypesAlong(g, tid, walk[..m]) == TypesAlong(g, tid, walk)[..m + 1]
    decreases m
  {
    hide *;
    if m == 0 {
      WalkStart(g, tid, walk);
      NoSteps(g, tid);
      assert walk[..0] == [];
    } else {
      FirstEdge(g, tid, walk);
      var next, rest := g.Edges(tid)[walk[0]].target, walk[1..];
      WalkPrefix(g, next, rest, m - 1);
      assert walk[..m] == [walk[0]] + rest[..m - 1];
      StepFirst(g, tid, walk[0], rest[..m - 1], {});
    }
  }

  lemma WalkStart(g: Graph, tid: TypeId, walk: seq<nat>)
    requires IsWalk(g, tid, walk)
    ensures TypesAlong(g, tid, walk)[0] == tid
  {
    hide Registry.Edges;
  }

  lemma {:induction false} WalkSuffix(g: Graph, tid: TypeId, walk: seq<nat>, m: nat)
    requires IsWalk(g, tid, walk) && m <= |walk|
    ensures var u := TypesAlong(g, tid, walk)[m];
      IsWalk(g, u, walk[m..]) && TypesAlong(g, u, walk[m..]) == TypesAlong(g, tid, walk)[m..]
    decreases m
  {
    hide *;
    if m == 0 {
      WalkStart(g, tid, walk);
      assert walk[0..] == walk;
    } else {
      FirstEdge(g, tid, walk);
      var next, rest := g.Edges(tid)[walk[0]].target, walk[1..];
      WalkSuffix(g, next, rest, m - 1);
      assert walk[m..] == rest[m - 1..];
    }
  }

  // The m-th edge of a walk.
  lemma {:induction false} WalkEdge(g: Graph, tid: TypeId, walk: seq<nat>, m: nat)
    requires IsWalk(g, tid, walk) && m < |walk|
    ensures |StepsAlong(g, tid, walk)| == |walk|
    ensures var u := TypesAlong(g, tid, walk)[m];
      && walk[m] < |g.Edges(u)|
      && TypesAlong(g, tid, walk)[m + 1] == g.Edges(u)[walk[m]].target
      && StepsAlong(g, tid, walk)[m] == g.Edges(u)[walk[m]].step
    decreases |walk|
  {
    hide *;
    FirstEdge(g, tid, walk);
    var next, rest := g.Edges(tid)[walk[0]].target, walk[1..];
    WalkStart(g, next, rest);
    if rest == [] {
      NoSteps(g, next);
    } else {
      WalkEdge(g, next, rest, if m > 0 then m - 1 else 0);
    }
  }

  lemma {:induction false} WalkMore(g: Graph, tid: TypeId, walk: seq<nat>, k: nat)
    requires IsWalk(g, tid, walk) && k < |g.Edges(EndOf(g, tid, walk))|
    ensures var e := g.Edges(EndOf(g, tid, walk))[k];
      && IsWalk(g, tid, walk + [k])
      && TypesAlong(g, tid, walk + [k]) == TypesAlong(g, tid, walk) + [e.target]
      && StepsAlong(g, tid, walk + [k]) == StepsAlong(g, tid, walk) + [e.step]
    decreases |walk|
  {
    hide Registry.Edges, IsWalk, TypesAlong, StepsAlong, NonRepeating;
    if walk == [] {
      NoSteps(g, tid);
      NoSteps(g, g.Edges(tid)[k].target);
      StepFirst(g, tid, k, [], {});
      assert [] + [k] == [k] + [];
    } else {
      FirstEdge(g, tid, walk);
      var next, rest := g.Edges(tid)[walk[0]].target, walk[1..];
      WalkMore(g, next, rest, k);
      StepFirst(g, tid, walk[0], rest + [k], {});
      assert walk + [k] == [walk[0]] + (rest + [k]);
    }
  }

  lemma {:induction false} TypesInside(g: Graph, tid: TypeId, walk: seq<nat>)
    requires g.Valid() && tid in g.types && IsWalk(g, tid, walk)
    ensures forall t :: t in TypesAlong(g, tid, walk) ==> t in g.types
    decreases |walk|
  {
    hide Registry.Edges;
    if walk != [] {
      TypesInside(g, g.Edges(tid)[walk[0]].target, walk[1..]);
    }
  }

  lemma SuffixDistinct(types: seq<TypeId>, j: nat)
    requires Distinct(types) && j <= |types|
    ensures Distinct(types[j..]) && forall t :: t in types[j..] ==> t in types
  {
  }

  lemma NothingSeen(g: Graph, tid: TypeId, walk: seq<nat>, other: TypeId)
    requires NonRepeating(g, tid, walk, {}) && other !in TypesAlong(g, tid, walk)
    ensures NonRepeating(g, tid, walk, {} + {other})
  {
    hide IsWalk, TypesAlong;
  }

  ghost predicate Shortens(g: Graph, tid: TypeId, walk: seq<nat>, simple: seq<nat>)
    requires IsWalk(g, tid, walk)
  {
    && NonRepeating(g, tid, simple, {}) && EndOf(g, tid, simple) == EndOf(g, tid, walk)
    && forall t :: t in TypesAlong(g, tid, simple) ==> t in TypesAlong(g, tid, walk)
  }

  // A walk without its loops.
  lemma {:induction false} WithoutLoops(g: Graph, tid: TypeId, walk: seq<nat>) returns (simple: seq<nat>)
    requires IsWalk(g, tid, walk)
    ensures Shortens(g, tid, walk, simple)
    decreases |walk|
  {
    hide Registry.Edges;
    if walk == [] {
      simple := [];
    } else {
      var next := g.Edges(tid)[walk[0]].target;
      var rest := WithoutLoops(g, next, walk[1..]);
      if tid in TypesAlong(g, next, rest) {
        simple := SkipLoop(g, tid, walk, rest);
      } else {
        simple := [walk[0]] + rest;
        FirstStep(g, tid, walk, rest);
      }
    }
  }

  lemma SkipLoop(g: Graph, tid: TypeId, walk: seq<nat>, rest: seq<nat>) returns (simple: seq<nat>)
    requires IsWalk(g, tid, walk) && walk != []
    requires var next := g.Edges(tid)[walk[0]].target;
      Shortens(g, next, walk[1..], rest) && tid in TypesAlong(g, next, rest)
    ensures Shortens(g, tid, walk, simple)
  {
    hide Registry.Edges, IsWalk, TypesAlong;
    FirstEdge(g, tid, walk);
    var next := g.Edges(tid)[walk[0]].target;
    var types := TypesAlong(g, next, rest);
    var j :| 0 <= j < |types| && types[j] == tid;
    simple := rest[j..];
    SuffixSimple(g, next, rest, j);
    assert types[j..][|types| - j - 1] == types[|types| - 1];
  }

  lemma SuffixSimple(g: Graph, tid: TypeId, walk: seq<nat>, j: nat)
    requires NonRepeating(g, tid, walk, {}) && j <= |walk|
    ensures var u := TypesAlong(g, tid, walk)[j];
      NonRepeating(g, u, walk[j..], {}) && TypesAlong(g, u, walk[j..]) == TypesAlong(g, tid, walk)[j..]
    ensures forall t :: t in TypesAlong(g, tid, walk)[j..] ==> t in TypesAlong(g, tid, walk)
  {
    hide IsWalk, TypesAlong;
    WalkSuffix(g, tid, walk, j);
    SuffixDistinct(TypesAlong(g, tid, walk), j);
  }

  lemma FirstStep(g: Graph, tid: TypeId, walk: seq<nat>, rest: seq<nat>)
    requires IsWalk(g, tid, walk) && walk != []
    requires var next := g.Edges(tid)[walk[0]].target;
      Shortens(g, next, walk[1..], rest) && tid !in TypesAlong(g, next, rest)
    ensures Shortens(g, tid, walk, [walk[0]] + rest)
  {
    hide Registry.Edges, IsWalk, TypesAlong;
    FirstEdge(g, tid, walk);
    var next := g.Edges(tid)[walk[0]].target;
    StepFirst(g, tid, walk[0], rest, {});
    NothingSeen(g, next, rest, tid);
    hide NonRepeating;
    StillAmong(tid, TypesAlong(g, next, rest), TypesAlong(g, next, walk[1..]));
  }

  lemma StillAmong(tid: TypeId, few: seq<TypeId>, many: seq<TypeId>)
    requires forall t :: t in few ==> t in many
    ensures forall t :: t in [tid] + few ==> t in [tid] + many
  {
  }

  // ---------- records that are equal ----------

  // Two different walks to the same type with the same path.
  ghost predicate Colliding(g: Graph, tid: TypeId, a: seq<nat>, b: seq<nat>) {
    && a != b && NonRepeating(g, tid, a, {}) && NonRepeating(g, tid, b, {})
    && EndOf(g, tid, a) == EndOf(g, tid, b)
    && PathString(StepsAlong(g, tid, a)) == PathString(StepsAlong(g, tid, b))
  }

  // What the search from a type appends when nothing is being processed.
  ghost function RecordsFrom(g: Graph, tid: TypeId): seq<(TypeId, string)>
    requires g.Valid() && tid in g.types
  {
    Records([], Trails(g, tid, {}))
  }

  // The records are different exactly if no two walks collide.
  lemma DifferentIffNoCollision(g: Graph, tid: TypeId)
    requires g.Valid() && tid in g.types
    ensures Distinct(RecordsFrom(g, tid)) <==> forall a, b :: !Colliding(g, tid, a, b)
  {
    hide Trails, NonRepeating, StepsAlong, TypesAlong, IsWalk;
    var trails, records := Trails(g, tid, {}), RecordsFrom(g, tid);
    TrailsSound(g, tid, {});
    TrailsOnce(g, tid, {});
    if i, j :| 0 <= i < j < |records| && records[i] == records[j] {
      assert trails[i] in trails && trails[j] in trails;
      assert [] + trails[i].steps == trails[i].steps && [] + trails[j].steps == trails[j].steps;
      assert Colliding(g, tid, trails[i].walk, trails[j].walk);
    }
    if a, b :| Colliding(g, tid, a, b) {
      var i := RecordOf(g, tid, a);
      var j := RecordOf(g, tid, b);
      assert records[i] == records[j] && i != j;
      assert i < j || j < i;
    }
  }

  lemma RecordOf(g: Graph, tid: TypeId, walk: seq<nat>) returns (i: nat)
    requires g.Valid() && tid in g.types && NonRepeating(g, tid, walk, {})
    ensures i < |RecordsFrom(g, tid)| == |Trails(g, tid, {})| && Trails(g, tid, {})[i].walk == walk
    ensures RecordsFrom(g, tid)[i] == (EndOf(g, tid, walk), PathString(StepsAlong(g, tid, walk)))
  {
    TrailsComplete(g, tid, {}, walk);
    TrailsSound(g, tid, {});
    hide Trails, StepsAlong, TypesAlong;
    var trails := Trails(g, tid, {});
    var t :| t in trails && t.walk == walk;
    i :| 0 <= i < |trails| && trails[i] == t;
    assert [] + t.steps == t.steps;
  }

  // What the searches from several types append, one after the other.
  ghost function AllRecords(g: Graph, roots: seq<TypeId>): seq<(TypeId, string)>
    requires g.Valid() && forall r :: r in roots ==> r in g.types
  {
    if roots == [] then [] else AllRecords(g, roots[..|roots| - 1]) + RecordsFrom(g, roots[|roots| - 1])
  }

  lemma JoinRecords(a: seq<(TypeId, string)>, b: seq<(TypeId, string)>, c: seq<(TypeId, string)>)
    ensures a + b + c == a + (b + c)
  {
  }

  lemma OneMoreRoot(g: Graph, roots: seq<TypeId>, n: nat)
    requires g.Valid() && (forall r :: r in roots ==> r in g.types) && n < |roots|
    ensures (forall r :: r in roots[..n + 1] ==> r in g.types) && (forall r :: r in roots[..n] ==> r in g.types)
    ensures AllRecords(g, roots[..n + 1]) == AllRecords(g, roots[..n]) + RecordsFrom(g, roots[n])
  {
    assert roots[..n + 1][..n] == roots[..n];
  }

  // The record that a search from this type makes of a walk.
  ghost predicate RecordFor(g: Graph, tid: TypeId, walk: seq<nat>, record: (TypeId, string)) {
    NonRepeating(g, tid, walk, {}) && record == (EndOf(g, tid, walk), PathString(StepsAlong(g, tid, walk)))
  }

  // Two searches that make the same record, or one that makes it of two walks.
  ghost predicate CollidingSearches(g: Graph, roots: seq<TypeId>, i: int, a: seq<nat>, j: int, b: seq<nat>) {
    && 0 <= i < |roots| && 0 <= j < |roots| && (i != j || a != b)
    && exists record :: RecordFor(g, roots[i], a, record) && RecordFor(g, roots[j], b, record)
  }

  lemma RecordsOfWalks(g: Graph, tid: TypeId, record: (TypeId, string))
    requires g.Valid() && tid in g.types
    ensures record in RecordsFrom(g, tid) <==> exists walk :: RecordFor(g, tid, walk, record)
  {
    hide Trails, NonRepeating, StepsAlong, TypesAlong, IsWalk;
    var trails, records := Trails(g, tid, {}), RecordsFrom(g, tid);
    if i :| 0 <= i < |records| && records[i] == record {
      TrailsSound(g, tid, {});
      assert trails[i] in trails && [] + trails[i].steps == trails[i].steps;
      assert RecordFor(g, tid, trails[i].walk, record);
    }
    if walk :| RecordFor(g, tid, walk, record) {
      var i := RecordOf(g, tid, walk);
      assert records[i] in records;
    }
  }

  lemma {:induction false} AllRecordsOfWalks(g: Graph, roots: seq<TypeId>, record: (TypeId, string))
    requires g.Valid() && forall r :: r in roots ==> r in g.types
    ensures record in AllRecords(g, roots) <==>
      exists i, walk :: 0 <= i < |roots| && RecordFor(g, roots[i], walk, record)
  {
    hide RecordFor, RecordsFrom;
    if roots != [] {
      var n := |roots| - 1;
      var front := roots[..n];
      AllRecordsOfWalks(g, front, record);
      RecordsOfWalks(g, roots[n], record);
      assert forall i :: 0 <= i < n ==> front[i] == roots[i];
    }
  }

  lemma DistinctJoin<T>(a: seq<T>, b: seq<T>)
    ensures Distinct(a + b) <==> Distinct(a) && Distinct(b) && forall x :: !(x in a && x in b)
  {
    var s := a + b;
    assert forall i :: 0 <= i < |a| ==> a[i] == s[i];
    assert forall j :: 0 <= j < |b| ==> b[j] == s[|a| + j];
    if x :| x in a && x in b {
      var i, j :| 0 <= i < |a| && 0 <= j < |b| && a[i] == x == b[j];
      assert s[i] == s[|a| + j];
    } else if Distinct(a) && Distinct(b) {
      forall i, j | 0 <= i < j < |s|
        ensures s[i] != s[j]
      {
        assert i < |a| <= j ==> a[i] in a && b[j - |a|] in b;
        assert |a| <= i ==> b[i - |a|] != b[j - |a|];
      }
    }
  }

  // The records of several searches are all different exactly if no two of them make the same one.
  lemma {:induction false} AllDifferentIff(g: Graph, roots: seq<TypeId>)
    requires g.Valid() && forall r :: r in roots ==> r in g.types
    ensures Distinct(AllRecords(g, roots)) <==> forall i, a, j, b :: !CollidingSearches(g, roots, i, a, j, b)
  {
    if roots != [] {
      var n := |roots| - 1;
      var front := roots[..n];
      AllDifferentIff(g, front);
      DifferentIffNoCollision(g, roots[n]);
      DistinctJoin(AllRecords(g, front), RecordsFrom(g, roots[n]));
      hide Distinct, RecordsFrom, RecordFor, Colliding;
      EarlierCollision(g, roots);
      LastCollision(g, roots);
      CrossCollision(g, roots);
    }
  }

  // Collisions among the earlier searches.
  lemma EarlierCollision(g: Graph, roots: seq<TypeId>)
    requires roots != []
    ensures var n := |roots| - 1;
      forall i, a, j, b :: i < n && j < n ==>
        (CollidingSearches(g, roots, i, a, j, b) <==> CollidingSearches(g, roots[..n], i, a, j, b))
  {
    hide RecordFor;
  }

  // Collisions within the last search.
  lemma LastCollision(g: Graph, roots: seq<TypeId>)
    requires roots != []
    ensures var n := |roots| - 1;
      forall a, b :: CollidingSearches(g, roots, n, a, n, b) <==> Colliding(g, roots[n], a, b)
  {
    hide StepsAlong, TypesAlong, IsWalk;
    var n := |roots| - 1;
    forall a, b | Colliding(g, roots[n], a, b)
      ensures CollidingSearches(g, roots, n, a, n, b)
    {
      var record := (EndOf(g, roots[n], a), PathString(StepsAlong(g, roots[n], a)));
      assert RecordFor(g, roots[n], a, record) && RecordFor(g, roots[n], b, record);
    }
  }

  // Collisions of the last search with an earlier one.
  lemma CrossCollision(g: Graph, roots: seq<TypeId>)
    requires g.Valid() && roots != [] && forall r :: r in roots ==> r in g.types
    ensures var n := |roots| - 1;
      (exists x :: x in AllRecords(g, roots[..n]) && x in RecordsFrom(g, roots[n])) <==>
      exists i, a, j, b :: (i < n == j || j < n == i) && CollidingSearches(g, roots, i, a, j, b)
  {
    hide RecordFor, RecordsFrom, AllRecords;
    var n := |roots| - 1;
    var front := roots[..n];
    if x :| x in AllRecords(g, front) && x in RecordsFrom(g, roots[n]) {
      AllRecordsOfWalks(g, front, x);
      RecordsOfWalks(g, roots[n], x);
      var i, a :| 0 <= i < n && RecordFor(g, front[i], a, x);
      var b :| RecordFor(g, roots[n], b, x);
      assert CollidingSearches(g, roots, i, a, n, b);
    }
    if i, a, j, b :| (i < n == j || j < n == i) && CollidingSearches(g, roots, i, a, j, b) {
      var x :| RecordFor(g, roots[i], a, x) && RecordFor(g, roots[j], b, x);
      AllRecordsOfWalks(g, front, x);
      RecordsOfWalks(g, roots[n], x);
      assert i < n ==> front[i] == roots[i];
      assert j < n ==> front[j] == roots[j];
    }
  }

  // A type that is searched from twice repeats its own record.
  lemma SearchedTwice(g: Graph, roots: seq<TypeId>, i: nat, j: nat)
    requires g.Valid() && forall r :: r in roots ==> r in g.types
    requires i < j < |roots| && roots[i] == roots[j]
    ensures !Distinct(AllRecords(g, roots))
  {
    AllDifferentIff(g, roots);
    var record := (roots[i], "");
    assert RecordFor(g, roots[i], [], record) && RecordFor(g, roots[j], [], record);
    hide RecordFor, AllRecords, Distinct;
    assert CollidingSearches(g, roots, i, [], j, []);
  }

  // ---------- edges that are equal ----------

  // Two equal edges out of a type that can be reached without passing their target.
  ghost predicate DoubledEdge(g: Graph, tid: TypeId, walk: seq<nat>, k: nat, l: nat) {
    && IsWalk(g, tid, walk)
    && var edges := g.Edges(EndOf(g, tid, walk));
       k < l < |edges| && edges[k] == edges[l] && edges[k].target !in TypesAlong(g, tid, walk)
  }

  ghost predicate Doubled(g: Graph, tid: TypeId) {
    exists walk, k, l :: DoubledEdge(g, tid, walk, k, l)
  }

  // They make two walks with the same path, whatever the names are.
  lemma DoubledCollides(g: Graph, tid: TypeId, walk: seq<nat>, k: nat, l: nat) returns (a: seq<nat>, b: seq<nat>)
    requires DoubledEdge(g, tid, walk, k, l)
    ensures Colliding(g, tid, a, b)
  {
    hide Registry.Edges, IsWalk, TypesAlong, StepsAlong;
    var simple := WithoutLoops(g, tid, walk);
    WalkMore(g, tid, simple, k);
    WalkMore(g, tid, simple, l);
    a, b := simple + [k], simple + [l];
    assert a[|simple|] != b[|simple|];
  }

  // ---------- names that can be read off a path ----------

  ghost predicate PlainName(n: string) { '/' !in n && n != "[i]" }

  // Attribute names differ within a type, and type names among the types; none holds a slash, no
  // attribute is called "[i]" or starts like a type name in a path.
  ghost predicate WellNamed(g: Graph) {
    && (forall tid :: tid in g.types ==> AttributesNamed(g.reg.attributes(tid)))
    && (forall a, b :: a in g.types && b in g.types && g.reg.name(a) == g.reg.name(b) ==> a == b)
    && (forall a :: a in g.types ==> '/' !in g.reg.name(a))
  }

  ghost predicate AttributesNamed(attributes: seq<Attribute>) {
    && (forall i :: 0 <= i < |attributes| ==> PlainName(attributes[i].name) && !("$" <= attributes[i].name))
    && (forall i, j :: 0 <= i < j < |attributes| ==> attributes[i].name != attributes[j].name)
  }

  // A step is a plain name, possibly with "/[i]" behind it.
  ghost predicate StepOk(step: string) {
    exists n :: StepFrom(n, step)
  }

  ghost predicate StepFrom(n: string, step: string) {
    PlainName(n) && (step == n || step == n + "/[i]")
  }

  lemma SlashSplit(x: string, n: string, y: string, m: string)
    requires '/' !in n && '/' !in m && x + "/" + n == y + "/" + m
    ensures x == y && n == m
  {
    var s := x + "/" + n;
    assert s[|x|] == '/' && s[|y|] == '/';
    assert forall k :: |x| < k < |s| ==> s[k] == n[k - |x| - 1];
    assert forall k :: |y| < k < |s| ==> s[k] == m[k - |y| - 1];
    assert x == s[..|x|] && y == s[..|y|];
    assert n == s[|x| + 1..] && m == s[|y| + 1..];
  }

  lemma LastStep(x: string, s: string, n: string, y: string, t: string, m: string)
    requires StepFrom(n, s) && StepFrom(m, t) && x + "/" + s == y + "/" + t
    ensures x == y && s == t
  {
    var path := x + "/" + s;
    if s == n && t == m {
      SlashSplit(x, n, y, m);
    } else if s == n {
      assert path == (y + "/" + m) + "/" + "[i]";
      SlashSplit(x, n, y + "/" + m, "[i]");
    } else if t == m {
      assert path == (x + "/" + n) + "/" + "[i]";
      SlashSplit(x + "/" + n, "[i]", y, m);
    } else {
      assert path == (x + "/" + n) + "/" + "[i]" == (y + "/" + m) + "/" + "[i]";
      SlashSplit(x + "/" + n, "[i]", y + "/" + m, "[i]");
      SlashSplit(x, n, y, m);
    }
  }

  // The steps can be read off the path.
  lemma {:induction false} PathDetermines(a: seq<string>, b: seq<string>)
    requires (forall i :: 0 <= i < |a| ==> StepOk(a[i])) && (forall i :: 0 <= i < |b| ==> StepOk(b[i]))
    requires PathString(a) == PathString(b)
    ensures a == b
  {
    if a != [] && b != [] {
      var i, j := |a| - 1, |b| - 1;
      assert StepOk(a[i]) && StepOk(b[j]);
      var n :| StepFrom(n, a[i]);
      var m :| StepFrom(m, b[j]);
      LastStep(PathString(a[..i]), a[i], n, PathString(b[..j]), b[j], m);
      hide StepOk, StepFrom;
      PathDetermines(a[..i], b[..j]);
      assert a == a[..i] + [a[i]] && b == b[..j] + [b[j]];
    }
  }

  // The pieces of a path between its slashes.
  function SplitAtSlash(path: string): (pieces: seq<string>)
    ensures pieces != []
  {
    if path == "" then [""] else
      var rest := SplitAtSlash(path[1..]);
      if path[0] == '/' then [""] + rest else [[path[0]] + rest[0]] + rest[1..]
  }

  // Between the slashes of a path are its steps, if these hold none.
  lemma {:induction false} StepsBetweenSlashes(steps: seq<string>)
    requires forall i :: 0 <= i < |steps| ==> '/' !in steps[i]
    ensures SplitAtSlash(PathString(steps)) == [""] + steps
  {
    if steps != [] {
      var n := |steps| - 1;
      StepsBetweenSlashes(steps[..n]);
      LastPiece(PathString(steps[..n]), steps[n]);
      assert steps == steps[..n] + [steps[n]];
    }
  }

  lemma {:induction false} LastPiece(path: string, step: string)
    requires '/' !in step
    ensures SplitAtSlash(path + "/" + step) == SplitAtSlash(path) + [step]
  {
    var s := path + "/" + step;
    if path == "" {
      assert s[1..] == step;
      NoSlash(step);
    } else {
      assert s[1..] == path[1..] + "/" + step;
      LastPiece(path[1..], step);
    }
  }

  lemma {:induction false} NoSlash(step: string)
    requires '/' !in step
    ensures SplitAtSlash(step) == [step]
  {
    if step != "" {
      assert step == [step[0]] + step[1..];
      NoSlash(step[1..]);
    }
  }

  // ---------- edges and their labels ----------

  lemma {:induction false} ConcatFrom<T>(f: T -> seq<Edge>, s: seq<T>, e: Edge) returns (i: nat)
    requires e in Concat(f, s)
    ensures i < |s| && e in f(s[i])
  {
    var n := |s| - 1;
    if e in f(s[n]) {
      i := n;
    } else {
      i := ConcatFrom(f, s[..n], e);
    }
  }

  // The step to a derived or aggregated type is its name.
  ghost predicate NamesTarget(g: Graph, e: Edge) { e.step == "$" + g.reg.name(e.target) }

  lemma EdgeFrom(g: Graph, tid: TypeId, e: Edge) returns (i: nat)
    requires e in g.Edges(tid)
    ensures NamesTarget(g, e) || (i < |g.reg.attributes(tid)| && g.reg.AttributeEdge(g.reg.attributes(tid)[i]) == [e])
  {
    i := 0;
    if e in g.reg.AttributeEdges(g.reg.attributes(tid)) {
      i := ConcatFrom(info => g.reg.AttributeEdge(info), g.reg.attributes(tid), e);
    } else if e in g.reg.ChildEdges(tid, g.reg.registered) {
      var j := ConcatFrom(child => g.reg.ChildEdge(tid, child), g.reg.registered, e);
    } else {
      var j := ConcatFrom(item => g.reg.AggregateEdge(tid, item), g.aggregates, e);
    }
  }

  lemma StepReadable(g: Graph, tid: TypeId, k: nat)
    requires g.Valid() && WellNamed(g) && tid in g.types && k < |g.Edges(tid)|
    ensures StepOk(g.Edges(tid)[k].step)
  {
    var e := g.Edges(tid)[k];
    var i := EdgeFrom(g, tid, e);
    assert e.target in g.types;
    hide Registry.Edges;
    if NamesTarget(g, e) {
      assert ("$" + g.reg.name(e.target))[0] == '$';
      assert StepFrom("$" + g.reg.name(e.target), e.step);
    } else {
      assert AttributesNamed(g.reg.attributes(tid));
      assert StepFrom(g.reg.attributes(tid)[i].name, e.step);
    }
  }

  // Edges out of a type with the same step lead to the same type.
  lemma StepDetermines(g: Graph, tid: TypeId, k: nat, l: nat)
    requires g.Valid() && WellNamed(g) && tid in g.types && k < |g.Edges(tid)| && l < |g.Edges(tid)|
    requires g.Edges(tid)[k].step == g.Edges(tid)[l].step
    ensures g.Edges(tid)[k] == g.Edges(tid)[l]
  {
    var d, e := g.Edges(tid)[k], g.Edges(tid)[l];
    var i := EdgeFrom(g, tid, d);
    var j := EdgeFrom(g, tid, e);
    assert d.target in g.types && e.target in g.types;
    hide Registry.Edges;
    var attributes := g.reg.attributes(tid);
    assert AttributesNamed(attributes);
    if NamesTarget(g, d) && NamesTarget(g, e) {
      assert d.step[1..] == g.reg.name(d.target) && e.step[1..] == g.reg.name(e.target);
    } else if NamesTarget(g, d) {
      NotATypeName(attributes[j].name, g.reg.name(d.target));
    } else if NamesTarget(g, e) {
      NotATypeName(attributes[i].name, g.reg.name(e.target));
    } else if i != j {
      assert attributes[if i < j then i else j].name != attributes[if i < j then j else i].name;
      SameAttribute(attributes[i].name, attributes[j].name);
    }
  }

  lemma NotATypeName(n: string, name: string)
    requires !("$" <= n)
    ensures n != "$" + name && n + "/[i]" != "$" + name
  {
    assert ("$" + name)[0] == '$';
    assert n != "" ==> (n + "/[i]")[0] == n[0];
    assert n != "" && n[0] == '$' ==> "$" <= n;
    assert n == "" ==> (n + "/[i]")[0] == '/';
  }

  lemma SameAttribute(n: string, m: string)
    requires PlainName(n) && PlainName(m) && n != m
    ensures n + "/[i]" != m + "/[i]" && n + "/[i]" != m && n != m + "/[i]"
  {
    assert (n + "/[i]")[..|n|] == n && (m + "/[i]")[..|m|] == m;
    assert '/' in n + "/[i]" && '/' in m + "/[i]" by {
      assert (n + "/[i]")[|n|] == '/' && (m + "/[i]")[|m|] == '/';
    }
  }

  // ---------- when the records are different ----------

  lemma FirstDifference(a: seq<nat>, b: seq<nat>) returns (m: nat)
    requires |a| == |b| && a != b
    ensures m < |a| && a[m] != b[m] && a[..m] == b[..m]
  {
    m := 0;
    while a[m] == b[m]
      invariant m < |a| && a[..m] == b[..m]
      decreases |a| - m
    {
      assert a[..m + 1] == a[..m] + [a[m]] && b[..m + 1] == b[..m] + [b[m]];
      if m + 1 == |a| {
        assert a == a[..m + 1] == b[..m + 1] == b;
      }
      m := m + 1;
    }
  }

  lemma StepsReadable(g: Graph, tid: TypeId, walk: seq<nat>)
    requires g.Valid() && WellNamed(g) && tid in g.types && IsWalk(g, tid, walk)
    ensures |StepsAlong(g, tid, walk)| == |walk|
    ensures forall m :: 0 <= m < |walk| ==> StepOk(StepsAlong(g, tid, walk)[m])
  {
    hide Registry.Edges, StepOk, WellNamed, Graph.Valid;
    TypesInside(g, tid, walk);
    forall m | 0 <= m < |walk|
      ensures |StepsAlong(g, tid, walk)| == |walk| && StepOk(StepsAlong(g, tid, walk)[m])
    {
      WalkEdge(g, tid, walk, m);
      StepReadable(g, TypesAlong(g, tid, walk)[m], walk[m]);
    }
    hide IsWalk;
    if walk == [] {
      assert StepsAlong(g, tid, walk) == [];
    } else {
      WalkEdge(g, tid, walk, 0);
    }
  }

  // With names that can be read off a path, walks only collide over two equal edges.
  lemma CollisionDoubles(g: Graph, tid: TypeId, a: seq<nat>, b: seq<nat>)
    requires g.Valid() && WellNamed(g) && tid in g.types && Colliding(g, tid, a, b)
    ensures Doubled(g, tid)
  {
    hide Registry.Edges, WellNamed, Graph.Valid, StepOk, IsWalk, TypesAlong, StepsAlong;
    StepsReadable(g, tid, a);
    StepsReadable(g, tid, b);
    PathDetermines(StepsAlong(g, tid, a), StepsAlong(g, tid, b));
    var m := FirstDifference(a, b);
    WalkPrefix(g, tid, a, m);
    WalkPrefix(g, tid, b, m);
    WalkEdge(g, tid, a, m);
    WalkEdge(g, tid, b, m);
    TypesInside(g, tid, a);
    var types := TypesAlong(g, tid, a);
    assert types[m] == types[..m + 1][m] && TypesAlong(g, tid, b)[m] == TypesAlong(g, tid, b)[..m + 1][m];
    StepDetermines(g, types[m], a[m], b[m]);
    assert types[m + 1] !in types[..m + 1];
    assert DoubledEdge(g, tid, a[..m], if a[m] < b[m] then a[m] else b[m], if a[m] < b[m] then b[m] else a[m]);
  }

  // Two equal edges out of a type that can be reached without passing their target always repeat a
  // record; where names can be read off a path, nothing else does.
  lemma DifferentIffNotDoubled(g: Graph, tid: TypeId)
    requires g.Valid() && tid in g.types
    ensures Doubled(g, tid) ==> !Distinct(RecordsFrom(g, tid))
    ensures WellNamed(g) ==> (Distinct(RecordsFrom(g, tid)) <==> !Doubled(g, tid))
  {
    hide Distinct, RecordsFrom, Colliding, DoubledEdge, WellNamed;
    DifferentIffNoCollision(g, tid);
    if walk, k, l :| DoubledEdge(g, tid, walk, k, l) {
      var _, _ := DoubledCollides(g, tid, walk, k, l);
    }
    if WellNamed(g) {
      if a, b :| Colliding(g, tid, a, b) {
        CollisionDoubles(g, tid, a, b);
      }
    }
  }

  // An aggregation that is registered twice gives two equal edges to the other type, as for a node
  // and its ICMP protocol.
  lemma AggregatedTwice(g: Graph, tid: TypeId, walk: seq<nat>, i: nat, j: nat)
    requires IsWalk(g, tid, walk) && i < j < |g.aggregates| && g.aggregates[i] == g.aggregates[j]
    requires g.aggregates[i].0 == EndOf(g, tid, walk) && g.aggregates[i].1 !in TypesAlong(g, tid, walk)
    ensures Doubled(g, tid)
  {
    var u := EndOf(g, tid, walk);
    var k, l := EdgeOfAggregate(g, u, i), EdgeOfAggregate(g, u, j);
    AggregateEdgeAt(g, u, i);
    AggregateEdgeAt(g, u, j);
    AggregatesInOrder(g, u, i, j);
    hide Registry.Edges, IsWalk, TypesAlong, EdgeOfAggregate;
    assert DoubledEdge(g, tid, walk, k, l);
  }

  ghost function EdgeOfAggregate(g: Graph, u: TypeId, i: nat): nat
    requires i <= |g.aggregates|
  {
    |g.FirstEdges(u, g.reg.registered)| + |g.reg.AggregateEdges(u, g.aggregates[..i])|
  }

  lemma AggregateEdgeAt(g: Graph, u: TypeId, i: nat)
    requires i < |g.aggregates| && g.aggregates[i].0 == u && g.aggregates[i].1 != u
    ensures var k := EdgeOfAggregate(g, u, i);
      k < |g.Edges(u)| && [g.Edges(u)[k]] == g.reg.AggregateEdge(u, g.aggregates[i])
  {
    AggregateAt(item => g.reg.AggregateEdge(u, item), g.aggregates, i);
    assert g.Edges(u) == g.FirstEdges(u, g.reg.registered) + g.reg.AggregateEdges(u, g.aggregates);
    hide Registry.Edges, Concat;
  }

  lemma AggregatesInOrder(g: Graph, u: TypeId, i: nat, j: nat)
    requires i < j <= |g.aggregates| && g.aggregates[i].0 == u && g.aggregates[i].1 != u
    ensures EdgeOfAggregate(g, u, i) < EdgeOfAggregate(g, u, j)
  {
    AggregateAt(item => g.reg.AggregateEdge(u, item), g.aggregates[..j], i);
    assert g.aggregates[..j][..i] == g.aggregates[..i];
  }

  lemma AggregateAt(f: ((TypeId, TypeId)) -> seq<Edge>, items: seq<(TypeId, TypeId)>, i: nat)
    requires i < |items| && |f(items[i])| == 1
    ensures |Concat(f, items[..i])| < |Concat(f, items)|
    ensures Concat(f, items)[|Concat(f, items[..i])|] == f(items[i])[0]
  {
    ConcatPrefix(f, items, i);
    ConcatPrefix(f, items, i + 1);
  }
}
