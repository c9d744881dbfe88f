/** All permutations of a list (permutations, simulation/bindings/python/rad_util.py). */
module Permutations {
  import opened Lists

  function Factorial(n: nat): nat {
    if n == 0 then 1 else n * Factorial(n - 1)
  }

  function Insert<T>(s: seq<T>, i: nat, x: T): (r: seq<T>)
    requires i <= |s|
    ensures |r| == |s| + 1
  {
    s[..i] + [x] + s[i..]
  }

  ghost predicate Rearranged<T>(a: seq<T>, b: seq<T>) {
    multiset(a) == multiset(b)
  }

  lemma InsertRearranges<T>(a: seq<T>, b: seq<T>, i: nat)
    requires b != [] && Rearranged(a, b[1..]) && i <= |a|
    ensures Rearranged(Insert(a, i, b[0]), b)
  {
    assert a == a[..i] + a[i..];
    assert b == [b[0]] + b[1..];
  }

  // A rearrangement holds the first item somewhere; the others around it rearrange the rest.
  lemma Removed<T>(a: seq<T>, b: seq<T>) returns (rest: seq<T>, i: nat)
    requires b != [] && Rearranged(a, b)
    ensures Rearranged(rest, b[1..]) && i <= |rest| && a == Insert(rest, i, b[0])
  {
    assert b == [b[0]] + b[1..];
    assert b[0] in multiset(a);
    i :| 0 <= i < |a| && a[i] == b[0];
    rest := a[..i] + a[i + 1..];
    assert rest[..i] == a[..i] && rest[i..] == a[i + 1..];
    assert a == a[..i] + [b[0]] + a[i + 1..];
    WithoutFirst(a, b, a[..i], a[i + 1..]);
  }

  lemma WithoutFirst<T>(a: seq<T>, b: seq<T>, front: seq<T>, back: seq<T>)
    requires b != [] && Rearranged(a, b) && a == front + [b[0]] + back
    ensures Rearranged(front + back, b[1..])
  {
    assert b == [b[0]] + b[1..];
    assert multiset(a) == multiset(front) + multiset{b[0]} + multiset(back);
    assert multiset(b) == multiset{b[0]} + multiset(b[1..]);
    assert multiset(front + back) == multiset(a) - multiset{b[0]};
  }

  ghost predicate AllOrders<T(!new)>(lists: seq<seq<T>>, input: seq<T>) {
    forall p :: p in lists <==> Rearranged(p, input)
  }

  // An item found nowhere else marks the place it was inserted at.
  lemma InsertOnce<T>(a: seq<T>, i: nat, b: seq<T>, j: nat, x: T)
    requires i <= |a| && j <= |b| && x !in a && x !in b
    requires Insert(a, i, x) == Insert(b, j, x)
    ensures i == j && a == b
  {
    var r := Insert(a, i, x);
    assert r[i] == x && r[j] == x;
    assert forall k :: 0 <= k < j ==> r[k] == b[k];
    assert forall k :: 0 <= k < i ==> r[k] == a[k];
    assert a[..i] == r[..i] == b[..i];
    assert a[i..] == r[i + 1..] == b[i..];
    assert a == a[..i] + a[i..] && b == b[..i] + b[i..];
  }

  lemma SameLength<T>(a: seq<T>, b: seq<T>)
    requires Rearranged(a, b)
    ensures |a| == |b|
  {
    assert |a| == |multiset(a)| && |b| == |multiset(b)|;
  }

  lemma SameItems<T>(a: seq<T>, b: seq<T>, x: T)
    requires Rearranged(a, b)
    ensures x in a <==> x in b
  {
    assert x in a <==> x in multiset(a);
    assert x in b <==> x in multiset(b);
  }

  // Each list is the item put into one of the sublists, at the place noted beside the list.
  ghost predicate MadeFrom<T>(lists: seq<seq<T>>, places: seq<(nat, nat)>, subLists: seq<seq<T>>, item: T) {
    && |lists| == |places|
    && forall m :: 0 <= m < |lists| ==>
         && places[m].0 < |subLists| && places[m].1 <= |subLists[places[m].0]|
         && lists[m] == Insert(subLists[places[m].0], places[m].1, item)
  }

  // Every place in the sublists before this one, each once.
  ghost predicate PlacesUpTo(places: seq<(nat, nat)>, s: nat, i: nat, n: nat) {
    && Distinct(places)
    && forall k: nat, j: nat :: (k, j) in places <==> j < n && (k < s || (k == s && j < i))
  }

  lemma NextPlace<T>(lists: seq<seq<T>>, places: seq<(nat, nat)>, subLists: seq<seq<T>>, item: T,
                     s: nat, i: nat, n: nat)
    requires MadeFrom(lists, places, subLists, item) && PlacesUpTo(places, s, i, n)
    requires s < |subLists| && |subLists[s]| + 1 == n && i < n
    ensures MadeFrom(lists + [Insert(subLists[s], i, item)], places + [(s, i)], subLists, item)
    ensures PlacesUpTo(places + [(s, i)], s, i + 1, n)
  {
    assert (s, i) !in places;
  }

  lemma NextSubList(places: seq<(nat, nat)>, s: nat, n: nat)
    requires PlacesUpTo(places, s, n, n)
    ensures PlacesUpTo(places, s + 1, 0, n)
  {
  }

  lemma NothingMade<T>(subLists: seq<seq<T>>, item: T, n: nat)
    ensures MadeFrom([], [], subLists, item) && PlacesUpTo([], 0, 0, n)
  {
  }

  lemma EachOrder<T(!new)>(lists: seq<seq<T>>, places: seq<(nat, nat)>, subLists: seq<seq<T>>, input: seq<T>, p: seq<T>)
    requires input != [] && MadeFrom(lists, places, subLists, input[0])
    requires PlacesUpTo(places, |subLists|, 0, |input|)
    requires AllOrders(subLists, input[1..])
    ensures p in lists <==> Rearranged(p, input)
  {
    if p in lists {
      var m :| 0 <= m < |lists| && lists[m] == p;
      var (k, j) := places[m];
      assert subLists[k] in subLists;
      InsertRearranges(subLists[k], input, j);
    }
    if Rearranged(p, input) {
      var rest, j := Removed(p, input);
      assert rest in subLists;
      var k :| 0 <= k < |subLists| && subLists[k] == rest;
      SameLength(rest, input[1..]);
      assert (k, j) in places;
      var m :| 0 <= m < |places| && places[m] == (k, j);
      assert lists[m] == p;
    }
  }

  lemma EveryOrder<T(!new)>(lists: seq<seq<T>>, places: seq<(nat, nat)>, subLists: seq<seq<T>>, input: seq<T>)
    requires input != [] && MadeFrom(lists, places, subLists, input[0])
    requires PlacesUpTo(places, |subLists|, 0, |input|)
    requires AllOrders(subLists, input[1..])
    ensures AllOrders(lists, input)
  {
    hide MadeFrom, PlacesUpTo, Rearranged;
    forall p
      ensures p in lists <==> Rearranged(p, input)
    {
      EachOrder(lists, places, subLists, input, p);
    }
  }

  lemma AllDistinct<T(!new)>(lists: seq<seq<T>>, places: seq<(nat, nat)>, subLists: seq<seq<T>>, input: seq<T>)
    requires input != [] && Distinct(input) && MadeFrom(lists, places, subLists, input[0])
    requires PlacesUpTo(places, |subLists|, 0, |input|)
    requires AllOrders(subLists, input[1..]) && (Distinct(input[1..]) ==> Distinct(subLists))
    ensures Distinct(lists)
  {
    var item := input[0];
    forall q | q in subLists
      ensures item !in q
    {
      SameItems(q, input[1..], item);
    }
    forall a, b | 0 <= a < b < |lists|
      ensures lists[a] != lists[b]
    {
      var (k, i) := places[a];
      var (l, j) := places[b];
      assert subLists[k] in subLists && subLists[l] in subLists;
      if lists[a] == lists[b] {
        InsertOnce(subLists[k], i, subLists[l], j, item);
      }
    }
  }

  lemma ShorterByOne<T(!new)>(subLists: seq<seq<T>>, input: seq<T>, s: nat)
    requires input != [] && AllOrders(subLists, input[1..]) && s < |subLists|
    ensures |subLists[s]| + 1 == |input|
  {
    assert subLists[s] in subLists;
    SameLength(subLists[s], input[1..]);
  }

  // No two orders of at most one item.
  lemma OneOrder<T(!new)>(input: seq<T>)
    requires |input| <= 1
    ensures AllOrders([input], input) && Distinct([input])
  {
    forall p
      ensures Rearranged(p, input) <==> p == input
    {
      if Rearranged(p, input) {
        SameLength(p, input);
        if input != [] {
          assert p[0] in multiset(input);
        }
      }
    }
  }

  // All rearrangements, as many as there are orders; of distinct items, each one once.
  method Permutations<T(!new)>(inputList: seq<T>) returns (outLists: seq<seq<T>>)
    ensures |outLists| == Factorial(|inputList|)
    ensures AllOrders(outLists, inputList)
    ensures Distinct(inputList) ==> Distinct(outLists)
    decreases |inputList|
  {
    hide MadeFrom, PlacesUpTo, AllOrders, Insert, Distinct;
    outLists := [];
    if |inputList| > 1 {
      var item := inputList[0];
      var subLists := Permutations(inputList[1..]);
      var n := |inputList|;
      ghost var places: seq<(nat, nat)> := [];
      NothingMade(subLists, item, n);
      for s := 0 to |subLists|
        invariant |outLists| == s * n
        invariant MadeFrom(outLists, places, subLists, item) && PlacesUpTo(places, s, 0, n)
      {
        ShorterByOne(subLists, inputList, s);
        for i := 0 to n
          invariant |outLists| == s * n + i
          invariant MadeFrom(outLists, places, subLists, item) && PlacesUpTo(places, s, i, n)
        {
          NextPlace(outLists, places, subLists, item, s, i, n);
          outLists := outLists + [Insert(subLists[s], i, item)];
          places := places + [(s, i)];
        }
        NextSubList(places, s, n);
      }
      EveryOrder(outLists, places, subLists, inputList);
      if Distinct(inputList) {
        AllDistinct(outLists, places, subLists, inputList);
      }
    } else {
      outLists := [inputList];
      OneOrder(inputList);
    }
  }
}
