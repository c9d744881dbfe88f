/** Rotations of lists (is_rotated, simulation/bindings/python/rad_util.py). */
module Rotations {
  import opened Outcomes

  // b starts somewhere in a and goes once round.
  ghost predicate Rotation<T>(a: seq<T>, b: seq<T>) {
    exists k :: 0 <= k < |a| && RotatedBy(a, b, k)
  }

  ghost predicate RotatedBy<T>(a: seq<T>, b: seq<T>, k: nat)
    requires k <= |a|
  {
    b == a[k..] + a[..k]
  }

  lemma Reflexive<T>(a: seq<T>)
    requires a != []
    ensures Rotation(a, a)
  {
    assert RotatedBy(a, a, 0);
  }

  lemma Swap<T>(a: seq<T>, b: seq<T>, x: seq<T>, y: seq<T>)
    requires a != [] && a == x + y && b == y + x
    ensures Rotation(a, b)
  {
    if y == [] {
      assert a == x == b;
      Reflexive(a);
    } else {
      assert a[|x|..] == y && a[..|x|] == x;
      assert RotatedBy(a, b, |x|);
    }
  }

  lemma Symmetric<T>(a: seq<T>, b: seq<T>)
    requires Rotation(a, b)
    ensures Rotation(b, a)
  {
    var k :| 0 <= k < |a| && RotatedBy(a, b, k);
    assert a == a[..k] + a[k..];
    Swap(b, a, a[k..], a[..k]);
  }

  lemma Transitive<T>(a: seq<T>, b: seq<T>, c: seq<T>)
    requires Rotation(a, b) && Rotation(b, c)
    ensures Rotation(a, c)
  {
    var j :| 0 <= j < |a| && RotatedBy(a, b, j);
    var k :| 0 <= k < |b| && RotatedBy(b, c, k);
    hide Rotation;
    if j + k < |a| {
      CutAfter(a, b, c, j, k);
    } else {
      CutBefore(a, b, c, j, k);
    }
  }

  lemma CutAfter<T>(a: seq<T>, b: seq<T>, c: seq<T>, j: nat, k: nat)
    requires j + k < |a| && b == a[j..] + a[..j] && c == b[k..] + b[..k]
    ensures Rotation(a, c)
  {
    hide Rotation;
    var x, y, z := a[..j], a[j..j + k], a[j + k..];
    assert a[j..] == y + z && a == (x + y) + z;
    assert b[..k] == y && b[k..] == z + x;
    assert c == z + (x + y);
    Swap(a, c, x + y, z);
  }

  lemma CutBefore<T>(a: seq<T>, b: seq<T>, c: seq<T>, j: nat, k: nat)
    requires j <= |a| <= j + k && k <= |b| && b == a[j..] + a[..j] && c == b[k..] + b[..k] && a != []
    ensures Rotation(a, c)
  {
    hide Rotation;
    var i := j + k - |a|;
    var x, y, z := a[..i], a[i..j], a[j..];
    assert a[..j] == x + y && a == x + (y + z);
    assert b[k..] == y && b[..k] == z + x;
    assert c == (y + z) + x;
    Swap(a, c, x, y + z);
  }

  // The doubled list holds every rotation as a slice.
  lemma DoubledSlice<T>(a: seq<T>, k: nat)
    requires k <= |a|
    ensures (a + a)[k..k + |a|] == a[k..] + a[..k]
  {
  }

  // Two empty lists have the same length, and then the head of the second one is read.
  method IsRotated<T(==)>(seq1: seq<T>, seq2: seq<T>) returns (r: Outcome<bool>)
    ensures r.IndexError? <==> seq1 == [] && seq2 == []
    ensures r.Returned? ==> (r.value <==> Rotation(seq1, seq2))
  {
    if |seq1| != |seq2| {
      return Returned(false);
    }
    if seq2 == [] {
      return IndexError;
    }
    var startIndexes: seq<nat> := [];
    var headItem := seq2[0];
    for index1 := 0 to |seq1|
      invariant forall i :: i in startIndexes <==> 0 <= i < index1 && seq1[i] == headItem
    {
      if seq1[index1] == headItem {
        startIndexes := startIndexes + [index1];
      }
    }
    var doubleSeq1 := seq1 + seq1;
    for s := 0 to |startIndexes|
      invariant forall i :: i in startIndexes[..s] ==> i < |seq1| && !RotatedBy(seq1, seq2, i)
    {
      assert startIndexes[s] in startIndexes;
      assert startIndexes[..s + 1] == startIndexes[..s] + [startIndexes[s]];
      DoubledSlice(seq1, startIndexes[s]);
      if doubleSeq1[startIndexes[s]..startIndexes[s] + |seq1|] == seq2 {
        assert RotatedBy(seq1, seq2, startIndexes[s]);
        return Returned(true);
      }
    }
    assert startIndexes[..|startIndexes|] == startIndexes;
    assert forall k :: 0 <= k < |seq1| && RotatedBy(seq1, seq2, k) ==> seq1[k] == headItem;
    return Returned(false);
  }
}
