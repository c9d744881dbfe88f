/** Sums over lists. */
module Sums {

  ghost function Sum<T>(f: T -> int, s: seq<T>): int {
    if s == [] then 0 else f(s[0]) + Sum(f, s[1..])
  }

  lemma SumOne<T>(f: T -> int, x: T)
    ensures Sum(f, [x]) == f(x)
  {
  }

  lemma {:induction false} SumAppend<T>(f: T -> int, a: seq<T>, b: seq<T>)
    ensures Sum(f, a + b) == Sum(f, a) + Sum(f, b)
  {
    if a == [] {
      assert a + b == b;
    } else {
      assert (a + b)[1..] == a[1..] + b;
      SumAppend(f, a[1..], b);
    }
  }

  lemma {:induction false} SumUpdate<T>(f: T -> int, s: seq<T>, i: nat, x: T)
    requires i < |s|
    ensures Sum(f, s[i := x]) == Sum(f, s) - f(s[i]) + f(x)
  {
    if i > 0 {
      assert s[i := x][1..] == s[1..][i - 1 := x];
      SumUpdate(f, s[1..], i - 1, x);
    }
  }

  lemma {:induction false} SumNonNegative<T>(f: T -> int, s: seq<T>)
    requires forall x :: x in s ==> f(x) >= 0
    ensures Sum(f, s) >= 0
    ensures Sum(f, s) == 0 <==> forall x :: x in s ==> f(x) == 0
  {
    if s != [] {
      assert forall x :: x in s <==> x == s[0] || x in s[1..];
      SumNonNegative(f, s[1..]);
    }
  }

  // A sum of zeros and ones that is as large as the list is long is made of ones.
  lemma {:induction false} SumOfBits<T>(f: T -> int, s: seq<T>)
    requires forall x :: x in s ==> 0 <= f(x) <= 1
    ensures 0 <= Sum(f, s) <= |s|
    ensures Sum(f, s) == |s| <==> forall x :: x in s ==> f(x) == 1
  {
    if s != [] {
      assert forall x :: x in s <==> x == s[0] || x in s[1..];
      SumOfBits(f, s[1..]);
    }
  }
}
