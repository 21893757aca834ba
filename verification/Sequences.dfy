/** Facts about sequences that several parts of the model share. */
module Sequences {
  predicate Distinct<T(==)>(s: seq<T>) {
    forall i, j :: 0 <= i < j < |s| ==> s[i] != s[j]
  }

  lemma DistinctTogether<T>(a: seq<T>, b: seq<T>)
    requires Distinct(a) && Distinct(b) && forall x :: x in a ==> x !in b
    ensures Distinct(a + b)
  {
    forall i, j | 0 <= i < j < |a + b| ensures (a + b)[i] != (a + b)[j] {
      assert i < |a| ==> a[i] in a;
      assert |a| <= j ==> b[j - |a|] in b;
    }
  }

  lemma Associative<T>(a: seq<T>, b: seq<T>, c: seq<T>)
    ensures a + (b + c) == a + b + c
  {
  }

  lemma NothingMore<T>(a: seq<T>)
    ensures a + [] == a
  {
  }

  /** The index of the first occurrence at or after a position, or -1. */
  function IndexOf<T(==)>(s: seq<T>, x: T, from: nat): (index: int)
    requires from <= |s|
    ensures index == -1 || (from <= index < |s| && s[index] == x)
    ensures index == -1 ==> forall i :: from <= i < |s| ==> s[i] != x
    ensures index != -1 ==> forall i :: from <= i < index ==> s[i] != x
    decreases |s| - from
  {
    if from == |s| then -1 else if s[from] == x then from else IndexOf(s, x, from + 1)
  }
}
