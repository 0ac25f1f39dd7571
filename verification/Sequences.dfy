/** Sequences without repeats. */
module Sequences {

  predicate Distinct<T(==)>(s: seq<T>) {
    forall i, j :: 0 <= i < j < |s| ==> s[i] != s[j]
  }

  function ToSet<T>(s: seq<T>): set<T> {
    set x | x in s
  }

  lemma SplitLast<T>(s: seq<T>)
    requires Distinct(s) && s != []
    ensures var n := |s| - 1;
            Distinct(s[..n]) && s[n] !in s[..n] && forall x :: x in s <==> x == s[n] || x in s[..n]
  {
  }

  lemma {:induction false} DistinctSize<T>(s: seq<T>)
    requires Distinct(s)
    ensures |ToSet(s)| == |s|
  {
    if s != [] {
      var n := |s| - 1;
      SplitLast(s);
      DistinctSize(s[..n]);
      assert ToSet(s) == ToSet(s[..n]) + {s[n]};
    }
  }
}
