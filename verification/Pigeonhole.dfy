/** Counting: distinct elements of a list need as many places. */
module Pigeonhole {

  ghost predicate Distinct<T>(s: seq<T>) {
    forall i, j :: 0 <= i < j < |s| ==> s[i] != s[j]
  }

  ghost function Elements<T>(s: seq<T>): set<T> {
    set x | x in s
  }

  lemma {:induction false} SizeOfElements<T>(s: seq<T>)
    ensures |Elements(s)| <= |s|
    ensures Distinct(s) ==> |Elements(s)| == |s|
  {
    if s != [] {
      var init, x := s[..|s| - 1], s[|s| - 1];
      SizeOfElements(init);
      assert s == init + [x];
      assert Elements(s) == Elements(init) + {x};
      if Distinct(s) {
        assert x !in init;
      }
    }
  }

  /** Distinct elements that all occur in s are at most |s| many. */
  lemma DistinctElementsFit<T>(t: seq<T>, s: seq<T>)
    requires Distinct(t) && forall x :: x in t ==> x in s
    ensures |t| <= |s|
  {
    SizeOfElements(t);
    SizeOfElements(s);
    assert Elements(t) <= Elements(s);
    SubsetIsSmaller(Elements(t), Elements(s));
  }

  lemma SubsetIsSmaller<T>(a: set<T>, b: set<T>)
    requires a <= b
    ensures |a| <= |b|
  {
    assert b == a + (b - a);
  }
}
