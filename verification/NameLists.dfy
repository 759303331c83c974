/** The name lists of run-test262.c: a growable array of names, sorted and deduplicated in
    place on the first lookup. */
module NameLists {
  import opened CStrings
  import opened NameOrder
  import opened Pigeonhole

  ghost predicate Increasing(s: seq<CString>) {
    forall i, j :: 0 <= i < j < |s| ==> Compare(s[i], s[j]) < 0
  }

  ghost predicate NonDecreasing(s: seq<CString>) {
    forall i, j :: 0 <= i < j < |s| ==> Compare(s[i], s[j]) <= 0
  }

  /** Some entry of s compares equal to the name. */
  ghost predicate Matches(s: seq<CString>, name: CString) {
    exists k :: 0 <= k < |s| && Compare(s[k], name) == 0
  }

  /** `after` is strictly increasing and holds exactly one entry of `before` per class. */
  ghost predicate OnePerClass(before: seq<CString>, after: seq<CString>) {
    && Increasing(after)
    && (forall x :: x in after ==> x in before)
    && (forall x :: x in before ==> Matches(after, x))
  }

  /** The same without any of the names above. */
  lemma OnePerClassIff(before: seq<CString>, after: seq<CString>)
    ensures OnePerClass(before, after) <==>
              && (forall i, j :: 0 <= i < j < |after| ==> Compare(after[i], after[j]) < 0)
              && (forall x :: x in after ==> x in before)
              && (forall x :: x in before ==> exists k :: 0 <= k < |after| && Compare(after[k], x) == 0)
  {
    hide Compare;
  }

  // ----- qsort -----

  /** Insertion into a sorted sequence. */
  function Insert(s: seq<CString>, x: CString): (t: seq<CString>)
    ensures multiset(t) == multiset(s) + multiset{x}
  {
    if s == [] || Compare(x, s[0]) <= 0 then [x] + s
    else
      assert s == [s[0]] + s[1..];
      [s[0]] + Insert(s[1..], x)
  }

  lemma {:induction false} InsertKeepsOrder(s: seq<CString>, x: CString)
    requires NonDecreasing(s)
    ensures NonDecreasing(Insert(s, x))
  {
    hide Compare;
    if s == [] {
    } else if Compare(x, s[0]) <= 0 {
      forall k | 0 <= k < |s| ensures Compare(x, s[k]) <= 0 {
        CompareIsTotalPreorder(x, s[0], s[k]);
      }
    } else {
      InsertKeepsOrder(s[1..], x);
      var t := Insert(s[1..], x);
      forall k | 0 <= k < |t| ensures Compare(s[0], t[k]) <= 0 {
        CompareIsTotalPreorder(x, s[0], x);
        assert t[k] in multiset(t);
        if t[k] != x {
          assert t[k] in s[1..];
        }
      }
    }
  }

  /** Stands in for qsort: callers know only that the result is an ordered permutation. */
  method Qsort(s: seq<CString>) returns (t: seq<CString>)
    ensures NonDecreasing(t) && multiset(t) == multiset(s)
    ensures forall i, j :: 0 <= i < j < |t| ==> Compare(t[i], t[j]) <= 0
  {
    t := [];
    for k := 0 to |s|
      invariant NonDecreasing(t) && multiset(t) == multiset(s[..k])
    {
      assert s[..k + 1] == s[..k] + [s[k]];
      InsertKeepsOrder(t, s[k]);
      t := Insert(t, s[k]);
    }
    assert s[..|s|] == s;
  }

  // ----- Binary search -----

  /** The index the search loop returns on the entries a..b, or -1. */
  function BinarySearch(s: seq<CString>, name: CString, a: nat, b: nat): (r: int)
    requires a <= b <= |s|
    ensures r == -1 || (a <= r < b && Compare(s[r], name) == 0)
    decreases b - a
  {
    if a == b then -1
    else
      var m := a + (b - a) / 2;
      var cmp := Compare(s[m], name);
      if cmp < 0 then BinarySearch(s, name, m + 1, b)
      else if cmp > 0 then BinarySearch(s, name, a, m)
      else m
  }

  /** One probe of the search. */
  lemma SearchStep(s: seq<CString>, name: CString, a: nat, b: nat)
    requires a <= b <= |s|
    ensures a == b ==> BinarySearch(s, name, a, b) == -1
    ensures a < b ==>
              var m := a + (b - a) / 2;
              BinarySearch(s, name, a, b) ==
                if Compare(s[m], name) < 0 then BinarySearch(s, name, m + 1, b)
                else if Compare(s[m], name) > 0 then BinarySearch(s, name, a, m)
                else m
  {
  }

  lemma {:induction false} SearchFindsMatch(s: seq<CString>, name: CString, a: nat, b: nat, k: nat)
    requires a <= k < b <= |s| && Increasing(s) && Compare(s[k], name) == 0
    ensures BinarySearch(s, name, a, b) == k
    decreases b - a
  {
    hide Compare, BinarySearch;
    var m := a + (b - a) / 2;
    SearchStep(s, name, a, b);
    CompareIsTotalPreorder(s[k], name, s[m]);
    CompareIsTotalPreorder(s[m], name, s[k]);
    CompareIsTotalPreorder(s[m], s[k], name);
    CompareIsTotalPreorder(name, s[k], s[m]);
    if m < k {
      SearchFindsMatch(s, name, m + 1, b, k);
    } else if k < m {
      SearchFindsMatch(s, name, a, m, k);
    }
  }

  ghost predicate AllFound(s: seq<CString>, a: nat, b: nat)
    requires a <= b <= |s|
  {
    forall k :: a <= k < b ==> BinarySearch(s, s[k], a, b) == k
  }

  ghost predicate PairwiseDistinct(s: seq<CString>) {
    forall i, j :: 0 <= i < j < |s| ==> Compare(s[i], s[j]) != 0
  }

  lemma FoundOnOneSide(s: seq<CString>, a: nat, b: nat, k: nat)
    requires a <= k < b <= |s| && PairwiseDistinct(s) && BinarySearch(s, s[k], a, b) == k
    ensures var m := a + (b - a) / 2;
            && (k < m ==> BinarySearch(s, s[k], a, m) == k && Compare(s[k], s[m]) < 0)
            && (m < k ==> BinarySearch(s, s[k], m + 1, b) == k && Compare(s[m], s[k]) < 0)
  {
    hide Compare;
    CompareIsTotalPreorder(s[k], s[a + (b - a) / 2], s[k]);
  }

  lemma FoundInHalves(s: seq<CString>, a: nat, b: nat)
    requires a < b <= |s| && PairwiseDistinct(s) && AllFound(s, a, b)
    ensures var m := a + (b - a) / 2;
            && AllFound(s, a, m) && AllFound(s, m + 1, b)
            && (forall k :: a <= k < m ==> Compare(s[k], s[m]) < 0)
            && (forall k :: m < k < b ==> Compare(s[m], s[k]) < 0)
  {
    hide Compare, BinarySearch;
    var m := a + (b - a) / 2;
    forall k | a <= k < m ensures BinarySearch(s, s[k], a, m) == k && Compare(s[k], s[m]) < 0 {
      assert BinarySearch(s, s[k], a, b) == k;
      FoundOnOneSide(s, a, b, k);
    }
    forall k | m < k < b ensures BinarySearch(s, s[k], m + 1, b) == k && Compare(s[m], s[k]) < 0 {
      assert BinarySearch(s, s[k], a, b) == k;
      FoundOnOneSide(s, a, b, k);
    }
  }

  lemma {:induction false} AllFoundMeansIncreasing(s: seq<CString>, a: nat, b: nat)
    requires a <= b <= |s| && PairwiseDistinct(s) && AllFound(s, a, b)
    ensures forall i, j :: a <= i < j < b ==> Compare(s[i], s[j]) < 0
    decreases b - a
  {
    hide Compare, AllFound, PairwiseDistinct;
    if a < b {
      var m := a + (b - a) / 2;
      FoundInHalves(s, a, b);
      AllFoundMeansIncreasing(s, a, m);
      AllFoundMeansIncreasing(s, m + 1, b);
      forall i, j | a <= i < m < j < b ensures Compare(s[i], s[j]) < 0 {
        CompareIsTotalPreorder(s[i], s[m], s[j]);
      }
    }
  }

  /** On entries that all differ, every entry is found exactly when the array is in order. */
  lemma SearchWorksExactlyInOrder(s: seq<CString>)
    requires PairwiseDistinct(s)
    ensures AllFound(s, 0, |s|) <==> Increasing(s)
  {
    hide Compare;
    if AllFound(s, 0, |s|) {
      AllFoundMeansIncreasing(s, 0, |s|);
    }
    if Increasing(s) {
      forall k | 0 <= k < |s| ensures BinarySearch(s, s[k], 0, |s|) == k {
        CompareIsTotalPreorder(s[k], s[k], s[k]);
        SearchFindsMatch(s, s[k], 0, |s|, k);
      }
    }
  }

  /** The search does not find the name of entry k, neither at its place nor at that of an equal one. */
  ghost predicate Lost(s: seq<CString>, k: nat)
    requires k < |s|
  {
    BinarySearch(s, s[k], 0, |s|) == -1
  }

  ghost predicate AllSearchable(s: seq<CString>) {
    forall k :: 0 <= k < |s| ==> !Lost(s, k)
  }

  lemma SearchableIff(s: seq<CString>)
    ensures AllSearchable(s) <==> forall k :: 0 <= k < |s| ==> BinarySearch(s, s[k], 0, |s|) != -1
  {
    hide BinarySearch;
    assert forall k :: 0 <= k < |s| ==> (Lost(s, k) <==> BinarySearch(s, s[k], 0, |s|) == -1);
  }

  lemma FoundAtItsPlace(s: seq<CString>, k: nat)
    requires PairwiseDistinct(s) && k < |s|
    ensures !Lost(s, k) <==> BinarySearch(s, s[k], 0, |s|) == k
  {
    hide Compare, BinarySearch;
    var r := BinarySearch(s, s[k], 0, |s|);
    if r != -1 && r != k {
      CompareIsTotalPreorder(s[r], s[k], s[r]);
    }
  }

  lemma SearchableWhenDistinct(s: seq<CString>)
    requires PairwiseDistinct(s)
    ensures AllSearchable(s) <==> AllFound(s, 0, |s|)
  {
    hide Compare, BinarySearch, PairwiseDistinct, Lost;
    forall k | 0 <= k < |s| ensures !Lost(s, k) <==> BinarySearch(s, s[k], 0, |s|) == k {
      FoundAtItsPlace(s, k);
    }
  }

  /** A name that is new: the list stays searchable exactly when it comes behind the last entry. */
  lemma AddNewName(s: seq<CString>, x: CString)
    requires Increasing(s) && !Matches(s, x)
    ensures AllSearchable(s + [x]) <==> (s == [] || Compare(s[|s| - 1], x) < 0)
  {
    hide Compare;
    var t := s + [x];
    SearchableWhenDistinct(t);
    SearchWorksExactlyInOrder(t);
    if s != [] {
      var last := s[|s| - 1];
      assert t[|s| - 1] == last && t[|s|] == x;
      if Compare(last, x) < 0 {
        AppendIncreasing(s, x);
      }
    }
  }

  lemma {:induction false} SearchOfPrefix(s: seq<CString>, x: CString, name: CString, a: nat, b: nat)
    requires a <= b <= |s|
    ensures BinarySearch(s + [x], name, a, b) == BinarySearch(s, name, a, b)
    decreases b - a
  {
    hide Compare;
    if a < b {
      var m := a + (b - a) / 2;
      SearchOfPrefix(s, x, name, a, m);
      SearchOfPrefix(s, x, name, m + 1, b);
    }
  }

  lemma {:induction false} SearchOfEqualNames(s: seq<CString>, x: CString, y: CString, a: nat, b: nat)
    requires a <= b <= |s| && Compare(x, y) == 0
    ensures BinarySearch(s, x, a, b) == BinarySearch(s, y, a, b)
    decreases b - a
  {
    hide Compare;
    if a < b {
      var m := a + (b - a) / 2;
      CompareIsTotalPreorder(s[m], x, y);
      CompareIsTotalPreorder(y, x, s[m]);
      CompareIsTotalPreorder(x, y, s[m]);
      CompareIsTotalPreorder(s[m], y, x);
      SearchOfEqualNames(s, x, y, a, m);
      SearchOfEqualNames(s, x, y, m + 1, b);
    }
  }

  /** The two leading binary digits of n are ones. */
  predicate LeadsWithOnes(n: nat) {
    if n < 4 then n == 3 else LeadsWithOnes(n / 2)
  }

  /** The search for entry i behind which a name x of the list was added once more. */
  lemma {:induction false} SearchBeforeRepeated(s: seq<CString>, x: CString, i: nat, a: nat)
    requires a <= i < |s| && Increasing(s) && Compare(x, s[|s| - 1]) <= 0
    ensures BinarySearch(s + [x], s[i], a, |s| + 1) == -1 <==>
              i == |s| - 1 && Compare(x, s[i]) < 0 && LeadsWithOnes(|s| + 2 - a)
    decreases |s| - a
  {
    hide Compare, BinarySearch, LeadsWithOnes;
    var n, t := |s|, s + [x];
    var m := a + (n + 1 - a) / 2;
    SearchStep(t, s[i], a, n + 1);
    CompareIsTotalPreorder(s[i], s[i], s[i]);
    LeadsWithOnesStep(n + 2 - a);
    if m == n {
      SearchStep(t, s[i], n + 1, n + 1);
    } else if m < i {
      SearchBeforeRepeated(s, x, i, m + 1);
    } else if i < m {
      CompareIsTotalPreorder(s[m], s[i], s[m]);
      SearchFindsMatch(s, s[i], a, m, i);
      SearchOfPrefix(s, x, s[i], a, m);
    }
  }

  lemma LeadsWithOnesStep(n: nat)
    ensures n < 4 ==> (LeadsWithOnes(n) <==> n == 3)
    ensures 4 <= n ==> (LeadsWithOnes(n) <==> LeadsWithOnes(n / 2))
    ensures n in {4, 5} ==> !LeadsWithOnes(n)
  {
  }

  lemma MatchIsNotBehindLast(s: seq<CString>, x: CString)
    requires Increasing(s) && Matches(s, x)
    ensures s != [] && Compare(x, s[|s| - 1]) <= 0 && Compare(x, s[|s| - 1]) == -Compare(s[|s| - 1], x)
  {
    hide Compare;
    var k :| 0 <= k < |s| && Compare(s[k], x) == 0;
    CompareIsTotalPreorder(x, s[k], s[|s| - 1]);
    CompareIsTotalPreorder(x, s[|s| - 1], x);
  }

  /** The added name itself is found. */
  lemma RepeatedNameIsFound(s: seq<CString>, x: CString)
    requires Increasing(s) && Matches(s, x)
    ensures !Lost(s + [x], |s|)
  {
    hide Compare, BinarySearch;
    MatchIsNotBehindLast(s, x);
    var k :| 0 <= k < |s| && Compare(s[k], x) == 0;
    CompareIsTotalPreorder(x, s[k], x);
    SearchBeforeRepeated(s, x, k, 0);
    SearchOfEqualNames(s + [x], s[k], x, 0, |s| + 1);
  }

  lemma LostBeforeRepeated(s: seq<CString>, x: CString, i: nat)
    requires Increasing(s) && Matches(s, x) && i < |s|
    ensures Lost(s + [x], i) <==> i == |s| - 1 && Compare(x, s[i]) < 0 && LeadsWithOnes(|s| + 2)
  {
    hide Compare, BinarySearch, LeadsWithOnes, Increasing, Matches;
    MatchIsNotBehindLast(s, x);
    SearchBeforeRepeated(s, x, i, 0);
    assert (s + [x])[i] == s[i];
  }

  /** A name of the list once more: only the last entry can get lost, and only from lists of
      certain lengths. */
  lemma AddRepeatedName(s: seq<CString>, x: CString)
    requires Increasing(s) && Matches(s, x)
    ensures forall i :: 0 <= i < |s| - 1 ==> !Lost(s + [x], i)
    ensures AllSearchable(s + [x]) <==> s != [] && (Compare(s[|s| - 1], x) == 0 || !LeadsWithOnes(|s| + 2))
  {
    hide Compare, Lost, LeadsWithOnes, Increasing, Matches;
    MatchIsNotBehindLast(s, x);
    RepeatedNameIsFound(s, x);
    forall i | 0 <= i < |s|
      ensures Lost(s + [x], i) <==> i == |s| - 1 && Compare(x, s[i]) < 0 && LeadsWithOnes(|s| + 2)
    {
      LostBeforeRepeated(s, x, i);
    }
  }

  /** `namelist_add` leaves the sorted flag set.  After the first lookup a list with one more name
      is searchable exactly when that name comes behind the last entry or compares equal to it,
      or equals another entry and the search does not hit the new one before the last. */
  lemma AddAfterLookup(s: seq<CString>, x: CString)
    requires Increasing(s)
    ensures AllSearchable(s + [x]) <==>
              (s == [] || Compare(s[|s| - 1], x) <= 0 || (Matches(s, x) && !LeadsWithOnes(|s| + 2)))
  {
    hide Compare, AllSearchable, LeadsWithOnes;
    if Matches(s, x) {
      AddRepeatedName(s, x);
      MatchIsNotBehindLast(s, x);
    } else {
      AddNewName(s, x);
    }
  }

  lemma CompareLetters(c: Byte, d: Byte)
    requires !IsDigit(c) && !IsDigit(d)
    ensures Compare([c], [d]) == if c < d then -1 else if c > d then 1 else 0
  {
    assert Tokens([c], 1) == [] && Tokens([d], 1) == [];
    var x, y := [Token(c, 0)], [Token(d, 0)];
    assert Tokens([c], 0) == x && Tokens([d], 0) == y;
    assert x[1..] == [] && y[1..] == [] && Lex([], []) == 0;
  }

  /** Add "b", look something up, add "a": "b" is no longer found.  Of "a", "b", "c" and "d" the
      last is lost when "a" is added once more. */
  lemma StaleFlagLosesEntry()
    ensures var a, b, c, d: CString := [97], [98], [99], [100];
            && Increasing([b]) && Lost([b] + [a], 0)
            && Increasing([a, b, c, d]) && Lost([a, b, c, d] + [a], 3)
  {
    var a, b, c, d: CString := [97], [98], [99], [100];
    CompareLetters(97, 97);
    CompareLetters(97, 98);
    CompareLetters(97, 99);
    CompareLetters(97, 100);
    CompareLetters(98, 99);
    CompareLetters(98, 100);
    CompareLetters(99, 100);
    hide Compare;
    var s := [a, b, c, d];
    assert Matches(s, a) by { assert Compare(s[0], a) == 0; }
    LostBeforeRepeated(s, a, 3);
    var t := [b] + [a];
    assert BinarySearch(t, b, 2, 2) == -1;
  }

  // ----- The list itself -----

  /** compose_path: a missing or empty base, or an absolute name, leaves the name alone. */
  datatype Base = NoBase | Base(path: CString)

  function ComposePath(base: Base, name: CString): (r: CString)
  {
    if base.NoBase? || base.path == [] || At(name, 0) == 47 then name
    else if base.path[|base.path| - 1] == 47 then base.path + name
    else base.path + [47] + name
  }

  /** Without a base, and for an absolute name, the path is the name; otherwise it ends in the name,
      and in front of it stands the base and one slash more if the base does not end in one. */
  lemma ComposedPath(base: Base, name: CString)
    ensures base == NoBase || base == Base([]) || At(name, 0) == '/' as int ==> ComposePath(base, name) == name
    ensures base.Base? && base.path != [] && At(name, 0) != '/' as int ==>
              exists dir :: ComposePath(base, name) == dir + name && IsWithSlash(base.path, dir)
  {
    if base.Base? && base.path != [] && At(name, 0) != 47 {
      var n := |base.path|;
      var dir := if base.path[n - 1] == 47 then base.path else base.path + [47];
      assert IsWithSlash(base.path, dir);
      assert ComposePath(base, name) == dir + name;
    }
  }

  /** `dir` is the path with a slash at its end. */
  predicate IsWithSlash(path: CString, dir: CString) {
    && path <= dir && dir != [] && dir[|dir| - 1] == '/' as int
    && |dir| == |path| + if path != [] && path[|path| - 1] == '/' as int then 0 else 1
  }

  class NameList {
    var items: array<CString>
    var count: nat
    var sorted: bool

    ghost predicate Valid()
      reads this
    {
      count <= items.Length
    }

    ghost function Contents(): seq<CString>
      requires Valid()
      reads this, items
    {
      items[..count]
    }

    constructor ()
      ensures Valid() && Contents() == [] && !sorted && fresh(items)
    {
      items := new CString[0];
      count := 0;
      sorted := false;
    }

    /** namelist_add. */
    method Add(base: Base, name: CString)
      requires Valid()
      modifies this, items
      ensures Valid() && (items == old(items) || fresh(items))
      ensures Contents() == old(Contents()) + [ComposePath(base, name)]
      ensures sorted == old(sorted)
    {
      var s := ComposePath(base, name);
      if count == items.Length {
        var newSize := items.Length + items.Length / 2 + 4;
        var a := new CString[newSize];
        for k := 0 to count
          invariant a[..k] == items[..k]
          modifies a
        {
          a[k] := items[k];
        }
        items := a;
      }
      items[count] := s;
      count := count + 1;
    }

    /** namelist_sort. */
    method Sort()
      requires Valid()
      modifies this, items
      ensures Valid() && items == old(items) && sorted
      ensures OnePerClass(old(Contents()), Contents())
    {
      hide OnePerClass, NonDecreasing, Compare;
      ghost var before := Contents();
      if count > 1 {
        var t := Qsort(items[..count]);
        assert |t| == |multiset(t)| == |multiset(before)| == count;
        for k := 0 to count
          invariant items[..k] == t[..k]
          modifies items
        {
          items[k] := t[k];
        }
        assert items[..count] == t;
        Compact(t);
        PermutationKeepsClasses(before, t, Contents());
      } else {
        SmallListIsSorted(before);
      }
      sorted := true;
    }

    /** The in-place removal of duplicates from the ordered entries t. */
    method Compact(ghost t: seq<CString>)
      requires Valid() && count > 1 && Contents() == t && NonDecreasing(t)
      modifies this`count, items
      ensures Valid()
      ensures OnePerClass(t, Contents())
    {
      hide Compare, CompactedTo;
      var n := 1;
      assert items[..1] == [t[0]];
      CompactStarts(t);
      for i := 1 to count
        invariant 1 <= n <= i
        invariant items[i..count] == t[i..]
        invariant CompactedTo(t, i, items[..n])
        modifies items
      {
        ghost var kept := items[..n];
        assert items[i] == items[i..count][0] == t[i];
        assert items[n - 1] == kept[n - 1];
        var cmp := NamelistCmp(items[n - 1], items[i]);
        CompactSteps(t, i, kept);
        if cmp != 0 {
          items[n] := items[i];
          n := n + 1;
          assert items[..n] == kept + [t[i]];
        }
      }
      CompactEnds(t, items[..n]);
      count := n;
    }

    /** namelist_find: sorts on the first lookup, then searches. */
    method Find(name: CString) returns (r: int)
      requires Valid()
      modifies this, items
      ensures Valid() && items == old(items) && sorted
      ensures if old(sorted) then Contents() == old(Contents()) else OnePerClass(old(Contents()), Contents())
      ensures r == BinarySearch(Contents(), name, 0, count)
      ensures (old(sorted) ==> Increasing(old(Contents()))) ==>
                if Matches(old(Contents()), name) then 0 <= r < count && Compare(Contents()[r], name) == 0 else r == -1
    {
      if !sorted {
        Sort();
      }
      ghost var s := Contents();
      r := Search(name);
      if Increasing(s) {
        SearchIsExact(s, name);
        if !old(sorted) {
          ClassesKeepMatches(old(Contents()), s, name);
        }
      }
    }

    /** The search loop. */
    method Search(name: CString) returns (r: int)
      requires Valid()
      ensures r == BinarySearch(Contents(), name, 0, count)
    {
      hide Compare, BinarySearch;
      ghost var s := Contents();
      var a, b := 0, count;
      while a < b
        invariant 0 <= a <= b <= count
        invariant BinarySearch(s, name, a, b) == BinarySearch(s, name, 0, count)
      {
        var m := a + (b - a) / 2;
        assert s[m] == items[m];
        SearchStep(s, name, a, b);
        var cmp := NamelistCmp(items[m], name);
        if cmp < 0 {
          a := m + 1;
        } else if cmp > 0 {
          b := m;
        } else {
          return m;
        }
      }
      SearchStep(s, name, a, b);
      return -1;
    }
  }

  lemma PermutationKeepsMembers(s: seq<CString>, t: seq<CString>)
    requires multiset(s) == multiset(t)
    ensures forall x :: x in s <==> x in t
  {
    forall x ensures x in s <==> x in t {
      assert x in s <==> x in multiset(s);
      assert x in t <==> x in multiset(t);
    }
  }

  /** `kept` is what the first i of the ordered entries t are reduced to. */
  ghost predicate CompactedTo(t: seq<CString>, i: nat, kept: seq<CString>) {
    && 1 <= i <= |t| && kept != []
    && Increasing(kept)
    && (forall x :: x in kept ==> x in t)
    && Compare(kept[|kept| - 1], t[i - 1]) == 0
    && (forall k :: 0 <= k < i ==> Matches(kept, t[k]))
  }

  lemma CompactStarts(t: seq<CString>)
    requires t != []
    ensures CompactedTo(t, 1, [t[0]])
  {
    CompareIsTotalPreorder(t[0], t[0], t[0]);
    assert Compare([t[0]][0], t[0]) == 0;
  }

  lemma CompactSteps(t: seq<CString>, i: nat, kept: seq<CString>)
    requires NonDecreasing(t) && 1 <= i < |t| && CompactedTo(t, i, kept)
    ensures CompactedTo(t, i + 1, if Compare(kept[|kept| - 1], t[i]) == 0 then kept else kept + [t[i]])
  {
    hide Compare;
    var last := kept[|kept| - 1];
    if Compare(last, t[i]) == 0 {
      assert Matches(kept, t[i]);
    } else {
      CompareIsTotalPreorder(last, t[i - 1], t[i]);
      CompareIsTotalPreorder(t[i], t[i], t[i]);
      AppendIncreasing(kept, t[i]);
      forall k | 0 <= k <= i ensures Matches(kept + [t[i]], t[k]) {
        MatchesGrows(kept, t[i], t[k]);
      }
    }
  }

  lemma CompactEnds(t: seq<CString>, kept: seq<CString>)
    requires CompactedTo(t, |t|, kept)
    ensures OnePerClass(t, kept)
  {
    hide Compare;
  }

  lemma PermutationKeepsClasses(s: seq<CString>, t: seq<CString>, after: seq<CString>)
    requires multiset(s) == multiset(t) && OnePerClass(t, after)
    ensures OnePerClass(s, after)
  {
    PermutationKeepsMembers(s, t);
  }

  lemma SmallListIsSorted(s: seq<CString>)
    requires |s| <= 1
    ensures OnePerClass(s, s)
  {
    forall x | x in s ensures Matches(s, x) {
      CompareIsTotalPreorder(x, x, x);
      assert s[0] == x;
    }
  }

  lemma AppendIncreasing(s: seq<CString>, x: CString)
    requires Increasing(s) && (s == [] || Compare(s[|s| - 1], x) < 0)
    ensures Increasing(s + [x])
  {
    hide Compare;
    if s != [] {
      forall i | 0 <= i < |s| ensures Compare(s[i], x) < 0 {
        CompareIsTotalPreorder(s[i], s[|s| - 1], x);
      }
    }
  }

  lemma MatchesGrows(s: seq<CString>, x: CString, name: CString)
    ensures Matches(s + [x], name) <==> Matches(s, name) || Compare(x, name) == 0
  {
    hide Compare;
    var t := s + [x];
    if Matches(s, name) {
      var k :| 0 <= k < |s| && Compare(s[k], name) == 0;
      assert t[k] == s[k];
    }
    if Compare(x, name) == 0 {
      assert t[|s|] == x;
    }
  }

  lemma SearchIsExact(s: seq<CString>, name: CString)
    requires Increasing(s)
    ensures Matches(s, name) <==> BinarySearch(s, name, 0, |s|) != -1
  {
    if Matches(s, name) {
      var k :| 0 <= k < |s| && Compare(s[k], name) == 0;
      SearchFindsMatch(s, name, 0, |s|, k);
    }
  }

  /** Deduplication loses no match. */
  lemma ClassesKeepMatches(before: seq<CString>, after: seq<CString>, name: CString)
    requires OnePerClass(before, after)
    ensures Matches(before, name) <==> Matches(after, name)
  {
    hide Compare;
    if Matches(before, name) {
      var k :| 0 <= k < |before| && Compare(before[k], name) == 0;
      assert Matches(after, before[k]);
      var l :| 0 <= l < |after| && Compare(after[l], before[k]) == 0;
      CompareIsTotalPreorder(after[l], before[k], name);
      CompareIsTotalPreorder(name, before[k], after[l]);
      CompareIsTotalPreorder(after[l], name, name);
    }
    if Matches(after, name) {
      var l :| 0 <= l < |after| && Compare(after[l], name) == 0;
      assert after[l] in before;
      var k :| 0 <= k < |before| && before[k] == after[l];
    }
  }

  // ----- What qsort and the removal of duplicates may return -----

  lemma {:induction false} OrderedPermutation(s: seq<CString>) returns (t: seq<CString>)
    ensures NonDecreasing(t) && multiset(t) == multiset(s)
  {
    t := s;
    if s != [] {
      var u := OrderedPermutation(s[1..]);
      InsertKeepsOrder(u, s[0]);
      t := Insert(u, s[0]);
      assert s == [s[0]] + s[1..];
    }
  }

  /** Every list has a sorted form. */
  lemma SortedFormExists(s: seq<CString>) returns (kept: seq<CString>)
    ensures OnePerClass(s, kept)
  {
    hide Compare, CompactedTo, OnePerClass;
    if |s| <= 1 {
      SmallListIsSorted(s);
      return s;
    }
    var t := OrderedPermutation(s);
    assert |t| == |multiset(t)| == |multiset(s)| == |s|;
    kept := [t[0]];
    CompactStarts(t);
    for i := 1 to |t|
      invariant CompactedTo(t, i, kept)
    {
      CompactSteps(t, i, kept);
      assert kept != [] by { CompactedIsNotEmpty(t, i, kept); }
      kept := if Compare(kept[|kept| - 1], t[i]) == 0 then kept else kept + [t[i]];
    }
    CompactEnds(t, kept);
    PermutationKeepsClasses(s, t, kept);
  }

  lemma CompactedIsNotEmpty(t: seq<CString>, i: nat, kept: seq<CString>)
    requires CompactedTo(t, i, kept)
    ensures kept != []
  {
  }

  lemma IncreasingIsDistinct(s: seq<CString>)
    requires Increasing(s)
    ensures Distinct(s)
  {
    hide Compare;
    forall i, j | 0 <= i < j < |s| ensures s[i] != s[j] {
      CompareIsTotalPreorder(s[i], s[i], s[i]);
    }
  }

  /** Of two entries that compare equal at most one is kept. */
  lemma EqualEntriesMerge(before: seq<CString>, after: seq<CString>, i: nat, j: nat)
    requires OnePerClass(before, after) && i < j < |before| && Compare(before[i], before[j]) == 0
    ensures |after| < |before|
  {
    hide Compare;
    IncreasingIsDistinct(after);
    var m := if before[i] in after then j else i;
    var rest := before[..m] + before[m + 1..];
    forall x | x in after ensures x in rest {
      var k :| 0 <= k < |before| && before[k] == x;
      if k == m {
        BothKept(after, before[i], x);
      }
      var l := if k == m then i else k;
      assert rest[if l < m then l else l - 1] == before[l];
    }
    DistinctElementsFit(after, rest);
  }

  lemma BothKept(after: seq<CString>, x: CString, y: CString)
    requires Increasing(after) && x in after && y in after && Compare(x, y) == 0
    ensures x == y
  {
    hide Compare;
    var i :| 0 <= i < |after| && after[i] == x;
    var j :| 0 <= j < |after| && after[j] == y;
    CompareIsTotalPreorder(x, y, x);
  }

  /** Sorting keeps the number of entries exactly when no two of them compare equal. */
  lemma SortKeepsCountIff(before: seq<CString>, after: seq<CString>)
    requires OnePerClass(before, after)
    ensures |after| <= |before|
    ensures |after| == |before| <==> PairwiseDistinct(before)
  {
    hide Compare;
    IncreasingIsDistinct(after);
    DistinctElementsFit(after, before);
    if PairwiseDistinct(before) {
      forall i, j | 0 <= i < j < |before| ensures before[i] != before[j] {
        CompareIsTotalPreorder(before[i], before[i], before[i]);
      }
      forall x | x in before ensures x in after {
        var k :| 0 <= k < |after| && Compare(after[k], x) == 0;
        assert after[k] in before;
        CompareIsTotalPreorder(after[k], x, x);
      }
      DistinctElementsFit(before, after);
    } else {
      var i, j :| 0 <= i < j < |before| && Compare(before[i], before[j]) == 0;
      EqualEntriesMerge(before, after, i, j);
    }
  }

  // ----- What deduplication means for the names -----

  ghost predicate MatchEachOther(t: seq<CString>, u: seq<CString>) {
    && (forall x :: x in t ==> Matches(u, x))
    && (forall y :: y in u ==> Matches(t, y))
  }

  lemma HeadsMatch(t: seq<CString>, u: seq<CString>)
    requires Increasing(t) && Increasing(u) && MatchEachOther(t, u) && t != []
    ensures u != [] && Compare(t[0], u[0]) == 0
  {
    hide Compare;
    assert Matches(u, t[0]);
    var j :| 0 <= j < |u| && Compare(u[j], t[0]) == 0;
    assert Matches(t, u[0]);
    var i :| 0 <= i < |t| && Compare(t[i], u[0]) == 0;
    CompareIsTotalPreorder(t[0], t[0], t[i]);
    CompareIsTotalPreorder(u[0], u[0], u[j]);
    CompareIsTotalPreorder(u[0], u[j], t[0]);
    CompareIsTotalPreorder(u[0], t[0], t[i]);
    CompareIsTotalPreorder(u[0], t[i], t[i]);
    CompareIsTotalPreorder(t[0], u[j], u[0]);
    CompareIsTotalPreorder(t[0], u[0], u[0]);
  }

  lemma TailMatches(t: seq<CString>, u: seq<CString>)
    requires Increasing(t) && t != [] && u != [] && Compare(t[0], u[0]) == 0
    requires forall x :: x in t ==> Matches(u, x)
    ensures forall x :: x in t[1..] ==> Matches(u[1..], x)
  {
    hide Compare;
    forall x | x in t[1..] ensures Matches(u[1..], x) {
      var k :| 1 <= k < |t| && t[k] == x;
      assert Matches(u, t[k]);
      var j :| 0 <= j < |u| && Compare(u[j], x) == 0;
      CompareIsTotalPreorder(x, u[0], t[0]);
      CompareIsTotalPreorder(u[0], x, x);
      CompareIsTotalPreorder(u[0], t[0], x);
      CompareIsTotalPreorder(t[0], x, x);
      assert j != 0;
      assert u[1..][j - 1] == u[j];
    }
  }

  lemma {:induction false} SameClassesSamePositions(t: seq<CString>, u: seq<CString>)
    requires Increasing(t) && Increasing(u) && MatchEachOther(t, u)
    ensures |t| == |u| && forall k :: 0 <= k < |t| ==> Compare(t[k], u[k]) == 0
  {
    hide Compare;
    if u != [] {
      HeadsMatch(u, t);
    }
    if t != [] {
      HeadsMatch(t, u);
      CompareIsTotalPreorder(t[0], u[0], u[0]);
      TailMatches(t, u);
      TailMatches(u, t);
      SameClassesSamePositions(t[1..], u[1..]);
      forall k | 0 <= k < |t| ensures Compare(t[k], u[k]) == 0 {
        if k > 0 {
          assert t[k] == t[1..][k - 1] && u[k] == u[1..][k - 1];
        }
      }
    }
  }

  /** However qsort arranges equal names, the sorted list is the same position by position. */
  lemma SortIsDeterminedUpToClass(before: seq<CString>, t: seq<CString>, u: seq<CString>)
    requires OnePerClass(before, t) && OnePerClass(before, u)
    ensures |t| == |u| && forall k :: 0 <= k < |t| ==> Compare(t[k], u[k]) == 0
  {
    SameClassesSamePositions(t, u);
  }

  /** Deduplication keeps every name exactly when no two different names compare equal. */
  lemma DedupKeepsNamesIff(before: seq<CString>, after: seq<CString>)
    requires OnePerClass(before, after)
    ensures (forall x :: x in before ==> x in after) <==>
            (forall x, y :: x in before && y in before && Compare(x, y) == 0 ==> x == y)
  {
    hide Compare;
    if forall x :: x in before ==> x in after {
      forall x, y | x in before && y in before && Compare(x, y) == 0 ensures x == y {
        var i :| 0 <= i < |after| && after[i] == x;
        var j :| 0 <= j < |after| && after[j] == y;
        CompareIsTotalPreorder(x, y, y);
      }
    }
    if forall x, y :: x in before && y in before && Compare(x, y) == 0 ==> x == y {
      forall x | x in before ensures x in after {
        assert Matches(after, x);
        var k :| 0 <= k < |after| && Compare(after[k], x) == 0;
        assert after[k] in before;
      }
    }
  }

  /** The different names "t1" and "t01" compare equal, so sorting a list of both drops one. */
  lemma DedupCanLoseName()
    ensures var a, b: CString := [116, 49], [116, 48, 49];
            a != b && Compare(a, b) == 0 && OnePerClass([a, b], [a])
  {
    var a, b: CString := [116, 49], [116, 48, 49];
    hide Compare;
    LeadingZeroIsIgnored([]);
    assert a + [] == a && b + [] == b;
    PairCollapses(a, b);
  }

  /** Of two names that compare equal, sorting may keep the first only. */
  lemma PairCollapses(a: CString, b: CString)
    requires Compare(a, b) == 0
    ensures OnePerClass([a, b], [a])
  {
    hide Compare;
    CompareIsTotalPreorder(a, a, a);
    assert [a][0] == a;
    assert Matches([a], a) && Matches([a], b);
  }
}
