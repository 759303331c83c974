/** Which tests run-test262.c excludes, skips and runs, and how it counts them. */
module TestAccounting {
  import opened CStrings
  import opened NameOrder
  import opened NameLists

  // ----- Excluded directories -----

  predicate IsDirectory(name: CString) {
    HasSuffix(name, [47])
  }

  /** Some directory of the list is a prefix of the name. */
  predicate InDirectory(dirs: seq<CString>, name: CString) {
    exists k :: 0 <= k < |dirs| && HasPrefix(name, dirs[k])
  }

  /** A directory's name ends in a slash; a test lies in it if its name begins with it. */
  lemma DirectoriesEndInSlash(dirs: seq<CString>, name: CString)
    ensures IsDirectory(name) <==> name != [] && name[|name| - 1] == '/' as int
    ensures InDirectory(dirs, name) <==>
              exists k :: 0 <= k < |dirs| && |dirs[k]| <= |name| && name[..|dirs[k]|] == dirs[k]
  {
    SuffixIff(name, [47]);
    forall k | 0 <= k < |dirs| ensures HasPrefix(name, dirs[k]) <==> dirs[k] <= name {
      PrefixIff(name, dirs[k]);
    }
  }

  function Directories(names: seq<CString>): seq<CString> {
    if names == [] then []
    else Directories(names[..|names| - 1]) + if IsDirectory(names[|names| - 1]) then [names[|names| - 1]] else []
  }

  function NonDirectories(names: seq<CString>): (r: seq<CString>)
    ensures |r| <= |names|
  {
    if names == [] then []
    else NonDirectories(names[..|names| - 1]) + if IsDirectory(names[|names| - 1]) then [] else [names[|names| - 1]]
  }

  /** The tests that are in none of the directories, in their order. */
  function Outside(dirs: seq<CString>, names: seq<CString>): (r: seq<CString>)
    ensures |r| <= |names|
  {
    if names == [] then []
    else Outside(dirs, names[..|names| - 1]) +
         if InDirectory(dirs, names[|names| - 1]) then [] else [names[|names| - 1]]
  }

  /** The sorted list excludes the same tests as the list that was given. */
  ghost predicate KeepsExclusions(dirs: seq<CString>, sorted: seq<CString>) {
    forall name :: InDirectory(sorted, name) <==> InDirectory(dirs, name)
  }

  lemma KeptDirectoriesKeepExclusions(dirs: seq<CString>, sorted: seq<CString>)
    requires OnePerClass(dirs, sorted)
    requires forall d :: d in dirs ==> InDirectory(sorted, d)
    ensures KeepsExclusions(dirs, sorted)
  {
    hide OnePerClass;
    forall name ensures InDirectory(sorted, name) <==> InDirectory(dirs, name) {
      SortedDirectoriesAreDirectories(dirs, sorted, name);
      if InDirectory(dirs, name) {
        var k :| 0 <= k < |dirs| && HasPrefix(name, dirs[k]);
        assert InDirectory(sorted, dirs[k]);
        var j :| 0 <= j < |sorted| && HasPrefix(dirs[k], sorted[j]);
        assert HasPrefix(name, sorted[j]);
      }
    }
  }

  lemma SortedDirectoriesAreDirectories(dirs: seq<CString>, sorted: seq<CString>, name: CString)
    requires OnePerClass(dirs, sorted)
    ensures InDirectory(sorted, name) ==> InDirectory(dirs, name)
  {
    if InDirectory(sorted, name) {
      var j :| 0 <= j < |sorted| && HasPrefix(name, sorted[j]);
      assert sorted[j] in dirs;
      var k :| 0 <= k < |dirs| && dirs[k] == sorted[j];
    }
  }

  /** All entries that compare equal to z, itself included, are prefixes of x or of y. */
  ghost predicate Covers(dirs: seq<CString>, z: CString, x: CString, y: CString) {
    z in dirs && forall d :: d in dirs && Compare(d, z) == 0 ==> HasPrefix(x, d) || HasPrefix(y, d)
  }

  /** However qsort arranges equal names, some directory that is kept encloses x or y. */
  ghost predicate Covered(dirs: seq<CString>, x: CString, y: CString) {
    exists z :: Covers(dirs, z, x, y)
  }

  lemma CoveredStaysExcluded(dirs: seq<CString>, sorted: seq<CString>, x: CString, y: CString)
    requires OnePerClass(dirs, sorted) && Covered(dirs, x, y)
    ensures InDirectory(sorted, x) || InDirectory(sorted, y)
  {
    hide Compare;
    var z :| Covers(dirs, z, x, y);
    assert Matches(sorted, z);
    var k :| 0 <= k < |sorted| && Compare(sorted[k], z) == 0;
    assert sorted[k] in dirs;
  }

  /** The entries that are a prefix of neither name. */
  function NoPrefixes(dirs: seq<CString>, x: CString, y: CString): (r: seq<CString>)
    ensures forall d :: d in r <==> d in dirs && !HasPrefix(x, d) && !HasPrefix(y, d)
  {
    if dirs == [] then []
    else
      (if HasPrefix(x, dirs[0]) || HasPrefix(y, dirs[0]) then [] else [dirs[0]]) + NoPrefixes(dirs[1..], x, y)
  }

  /** What is not covered may get lost: sorting may keep no prefix of either name at all. */
  lemma UncoveredMayBeLost(dirs: seq<CString>, x: CString, y: CString) returns (sorted: seq<CString>)
    requires !Covered(dirs, x, y)
    ensures OnePerClass(dirs, sorted) && !InDirectory(sorted, x) && !InDirectory(sorted, y)
  {
    hide Compare, Increasing;
    var others := NoPrefixes(dirs, x, y);
    sorted := SortedFormExists(others);
    forall d | d in dirs ensures Matches(sorted, d) {
      if d !in others {
        assert !Covers(dirs, d, x, y);
        var d' :| d' in dirs && Compare(d', d) == 0 && !HasPrefix(x, d') && !HasPrefix(y, d');
        assert Matches(sorted, d');
        MatchOfEqual(sorted, d', d);
      }
    }
    forall k | 0 <= k < |sorted| ensures !HasPrefix(x, sorted[k]) && !HasPrefix(y, sorted[k]) {
      assert sorted[k] in others;
    }
  }

  lemma MatchOfEqual(s: seq<CString>, x: CString, y: CString)
    requires Matches(s, x) && Compare(x, y) == 0
    ensures Matches(s, y)
  {
    hide Compare;
    var k :| 0 <= k < |s| && Compare(s[k], x) == 0;
    CompareIsTotalPreorder(s[k], x, y);
    CompareIsTotalPreorder(y, x, s[k]);
    CompareIsTotalPreorder(s[k], y, y);
  }

  /** However qsort arranges equal names, sorting the directory list keeps all exclusions: this is
      so exactly when every entry is covered in the list that is given. */
  lemma SortKeepsExclusionsIff(dirs: seq<CString>)
    ensures (forall sorted :: OnePerClass(dirs, sorted) ==> KeepsExclusions(dirs, sorted)) <==>
            (forall y :: y in dirs ==> Covered(dirs, y, y))
  {
    hide OnePerClass, Covered;
    if forall y :: y in dirs ==> Covered(dirs, y, y) {
      forall sorted | OnePerClass(dirs, sorted) ensures KeepsExclusions(dirs, sorted) {
        forall d | d in dirs ensures InDirectory(sorted, d) {
          CoveredStaysExcluded(dirs, sorted, d, d);
        }
        KeptDirectoriesKeepExclusions(dirs, sorted);
      }
    }
    if forall sorted :: OnePerClass(dirs, sorted) ==> KeepsExclusions(dirs, sorted) {
      forall y | y in dirs ensures Covered(dirs, y, y) {
        if !Covered(dirs, y, y) {
          var sorted := EntryMayBeLost(dirs, y);
        }
      }
    }
  }

  lemma EntryMayBeLost(dirs: seq<CString>, y: CString) returns (sorted: seq<CString>)
    requires y in dirs && !Covered(dirs, y, y)
    ensures OnePerClass(dirs, sorted) && !KeepsExclusions(dirs, sorted)
  {
    hide OnePerClass, Covered;
    sorted := UncoveredMayBeLost(dirs, y, y);
    var k :| 0 <= k < |dirs| && dirs[k] == y;
    assert InDirectory(dirs, y) && !InDirectory(sorted, y);
  }

  /** Some other entry compares equal to y. */
  ghost predicate HasTwin(dirs: seq<CString>, y: CString) {
    exists x :: x in dirs && x != y && Compare(x, y) == 0
  }

  /** A name that goes on behind a prefix without a digit at its end has more tokens. */
  lemma {:induction false} PrefixHasFewerTokens(a: CString, b: CString, i: nat)
    requires i <= |a| < |b| && a <= b && (a != [] ==> !IsDigit(a[|a| - 1]))
    ensures |Tokens(a, i)| < |Tokens(b, i)|
    decreases |a| - i
  {
    if i < |a| {
      assert a[i] == b[i];
      if IsDigit(a[i]) {
        SameRunEnd(a, b, i);
        PrefixHasFewerTokens(a, b, RunEnd(a, i));
      } else {
        PrefixHasFewerTokens(a, b, i + 1);
      }
    }
  }

  lemma {:induction false} SameRunEnd(a: CString, b: CString, i: nat)
    requires i <= |a| < |b| && a <= b && a != [] && !IsDigit(a[|a| - 1])
    requires i < |a|
    ensures RunEnd(a, i) == RunEnd(b, i) < |a|
    decreases |a| - i
  {
    assert a[i] == b[i];
    if IsDigit(a[i]) {
      SameRunEnd(a, b, i + 1);
    }
  }

  /** Two directories that enclose the same name and compare equal are the same. */
  lemma EqualPrefixesAreSame(x: CString, z: CString, y: CString)
    requires IsDirectory(x) && IsDirectory(z) && HasPrefix(y, x) && HasPrefix(y, z) && Compare(x, z) == 0
    ensures x == z
  {
    EqualMeansSameTokens(x, z);
    hide Compare, Tokens;
    assert x == y[..|x|] && z == y[..|z|];
    if |x| < |z| {
      assert x <= z;
      PrefixHasFewerTokens(x, z, 0);
    } else if |z| < |x| {
      assert z <= x;
      PrefixHasFewerTokens(z, x, 0);
    }
  }

  lemma CoveredIffPrefixWithoutTwin(dirs: seq<CString>, y: CString)
    requires (forall d :: d in dirs ==> IsDirectory(d)) && y in dirs
    ensures Covered(dirs, y, y) <==>
              (HasTwin(dirs, y) ==> exists z :: z in dirs && HasPrefix(y, z) && !HasTwin(dirs, z))
  {
    hide Compare, IsDirectory;
    if Covered(dirs, y, y) {
      var z :| Covers(dirs, z, y, y);
      CompareIsTotalPreorder(z, z, z);
      forall x | x in dirs && Compare(x, z) == 0 ensures x == z {
        EqualPrefixesAreSame(x, z, y);
      }
    }
    if !HasTwin(dirs, y) {
      TwinlessCovers(dirs, y, y);
    } else if exists z :: z in dirs && HasPrefix(y, z) && !HasTwin(dirs, z) {
      var z :| z in dirs && HasPrefix(y, z) && !HasTwin(dirs, z);
      TwinlessCovers(dirs, z, y);
    }
  }

  lemma TwinlessCovers(dirs: seq<CString>, z: CString, y: CString)
    requires z in dirs && HasPrefix(y, z) && !HasTwin(dirs, z)
    ensures Covers(dirs, z, y, y)
  {
    hide Compare;
    forall x | x in dirs && Compare(x, z) == 0 ensures HasPrefix(y, x) {
      assert x == z || HasTwin(dirs, z);
    }
  }

  /** Sorting the directories keeps all exclusions exactly when every directory another one
      compares equal to lies in a directory that no other one compares equal to. */
  lemma DedupKeepsExclusionsIff(dirs: seq<CString>)
    requires forall d :: d in dirs ==> IsDirectory(d)
    ensures (forall sorted :: OnePerClass(dirs, sorted) ==> KeepsExclusions(dirs, sorted)) <==>
            (forall y :: y in dirs && HasTwin(dirs, y) ==>
               exists z :: z in dirs && HasPrefix(y, z) && !HasTwin(dirs, z))
  {
    hide OnePerClass, Covered, HasTwin, HasPrefix, KeepsExclusions;
    SortKeepsExclusionsIff(dirs);
    forall y | y in dirs
      ensures Covered(dirs, y, y) <==>
                (HasTwin(dirs, y) ==> exists z :: z in dirs && HasPrefix(y, z) && !HasTwin(dirs, z))
    {
      CoveredIffPrefixWithoutTwin(dirs, y);
    }
  }

  /** Directories written without leading zeros all keep their effect. */
  lemma CanonicalDirectoriesKeepExclusions(dirs: seq<CString>, sorted: seq<CString>)
    requires OnePerClass(dirs, sorted) && forall d :: d in dirs ==> Canonical(d, 0)
    ensures KeepsExclusions(dirs, sorted)
  {
    hide Canonical, OnePerClass, Compare;
    forall y | y in dirs ensures Covered(dirs, y, y) {
      forall x | x in dirs && Compare(x, y) == 0 ensures x == y {
        CanonicalNamesAreKept(x, y);
      }
      CanonicalNamesAreKept(y, y);
      assert Covers(dirs, y, y, y);
    }
    SortKeepsExclusionsIff(dirs);
  }

  /** With "t1/" and "t01/" excluded, or these with the same rest, sorting may keep only the
      first; a test in the second is then run. */
  lemma ExclusionCanBeLost(rest: CString, test: CString)
    requires !IsDigit(At(rest, 0)) && HasPrefix(test, [116, 48, 49] + rest)
    ensures var a, b := [116, 49] + rest, [116, 48, 49] + rest;
            OnePerClass([a, b], [a]) && InDirectory([a, b], test) && !InDirectory([a], test)
  {
    hide Compare, OnePerClass;
    var a, b := [116, 49] + rest, [116, 48, 49] + rest;
    LeadingZeroIsIgnored(rest);
    PairCollapses(a, b);
    assert HasPrefix(test, [a, b][1]);
    assert test[1] == b[1] != a[1];
  }

  // ----- Which tests are left -----

  /** Entry i of the tests and the further names is a test in one of the directories. */
  ghost predicate Dropped(dirs: seq<CString>, tests: seq<CString>, i: nat) {
    i < |tests| && InDirectory(dirs, tests[i])
  }

  /** Of two entries that compare equal at least one is dropped. */
  ghost predicate EqualsAreDropped(dirs: seq<CString>, tests: seq<CString>, all: seq<CString>) {
    forall i, j :: 0 <= i < j < |all| && Compare(all[i], all[j]) == 0 ==>
      Dropped(dirs, tests, i) || Dropped(dirs, tests, j)
  }

  ghost predicate NoEqualsLeft(dirs: seq<CString>, tests: seq<CString>, more: seq<CString>) {
    EqualsAreDropped(dirs, tests, tests + more)
  }

  lemma {:induction false} DistinctWhenNoEqualsLeft(dirs: seq<CString>, tests: seq<CString>, more: seq<CString>)
    ensures PairwiseDistinct(Outside(dirs, tests) + more) <==> NoEqualsLeft(dirs, tests, more)
  {
    hide Compare, InDirectory, Outside, NoEqualsLeft, PairwiseDistinct;
    if tests == [] {
      FiltersStart(tests, dirs);
      assert tests[..0] == tests && tests + more == more;
      NoTestsBefore(dirs, tests, more);
      NoTests(dirs, more);
    } else {
      var n := |tests| - 1;
      FiltersGrow(tests, n, dirs);
      assert tests[..n + 1] == tests;
      var left := Outside(dirs, tests[..n]);
      if InDirectory(dirs, tests[n]) {
        assert left + [] == left;
        DistinctWhenNoEqualsLeft(dirs, tests[..n], more);
        LastIsDropped(dirs, tests, more);
      } else {
        assert left + [tests[n]] + more == left + ([tests[n]] + more);
        DistinctWhenNoEqualsLeft(dirs, tests[..n], [tests[n]] + more);
        LastIsKept(dirs, tests, more);
      }
    }
  }

  lemma NoTestsBefore(dirs: seq<CString>, tests: seq<CString>, more: seq<CString>)
    requires tests == [] && tests + more == more
    ensures NoEqualsLeft(dirs, tests, more) <==> EqualsAreDropped(dirs, [], more)
  {
    hide EqualsAreDropped;
  }

  lemma NoTests(dirs: seq<CString>, all: seq<CString>)
    ensures EqualsAreDropped(dirs, [], all) <==> PairwiseDistinct(all)
  {
    hide Compare, InDirectory;
  }

  lemma LastIsKept(dirs: seq<CString>, tests: seq<CString>, more: seq<CString>)
    requires tests != [] && !InDirectory(dirs, tests[|tests| - 1])
    ensures var n := |tests| - 1;
            NoEqualsLeft(dirs, tests, more) <==> NoEqualsLeft(dirs, tests[..n], [tests[n]] + more)
  {
    hide Compare, InDirectory;
    var n := |tests| - 1;
    assert tests[..n] + ([tests[n]] + more) == tests + more;
    assert forall i: nat :: Dropped(dirs, tests, i) <==> Dropped(dirs, tests[..n], i);
  }

  lemma LastIsDropped(dirs: seq<CString>, tests: seq<CString>, more: seq<CString>)
    requires tests != [] && InDirectory(dirs, tests[|tests| - 1])
    ensures NoEqualsLeft(dirs, tests, more) <==> NoEqualsLeft(dirs, tests[..|tests| - 1], more)
  {
    hide Compare, InDirectory;
    var n := |tests| - 1;
    var all, rest := tests + more, tests[..n] + more;
    assert forall i: nat :: i < n ==> rest[i] == all[i] && (Dropped(dirs, tests, i) <==> Dropped(dirs, tests[..n], i));
    forall i: nat | n <= i < |rest| ensures rest[i] == all[i + 1] && !Dropped(dirs, tests, i + 1) {
      assert rest[i] == more[i - n];
    }
    if NoEqualsLeft(dirs, tests, more) {
      forall i, j | 0 <= i < j < |rest| && Compare(rest[i], rest[j]) == 0
        ensures Dropped(dirs, tests[..n], i) || Dropped(dirs, tests[..n], j)
      {
        var i', j' := if i < n then i else i + 1, if j < n then j else j + 1;
        assert all[i'] == rest[i] && all[j'] == rest[j];
      }
    }
    if NoEqualsLeft(dirs, tests[..n], more) {
      forall i, j | 0 <= i < j < |all| && Compare(all[i], all[j]) == 0
        ensures Dropped(dirs, tests, i) || Dropped(dirs, tests, j)
      {
        if i != n && j != n {
          var i', j' := if i < n then i else i - 1, if j < n then j else j - 1;
          assert all[i] == rest[i'] && all[j] == rest[j'];
        }
      }
    }
  }

  /** Entries i < j of the lists as given never both stay: the directories cover the two tests, or
      the one test if the other entry is not subject to the directories. */
  ghost predicate NeverBothStay(dirs: seq<CString>, tests: seq<CString>, i: nat, j: nat) {
    i < |tests| && Covered(dirs, tests[i], if j < |tests| then tests[j] else tests[i])
  }

  ghost predicate EqualsNeverStay(dirs: seq<CString>, tests: seq<CString>, more: seq<CString>) {
    var all := tests + more;
    forall i, j :: 0 <= i < j < |all| && Compare(all[i], all[j]) == 0 ==> NeverBothStay(dirs, tests, i, j)
  }

  /** However qsort arranges equal names, no two of the tests that are left compare equal: this is
      so exactly when the directories as given cover every two entries that compare equal. */
  lemma NoTestIsMergedIff(dirs: seq<CString>, tests: seq<CString>, more: seq<CString>)
    ensures (forall sorted :: OnePerClass(dirs, sorted) ==> NoEqualsLeft(sorted, tests, more)) <==>
            EqualsNeverStay(dirs, tests, more)
  {
    hide Compare, OnePerClass, Covered, InDirectory;
    var all := tests + more;
    if EqualsNeverStay(dirs, tests, more) {
      forall sorted | OnePerClass(dirs, sorted) ensures NoEqualsLeft(sorted, tests, more) {
        forall i, j | 0 <= i < j < |all| && Compare(all[i], all[j]) == 0
          ensures Dropped(sorted, tests, i) || Dropped(sorted, tests, j)
        {
          assert NeverBothStay(dirs, tests, i, j);
          CoveredStaysExcluded(dirs, sorted, tests[i], if j < |tests| then tests[j] else tests[i]);
        }
      }
    }
    if forall sorted :: OnePerClass(dirs, sorted) ==> NoEqualsLeft(sorted, tests, more) {
      forall i, j | 0 <= i < j < |all| && Compare(all[i], all[j]) == 0 ensures NeverBothStay(dirs, tests, i, j) {
        if !NeverBothStay(dirs, tests, i, j) {
          var sorted := BothMayStay(dirs, tests, more, i, j);
        }
      }
    }
  }

  lemma BothMayStay(dirs: seq<CString>, tests: seq<CString>, more: seq<CString>, i: nat, j: nat)
    returns (sorted: seq<CString>)
    requires i < j < |tests| + |more| && Compare((tests + more)[i], (tests + more)[j]) == 0
    requires !NeverBothStay(dirs, tests, i, j)
    ensures OnePerClass(dirs, sorted) && !NoEqualsLeft(sorted, tests, more)
  {
    hide Compare, OnePerClass, Covered, InDirectory;
    if i < |tests| {
      sorted := UncoveredMayBeLost(dirs, tests[i], if j < |tests| then tests[j] else tests[i]);
    } else {
      sorted := SortedFormExists(dirs);
    }
    assert !Dropped(sorted, tests, i) && !Dropped(sorted, tests, j);
  }

  // ----- Running one test -----

  datatype Mode = DefaultNostrict | DefaultStrict | Nostrict | Strict | All

  /** What run_test finds out about a test, and how its two variants would end. */
  datatype TestInfo = TestInfo(
    skip: bool, isNostrict: bool, isOnlystrict: bool, isModule: bool, failsNostrict: bool, failsStrict: bool)

  function UseStrict(mode: Mode, t: TestInfo): bool {
    match mode
    case DefaultNostrict => t.isOnlystrict
    case DefaultStrict => !t.isNostrict
    case Nostrict => false
    case Strict => !t.isNostrict
    case All => !t.isModule && !t.isNostrict
  }

  function UseNostrict(mode: Mode, t: TestInfo): bool {
    match mode
    case DefaultNostrict => !t.isOnlystrict
    case DefaultStrict => t.isNostrict
    case Nostrict => !t.isOnlystrict
    case Strict => false
    case All => t.isModule || !t.isOnlystrict
  }

  /** How much each counter moves. */
  datatype Charge = Charge(excluded: nat, skipped: nat, run: nat, count: nat, failed: nat)

  function Plus(a: Charge, b: Charge): Charge {
    Charge(a.excluded + b.excluded, a.skipped + b.skipped, a.run + b.run, a.count + b.count, a.failed + b.failed)
  }

  const NOTHING: Charge := Charge(0, 0, 0, 0, 0)

  function One(b: bool): nat { if b then 1 else 0 }

  function ChargeOfRun(mode: Mode, t: TestInfo): Charge {
    var s, n := UseStrict(mode, t), UseNostrict(mode, t);
    if t.skip || !(s || n) then Charge(0, 1, 0, 0, 0)
    else Charge(0, 0, 1, One(n) + One(s), One(n && t.failsNostrict) + One(s && t.failsStrict))
  }

  /** run_test runs some variant of the test. */
  predicate IsRunnable(mode: Mode, t: TestInfo) {
    !t.skip && (UseStrict(mode, t) || UseNostrict(mode, t))
  }

  /** Which variants of a test run_test runs in each mode, by the flags alone; what it skips. */
  lemma VariantsOfMode(mode: Mode, t: TestInfo)
    ensures UseNostrict(mode, t) <==>
              match mode
              case DefaultNostrict => !t.isOnlystrict
              case DefaultStrict => t.isNostrict
              case Nostrict => !t.isOnlystrict
              case Strict => false
              case All => t.isModule || !t.isOnlystrict
    ensures UseStrict(mode, t) <==>
              match mode
              case DefaultNostrict => t.isOnlystrict
              case DefaultStrict => !t.isNostrict
              case Nostrict => false
              case Strict => !t.isNostrict
              case All => !t.isModule && !t.isNostrict
    ensures IsRunnable(mode, t) <==>
              && !t.skip && (mode == Nostrict ==> !t.isOnlystrict) && (mode == Strict ==> !t.isNostrict)
              && (mode == All ==> t.isModule || !t.isNostrict || !t.isOnlystrict)
  {
  }

  /** The counters after one test, mode by mode: (run, count, failed), or skipped. */
  lemma ChargeInMode(mode: Mode, t: TestInfo)
    ensures var n, s := if t.failsNostrict then 1 else 0, if t.failsStrict then 1 else 0;
            var skipped := Charge(0, 1, 0, 0, 0);
            ChargeOfRun(mode, t) ==
              if t.skip then skipped else
                match mode
                case DefaultNostrict => Charge(0, 0, 1, 1, if t.isOnlystrict then s else n)
                case DefaultStrict => Charge(0, 0, 1, 1, if t.isNostrict then n else s)
                case Nostrict => if t.isOnlystrict then skipped else Charge(0, 0, 1, 1, n)
                case Strict => if t.isNostrict then skipped else Charge(0, 0, 1, 1, s)
                case All =>
                  if t.isModule then Charge(0, 0, 1, 1, n)
                  else if t.isNostrict && t.isOnlystrict then skipped
                  else if t.isNostrict then Charge(0, 0, 1, 1, n)
                  else if t.isOnlystrict then Charge(0, 0, 1, 1, s)
                  else Charge(0, 0, 1, 2, n + s)
  {
  }

  /** One entry of the test list, with the number it has. */
  function ChargeOf(mode: Mode, t: TestInfo, isExcluded: bool, index: int, start: int, stop: int): Charge {
    if isExcluded then Charge(1, 0, 0, 0, 0)
    else if index < start then Charge(0, 1, 0, 0, 0)
    else if stop >= 0 && index > stop then Charge(0, 1, 0, 0, 0)
    else ChargeOfRun(mode, t)
  }

  /** The whole list, whose first entry has number `first`. */
  ghost function ChargeOfList(mode: Mode, info: CString -> TestInfo, excludes: seq<CString>, names: seq<CString>,
                              first: int, start: int, stop: int): Charge
  {
    if names == [] then NOTHING
    else
      var n := |names| - 1;
      Plus(ChargeOfList(mode, info, excludes, names[..n], first, start, stop),
           ChargeOf(mode, info(names[n]), Matches(excludes, names[n]), first + n, start, stop))
  }

  lemma SingleCharge(mode: Mode, t: TestInfo, isExcluded: bool, index: int, start: int, stop: int)
    ensures var c := ChargeOf(mode, t, isExcluded, index, start, stop);
            && c.excluded + c.skipped + c.run == 1
            && c.run <= c.count <= 2 * c.run
            && (mode != All ==> c.count == c.run)
            && c.failed <= c.count
  {
  }

  /** Every entry is charged once: excluded, skipped or run; a test that runs is counted once, or
      up to twice in mode All; failures are never more than counted runs. */
  lemma {:induction false} ChargesAddUp(mode: Mode, info: CString -> TestInfo, excludes: seq<CString>,
                                        names: seq<CString>, first: int, start: int, stop: int)
    ensures var c := ChargeOfList(mode, info, excludes, names, first, start, stop);
            && c.excluded + c.skipped + c.run == |names|
            && c.run <= c.count <= 2 * c.run
            && (mode != All ==> c.count == c.run)
            && c.failed <= c.count
  {
    if names != [] {
      var n := |names| - 1;
      ChargesAddUp(mode, info, excludes, names[..n], first, start, stop);
      SingleCharge(mode, info(names[n]), Matches(excludes, names[n]), first + n, start, stop);
      hide ChargeOf, Matches;
    }
  }

  /** How many names pass the test, which also sees their numbers. */
  ghost function Tally(names: seq<CString>, first: int, p: (CString, int) -> bool): nat {
    |set k | 0 <= k < |names| && p(names[k], first + k)|
  }

  lemma TallyGrows(names: seq<CString>, first: int, p: (CString, int) -> bool)
    requires names != []
    ensures var n := |names| - 1;
            Tally(names, first, p) == Tally(names[..n], first, p) + One(p(names[n], first + n))
  {
    var n := |names| - 1;
    var r := names[..n];
    var before := set k | 0 <= k < |r| && p(r[k], first + k);
    var after := set k | 0 <= k < |names| && p(names[k], first + k);
    assert |r| == n && n !in before;
    forall k ensures k in after <==> k in before || (k == n && p(names[n], first + n)) {
      assert 0 <= k < n ==> r[k] == names[k];
    }
    if p(names[n], first + n) {
      assert after == before + {n};
    } else {
      assert after == before;
    }
  }

  /** A counter that moves with two tests on the entries counts the entries that pass them. */
  lemma {:induction false} CounterIsTally(mode: Mode, info: CString -> TestInfo, excludes: seq<CString>,
                                          names: seq<CString>, first: int, start: int, stop: int,
                                          counter: Charge -> int, p: (CString, int) -> bool, q: (CString, int) -> bool)
    requires counter(NOTHING) == 0 && forall a, b :: counter(Plus(a, b)) == counter(a) + counter(b)
    requires forall x, i ::
               counter(ChargeOf(mode, info(x), Matches(excludes, x), i, start, stop)) == One(p(x, i)) + One(q(x, i))
    ensures counter(ChargeOfList(mode, info, excludes, names, first, start, stop)) ==
              Tally(names, first, p) + Tally(names, first, q)
  {
    hide ChargeOf, Matches, Plus, One;
    if names == [] {
      hide *;
      NoTally(names, first, p);
      NoTally(names, first, q);
      ChargeOfNone(mode, info, excludes, first, start, stop);
    } else {
      hide Tally;
      var n := |names| - 1;
      CounterIsTally(mode, info, excludes, names[..n], first, start, stop, counter, p, q);
      TallyGrows(names, first, p);
      TallyGrows(names, first, q);
    }
  }

  lemma NoTally(names: seq<CString>, first: int, p: (CString, int) -> bool)
    requires names == []
    ensures Tally(names, first, p) == 0
  {
    assert (set k | 0 <= k < |names| && p(names[k], first + k)) == {};
  }

  /** Test x with number i is neither excluded nor out of the index range. */
  ghost predicate InRange(excludes: seq<CString>, start: int, stop: int, x: CString, i: int) {
    !Matches(excludes, x) && start <= i && (stop < 0 || i <= stop)
  }

  lemma NothingTallied(names: seq<CString>, first: int, q: (CString, int) -> bool)
    requires forall x, i :: !q(x, i)
    ensures Tally(names, first, q) == 0
  {
    assert (set k | 0 <= k < |names| && q(names[k], first + k)) == {};
  }

  lemma ExcludedTally(mode: Mode, info: CString -> TestInfo, excludes: seq<CString>,
                      names: seq<CString>, first: int, start: int, stop: int)
    ensures ChargeOfList(mode, info, excludes, names, first, start, stop).excluded ==
              |set k | 0 <= k < |names| && Matches(excludes, names[k])|
  {
    hide Matches;
    var p, q := (x: CString, i: int) => Matches(excludes, x), (x: CString, i: int) => false;
    CounterIsTally(mode, info, excludes, names, first, start, stop, (c: Charge) => c.excluded, p, q);
    NothingTallied(names, first, q);
    assert (set k | 0 <= k < |names| && p(names[k], first + k)) ==
           set k | 0 <= k < |names| && Matches(excludes, names[k]);
  }

  lemma EntryIsRun(mode: Mode, t: TestInfo, isExcluded: bool, i: int, start: int, stop: int)
    ensures ChargeOf(mode, t, isExcluded, i, start, stop).run ==
              One(!isExcluded && start <= i && (stop < 0 || i <= stop) && IsRunnable(mode, t))
  {
  }

  lemma RunTally(mode: Mode, info: CString -> TestInfo, excludes: seq<CString>,
                 names: seq<CString>, first: int, start: int, stop: int)
    ensures ChargeOfList(mode, info, excludes, names, first, start, stop).run ==
              |set k | 0 <= k < |names| && InRange(excludes, start, stop, names[k], first + k)
                       && IsRunnable(mode, info(names[k]))|
  {
    hide Matches, ChargeOf, ChargeOfList, IsRunnable;
    var p := (x: CString, i: int) => InRange(excludes, start, stop, x, i) && IsRunnable(mode, info(x));
    var q := (x: CString, i: int) => false;
    forall x, i ensures ChargeOf(mode, info(x), Matches(excludes, x), i, start, stop).run == One(p(x, i)) + One(q(x, i))
    {
      EntryIsRun(mode, info(x), Matches(excludes, x), i, start, stop);
    }
    CounterIsTally(mode, info, excludes, names, first, start, stop, (c: Charge) => c.run, p, q);
    NothingTallied(names, first, q);
    assert (set k | 0 <= k < |names| && p(names[k], first + k)) ==
           set k | 0 <= k < |names| && InRange(excludes, start, stop, names[k], first + k)
                   && IsRunnable(mode, info(names[k]));
  }

  /** The excluded tests are those the exclude list matches; run are those of the others that lie in
      the index range and that neither their metadata nor their flags take out of the mode; all
      further ones are skipped. */
  lemma ExcludedAreTheMatches(mode: Mode, info: CString -> TestInfo, excludes: seq<CString>,
                              names: seq<CString>, first: int, start: int, stop: int)
    ensures var c := ChargeOfList(mode, info, excludes, names, first, start, stop);
            && c.excluded == |set k | 0 <= k < |names| && Matches(excludes, names[k])|
            && c.run ==
                 |set k | 0 <= k < |names| && !Matches(excludes, names[k])
                          && start <= first + k && (stop < 0 || first + k <= stop)
                          && var t := info(names[k]);
                             && !t.skip && (mode == Nostrict ==> !t.isOnlystrict) && (mode == Strict ==> !t.isNostrict)
                             && (mode == All ==> t.isModule || !t.isNostrict || !t.isOnlystrict)|
            && c.skipped == |names| - c.excluded - c.run
  {
    hide ChargeOfList, Matches;
    ExcludedTally(mode, info, excludes, names, first, start, stop);
    RunTally(mode, info, excludes, names, first, start, stop);
    ChargesAddUp(mode, info, excludes, names, first, start, stop);
    assert (set k | 0 <= k < |names| && InRange(excludes, start, stop, names[k], first + k)
                    && IsRunnable(mode, info(names[k]))) ==
           set k | 0 <= k < |names| && !Matches(excludes, names[k])
                   && start <= first + k && (stop < 0 || first + k <= stop)
                   && var t := info(names[k]);
                      && !t.skip && (mode == Nostrict ==> !t.isOnlystrict) && (mode == Strict ==> !t.isNostrict)
                      && (mode == All ==> t.isModule || !t.isNostrict || !t.isOnlystrict);
  }

  lemma VariantsAreCharged(mode: Mode, t: TestInfo, isExcluded: bool, i: int, start: int, stop: int, n: bool, s: bool)
    requires var reached := !isExcluded && start <= i && (stop < 0 || i <= stop) && !t.skip;
             (n <==> reached && UseNostrict(mode, t)) && (s <==> reached && UseStrict(mode, t))
    ensures var c := ChargeOf(mode, t, isExcluded, i, start, stop);
            && c.count == One(n) + One(s)
            && c.failed == One(n && t.failsNostrict) + One(s && t.failsStrict)
  {
  }

  lemma CountIsVariants(mode: Mode, info: CString -> TestInfo, excludes: seq<CString>, names: seq<CString>,
                        first: int, start: int, stop: int,
                        n: (CString, int) -> bool, s: (CString, int) -> bool)
    requires forall x, i ::
               (n(x, i) <==> !Matches(excludes, x) && start <= i && (stop < 0 || i <= stop)
                             && !info(x).skip && UseNostrict(mode, info(x)))
    requires forall x, i ::
               (s(x, i) <==> !Matches(excludes, x) && start <= i && (stop < 0 || i <= stop)
                             && !info(x).skip && UseStrict(mode, info(x)))
    ensures ChargeOfList(mode, info, excludes, names, first, start, stop).count ==
              Tally(names, first, n) + Tally(names, first, s)
  {
    hide ChargeOf, ChargeOfList, Matches, UseNostrict, UseStrict, Tally, One, Plus;
    forall x, i
      ensures ChargeOf(mode, info(x), Matches(excludes, x), i, start, stop).count == One(n(x, i)) + One(s(x, i))
    {
      VariantsAreCharged(mode, info(x), Matches(excludes, x), i, start, stop, n(x, i), s(x, i));
    }
    CountersAdd();
    CounterIsTally(mode, info, excludes, names, first, start, stop, (c: Charge) => c.count, n, s);
  }

  lemma CountersAdd()
    ensures forall a, b :: Plus(a, b).count == a.count + b.count && Plus(a, b).failed == a.failed + b.failed
  {
  }

  lemma FailedIsVariants(mode: Mode, info: CString -> TestInfo, excludes: seq<CString>, names: seq<CString>,
                         first: int, start: int, stop: int,
                         n: (CString, int) -> bool, s: (CString, int) -> bool,
                         nf: (CString, int) -> bool, sf: (CString, int) -> bool)
    requires forall x, i ::
               (n(x, i) <==> !Matches(excludes, x) && start <= i && (stop < 0 || i <= stop)
                             && !info(x).skip && UseNostrict(mode, info(x)))
    requires forall x, i ::
               (s(x, i) <==> !Matches(excludes, x) && start <= i && (stop < 0 || i <= stop)
                             && !info(x).skip && UseStrict(mode, info(x)))
    requires forall x, i :: nf(x, i) <==> n(x, i) && info(x).failsNostrict
    requires forall x, i :: sf(x, i) <==> s(x, i) && info(x).failsStrict
    ensures ChargeOfList(mode, info, excludes, names, first, start, stop).failed ==
              Tally(names, first, nf) + Tally(names, first, sf)
  {
    hide ChargeOf, ChargeOfList, Matches, UseNostrict, UseStrict, Tally, One, Plus;
    forall x, i
      ensures ChargeOf(mode, info(x), Matches(excludes, x), i, start, stop).failed == One(nf(x, i)) + One(sf(x, i))
    {
      VariantsAreCharged(mode, info(x), Matches(excludes, x), i, start, stop, n(x, i), s(x, i));
    }
    CountersAdd();
    CounterIsTally(mode, info, excludes, names, first, start, stop, (c: Charge) => c.failed, nf, sf);
  }

  /** test_count and test_failed go by the variants that are run of the tests that are neither
      excluded nor out of the index range nor skipped (n without, s in strict mode): one for each
      of them, and one failure for each of them that fails. */
  lemma FailuresAreTheVariants(mode: Mode, info: CString -> TestInfo, excludes: seq<CString>, names: seq<CString>,
                               first: int, start: int, stop: int,
                               n: (CString, int) -> bool, s: (CString, int) -> bool)
    requires forall x, i ::
               (n(x, i) <==> !Matches(excludes, x) && start <= i && (stop < 0 || i <= stop)
                             && !info(x).skip && UseNostrict(mode, info(x)))
    requires forall x, i ::
               (s(x, i) <==> !Matches(excludes, x) && start <= i && (stop < 0 || i <= stop)
                             && !info(x).skip && UseStrict(mode, info(x)))
    ensures var c := ChargeOfList(mode, info, excludes, names, first, start, stop);
            && c.count == |set k | 0 <= k < |names| && n(names[k], first + k)|
                          + |set k | 0 <= k < |names| && s(names[k], first + k)|
            && c.failed == |set k | 0 <= k < |names| && n(names[k], first + k) && info(names[k]).failsNostrict|
                           + |set k | 0 <= k < |names| && s(names[k], first + k) && info(names[k]).failsStrict|
  {
    hide ChargeOf, ChargeOfList, Matches, UseNostrict, UseStrict;
    CountIsVariants(mode, info, excludes, names, first, start, stop, n, s);
    var nf, sf := (x: CString, i: int) => n(x, i) && info(x).failsNostrict,
                  (x: CString, i: int) => s(x, i) && info(x).failsStrict;
    FailedIsVariants(mode, info, excludes, names, first, start, stop, n, s, nf, sf);
    assert (set k | 0 <= k < |names| && nf(names[k], first + k)) ==
           set k | 0 <= k < |names| && n(names[k], first + k) && info(names[k]).failsNostrict;
    assert (set k | 0 <= k < |names| && sf(names[k], first + k)) ==
           set k | 0 <= k < |names| && s(names[k], first + k) && info(names[k]).failsStrict;
  }

  /** A lookup in the exclude list goes by class: it is about the listed names exactly where no
      other name on the list compares equal to the test's. */
  lemma ExcludedIffListed(excludes: seq<CString>, name: CString)
    ensures Matches(excludes, name) <==> name in excludes || HasTwin(excludes, name)
    ensures (Matches(excludes, name) <==> name in excludes) <==> (name in excludes || !HasTwin(excludes, name))
  {
    hide Compare;
    CompareIsTotalPreorder(name, name, name);
    if Matches(excludes, name) {
      var k :| 0 <= k < |excludes| && Compare(excludes[k], name) == 0;
      assert excludes[k] in excludes;
    }
    if name in excludes || HasTwin(excludes, name) {
      var x :| x in excludes && Compare(x, name) == 0;
      var k :| 0 <= k < |excludes| && excludes[k] == x;
    }
  }

  /** Listing "t1.js" excludes "t01.js" too, and so with any other rest behind the number. */
  lemma UnlistedTestCanBeExcluded(rest: CString)
    requires !IsDigit(At(rest, 0))
    ensures [116, 48, 49] + rest !in [[116, 49] + rest] && Matches([[116, 49] + rest], [116, 48, 49] + rest)
  {
    hide Compare;
    LeadingZeroIsIgnored(rest);
    assert [[116, 49] + rest][0] == [116, 49] + rest;
  }

  lemma ChargeOfNone(mode: Mode, info: CString -> TestInfo, excludes: seq<CString>, first: int, start: int, stop: int)
    ensures ChargeOfList(mode, info, excludes, [], first, start, stop) == NOTHING
  {
  }

  lemma ChargeOfNext(mode: Mode, info: CString -> TestInfo, excludes: seq<CString>, names: seq<CString>, i: nat,
                     first: int, start: int, stop: int)
    requires i < |names|
    ensures ChargeOfList(mode, info, excludes, names[..i + 1], first, start, stop) ==
              Plus(ChargeOfList(mode, info, excludes, names[..i], first, start, stop),
                   ChargeOf(mode, info(names[i]), Matches(excludes, names[i]), first + i, start, stop))
  {
    assert names[..i + 1][..i] == names[..i];
  }

  lemma SortedIsIncreasing(before: seq<CString>, after: seq<CString>)
    ensures OnePerClass(before, after) ==> Increasing(after)
  {
  }

  /** What one more name adds to the three filters. */
  lemma FiltersGrow(names: seq<CString>, i: nat, dirs: seq<CString>)
    requires i < |names|
    ensures Directories(names[..i + 1]) == Directories(names[..i]) + if IsDirectory(names[i]) then [names[i]] else []
    ensures NonDirectories(names[..i + 1]) ==
              NonDirectories(names[..i]) + if IsDirectory(names[i]) then [] else [names[i]]
    ensures Outside(dirs, names[..i + 1]) ==
              Outside(dirs, names[..i]) + if InDirectory(dirs, names[i]) then [] else [names[i]]
  {
    assert names[..i + 1][..i] == names[..i];
  }

  /** The state of an in-place filter: i of the names are looked at, `kept` stays of them. */
  ghost predicate Compacting(items: seq<CString>, names: seq<CString>, i: nat, kept: seq<CString>) {
    |kept| <= i <= |names| == |items| && items[..|kept|] == kept && items[i..] == names[i..]
  }

  lemma CompactingSteps(items: seq<CString>, names: seq<CString>, i: nat, kept: seq<CString>)
    requires Compacting(items, names, i, kept) && i < |names|
    ensures items[i] == names[i]
    ensures Compacting(items, names, i + 1, kept)
    ensures Compacting(items[|kept| := names[i]], names, i + 1, kept + [names[i]])
  {
  }

  lemma FiltersStart(names: seq<CString>, dirs: seq<CString>)
    ensures Directories(names[..0]) == NonDirectories(names[..0]) == Outside(dirs, names[..0]) == []
    ensures Compacting(names, names, 0, [])
  {
  }

  lemma CompactingEnds(items: seq<CString>, names: seq<CString>, kept: seq<CString>)
    requires Compacting(items, names, |names|, kept)
    ensures |kept| <= |items| && items[..|kept|] == kept
  {
  }

  class Runner {
    const mode: Mode
    const info: CString -> TestInfo
    var testCount: nat
    var testFailed: nat
    var testIndex: int
    var testSkipped: nat
    var testExcluded: nat

    constructor (mode: Mode, info: CString -> TestInfo)
      ensures this.mode == mode && this.info == info
      ensures testCount == testFailed == testSkipped == testExcluded == 0 && testIndex == 0
    {
      this.mode, this.info := mode, info;
      testCount, testFailed, testIndex, testSkipped, testExcluded := 0, 0, 0, 0, 0;
    }

    /** The counters are those of `c` on top of the given ones. */
    ghost predicate Counted(count: nat, failed: nat, skipped: nat, excluded: nat, c: Charge)
      reads this
    {
      && testCount == count + c.count && testFailed == failed + c.failed
      && testSkipped == skipped + c.skipped && testExcluded == excluded + c.excluded
    }

    /** run_test_buf */
    method RunTestBuf(fails: bool)
      modifies this
      ensures testCount == old(testCount) + 1 && testFailed == old(testFailed) + One(fails)
      ensures testIndex == old(testIndex) && testSkipped == old(testSkipped) && testExcluded == old(testExcluded)
    {
      testCount := testCount + 1;
      if fails {
        testFailed := testFailed + 1;
      }
    }

    /** run_test, after its metadata has been read */
    method RunTest(name: CString)
      modifies this
      ensures testIndex == old(testIndex)
      ensures Counted(old(testCount), old(testFailed), old(testSkipped), old(testExcluded),
                      ChargeOfRun(mode, info(name)))
      ensures testCount == old(testCount) + ChargeOfRun(mode, info(name)).count
      ensures testFailed == old(testFailed) + ChargeOfRun(mode, info(name)).failed
      ensures testSkipped == old(testSkipped) + ChargeOfRun(mode, info(name)).skipped
      ensures testExcluded == old(testExcluded)
    {
      var t := info(name);
      var useStrict, useNostrict := false, false;
      match mode {
        case DefaultNostrict =>
          if t.isOnlystrict { useStrict := true; } else { useNostrict := true; }
        case DefaultStrict =>
          if t.isNostrict { useNostrict := true; } else { useStrict := true; }
        case Nostrict =>
          if !t.isOnlystrict { useNostrict := true; }
        case Strict =>
          if !t.isNostrict { useStrict := true; }
        case All =>
          if t.isModule {
            useNostrict := true;
          } else {
            if !t.isNostrict { useStrict := true; }
            if !t.isOnlystrict { useNostrict := true; }
          }
      }
      if t.skip || !(useStrict || useNostrict) {
        testSkipped := testSkipped + 1;
      } else {
        if useNostrict {
          RunTestBuf(t.failsNostrict);
        }
        if useStrict {
          RunTestBuf(t.failsStrict);
        }
      }
    }

    /** The body of the loop of run_test_dir_list. */
    method ChargeTest(p: CString, excludes: NameList, start: int, stop: int, ghost patterns: seq<CString>)
      requires excludes.Valid()
      requires excludes.sorted ==> Increasing(excludes.Contents())
      requires forall name :: Matches(excludes.Contents(), name) <==> Matches(patterns, name)
      modifies this, excludes, excludes.items
      ensures excludes.Valid() && excludes.items == old(excludes.items)
      ensures excludes.sorted ==> Increasing(excludes.Contents())
      ensures forall name :: Matches(excludes.Contents(), name) <==> Matches(patterns, name)
      ensures testIndex == old(testIndex) + 1
      ensures Counted(old(testCount), old(testFailed), old(testSkipped), old(testExcluded),
                      ChargeOf(mode, info(p), Matches(patterns, p), old(testIndex), start, stop))
    {
      hide Matches, Increasing, ChargeOfRun;
      ghost var before := excludes.Contents();
      var found := excludes.Find(p);
      MatchesSurviveSort(before, excludes.Contents());
      assert excludes.sorted ==> Increasing(excludes.Contents()) by { SortedIsIncreasing(before, excludes.Contents()); }
      hide OnePerClass;
      if found >= 0 {
        testExcluded := testExcluded + 1;
      } else if testIndex < start {
        testSkipped := testSkipped + 1;
      } else if stop >= 0 && testIndex > stop {
        testSkipped := testSkipped + 1;
      } else {
        RunTest(p);
      }
      testIndex := testIndex + 1;
    }

    /** run_test_dir_list */
    method RunTestDirList(lp: NameList, excludes: NameList, start: int, stop: int)
      requires lp.Valid() && excludes.Valid() && lp != excludes && lp.items != excludes.items
      requires excludes.sorted ==> Increasing(excludes.Contents())
      modifies this, lp, lp.items, excludes, excludes.items
      ensures lp.Valid() && OnePerClass(old(lp.Contents()), lp.Contents())
      ensures testIndex == old(testIndex) + |lp.Contents()|
      ensures Counted(old(testCount), old(testFailed), old(testSkipped), old(testExcluded),
                      ChargeOfList(mode, info, old(excludes.Contents()), lp.Contents(), old(testIndex), start, stop))
    {
      hide Matches, Increasing, OnePerClass, ChargeOfList, ChargeOf;
      ghost var patterns := excludes.Contents();
      lp.Sort();
      assert ChargeOfList(mode, info, patterns, lp.Contents()[..0], testIndex, start, stop) == NOTHING by {
        ChargeOfNone(mode, info, patterns, testIndex, start, stop);
      }
      ghost var names, first := lp.Contents(), testIndex;
      for i := 0 to lp.count
        invariant lp.Valid() && lp.Contents() == names && lp.count == |names|
        invariant excludes.Valid() && excludes.items == old(excludes.items)
        invariant excludes.sorted ==> Increasing(excludes.Contents())
        invariant forall name :: Matches(excludes.Contents(), name) <==> Matches(patterns, name)
        invariant testIndex == first + i
        invariant Counted(old(testCount), old(testFailed), old(testSkipped), old(testExcluded),
                          ChargeOfList(mode, info, patterns, names[..i], first, start, stop))
        modifies this, excludes, excludes.items
      {
        assert lp.items[i] == names[i];
        ChargeOfNext(mode, info, patterns, names, i, first, start, stop);
        ChargeTest(lp.items[i], excludes, start, stop, patterns);
      }
      assert names[..|names|] == names;
    }

    /** The body of the first loop of update_exclude_dirs: a directory moves to its own list. */
    method SplitOne(excludes: NameList, dirs: NameList, i: nat, n: nat,
                    ghost names: seq<CString>, ghost kept: seq<CString>)
      returns (n': nat)
      requires excludes.Valid() && dirs.Valid() && excludes != dirs && excludes.items != dirs.items
      requires Compacting(excludes.Contents(), names, i, kept) && i < |names| && n == |kept|
      modifies excludes.items, dirs, dirs.items
      ensures dirs.Valid() && (dirs.items == old(dirs.items) || fresh(dirs.items))
      ensures dirs.Contents() == old(dirs.Contents()) + if IsDirectory(names[i]) then [names[i]] else []
      ensures var kept' := kept + if IsDirectory(names[i]) then [] else [names[i]];
              n' == |kept'| && Compacting(excludes.Contents(), names, i + 1, kept')
    {
      ghost var items := excludes.Contents();
      CompactingSteps(items, names, i, kept);
      var name := excludes.items[i];
      assert name == items[i];
      hide Compacting, IsDirectory;
      if IsDirectory(name) {
        dirs.Add(NoBase, name);
        n' := n;
        assert excludes.Contents() == items && kept + [] == kept;
      } else {
        excludes.items[n] := name;
        n' := n + 1;
        assert excludes.Contents() == items[n := name];
        assert dirs.Contents() == old(dirs.Contents()) + [];
      }
    }

    /** First loop of update_exclude_dirs: directories move to their own list. */
    method SplitDirectories(excludes: NameList, dirs: NameList)
      requires excludes.Valid() && dirs.Valid() && excludes != dirs && excludes.items != dirs.items
      modifies excludes, excludes.items, dirs, dirs.items
      ensures excludes.Valid() && dirs.Valid() && excludes.items == old(excludes.items)
      ensures dirs.items == old(dirs.items) || fresh(dirs.items)
      ensures excludes.sorted == old(excludes.sorted)
      ensures excludes.Contents() == NonDirectories(old(excludes.Contents()))
      ensures dirs.Contents() == old(dirs.Contents()) + Directories(old(excludes.Contents()))
    {
      hide IsDirectory, Compacting, Directories, NonDirectories;
      ghost var names, d := excludes.Contents(), dirs.Contents();
      FiltersStart(names, []);
      var n := 0;
      for i := 0 to excludes.count
        invariant excludes.Valid() && excludes.items == old(excludes.items) && excludes.count == |names|
        invariant dirs.Valid() && dirs.items != excludes.items
        invariant dirs.items == old(dirs.items) || fresh(dirs.items)
        invariant excludes.sorted == old(excludes.sorted)
        invariant n == |NonDirectories(names[..i])|
        invariant Compacting(excludes.Contents(), names, i, NonDirectories(names[..i]))
        invariant dirs.Contents() == d + Directories(names[..i])
      {
        FiltersGrow(names, i, []);
        n := SplitOne(excludes, dirs, i, n, names, NonDirectories(names[..i]));
      }
      assert names[..|names|] == names;
      CompactingEnds(excludes.Contents(), names, NonDirectories(names));
      excludes.count := n;
    }

    /** The body of the second loop: a test in an excluded directory is dropped. */
    method FilterOne(tests: NameList, dirs: NameList, i: nat, n: nat,
                     ghost names: seq<CString>, ghost kept: seq<CString>)
      returns (n': nat)
      requires tests.Valid() && dirs.Valid() && tests != dirs && tests.items != dirs.items
      requires Compacting(tests.Contents(), names, i, kept) && i < |names| && n == |kept|
      modifies this`testExcluded, tests.items
      ensures var isExcluded := InDirectory(dirs.Contents(), names[i]);
              var kept' := kept + if isExcluded then [] else [names[i]];
              && n' == |kept'| && Compacting(tests.Contents(), names, i + 1, kept')
              && testExcluded == old(testExcluded) + One(isExcluded)
    {
      ghost var items := tests.Contents();
      CompactingSteps(items, names, i, kept);
      var name := tests.items[i];
      assert name == items[i];
      hide Compacting, InDirectory;
      var excluded := IsExcluded(dirs, name);
      if excluded {
        testExcluded := testExcluded + 1;
        n' := n;
        assert tests.Contents() == items && kept + [] == kept;
      } else {
        tests.items[n] := name;
        n' := n + 1;
        assert tests.Contents() == items[n := name];
      }
    }

    /** Second loop of update_exclude_dirs: tests in an excluded directory are dropped. */
    method FilterTests(tests: NameList, dirs: NameList)
      requires tests.Valid() && dirs.Valid() && tests != dirs && tests.items != dirs.items
      modifies this`testExcluded, tests, tests.items
      ensures tests.Valid() && tests.items == old(tests.items) && tests.sorted == old(tests.sorted)
      ensures tests.Contents() == Outside(dirs.Contents(), old(tests.Contents()))
      ensures testExcluded + |tests.Contents()| == old(testExcluded) + |old(tests.Contents())|
    {
      hide Compacting, InDirectory, Outside;
      ghost var names, d := tests.Contents(), dirs.Contents();
      FiltersStart(names, d);
      var n := 0;
      for i := 0 to tests.count
        invariant tests.count == |names| && dirs.Contents() == d
        invariant n == |Outside(d, names[..i])|
        invariant Compacting(tests.Contents(), names, i, Outside(d, names[..i]))
        invariant testExcluded == old(testExcluded) + i - n
        modifies this`testExcluded, tests.items
      {
        FiltersGrow(names, i, d);
        n := FilterOne(tests, dirs, i, n, names, Outside(d, names[..i]));
      }
      assert names[..|names|] == names;
      CompactingEnds(tests.Contents(), names, Outside(d, names));
      tests.count := n;
    }

    /** The inner loop: is some directory a prefix of the name? */
    method IsExcluded(dirs: NameList, name: CString) returns (excluded: bool)
      requires dirs.Valid()
      ensures excluded <==> InDirectory(dirs.Contents(), name)
    {
      ghost var d := dirs.Contents();
      for j := 0 to dirs.count
        invariant !InDirectory(d[..j], name)
      {
        assert dirs.items[j] == d[j];
        assert d[..j + 1] == d[..j] + [d[j]];
        if HasPrefix(name, dirs.items[j]) {
          return true;
        }
      }
      assert d[..|d|] == d;
      return false;
    }

    /** update_exclude_dirs */
    method UpdateExcludeDirs(tests: NameList, excludes: NameList, dirs: NameList)
      requires tests.Valid() && excludes.Valid() && dirs.Valid()
      requires tests != excludes && tests != dirs && excludes != dirs
      requires tests.items != excludes.items && tests.items != dirs.items && excludes.items != dirs.items
      modifies this, tests, tests.items, excludes, excludes.items, dirs, dirs.items
      ensures tests.Valid() && excludes.Valid() && dirs.Valid()
      ensures tests.items == old(tests.items) && excludes.items == old(excludes.items)
      ensures dirs.items == old(dirs.items) || fresh(dirs.items)
      ensures tests.sorted == old(tests.sorted) && excludes.sorted == old(excludes.sorted) && dirs.sorted
      ensures excludes.Contents() == NonDirectories(old(excludes.Contents()))
      ensures OnePerClass(old(dirs.Contents()) + Directories(old(excludes.Contents())), dirs.Contents())
      ensures tests.Contents() == Outside(dirs.Contents(), old(tests.Contents()))
      ensures testExcluded + |tests.Contents()| == old(testExcluded) + |old(tests.Contents())|
      ensures testCount == old(testCount) && testFailed == old(testFailed) && testSkipped == old(testSkipped)
      ensures testIndex == old(testIndex)
    {
      SplitDirectories(excludes, dirs);
      dirs.Sort();
      FilterTests(tests, dirs);
    }

    /** Tests of a list named on the command line, with the path of the list in front; they are
        read after the directories were filtered. */
    method LoadTests(tests: NameList, names: seq<CString>)
      requires tests.Valid()
      modifies tests, tests.items
      ensures tests.Valid() && (tests.items == old(tests.items) || fresh(tests.items))
      ensures tests.Contents() == old(tests.Contents()) + names
    {
      assert names[..0] == [];
      for i := 0 to |names|
        invariant tests.Valid() && (tests.items == old(tests.items) || fresh(tests.items))
        invariant tests.Contents() == old(tests.Contents()) + names[..i]
      {
        tests.Add(NoBase, names[i]);
        assert names[..i + 1] == names[..i] + [names[i]];
      }
      assert names[..|names|] == names;
    }

    /** What main does in directory mode.  `c` is what happened to the tests: each one that was
        loaded is excluded, skipped or run, except those merged with an equal name. */
    method RunAll(tests: NameList, excludes: NameList, dirs: NameList, more: seq<CString>, start: int, stop: int)
      returns (ghost c: Charge)
      requires tests.Valid() && excludes.Valid() && dirs.Valid() && !excludes.sorted
      requires tests != excludes && tests != dirs && excludes != dirs
      requires tests.items != excludes.items && tests.items != dirs.items && excludes.items != dirs.items
      modifies this, tests, tests.items, excludes, excludes.items, dirs, dirs.items
      ensures tests.Valid() && dirs.Valid()
      ensures testCount == old(testCount) + c.count && testFailed == old(testFailed) + c.failed
      ensures testSkipped == old(testSkipped) + c.skipped && testExcluded == old(testExcluded) + c.excluded
      ensures OnePerClass(old(dirs.Contents()) + Directories(old(excludes.Contents())), dirs.Contents())
      ensures OnePerClass(Outside(dirs.Contents(), old(tests.Contents())) + more, tests.Contents())
      ensures c == ChargeOfAll(mode, info, dirs.Contents(), NonDirectories(old(excludes.Contents())),
                               old(tests.Contents()), tests.Contents(), old(testIndex), start, stop)
    {
      hide OnePerClass, ChargeOfList, Directories, Outside, NonDirectories;
      UpdateExcludeDirs(tests, excludes, dirs);
      ghost var removed := testExcluded - old(testExcluded);
      LoadTests(tests, more);
      ghost var first, patterns := testIndex, excludes.Contents();
      RunTestDirList(tests, excludes, start, stop);
      c := Plus(Charge(removed, 0, 0, 0, 0), ChargeOfList(mode, info, patterns, tests.Contents(), first, start, stop));
    }
  }

  /** The tests in a directory, and what happens to those that are left, sorted. */
  ghost function ChargeOfAll(mode: Mode, info: CString -> TestInfo, dirs: seq<CString>, patterns: seq<CString>,
                             tests: seq<CString>, sorted: seq<CString>, first: int, start: int, stop: int): Charge
  {
    Plus(Charge(|tests| - |Outside(dirs, tests)|, 0, 0, 0, 0),
         ChargeOfList(mode, info, patterns, sorted, first, start, stop))
  }

  /** Over a whole run, excluded, skipped and run tests are the loaded ones less those the sort
      merged: all of them exactly when no two of those left compare equal. */
  lemma WholeRunAddsUp(mode: Mode, info: CString -> TestInfo, dirs: seq<CString>, patterns: seq<CString>,
                       tests: seq<CString>, more: seq<CString>, sorted: seq<CString>, first: int, start: int, stop: int)
    requires OnePerClass(Outside(dirs, tests) + more, sorted)
    ensures var c := ChargeOfAll(mode, info, dirs, patterns, tests, sorted, first, start, stop);
            var left := Outside(dirs, tests) + more;
            && c.excluded + c.skipped + c.run == |tests| + |more| - (|left| - |sorted|)
            && |sorted| <= |left|
            && (c.excluded + c.skipped + c.run == |tests| + |more| <==> NoEqualsLeft(dirs, tests, more))
            && c.run <= c.count <= 2 * c.run && (mode != All ==> c.count == c.run) && c.failed <= c.count
  {
    hide OnePerClass, ChargeOfList, Outside, PairwiseDistinct, NoEqualsLeft;
    SortKeepsCountIff(Outside(dirs, tests) + more, sorted);
    DistinctWhenNoEqualsLeft(dirs, tests, more);
    ChargesAddUp(mode, info, patterns, sorted, first, start, stop);
  }

  /** A full count, whichever way the directories are sorted, exactly when the directories as given
      cover every two entries that compare equal. */
  lemma WholeRunIsFullIff(mode: Mode, info: CString -> TestInfo, given: seq<CString>, patterns: seq<CString>,
                          tests: seq<CString>, more: seq<CString>, first: int, start: int, stop: int)
    ensures (forall dirs, sorted :: OnePerClass(given, dirs) && OnePerClass(Outside(dirs, tests) + more, sorted) ==>
               var c := ChargeOfAll(mode, info, dirs, patterns, tests, sorted, first, start, stop);
               c.excluded + c.skipped + c.run == |tests| + |more|) <==>
            EqualsNeverStay(given, tests, more)
  {
    hide OnePerClass, ChargeOfAll, Outside, NoEqualsLeft, EqualsNeverStay;
    forall dirs, sorted | OnePerClass(given, dirs) && OnePerClass(Outside(dirs, tests) + more, sorted)
      ensures var c := ChargeOfAll(mode, info, dirs, patterns, tests, sorted, first, start, stop);
              c.excluded + c.skipped + c.run == |tests| + |more| <==> NoEqualsLeft(dirs, tests, more)
    {
      WholeRunAddsUp(mode, info, dirs, patterns, tests, more, sorted, first, start, stop);
    }
    forall dirs | OnePerClass(given, dirs)
      ensures exists sorted :: OnePerClass(Outside(dirs, tests) + more, sorted)
    {
      var sorted := SortedFormExists(Outside(dirs, tests) + more);
    }
    NoTestIsMergedIff(given, tests, more);
  }

  lemma MatchesSurviveSort(before: seq<CString>, after: seq<CString>)
    requires before == after || OnePerClass(before, after)
    ensures forall name :: Matches(after, name) <==> Matches(before, name)
  {
    if before != after {
      forall name ensures Matches(after, name) <==> Matches(before, name) {
        ClassesKeepMatches(before, after, name);
      }
    }
  }
}
