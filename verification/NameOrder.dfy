/** The number-aware string comparison of run-test262.c.

    A name is a sequence of tokens: each maximal run of digits is one token that carries the
    run's value, every other byte is a token of its own.  `NamelistCmp` is proved to be the
    lexicographic comparison of the token sequences, which makes it a total preorder. */
module NameOrder {
  import opened CStrings

  /** The value a C `int` holds after an arithmetic step (two's complement wrap-around). */
  function Wrap32(x: int): (r: int)
    ensures -0x8000_0000 <= r < 0x8000_0000
    ensures -0x8000_0000 <= x < 0x8000_0000 ==> r == x
  {
    (x + 0x8000_0000) % 0x1_0000_0000 - 0x8000_0000
  }

  /** c - '0' */
  function Digit(c: int): (d: int)
    ensures IsDigit(c) ==> 0 <= d
  {
    c - 48
  }

  /** End of the digit run that starts at i. */
  function RunEnd(s: CString, i: nat): (e: nat)
    requires i <= |s|
    ensures i <= e <= |s|
    ensures forall k :: i <= k < e ==> IsDigit(s[k])
    ensures !IsDigit(At(s, e))
    decreases |s| - i
  {
    if i < |s| && IsDigit(s[i]) then RunEnd(s, i + 1) else i
  }

  /** The value the comparison loop accumulates over s[i..j]. */
  function RunValue(s: CString, i: nat, j: nat): int
    requires i <= j <= |s|
    decreases j
  {
    if i == j then 0 else Wrap32(RunValue(s, i, j - 1) * 10 + Digit(s[j - 1]))
  }

  /** `lead` is the byte itself, or '0' for every digit run. */
  datatype Token = Token(lead: int, value: int)

  function Tokens(s: CString, i: nat): seq<Token>
    requires i <= |s|
    decreases |s| - i
  {
    if i == |s| then []
    else if IsDigit(s[i]) then [Token(48, RunValue(s, i, RunEnd(s, i)))] + Tokens(s, RunEnd(s, i))
    else [Token(s[i], 0)] + Tokens(s, i + 1)
  }

  function CompareToken(x: Token, y: Token): (r: int)
    ensures r == 0 <==> x == y
  {
    if x.lead < y.lead then -1
    else if x.lead > y.lead then 1
    else if x.value < y.value then -1
    else if x.value > y.value then 1
    else 0
  }

  /** Lexicographic comparison; a proper prefix comes first. */
  function Lex(x: seq<Token>, y: seq<Token>): int
  {
    if x == [] then (if y == [] then 0 else -1)
    else if y == [] then 1
    else if CompareToken(x[0], y[0]) != 0 then CompareToken(x[0], y[0])
    else Lex(x[1..], y[1..])
  }

  /** What the comparison of two names means. */
  function Compare(a: CString, b: CString): int {
    Lex(Tokens(a, 0), Tokens(b, 0))
  }

  lemma CompareRuns(a: CString, i: nat, b: CString, j: nat)
    requires i < |a| && j < |b| && IsDigit(a[i]) && IsDigit(b[j])
    ensures var na, nb := RunValue(a, i, RunEnd(a, i)), RunValue(b, j, RunEnd(b, j));
            Lex(Tokens(a, i), Tokens(b, j)) ==
            if na < nb then -1 else if na > nb then 1 else Lex(Tokens(a, RunEnd(a, i)), Tokens(b, RunEnd(b, j)))
  {
  }

  lemma CompareBytes(a: CString, i: nat, b: CString, j: nat)
    requires i <= |a| && j <= |b| && !(IsDigit(At(a, i)) && IsDigit(At(b, j)))
    ensures At(a, i) < At(b, j) ==> Lex(Tokens(a, i), Tokens(b, j)) == -1
    ensures At(a, i) > At(b, j) ==> Lex(Tokens(a, i), Tokens(b, j)) == 1
    ensures At(a, i) == At(b, j) == 0 ==> Lex(Tokens(a, i), Tokens(b, j)) == 0
    ensures At(a, i) == At(b, j) != 0 ==>
              i < |a| && j < |b| && Lex(Tokens(a, i), Tokens(b, j)) == Lex(Tokens(a, i + 1), Tokens(b, j + 1))
  {
  }

  /** The pointer-advancing loop, token by token. */
  method NamelistCmp(a: CString, b: CString) returns (r: int)
    ensures r == Compare(a, b)
  {
    hide Lex, Tokens, RunValue, RunEnd;
    var i: nat, j: nat := 0, 0;
    ghost var goal := Compare(a, b);
    assert Lex(Tokens(a, 0), Tokens(b, 0)) == goal;
    hide Compare;
    while true
      invariant i <= |a| && j <= |b|
      invariant Lex(Tokens(a, i), Tokens(b, j)) == goal
      decreases |a| - i
    {
      var ca, cb := At(a, i), At(b, j);
      i, j := i + 1, j + 1;
      if IsDigit(ca) && IsDigit(cb) {
        CompareRuns(a, i - 1, b, j - 1);
        var na, nb := Digit(ca), Digit(cb);
        na, ca, i := ScanRun(a, i, na);
        nb, cb, j := ScanRun(b, j, nb);
        if na < nb {
          return -1;
        }
        if na > nb {
          return 1;
        }
      }
      CompareBytes(a, i - 1, b, j - 1);
      if ca < cb {
        return -1;
      }
      if ca > cb {
        return 1;
      }
      if ca == 0 {
        return 0;
      }
    }
  }

  /** Reads on to the end of the digit run, entered behind its first digit. */
  method ScanRun(s: CString, start: nat, first: int) returns (n: int, c: int, i: nat)
    requires 1 <= start <= |s| && IsDigit(s[start - 1]) && first == Digit(s[start - 1])
    ensures i == RunEnd(s, start - 1) + 1 && c == At(s, i - 1)
    ensures n == RunValue(s, start - 1, i - 1)
  {
    n, i := first, start;
    c := At(s, i);
    i := i + 1;
    assert RunValue(s, start - 1, start - 1) == 0;
    while IsDigit(c)
      invariant start <= i - 1 <= |s| && c == At(s, i - 1)
      invariant n == RunValue(s, start - 1, i - 1)
      invariant RunEnd(s, start - 1) == RunEnd(s, i - 1)
      decreases |s| + 1 - i
    {
      n := Wrap32(n * 10 + Digit(c));
      c := At(s, i);
      i := i + 1;
    }
  }

  // ----- The comparison is a total preorder -----

  lemma {:induction false} LexAntisymmetric(x: seq<Token>, y: seq<Token>)
    ensures Lex(x, y) == -Lex(y, x)
  {
    if x != [] && y != [] && x[0] == y[0] {
      LexAntisymmetric(x[1..], y[1..]);
    }
  }

  lemma {:induction false} LexZeroIsEqual(x: seq<Token>, y: seq<Token>)
    ensures Lex(x, y) == 0 <==> x == y
  {
    if x != [] && y != [] && x[0] == y[0] {
      LexZeroIsEqual(x[1..], y[1..]);
      assert x == [x[0]] + x[1..] && y == [y[0]] + y[1..];
    }
  }

  lemma {:induction false} LexTransitive(x: seq<Token>, y: seq<Token>, z: seq<Token>)
    requires Lex(x, y) <= 0 && Lex(y, z) <= 0
    ensures Lex(x, z) <= 0
    ensures Lex(x, z) == 0 ==> Lex(x, y) == 0 && Lex(y, z) == 0
  {
    if x != [] && y != [] && z != [] && x[0] == y[0] && y[0] == z[0] {
      LexTransitive(x[1..], y[1..], z[1..]);
    }
  }

  /** What qsort and the binary search need of their comparison function. */
  lemma CompareIsTotalPreorder(a: CString, b: CString, c: CString)
    ensures Compare(a, a) == 0
    ensures Compare(a, b) == -Compare(b, a)
    ensures Compare(a, b) <= 0 && Compare(b, c) <= 0 ==> Compare(a, c) <= 0
    ensures Compare(a, b) < 0 && Compare(b, c) <= 0 ==> Compare(a, c) < 0
    ensures Compare(a, b) <= 0 && Compare(b, c) < 0 ==> Compare(a, c) < 0
  {
    var x, y, z := Tokens(a, 0), Tokens(b, 0), Tokens(c, 0);
    LexZeroIsEqual(x, x);
    LexAntisymmetric(x, y);
    if Compare(a, b) <= 0 && Compare(b, c) <= 0 {
      LexTransitive(x, y, z);
    }
  }

  lemma EqualMeansSameTokens(a: CString, b: CString)
    ensures Compare(a, b) == 0 <==> Tokens(a, 0) == Tokens(b, 0)
  {
    LexZeroIsEqual(Tokens(a, 0), Tokens(b, 0));
  }

  // ----- What the value of a run is -----

  /** The number written in s[i..j]. */
  function Numeral(s: CString, i: nat, j: nat): nat
    requires i <= j <= |s|
    requires forall k :: i <= k < j ==> IsDigit(s[k])
    decreases j
  {
    if i == j then 0 else Numeral(s, i, j - 1) * 10 + Digit(s[j - 1])
  }

  lemma {:induction false} NumeralOfPrefix(s: CString, t: CString, j: nat)
    requires j <= |s| && (forall k :: 0 <= k < j ==> IsDigit(s[k]))
    ensures (s + t)[..j] == s[..j]
    ensures Numeral(s + t, 0, j) == Numeral(s, 0, j)
    decreases j
  {
    if j > 0 {
      NumeralOfPrefix(s, t, j - 1);
    }
  }

  /** A number is the numeral of its decimal digits. */
  lemma {:induction false} NumeralOfDecimal(n: nat)
    ensures forall k :: 0 <= k < |Decimal(n)| ==> IsDigit(Decimal(n)[k])
    ensures Numeral(Decimal(n), 0, |Decimal(n)|) == n
  {
    var s := Decimal(n);
    if n < 10 {
      assert Numeral(s, 0, 0) == 0;
    } else {
      NumeralOfDecimal(n / 10);
      NumeralOfPrefix(Decimal(n / 10), [48 + n % 10], |s| - 1);
    }
  }

  /** The accumulated value is the written number exactly when that number is an `int`. */
  lemma {:induction false} RunValueIsNumeral(s: CString, i: nat, j: nat)
    requires i <= j <= |s|
    requires forall k :: i <= k < j ==> IsDigit(s[k])
    ensures RunValue(s, i, j) == Numeral(s, i, j) <==> Numeral(s, i, j) <= 0x7fff_ffff
    decreases j
  {
    if i < j {
      RunValueIsNumeral(s, i, j - 1);
    }
  }

  lemma Wrap32IsResidue(x: int)
    ensures -0x8000_0000 <= Wrap32(x) < 0x8000_0000 && (x - Wrap32(x)) % 0x1_0000_0000 == 0
  {
    var q := (x + 0x8000_0000) / 0x1_0000_0000;
    assert x - Wrap32(x) == 0x1_0000_0000 * q;
  }

  lemma WrapStep(x: int, d: int)
    ensures Wrap32(Wrap32(x) * 10 + d) == Wrap32(x * 10 + d)
  {
    var q := (x + 0x8000_0000) / 0x1_0000_0000;
    assert Wrap32(x) == x - 0x1_0000_0000 * q;
    assert Wrap32(x) * 10 + d + 0x8000_0000 == (x * 10 + d + 0x8000_0000) - 0x1_0000_0000 * (10 * q);
  }

  /** Beyond that it is the two's complement residue of the number. */
  lemma {:induction false} RunValueWraps(s: CString, i: nat, j: nat)
    requires i <= j <= |s|
    requires forall k :: i <= k < j ==> IsDigit(s[k])
    ensures RunValue(s, i, j) == Wrap32(Numeral(s, i, j))
    decreases j
  {
    hide Wrap32;
    if i < j {
      RunValueWraps(s, i, j - 1);
      WrapStep(Numeral(s, i, j - 1), Digit(s[j - 1]));
    }
  }

  /** "2147483648" */
  const TWO_TO_31: CString := [50, 49, 52, 55, 52, 56, 51, 54, 52, 56]

  lemma NumeralOfTwoTo31(s: CString)
    requires s == [116] + TWO_TO_31
    ensures |s| == 11 && (forall k :: 1 <= k < 11 ==> IsDigit(s[k])) && Numeral(s, 1, 11) == 0x8000_0000
  {
    assert Numeral(s, 1, 4) == 214;
    assert Numeral(s, 1, 7) == 214748;
    assert Numeral(s, 1, 10) == 214748364;
  }

  /** Two names that are a letter and a number are ordered by the accumulated values. */
  lemma CompareNumbered(a: CString, b: CString)
    requires |a| > 1 && |b| > 1 && a[0] == b[0] && !IsDigit(a[0])
    requires (forall k :: 1 <= k < |a| ==> IsDigit(a[k])) && (forall k :: 1 <= k < |b| ==> IsDigit(b[k]))
    requires Wrap32(Numeral(a, 1, |a|)) < Wrap32(Numeral(b, 1, |b|))
    ensures Compare(a, b) == -1
  {
    hide Tokens, Lex, Numeral, RunValue, Wrap32;
    RunEndIs(a, 1, |a|);
    RunEndIs(b, 1, |b|);
    RunValueWraps(a, 1, |a|);
    RunValueWraps(b, 1, |b|);
    CompareBytes(a, 0, b, 0);
    CompareRuns(a, 1, b, 1);
  }

  /** "t2147483648" comes before "t1". */
  lemma LargeNumberComesFirst()
    ensures Compare([116] + TWO_TO_31, [116, 49]) == -1
  {
    var a, b: CString := [116] + TWO_TO_31, [116, 49];
    NumeralOfTwoTo31(a);
    assert Numeral(b, 1, 1) == 0;
    assert Numeral(b, 1, 2) == 1;
    hide Numeral, Compare;
    CompareNumbered(a, b);
  }

  lemma {:induction false} RunEndIs(s: CString, i: nat, e: nat)
    requires i <= e <= |s| && (forall k :: i <= k < e ==> IsDigit(s[k])) && !IsDigit(At(s, e))
    ensures RunEnd(s, i) == e
    decreases e - i
  {
    if i < e {
      RunEndIs(s, i + 1, e);
    }
  }

  // ----- Tokens do not depend on what comes before them -----

  lemma {:induction false} RunValueBehind(p: CString, r: CString, i: nat, j: nat)
    requires i <= j <= |r|
    ensures RunValue(p + r, |p| + i, |p| + j) == RunValue(r, i, j)
    decreases j
  {
    if i < j {
      RunValueBehind(p, r, i, j - 1);
      assert (p + r)[|p| + j - 1] == r[j - 1];
    }
  }

  lemma {:induction false} TokensBehind(p: CString, r: CString, i: nat)
    requires i <= |r|
    ensures Tokens(p + r, |p| + i) == Tokens(r, i)
    decreases |r| - i
  {
    var s := p + r;
    if i < |r| {
      assert s[|p| + i] == r[i];
      if IsDigit(r[i]) {
        var e := RunEnd(r, i);
        forall k | |p| + i <= k < |p| + e ensures IsDigit(s[k]) {
          assert s[k] == r[k - |p|];
        }
        assert At(s, |p| + e) == At(r, e);
        RunEndIs(s, |p| + i, |p| + e);
        RunValueBehind(p, r, i, e);
        TokensBehind(p, r, e);
      } else {
        TokensBehind(p, r, i + 1);
      }
    }
  }

  /** "t1" and "t01", whatever follows behind the number, compare equal. */
  lemma LeadingZeroIsIgnored(rest: CString)
    requires !IsDigit(At(rest, 0))
    ensures [116, 49] + rest != [116, 48, 49] + rest
    ensures Compare([116, 49] + rest, [116, 48, 49] + rest) == 0
  {
    var a, b: CString := [116, 49] + rest, [116, 48, 49] + rest;
    assert At(a, 2) == At(rest, 0) == At(b, 3);
    RunEndIs(a, 1, 2);
    RunEndIs(b, 1, 3);
    assert RunValue(a, 1, 1) == 0 && RunValue(a, 1, 2) == 1;
    assert RunValue(b, 1, 1) == 0 && RunValue(b, 1, 2) == 0 && RunValue(b, 1, 3) == 1;
    TokensBehind([116, 49], rest, 0);
    TokensBehind([116, 48, 49], rest, 0);
    hide RunValue, RunEnd, Lex;
    assert Tokens(a, 1) == [Token(48, 1)] + Tokens(rest, 0) == Tokens(b, 1);
    EqualMeansSameTokens(a, b);
  }

  // ----- When equal names are the same name -----

  /** From i on, every digit run is written without leading zeros and fits an `int`. */
  ghost predicate Canonical(s: CString, i: nat)
    requires i <= |s|
    decreases |s| - i
  {
    if i == |s| then true
    else if IsDigit(s[i]) then
      var e := RunEnd(s, i);
      (s[i] == 48 ==> e == i + 1) && Numeral(s, i, e) <= 0x7fff_ffff && Canonical(s, e)
    else Canonical(s, i + 1)
  }

  lemma {:induction false} NumeralIsPositive(s: CString, i: nat, j: nat)
    requires i < j <= |s| && s[i] != 48
    requires forall k :: i <= k < j ==> IsDigit(s[k])
    ensures Numeral(s, i, j) >= 1
    decreases j
  {
    if i + 1 < j {
      NumeralIsPositive(s, i, j - 1);
    } else {
      assert Numeral(s, i, i) == 0;
    }
  }

  lemma {:induction false} NumeralDeterminesDigits(s: CString, i: nat, j: nat, t: CString, k: nat, l: nat)
    requires i <= j <= |s| && k <= l <= |t|
    requires forall m :: i <= m < j ==> IsDigit(s[m])
    requires forall m :: k <= m < l ==> IsDigit(t[m])
    requires i < j ==> s[i] != 48
    requires k < l ==> t[k] != 48
    requires Numeral(s, i, j) == Numeral(t, k, l)
    ensures s[i..j] == t[k..l]
    decreases j
  {
    if i == j {
      if k < l {
        NumeralIsPositive(t, k, l);
      }
    } else if k == l {
      NumeralIsPositive(s, i, j);
    } else {
      NumeralDeterminesDigits(s, i, j - 1, t, k, l - 1);
      assert s[i..j] == s[i..j - 1] + [s[j - 1]] && t[k..l] == t[k..l - 1] + [t[l - 1]];
    }
  }

  lemma {:induction false} SameTokensSameText(a: CString, i: nat, b: CString, j: nat)
    requires i <= |a| && j <= |b| && Canonical(a, i) && Canonical(b, j)
    requires Tokens(a, i) == Tokens(b, j)
    ensures a[i..] == b[j..]
    decreases |a| - i
  {
    if i < |a| && j < |b| {
      hide Tokens, Numeral, RunValue, RunEnd, Canonical;
      FirstTokens(a, i, b, j);
      CanonicalStep(a, i);
      CanonicalStep(b, j);
      if IsDigit(a[i]) {
        var e, f := RunEnd(a, i), RunEnd(b, j);
        RunValueIsNumeral(a, i, e);
        RunValueIsNumeral(b, j, f);
        SingleZeroOrPositive(a, i, b, j);
        SameTokensSameText(a, e, b, f);
        CutText(a, i, e);
        CutText(b, j, f);
      } else {
        SameTokensSameText(a, i + 1, b, j + 1);
        CutText(a, i, i + 1);
        CutText(b, j, j + 1);
      }
    }
  }

  lemma CutText(s: CString, i: nat, e: nat)
    requires i <= e <= |s|
    ensures s[i..] == s[i..e] + s[e..]
  {
  }

  lemma CanonicalStep(s: CString, i: nat)
    requires i < |s|
    ensures Canonical(s, |s|)
    ensures Canonical(s, i) <==>
              if IsDigit(s[i]) then
                var e := RunEnd(s, i);
                (s[i] == '0' as int ==> e == i + 1) && Numeral(s, i, e) < 0x8000_0000 && Canonical(s, e)
              else Canonical(s, i + 1)
  {
  }

  /** Equal token sequences start with equal runs or equal bytes. */
  lemma FirstTokens(a: CString, i: nat, b: CString, j: nat)
    requires i < |a| && j < |b| && Tokens(a, i) == Tokens(b, j)
    ensures IsDigit(a[i]) <==> IsDigit(b[j])
    ensures if IsDigit(a[i]) then
              var e, f := RunEnd(a, i), RunEnd(b, j);
              RunValue(a, i, e) == RunValue(b, j, f) && Tokens(a, e) == Tokens(b, f)
            else a[i] == b[j] && Tokens(a, i + 1) == Tokens(b, j + 1)
  {
    hide RunValue, RunEnd;
    var x, y := Tokens(a, i), Tokens(b, j);
    assert x[0] == y[0] && x[1..] == y[1..];
  }

  /** Two canonical runs with the same value have the same digits; zero is written "0". */
  lemma SingleZeroOrPositive(a: CString, i: nat, b: CString, j: nat)
    requires i < |a| && j < |b| && IsDigit(a[i]) && IsDigit(b[j])
    requires a[i] == 48 ==> RunEnd(a, i) == i + 1
    requires b[j] == 48 ==> RunEnd(b, j) == j + 1
    requires Numeral(a, i, RunEnd(a, i)) == Numeral(b, j, RunEnd(b, j))
    ensures a[i..RunEnd(a, i)] == b[j..RunEnd(b, j)]
  {
    var e, f := RunEnd(a, i), RunEnd(b, j);
    assert i < e && j < f;
    assert Numeral(a, i, i) == 0 && Numeral(b, j, j) == 0;
    if a[i] != 48 {
      NumeralIsPositive(a, i, e);
    }
    if b[j] != 48 {
      NumeralIsPositive(b, j, f);
    }
    if a[i] != 48 && b[j] != 48 {
      NumeralDeterminesDigits(a, i, e, b, j, f);
    }
  }

  /** On names written canonically the comparison identifies nothing but equal names. */
  lemma CanonicalNamesAreKept(a: CString, b: CString)
    requires Canonical(a, 0) && Canonical(b, 0)
    ensures Compare(a, b) == 0 <==> a == b
  {
    EqualMeansSameTokens(a, b);
    if Compare(a, b) == 0 {
      SameTokensSameText(a, 0, b, 0);
      assert a == a[0..] && b == b[0..];
    }
  }
}
