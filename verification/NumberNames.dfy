/** The number printer of speedtest1.c: an unsigned number in English words.

    `NumberName` writes the longest prefix of the full name that fits its buffer, and a reader
    of number words inverts the full name of every 32-bit number. */
module NumberNames {
  import opened Arithmetic

  /** ones[k] */
  function One(k: nat): string
    requires k < 20
  {
    ["zero", "one", "two", "three", "four", "five", "six", "seven", "eight", "nine", "ten",
     "eleven", "twelve", "thirteen", "fourteen", "fifteen", "sixteen", "seventeen", "eighteen", "nineteen"][k]
  }

  /** tens[k] */
  function Ten(k: nat): string
    requires k < 10
  {
    ["", "ten", "twenty", "thirty", "forty", "fifty", "sixty", "seventy", "eighty", "ninety"][k]
  }

  predicate IsUnit(unit: nat) {
    unit == 1000 || unit == 1_000_000 || unit == 1_000_000_000
  }

  // ----- The full name -----

  /** Words for a number below one hundred; none for zero. */
  function TailWords(n: nat): seq<string>
    requires n < 100
  {
    (if n >= 20 then [Ten(n / 10)] else []) +
    (var d := if n >= 20 then n % 10 else n; if d > 0 then [One(d)] else [])
  }

  function SmallWords(n: nat): seq<string>
    requires n < 1000
  {
    (if n >= 100 then [One(n / 100), "hundred"] else []) + TailWords(n % 100)
  }

  function Words(n: nat): seq<string>
    decreases n, 1
  {
    var m1 := n % 1_000_000_000;
    var m2 := m1 % 1_000_000;
    ScaleWords(n, 1_000_000_000, "billion") + ScaleWords(m1, 1_000_000, "million") +
    ScaleWords(m2, 1000, "thousand") + SmallWords(m2 % 1000)
  }

  /** The words of one scale. */
  function ScaleWords(n: nat, unit: nat, name: string): seq<string>
    requires IsUnit(unit)
    decreases n, 0
  {
    if n >= unit then
      QuotientIsSmaller(n, unit);
      Words(n / unit) + [name]
    else []
  }

  /** The words separated by single spaces. */
  function Join(words: seq<string>): string {
    if words == [] then ""
    else if |words| == 1 then words[0]
    else words[0] + " " + Join(words[1..])
  }

  function FullName(n: nat): string {
    if n == 0 then "zero" else Join(Words(n))
  }

  // ----- The printer -----

  /** The cells of z from `at` on hold text, cut to what fits into size cells with the NUL;
      `used` cells of it are in use. */
  ghost predicate Shows(z: seq<char>, at: nat, size: nat, text: string, used: nat) {
    && size >= 1 && at + size <= |z|
    && used == Min(|text|, size - 1)
    && z[at..at + used] == text[..used]
  }

  /** Cells outside [at, at + used] are as before. */
  ghost predicate Untouched(z: seq<char>, before: seq<char>, at: nat, used: nat) {
    && |z| == |before|
    && (forall k :: 0 <= k < at && k < |z| ==> z[k] == before[k])
    && (forall k :: at + used < k < |z| ==> z[k] == before[k])
  }

  /** Printing a text into a bounded buffer, with the length that is then found there. */
  method Snprintf(z: array<char>, at: nat, size: nat, text: string) returns (len: nat)
    requires size >= 1 && at + size <= z.Length
    modifies z
    ensures len == Min(|text|, size - 1)
    ensures z[at..at + len] == text[..len] && z[at + len] == '\0'
    ensures Untouched(z[..], old(z[..]), at, len)
  {
    len := Min(|text|, size - 1);
    for k := 0 to len
      invariant z[at..at + k] == text[..k]
      invariant forall j :: 0 <= j < at || at + k <= j < z.Length ==> z[j] == old(z[j])
    {
      z[at + k] := text[k];
    }
    z[at + len] := '\0';
  }

  lemma ShowsBoth(y: seq<char>, z: seq<char>, at: nat, size: nat, t: string, i: nat, u: string, j: nat)
    requires Shows(y, at, size, t, i) && Shows(z, at + i, size - i, u, j) && Untouched(z, y, at + i, j)
    ensures Shows(z, at, size, t + u, i + j)
  {
    assert z[at..at + i] == y[at..at + i];
    assert z[at..at + i + j] == z[at..at + i] + z[at + i..at + i + j];
    if i == |t| {
      assert (t + u)[..i + j] == t + u[..j];
    } else {
      assert (t + u)[..i] == t[..i];
    }
  }

  /** What two consecutive pieces leave alone. */
  lemma UntouchedBoth(x: seq<char>, y: seq<char>, z: seq<char>, at: nat, i: nat, j: nat)
    requires Untouched(y, x, at, i) && Untouched(z, y, at + i, j)
    ensures Untouched(z, x, at, i + j)
  {
  }

  /** A text with the separator the printer puts behind it. */
  function Sep(t: string): string {
    if t == "" then "" else t + " "
  }

  /** The printer's state: the text so far, of which i characters fitted.  Once something has
      been written it is terminated. */
  ghost predicate Progress(z: seq<char>, before: seq<char>, at: nat, size: nat, t: string, i: nat) {
    && Shows(z, at, size, t, i) && Untouched(z, before, at, i)
    && (i > 0 ==> z[at + i] == '\0')
  }

  /** Prints u behind the text and advances by what fitted. */
  method Append(z: array<char>, at: nat, size: nat, i: nat, u: string, ghost before: seq<char>, ghost t: string)
    returns (i': nat)
    requires Shows(z[..], at, size, t, i) && Untouched(z[..], before, at, i)
    modifies z
    ensures Progress(z[..], before, at, size, t + u, i') && z[at + i'] == '\0'
  {
    ghost var y := z[..];
    var len := Snprintf(z, at + i, size - i, u);
    ShowsBoth(y, z[..], at, size, t, i, u, len);
    UntouchedBoth(before, y, z[..], at, i, len);
    i' := i + len;
  }

  /** A blank behind a text that is not empty, where one fits. */
  method Space(z: array<char>, at: nat, size: nat, i: nat, ghost before: seq<char>, ghost t: string)
    returns (i': nat)
    requires Progress(z[..], before, at, size, t, i)
    modifies z
    ensures Shows(z[..], at, size, Sep(t), i') && Untouched(z[..], before, at, i')
  {
    i' := i;
    ghost var y := z[..];
    if i > 0 && i < size - 1 {
      z[at + i] := ' ';
      i' := i + 1;
      assert z[..] == y[at + i := ' '];
      ShowsBoth(y, z[..], at, size, t, i, " ", 1);
    } else if t != "" {
      assert (t + " ")[..i] == t[..i];
    }
  }

  /** A word that is printed only where the number has it, with the blank in front. */
  method Word(wanted: bool, u: string, z: array<char>, at: nat, size: nat, i: nat,
              ghost before: seq<char>, ghost t: string)
    returns (i': nat)
    requires Progress(z[..], before, at, size, t, i)
    modifies z
    ensures Progress(z[..], before, at, size, if wanted then Sep(t) + u else t, i')
  {
    i' := i;
    if wanted {
      i' := Space(z, at, size, i', before, t);
      i' := Append(z, at, size, i', u, before, Sep(t));
    }
  }

  /** The text after one scale: `n / unit` in words, then the name of the unit. */
  function ScaleText(t: string, n: nat, unit: nat, name: string): string
    requires unit > 0
  {
    if n >= unit then Sep(t) + FullName(n / unit) + name else t
  }

  function HundredText(t: string, n: nat): string
    requires n < 1000
  {
    if n >= 100 then Sep(t) + (One(n / 100) + " hundred") else t
  }

  function TensText(t: string, n: nat): string
    requires n < 100
  {
    if n >= 20 then Sep(t) + Ten(n / 10) else t
  }

  function OnesText(t: string, n: nat): string
    requires n < 20
  {
    if n > 0 then Sep(t) + One(n) else t
  }

  /** The text the printer assembles piece by piece. */
  function Assembled(n: nat): string {
    var t1 := ScaleText("", n, 1_000_000_000, " billion");
    var t2 := ScaleText(t1, n % 1_000_000_000, 1_000_000, " million");
    var t3 := ScaleText(t2, n % 1_000_000_000 % 1_000_000, 1000, " thousand");
    var m := n % 1_000_000_000 % 1_000_000 % 1000;
    var t4 := HundredText(t3, m);
    var t5 := TensText(t4, m % 100);
    OnesText(t5, if m % 100 >= 20 then m % 100 % 10 else m % 100)
  }

  /** One scale: the quotient in words, printed by the recursive call, then the name of the unit.
      The source has no blank in front of the billions, where nothing is printed before. */
  method Scale(n: nat, unit: nat, name: string, z: array<char>, at: nat, nOut: nat, i: nat,
               ghost before: seq<char>, ghost t: string)
    returns (i': nat)
    requires IsUnit(unit)
    requires Progress(z[..], before, at, nOut, t, i)
    modifies z
    ensures Progress(z[..], before, at, nOut, ScaleText(t, n, unit, name), i')
    decreases n, 0
  {
    hide FullName, Progress, Shows, Untouched, Sep;
    i' := i;
    if n >= unit {
      i' := Space(z, at, nOut, i', before, t);
      ghost var y := z[..];
      RoomIsLeft(y, at, nOut, Sep(t), i');
      QuotientIsSmaller(n, unit);
      var j := NumberName(n / unit, z, at + i', nOut - i');
      ShowsBoth(y, z[..], at, nOut, Sep(t), i', FullName(n / unit), j);
      UntouchedBoth(before, y, z[..], at, i', j);
      i' := Append(z, at, nOut, i' + j, name, before, Sep(t) + FullName(n / unit));
    }
  }

  lemma RoomIsLeft(z: seq<char>, at: nat, size: nat, text: string, used: nat)
    requires Shows(z, at, size, text, used)
    ensures used < size && at + size <= |z|
  {
  }

  lemma QuotientIsSmaller(n: nat, unit: nat)
    requires IsUnit(unit) && n >= unit
    ensures 1 <= n / unit < n
  {
  }

  /** speedtest1_numbername */
  method NumberName(n: nat, z: array<char>, at: nat, nOut: nat) returns (i: nat)
    requires nOut >= 1 && at + nOut <= z.Length
    modifies z
    ensures Shows(z[..], at, nOut, FullName(n), i) && z[at + i] == '\0'
    ensures Untouched(z[..], old(z[..]), at, i)
    ensures i == if |FullName(n)| < nOut then |FullName(n)| else nOut - 1
    ensures z[..][at..at + i] == FullName(n)[..i]
    ensures forall k :: 0 <= k < at || at + i < k < z.Length ==> z[k] == old(z[k])
    decreases n, 1
  {
    hide FullName, Words, ScaleText, Progress, One, Ten, Sep, Shows, Untouched, Assembled;
    ghost var before, t := z[..], "";
    i := 0;
    EmptyProgress(before, at, nOut);
    var m := n;
    i := Scale(m, 1_000_000_000, " billion", z, at, nOut, i, before, t);
    t, m := ScaleText(t, m, 1_000_000_000, " billion"), m % 1_000_000_000;
    i := Scale(m, 1_000_000, " million", z, at, nOut, i, before, t);
    t, m := ScaleText(t, m, 1_000_000, " million"), m % 1_000_000;
    i := Scale(m, 1000, " thousand", z, at, nOut, i, before, t);
    t, m := ScaleText(t, m, 1000, " thousand"), m % 1000;
    i := Word(m >= 100, One(m / 100) + " hundred", z, at, nOut, i, before, t);
    t, m := HundredText(t, m), m % 100;
    i := Word(m >= 20, Ten(m / 10), z, at, nOut, i, before, t);
    t, m := TensText(t, m), if m >= 20 then m % 10 else m;
    i := Word(m > 0, One(m), z, at, nOut, i, before, t);
    t := OnesText(t, m);
    AssembledInSteps(n, t);
    AssembledIsFullName(n);
    i := WordForZero(n, z, at, nOut, i, before, t);
    Shown(z[..], before, at, nOut, FullName(n), i);
  }

  lemma Shown(z: seq<char>, before: seq<char>, at: nat, size: nat, text: string, used: nat)
    requires Shows(z, at, size, text, used) && Untouched(z, before, at, used)
    ensures used == (if |text| < size then |text| else size - 1) && at + used < |z|
    ensures z[at..at + used] == text[..used]
    ensures |z| == |before| && forall k :: 0 <= k < at || at + used < k < |z| ==> z[k] == before[k]
  {
  }

  /** The word for a number that has printed nothing. */
  method WordForZero(n: nat, z: array<char>, at: nat, nOut: nat, i: nat, ghost before: seq<char>, ghost t: string)
    returns (i': nat)
    requires Progress(z[..], before, at, nOut, t, i)
    requires if n == 0 then t == "" else t != "" && t == FullName(n)
    modifies z
    ensures Shows(z[..], at, nOut, FullName(n), i') && z[at + i'] == '\0'
    ensures Untouched(z[..], before, at, i')
  {
    hide Words;
    i' := i;
    if i == 0 {
      NothingShown(z[..], before, at, nOut, t);
      i' := Append(z, at, nOut, i, "zero", before, "");
      assert "" + "zero" == "zero";
      if n != 0 {
        NothingFits(z[..], at, nOut, "zero", FullName(n), i');
      }
    }
  }

  lemma EmptyProgress(z: seq<char>, at: nat, size: nat)
    requires size >= 1 && at + size <= |z|
    ensures Progress(z, z, at, size, "", 0)
  {
  }

  lemma NothingShown(z: seq<char>, before: seq<char>, at: nat, size: nat, t: string)
    requires Progress(z, before, at, size, t, 0)
    ensures t == "" || size == 1
    ensures Shows(z, at, size, "", 0)
  {
  }

  /** A buffer of one cell shows the empty prefix of any text. */
  lemma NothingFits(z: seq<char>, at: nat, size: nat, t: string, u: string, i: nat)
    requires Shows(z, at, size, t, i) && size == 1
    ensures Shows(z, at, size, u, i)
  {
  }

  // ----- The assembled text is the full name -----

  ghost predicate NonEmptyWords(ws: seq<string>) {
    forall w :: w in ws ==> w != ""
  }

  function Glue(t: string, ws: seq<string>): string {
    if ws == [] then t else Sep(t) + Join(ws)
  }

  lemma {:induction false} JoinTwo(a: seq<string>, b: seq<string>)
    requires a != [] && b != []
    ensures Join(a + b) == Join(a) + " " + Join(b)
  {
    if |a| == 1 {
      assert (a + b)[1..] == b;
    } else {
      JoinTwo(a[1..], b);
      assert (a + b)[1..] == a[1..] + b;
      assert a[0] + " " + (Join(a[1..]) + " " + Join(b)) == a[0] + " " + Join(a[1..]) + " " + Join(b);
    }
  }

  lemma NonEmptyParts(a: seq<string>, b: seq<string>)
    ensures NonEmptyWords(a + b) <==> NonEmptyWords(a) && NonEmptyWords(b)
  {
    if NonEmptyWords(a + b) {
      assert forall w :: w in a ==> w in a + b;
      assert forall w :: w in b ==> w in a + b;
    }
  }

  lemma {:induction false} ScaleWordsAreNonEmpty(n: nat, unit: nat, name: string)
    requires IsUnit(unit) && name != ""
    ensures NonEmptyWords(ScaleWords(n, unit, name))
    ensures ScaleWords(n, unit, name) == [] <==> n < unit
    decreases n, 0
  {
    hide Words;
    if n >= unit {
      QuotientIsSmaller(n, unit);
      WordsAreNonEmpty(n / unit);
      NonEmptyParts(Words(n / unit), [name]);
    }
  }

  lemma ZeroParts(n: nat)
    ensures var m1 := n % 1_000_000_000; var m2 := m1 % 1_000_000;
            m2 <= m1 <= n && (n == 0 <==> n < 1_000_000_000 && m1 < 1_000_000 && m2 < 1000 && m2 % 1000 == 0)
  {
  }

  lemma NoWords(a: seq<string>, b: seq<string>, c: seq<string>, d: seq<string>)
    ensures a + b + c + d == [] <==> a == [] && b == [] && c == [] && d == []
  {
  }

  lemma {:induction false} WordsAreNonEmpty(n: nat)
    ensures NonEmptyWords(Words(n))
    ensures Words(n) == [] <==> n == 0
    decreases n, 1
  {
    ZeroParts(n);
    var m1 := n % 1_000_000_000;
    var m2 := m1 % 1_000_000;
    var a := ScaleWords(n, 1_000_000_000, "billion");
    var b := ScaleWords(m1, 1_000_000, "million");
    var c := ScaleWords(m2, 1000, "thousand");
    var d := SmallWords(m2 % 1000);
    assert Words(n) == a + b + c + d;
    hide Words, SmallWords, ScaleWords, NonEmptyWords;
    ScaleWordsAreNonEmpty(n, 1_000_000_000, "billion");
    ScaleWordsAreNonEmpty(m1, 1_000_000, "million");
    ScaleWordsAreNonEmpty(m2, 1000, "thousand");
    SmallWordsAreNonEmpty(m2 % 1000);
    NonEmptyParts(a, b);
    NonEmptyParts(a + b, c);
    NonEmptyParts(a + b + c, d);
    NoWords(a, b, c, d);
  }

  lemma SmallWordsAreNonEmpty(n: nat)
    requires n < 1000
    ensures NonEmptyWords(SmallWords(n))
    ensures SmallWords(n) == [] <==> n == 0
  {
    assert forall k: nat :: k < 20 ==> One(k) != "";
    assert forall k: nat :: 2 <= k < 10 ==> Ten(k) != "";
    hide One, Ten;
  }

  lemma ScaleTextGlues(t: string, n: nat, unit: nat, name: string)
    requires IsUnit(unit)
    ensures ScaleText(t, n, unit, " " + name) == Glue(t, ScaleWords(n, unit, name))
  {
    hide Words;
    if n >= unit {
      QuotientIsSmaller(n, unit);
      var q := n / unit;
      WordsAreNonEmpty(q);
      JoinTwo(Words(q), [name]);
      assert Sep(t) + FullName(q) + (" " + name) == Sep(t) + (Join(Words(q)) + " " + name);
    }
  }

  lemma GlueOne(t: string, w: string)
    ensures Glue(t, [w]) == Sep(t) + w
  {
  }

  lemma HundredTextGlues(t: string, n: nat)
    requires n < 1000
    ensures HundredText(t, n) == Glue(t, if n >= 100 then [One(n / 100), "hundred"] else [])
  {
    if n >= 100 {
      var h := [One(n / 100), "hundred"];
      assert h[1..] == ["hundred"];
      assert Join(h) == One(n / 100) + " " + "hundred";
      assert One(n / 100) + " " + "hundred" == One(n / 100) + " hundred";
    }
  }

  lemma SmallTextGlues(t: string, n: nat)
    requires n < 1000
    ensures var d := if n % 100 >= 20 then n % 100 % 10 else n % 100;
            OnesText(TensText(HundredText(t, n), n % 100), d) == Glue(t, SmallWords(n))
  {
    var h := if n >= 100 then [One(n / 100), "hundred"] else [];
    var m := n % 100;
    var e := if m >= 20 then [Ten(m / 10)] else [];
    var d := if m >= 20 then m % 10 else m;
    var o := if d > 0 then [One(d)] else [];
    assert SmallWords(n) == h + (e + o) == (h + e) + o;
    hide SmallWords, TailWords, Join, Sep, Glue, One, Ten, NonEmptyWords, HundredText, TensText, OnesText;
    SmallWordsAreNonEmpty(n);
    NonEmptyParts(h + e, o);
    NonEmptyParts(h, e);
    HundredTextGlues(t, n);
    TensTextGlues(Glue(t, h), m);
    OnesTextGlues(Glue(Glue(t, h), e), d);
    GlueTwice(t, h, e);
    GlueTwice(t, h + e, o);
  }

  lemma TensTextGlues(t: string, m: nat)
    requires m < 100
    ensures TensText(t, m) == Glue(t, if m >= 20 then [Ten(m / 10)] else [])
  {
    hide Ten, Glue, Sep;
    GlueOne(t, Ten(m / 10));
    GlueNone(t);
  }

  lemma OnesTextGlues(t: string, d: nat)
    requires d < 20
    ensures OnesText(t, d) == Glue(t, if d > 0 then [One(d)] else [])
  {
    hide One, Glue, Sep;
    GlueOne(t, One(d));
    GlueNone(t);
  }

  lemma GlueNone(t: string)
    ensures Glue(t, []) == t
  {
  }

  lemma GlueTwice(t: string, a: seq<string>, b: seq<string>)
    requires NonEmptyWords(a)
    ensures Glue(Glue(t, a), b) == Glue(t, a + b)
  {
    if a == [] {
      assert a + b == b;
    } else if b == [] {
      assert a + b == a;
    } else {
      JoinTwo(a, b);
      assert a[0] in a;
      assert Join(a) != "";
      assert Sep(t) + Join(a) + " " + Join(b) == Sep(t) + (Join(a) + " " + Join(b));
    }
  }

  lemma AssembledInSteps(n: nat, t: string)
    requires var t1 := ScaleText("", n, 1_000_000_000, " billion");
             var t2 := ScaleText(t1, n % 1_000_000_000, 1_000_000, " million");
             var t3 := ScaleText(t2,
                                 n % 1_000_000_000 % 1_000_000, 1000, " thousand");
             var m := n % 1_000_000_000 % 1_000_000 % 1000;
             t == OnesText(TensText(HundredText(t3, m), m % 100), if m % 100 >= 20 then m % 100 % 10 else m % 100)
    ensures t == Assembled(n)
  {
  }

  lemma AssembledIsFullName(n: nat)
    ensures Assembled(n) == "" <==> n == 0
    ensures n > 0 ==> Assembled(n) == FullName(n)
  {
    AssembledGlues(n);
    WordsAreNonEmpty(n);
    if n > 0 {
      assert "" + Join(Words(n)) == Join(Words(n));
      assert Words(n)[0] in Words(n);
    }
  }

  lemma AssembledGlues(n: nat)
    ensures Assembled(n) == Glue("", Words(n))
  {
    var m1 := n % 1_000_000_000;
    var m2 := m1 % 1_000_000;
    var a := ScaleWords(n, 1_000_000_000, "billion");
    var b := ScaleWords(m1, 1_000_000, "million");
    var c := ScaleWords(m2, 1000, "thousand");
    var d := SmallWords(m2 % 1000);
    assert Words(n) == a + b + c + d;
    assert " " + "billion" == " billion" && " " + "million" == " million" && " " + "thousand" == " thousand";
    hide Words, SmallWords, ScaleText, ScaleWords, HundredText, TensText, OnesText;
    hide Glue, Sep, Join, One, Ten, NonEmptyWords;
    WordsAreNonEmpty(n);
    NonEmptyParts(a + b + c, d);
    NonEmptyParts(a + b, c);
    NonEmptyParts(a, b);
    ScaleTextGlues("", n, 1_000_000_000, "billion");
    ScaleTextGlues(Glue("", a), m1, 1_000_000, "million");
    ScaleTextGlues(Glue(Glue("", a), b), m2, 1000, "thousand");
    SmallTextGlues(Glue(Glue(Glue("", a), b), c), m2 % 1000);
    GlueTwice("", a, b);
    GlueTwice("", a + b, c);
    GlueTwice("", a + b + c, d);
  }

  // ----- The names, from the outside -----

  lemma Unfolded(n: nat, m1: nat, m2: nat, m3: nat)
    requires m1 == n % 1_000_000_000 && m2 == m1 % 1_000_000 && m3 == m2 % 1000
    ensures Words(n) == ScaleWords(n, 1_000_000_000, "billion") + ScaleWords(m1, 1_000_000, "million")
                        + ScaleWords(m2, 1000, "thousand") + SmallWords(m3)
  {
    hide SmallWords, ScaleWords;
  }

  lemma NoScale(n: nat, unit: nat, name: string)
    requires IsUnit(unit) && n < unit
    ensures ScaleWords(n, unit, name) == []
  {
    hide Words;
  }

  lemma OneScale(n: nat, unit: nat, name: string)
    requires IsUnit(unit) && n >= unit
    ensures ScaleWords(n, unit, name) == Words(n / unit) + [name]
  {
    hide Words;
  }

  lemma Small(n: nat, unit: nat)
    requires n < unit
    ensures n % unit == n
  {
  }

  lemma WordsBelowThousand(n: nat)
    requires n < 1000
    ensures Words(n) == SmallWords(n)
  {
    hide Words, SmallWords;
    Small(n, 1000);
    WordsBelowMillion(n);
    NoScale(n, 1000, "thousand");
  }

  lemma WordsBelowMillion(n: nat)
    requires n < 1_000_000
    ensures Words(n) == ScaleWords(n, 1000, "thousand") + SmallWords(n % 1000)
  {
    hide Words, ScaleWords, SmallWords;
    Small(n, 1_000_000_000);
    Small(n, 1_000_000);
    Unfolded(n, n, n, n % 1000);
    NoScale(n, 1_000_000_000, "billion");
    NoScale(n, 1_000_000, "million");
  }

  lemma WordsBelowBillion(n: nat)
    requires n < 1_000_000_000
    ensures Words(n) == ScaleWords(n, 1_000_000, "million") + Words(n % 1_000_000)
  {
    hide Words, ScaleWords, SmallWords;
    var m := n % 1_000_000;
    Small(n, 1_000_000_000);
    Unfolded(n, n, m, m % 1000);
    NoScale(n, 1_000_000_000, "billion");
    WordsBelowMillion(m);
    var a, b, c := ScaleWords(n, 1_000_000, "million"), ScaleWords(m, 1000, "thousand"), SmallWords(m % 1000);
    assert [] + a + b + c == a + (b + c);
  }

  lemma WordsAtBillion(n: nat)
    requires n >= 1_000_000_000
    ensures Words(n) == ScaleWords(n, 1_000_000_000, "billion") + Words(n % 1_000_000_000)
  {
    hide Words, ScaleWords, SmallWords;
    var m1 := n % 1_000_000_000;
    var m2 := m1 % 1_000_000;
    Unfolded(n, m1, m2, m2 % 1000);
    WordsBelowBillion(m1);
    WordsBelowMillion(m2);
    var a, b := ScaleWords(n, 1_000_000_000, "billion"), ScaleWords(m1, 1_000_000, "million");
    var c, d := ScaleWords(m2, 1000, "thousand"), SmallWords(m2 % 1000);
    assert a + b + c + d == a + (b + (c + d));
  }

  /** A name around one scale word. */
  lemma NameAround(n: nat, q: nat, r: nat, name: string)
    requires n > 0 && q > 0 && Words(n) == Words(q) + [name] + Words(r)
    ensures FullName(n) == FullName(q) + " " + name + if r == 0 then "" else " " + FullName(r)
  {
    hide Words;
    WordsAreNonEmpty(q);
    WordsAreNonEmpty(r);
    JoinTwo(Words(q), [name]);
    if r != 0 {
      JoinTwo(Words(q) + [name], Words(r));
    } else {
      assert Words(q) + [name] + Words(r) == Words(q) + [name];
    }
  }

  /** The names of the numbers below twenty, and how every other name is put together. */
  lemma NamesAreComposed(n: nat)
    ensures FullName(n) ==
              if n < 20 then
                ["zero", "one", "two", "three", "four", "five", "six", "seven", "eight", "nine", "ten", "eleven",
                 "twelve", "thirteen", "fourteen", "fifteen", "sixteen", "seventeen", "eighteen", "nineteen"][n]
              else if n < 100 then
                ["twenty", "thirty", "forty", "fifty", "sixty", "seventy", "eighty", "ninety"][n / 10 - 2]
                + if n % 10 == 0 then "" else " " + FullName(n % 10)
              else
                var (unit, name) :=
                  if n < 1000 then (100, "hundred") else if n < 1_000_000 then (1000, "thousand")
                  else if n < 1_000_000_000 then (1_000_000, "million") else (1_000_000_000, "billion");
                FullName(n / unit) + " " + name + if n % unit == 0 then "" else " " + FullName(n % unit)
  {
    hide *;
    if n < 20 {
      NamesBelowTwenty(n);
    } else if n < 100 {
      NamesBelowHundred(n);
    } else if n < 1000 {
      NameOfHundreds(n);
    } else if n < 1_000_000 {
      NameAtScale(n, 1000, "thousand");
    } else if n < 1_000_000_000 {
      NameAtScale(n, 1_000_000, "million");
    } else {
      NameAtScale(n, 1_000_000_000, "billion");
    }
  }

  lemma NameAtScale(n: nat, unit: nat, name: string)
    requires n >= unit
    requires || (unit == 1000 && name == "thousand" && n < 1_000_000)
             || (unit == 1_000_000 && name == "million" && n < 1_000_000_000)
             || (unit == 1_000_000_000 && name == "billion")
    ensures FullName(n) == FullName(n / unit) + " " + name + if n % unit == 0 then "" else " " + FullName(n % unit)
  {
    hide Words, FullName, ScaleWords, SmallWords;
    if unit == 1000 {
      WordsBelowMillion(n);
      WordsBelowThousand(n % unit);
    } else if unit == 1_000_000 {
      WordsBelowBillion(n);
    } else {
      WordsAtBillion(n);
    }
    OneScale(n, unit, name);
    QuotientIsSmaller(n, unit);
    NameAround(n, n / unit, n % unit, name);
  }

  lemma OneIs(n: nat)
    requires n < 20
    ensures One(n) ==
              ["zero", "one", "two", "three", "four", "five", "six", "seven", "eight", "nine", "ten", "eleven",
               "twelve", "thirteen", "fourteen", "fifteen", "sixteen", "seventeen", "eighteen", "nineteen"][n]
  {
  }

  lemma TenIs(n: nat)
    requires 2 <= n < 10
    ensures Ten(n) == ["twenty", "thirty", "forty", "fifty", "sixty", "seventy", "eighty", "ninety"][n - 2]
  {
  }

  lemma TailWordsOf(n: nat)
    requires n < 100
    ensures 0 < n < 20 ==> TailWords(n) == [One(n)]
    ensures 20 <= n ==> TailWords(n) == [Ten(n / 10)] + TailWords(n % 10)
  {
    hide One, Ten;
  }

  lemma SmallWordsOf(n: nat)
    requires n < 1000
    ensures 0 < n < 20 ==> SmallWords(n) == [One(n)]
    ensures 20 <= n < 100 ==> SmallWords(n) == [Ten(n / 10)] + SmallWords(n % 10)
    ensures 100 <= n ==> SmallWords(n) == [One(n / 100), "hundred"] + SmallWords(n % 100)
  {
    hide One, Ten, TailWords;
    if n < 100 {
      Small(n, 100);
      TailWordsOf(n);
      SmallWordsAreTail(n);
      SmallWordsAreTail(n % 10);
    } else {
      SmallWordsAreTail(n % 100);
    }
  }

  lemma SmallWordsAreTail(n: nat)
    requires n < 100
    ensures SmallWords(n) == TailWords(n)
  {
    hide TailWords;
    Small(n, 100);
  }

  lemma NameOfWord(n: nat, w: string)
    requires n > 0 && Words(n) == [w]
    ensures FullName(n) == w
  {
    hide Words;
  }

  lemma NamesBelowTwenty(n: nat)
    requires n < 20
    ensures FullName(n) ==
              ["zero", "one", "two", "three", "four", "five", "six", "seven", "eight", "nine", "ten", "eleven",
               "twelve", "thirteen", "fourteen", "fifteen", "sixteen", "seventeen", "eighteen", "nineteen"][n]
  {
    hide Words, SmallWords, One;
    OneIs(n);
    if n > 0 {
      hide FullName;
      WordsBelowThousand(n);
      SmallWordsOf(n);
      NameOfWord(n, One(n));
    }
  }

  lemma NamesBelowHundred(n: nat)
    requires 20 <= n < 100
    ensures FullName(n) ==
              ["twenty", "thirty", "forty", "fifty", "sixty", "seventy", "eighty", "ninety"][n / 10 - 2]
              + if n % 10 == 0 then "" else " " + FullName(n % 10)
  {
    hide Words, SmallWords, One, Ten, FullName;
    TenIs(n / 10);
    WordsBelowThousand(n);
    SmallWordsOf(n);
    NameBehind(n, Ten(n / 10), n % 10);
  }

  lemma NameBehind(n: nat, w: string, r: nat)
    requires n > 0 && r < 1000 && Words(n) == [w] + SmallWords(r)
    ensures FullName(n) == w + if r == 0 then "" else " " + FullName(r)
  {
    hide Words, SmallWords;
    WordsBelowThousand(r);
    WordsAreNonEmpty(r);
    if r != 0 {
      JoinTwo([w], Words(r));
    }
  }

  lemma NameOfHundreds(n: nat)
    requires 100 <= n < 1000
    ensures FullName(n) == FullName(n / 100) + " " + "hundred" + if n % 100 == 0 then "" else " " + FullName(n % 100)
  {
    hide Words, SmallWords, One, FullName;
    SmallWordsOf(n);
    SmallWordsOf(n / 100);
    WordsBelowThousand(n);
    WordsBelowThousand(n / 100);
    WordsBelowThousand(n % 100);
    assert [One(n / 100), "hundred"] == [One(n / 100)] + ["hundred"];
    NameAround(n, n / 100, n % 100, "hundred");
  }
}
