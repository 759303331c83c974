/** A reader of English number words, which inverts the printer of speedtest1.c. */
module NumberReader {
  import opened NumberNames

  /** Cuts a text at its spaces. */
  function Split(s: string): (ws: seq<string>)
    ensures ws != []
  {
    if s == "" then [""]
    else if s[0] == ' ' then [""] + Split(s[1..])
    else
      var ws := Split(s[1..]);
      [[s[0]] + ws[0]] + ws[1..]
  }

  /** The number a simple word stands for; 0 for anything else. */
  function WordValue(w: string): nat {
    if w == "one" then 1 else if w == "two" then 2 else if w == "three" then 3
    else if w == "four" then 4 else if w == "five" then 5 else if w == "six" then 6
    else if w == "seven" then 7 else if w == "eight" then 8 else if w == "nine" then 9
    else if w == "ten" then 10 else if w == "eleven" then 11 else if w == "twelve" then 12
    else if w == "thirteen" then 13 else if w == "fourteen" then 14 else if w == "fifteen" then 15
    else if w == "sixteen" then 16 else if w == "seventeen" then 17 else if w == "eighteen" then 18
    else if w == "nineteen" then 19 else if w == "twenty" then 20 else if w == "thirty" then 30
    else if w == "forty" then 40 else if w == "fifty" then 50 else if w == "sixty" then 60
    else if w == "seventy" then 70 else if w == "eighty" then 80 else if w == "ninety" then 90
    else 0
  }

  /** The factor of a scale word; 0 for anything else. */
  function UnitValue(w: string): nat {
    if w == "thousand" then 1000 else if w == "million" then 1_000_000
    else if w == "billion" then 1_000_000_000 else 0
  }

  /** Reads words with a finished total and the group under way. */
  function Eval(ws: seq<string>, total: nat, group: nat): nat {
    if ws == [] then total + group
    else if ws[0] == "hundred" then Eval(ws[1..], total, group * 100)
    else if UnitValue(ws[0]) > 0 then Eval(ws[1..], total + group * UnitValue(ws[0]), 0)
    else Eval(ws[1..], total, group + WordValue(ws[0]))
  }

  function Read(s: string): nat {
    Eval(Split(s), 0, 0)
  }

  // ----- Splitting undoes joining -----

  ghost predicate SpaceFree(ws: seq<string>) {
    forall w :: w in ws ==> ' ' !in w
  }

  lemma {:induction false} SplitWord(w: string, rest: string)
    requires ' ' !in w
    ensures Split(w) == [w]
    ensures Split(w + " " + rest) == [w] + Split(rest)
  {
    if w == "" {
      assert w + " " + rest == " " + rest;
      assert (" " + rest)[1..] == rest;
    } else {
      SplitWord(w[1..], rest);
      assert (w + " " + rest)[1..] == w[1..] + " " + rest;
      assert w == [w[0]] + w[1..];
    }
  }

  lemma {:induction false} SplitJoin(ws: seq<string>)
    requires ws != [] && SpaceFree(ws)
    ensures Split(Join(ws)) == ws
  {
    SplitWord(ws[0], Join(ws[1..]));
    if |ws| > 1 {
      SplitJoin(ws[1..]);
    }
  }

  lemma OnesAreSpaceFree(k: nat)
    requires k < 20
    ensures ' ' !in One(k)
  {
  }

  lemma TensAreSpaceFree(k: nat)
    requires k < 10
    ensures ' ' !in Ten(k)
  {
  }

  // ----- Single words -----

  lemma OneIsRead(k: nat)
    requires 0 < k < 20
    ensures One(k) != "hundred" && UnitValue(One(k)) == 0 && WordValue(One(k)) == k
  {
    if k < 10 {
      DigitIsRead(k);
    } else {
      TeenIsRead(k);
    }
    hide One, UnitValue, WordValue;
  }

  lemma DigitIsRead(k: nat)
    requires 0 < k < 10
    ensures One(k) != "hundred" && UnitValue(One(k)) == 0 && WordValue(One(k)) == k
  {
  }

  lemma TeenIsRead(k: nat)
    requires 10 <= k < 20
    ensures One(k) != "hundred" && UnitValue(One(k)) == 0 && WordValue(One(k)) == k
  {
  }

  lemma TenIsRead(k: nat)
    requires 2 <= k < 10
    ensures Ten(k) != "hundred" && UnitValue(Ten(k)) == 0 && WordValue(Ten(k)) == 10 * k
  {
    if k < 6 {
      LowTenIsRead(k);
    } else {
      HighTenIsRead(k);
    }
    hide Ten, UnitValue, WordValue;
  }

  lemma LowTenIsRead(k: nat)
    requires 2 <= k < 6
    ensures Ten(k) != "hundred" && UnitValue(Ten(k)) == 0 && WordValue(Ten(k)) == 10 * k
  {
  }

  lemma HighTenIsRead(k: nat)
    requires 6 <= k < 10
    ensures Ten(k) != "hundred" && UnitValue(Ten(k)) == 0 && WordValue(Ten(k)) == 10 * k
  {
  }

  lemma EvalWord(w: string, rest: seq<string>, total: nat, group: nat)
    requires w != "hundred" && UnitValue(w) == 0
    ensures Eval([w] + rest, total, group) == Eval(rest, total, group + WordValue(w))
  {
  }

  lemma EvalHundred(rest: seq<string>, total: nat, group: nat)
    ensures Eval(["hundred"] + rest, total, group) == Eval(rest, total, group * 100)
  {
  }

  lemma EvalUnit(w: string, rest: seq<string>, total: nat, group: nat)
    requires UnitValue(w) > 0 && w != "hundred"
    ensures Eval([w] + rest, total, group) == Eval(rest, total + group * UnitValue(w), 0)
  {
  }

  // ----- Whole names -----

  /** An optional word adds its value. */
  lemma EvalOptional(wanted: bool, w: string, rest: seq<string>, total: nat, group: nat)
    requires wanted ==> w != "hundred" && UnitValue(w) == 0
    ensures Eval((if wanted then [w] else []) + rest, total, group) ==
              Eval(rest, total, group + if wanted then WordValue(w) else 0)
  {
    if wanted {
      EvalWord(w, rest, total, group);
    } else {
      assert [] + rest == rest;
    }
  }

  lemma EvalTail(n: nat, rest: seq<string>, total: nat, group: nat)
    requires n < 100
    ensures Eval(TailWords(n) + rest, total, group) == Eval(rest, total, group + n)
  {
    hide Eval, WordValue, UnitValue, One, Ten;
    var ten := n / 10;
    var d := if n >= 20 then n % 10 else n;
    var o := if d > 0 then [One(d)] else [];
    assert TailWords(n) + rest == (if n >= 20 then [Ten(ten)] else []) + (o + rest);
    assert n == (if n >= 20 then 10 * ten else 0) + d;
    hide TailWords;
    if n >= 20 {
      TenIsRead(ten);
    }
    if d > 0 {
      OneIsRead(d);
    }
    EvalOptional(n >= 20, Ten(ten), o + rest, total, group);
    EvalOptional(d > 0, One(d), rest, total, group + if n >= 20 then 10 * ten else 0);
  }

  lemma SmallGroups(n: nat, h: nat, m: nat, rest: seq<string>)
    requires h < 10 && m < 100 && n == h * 100 + m
    ensures var t := TailWords(m) + rest;
            SmallWords(n) + rest == if h > 0 then [One(h)] + (["hundred"] + t) else t
  {
    hide TailWords, One;
  }

  lemma EvalSmall(n: nat, rest: seq<string>, total: nat)
    requires n < 1000
    ensures Eval(SmallWords(n) + rest, total, 0) == Eval(rest, total, n)
  {
    hide SmallWords, TailWords, Eval, One;
    var h, m := n / 100, n % 100;
    assert n == h * 100 + m;
    SmallGroups(n, h, m, rest);
    EvalHundreds(h, m, rest, total);
  }

  lemma EvalHundreds(h: nat, m: nat, rest: seq<string>, total: nat)
    requires h < 10 && m < 100
    ensures var t := TailWords(m) + rest;
            Eval(if h > 0 then [One(h)] + (["hundred"] + t) else t, total, 0) == Eval(rest, total, h * 100 + m)
  {
    hide TailWords, Eval, WordValue, UnitValue, One;
    EvalTail(m, rest, total, h * 100);
    if h > 0 {
      OneIsRead(h);
      EvalWord(One(h), ["hundred"] + (TailWords(m) + rest), total, 0);
      EvalHundred(TailWords(m) + rest, total, h);
    }
  }

  lemma WordsBelowThousand(n: nat)
    requires n < 1000
    ensures Words(n) == SmallWords(n)
  {
    var m1 := n % 1_000_000_000;
    assert m1 == n;
    var m2 := m1 % 1_000_000;
    assert m2 == n && m2 % 1000 == n;
    hide SmallWords, ScaleWords;
    assert ScaleWords(n, 1_000_000_000, "billion") == [] by { NoScale(n, 1_000_000_000, "billion"); }
    assert ScaleWords(m1, 1_000_000, "million") == [] by { NoScale(m1, 1_000_000, "million"); }
    assert ScaleWords(m2, 1000, "thousand") == [] by { NoScale(m2, 1000, "thousand"); }
    assert [] + [] + [] + SmallWords(n) == SmallWords(n);
  }

  lemma NoScale(n: nat, unit: nat, name: string)
    requires IsUnit(unit) && n < unit
    ensures ScaleWords(n, unit, name) == []
  {
  }

  lemma EvalScale(n: nat, unit: nat, name: string, rest: seq<string>, total: nat)
    requires IsUnit(unit) && n / unit < 1000 && UnitValue(name) == unit && name != "hundred"
    ensures Eval(ScaleWords(n, unit, name) + rest, total, 0) == Eval(rest, total + n / unit * unit, 0)
  {
    hide Words, Eval, UnitValue;
    if n >= unit {
      var q := n / unit;
      WordsBelowThousand(q);
      assert ScaleWords(n, unit, name) + rest == SmallWords(q) + ([name] + rest);
      EvalSmall(q, [name] + rest, total);
      EvalUnit(name, rest, total, q);
    } else {
      assert ScaleWords(n, unit, name) + rest == rest;
    }
  }

  /** The decimal groups of a number. */
  lemma Groups(n: nat)
    requires n < 0x1_0000_0000
    ensures var m1 := n % 1_000_000_000; var m2 := m1 % 1_000_000;
            && n / 1_000_000_000 < 1000 && m1 / 1_000_000 < 1000 && m2 / 1000 < 1000
            && n == n / 1_000_000_000 * 1_000_000_000 + m1 / 1_000_000 * 1_000_000 + m2 / 1000 * 1000 + m2 % 1000
  {
  }

  lemma WordGroups(n: nat)
    ensures var m1 := n % 1_000_000_000; var m2 := m1 % 1_000_000;
            Words(n) == ScaleWords(n, 1_000_000_000, "billion") +
                        (ScaleWords(m1, 1_000_000, "million") +
                         (ScaleWords(m2, 1000, "thousand") + (SmallWords(m2 % 1000) + [])))
  {
    hide ScaleWords, SmallWords;
  }

  lemma EvalWords(n: nat)
    requires n < 0x1_0000_0000
    ensures Eval(Words(n), 0, 0) == n
  {
    var m1 := n % 1_000_000_000;
    var m2 := m1 % 1_000_000;
    var g1, g2, g3, g4 := n / 1_000_000_000, m1 / 1_000_000, m2 / 1000, m2 % 1000;
    WordGroups(n);
    Groups(n);
    hide Words, ScaleWords, SmallWords, Eval, UnitValue;
    EvalGroups(n, m1, m2, g1, g2, g3, g4);
    assert Eval([], 0, n) == n by { EvalNothing(n); }
  }

  lemma EvalNothing(n: nat)
    ensures Eval([], 0, n) == n && forall t: nat, g: nat :: Eval([], t, g) == t + g
  {
  }

  lemma EvalGroups(n1: nat, n2: nat, n3: nat, g1: nat, g2: nat, g3: nat, g4: nat)
    requires g1 == n1 / 1_000_000_000 && g2 == n2 / 1_000_000 && g3 == n3 / 1000
    requires g1 < 1000 && g2 < 1000 && g3 < 1000 && g4 < 1000
    ensures Eval(ScaleWords(n1, 1_000_000_000, "billion") +
                 (ScaleWords(n2, 1_000_000, "million") +
                  (ScaleWords(n3, 1000, "thousand") + (SmallWords(g4) + []))), 0, 0)
            == g1 * 1_000_000_000 + g2 * 1_000_000 + g3 * 1000 + g4
  {
    hide Words, ScaleWords, SmallWords, Eval, UnitValue;
    UnitNames();
    var d := SmallWords(g4) + [];
    var c := ScaleWords(n3, 1000, "thousand") + d;
    var x: nat := g1 * 1_000_000_000;
    var y: nat := x + g2 * 1_000_000;
    EvalScale(n1, 1_000_000_000, "billion", ScaleWords(n2, 1_000_000, "million") + c, 0);
    EvalScale(n2, 1_000_000, "million", c, x);
    EvalScale(n3, 1000, "thousand", d, y);
    EvalSmall(g4, [], y + g3 * 1000);
    EvalNothing(0);
  }

  lemma UnitNames()
    ensures UnitValue("billion") == 1_000_000_000 && UnitValue("million") == 1_000_000 && UnitValue("thousand") == 1000
    ensures "billion" != "hundred" && "million" != "hundred" && "thousand" != "hundred"
  {
  }

  lemma SpaceFreeParts(a: seq<string>, b: seq<string>)
    requires SpaceFree(a) && SpaceFree(b)
    ensures SpaceFree(a + b)
  {
  }

  lemma SmallWordsAreSpaceFree(n: nat)
    requires n < 1000
    ensures SpaceFree(SmallWords(n))
  {
    var m := n % 100;
    OnesAreSpaceFree(n / 100);
    TensAreSpaceFree(m / 10);
    OnesAreSpaceFree(if m >= 20 then m % 10 else m);
    hide One, Ten;
  }

  lemma {:induction false} ScaleWordsAreSpaceFree(n: nat, unit: nat, name: string)
    requires IsUnit(unit) && ' ' !in name
    ensures SpaceFree(ScaleWords(n, unit, name))
    decreases n, 0
  {
    hide Words;
    if n >= unit {
      QuotientIsSmaller(n, unit);
      WordsAreSpaceFree(n / unit);
      SpaceFreeParts(Words(n / unit), [name]);
    }
  }

  lemma {:induction false} WordsAreSpaceFree(n: nat)
    ensures SpaceFree(Words(n))
    decreases n, 1
  {
    ZeroParts(n);
    var m1 := n % 1_000_000_000;
    var m2 := m1 % 1_000_000;
    var a := ScaleWords(n, 1_000_000_000, "billion");
    var b := ScaleWords(m1, 1_000_000, "million");
    var c := ScaleWords(m2, 1000, "thousand");
    var d := SmallWords(m2 % 1000);
    assert Words(n) == a + b + c + d;
    hide Words, SmallWords, ScaleWords, SpaceFree;
    ScaleWordsAreSpaceFree(n, 1_000_000_000, "billion");
    ScaleWordsAreSpaceFree(m1, 1_000_000, "million");
    ScaleWordsAreSpaceFree(m2, 1000, "thousand");
    SmallWordsAreSpaceFree(m2 % 1000);
    SpaceFreeParts(a, b);
    SpaceFreeParts(a + b, c);
    SpaceFreeParts(a + b + c, d);
  }

  /** Reading the full name of a 32-bit number gives the number back. */
  lemma ReadInvertsName(n: nat)
    requires n < 0x1_0000_0000
    ensures Read(FullName(n)) == n
  {
    if n == 0 {
      SplitWord("zero", "");
      assert Eval(["zero"], 0, 0) == Eval(["zero"][1..], 0, 0 + WordValue("zero"));
    } else {
      WordsAreNonEmpty(n);
      WordsAreSpaceFree(n);
      hide Words;
      SplitJoin(Words(n));
      EvalWords(n);
    }
  }

  /** Different 32-bit numbers have different names. */
  lemma NamesAreDistinct(m: nat, n: nat)
    requires m < 0x1_0000_0000 && n < 0x1_0000_0000 && FullName(m) == FullName(n)
    ensures m == n
  {
    ReadInvertsName(m);
    ReadInvertsName(n);
  }
}
