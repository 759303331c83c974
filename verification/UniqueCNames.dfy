/** How qjsc.c names the C objects of compiled modules. */
module UniqueCNames {
  import opened Arithmetic
  import opened CStrings
  import opened Pigeonhole

  const UNDERSCORE: Byte := 95

  /** "qjsc_" */
  const PREFIX: CString := [113, 106, 115, 99, 95]

  /** "_size" */
  const SIZE_SUFFIX: CString := [95, 115, 105, 122, 101]

  /** "_module_name" */
  const MODULE_NAME_SUFFIX: CString := [95, 109, 111, 100, 117, 108, 101, 95, 110, 97, 109, 101]

  /** What pstrcpy and snprintf leave of a text in a buffer of the given size. */
  function Fit(s: CString, size: nat): (r: CString)
    requires size >= 1
    ensures |r| == Min(|s|, size - 1)
  {
    s[..Min(|s|, size - 1)]
  }

  // ----- The name of a file -----

  /** strrchr; -1 when the byte does not occur. */
  function LastIndex(s: CString, c: Byte): (k: int)
    ensures -1 <= k < |s|
    ensures k >= 0 ==> s[k] == c
    ensures forall j :: k < j < |s| ==> s[j] != c
  {
    if s == [] then -1
    else if s[|s| - 1] == c then |s| - 1
    else LastIndex(s[..|s| - 1], c)
  }

  /** The file name without directories and without its last extension. */
  function Stem(file: CString): CString {
    var base := file[LastIndex(file, 47) + 1..];
    var dot := LastIndex(base, 46);
    if dot < 0 then base else base[..dot]
  }

  lemma NotBehind(s: CString, c: Byte, k: nat)
    requires k <= |s| && forall j :: k <= j < |s| ==> s[j] != c
    ensures c !in s[k..]
  {
  }

  lemma Halves(s: CString, k: nat)
    requires k <= |s|
    ensures s == s[..k] + s[k..]
    ensures k > 0 ==> s[..k] != [] && s[..k][k - 1] == s[k - 1]
    ensures k < |s| ==> s[k..] != [] && s[k..][0] == s[k] && s[k..][1..] == s[k + 1..]
  {
  }

  lemma StemParts(file: CString)
    ensures var base := file[LastIndex(file, 47) + 1..];
            var dot := LastIndex(base, 46);
            Stem(file) == if dot < 0 then base else base[..dot]
  {
    hide LastIndex;
  }

  /** A file name is a directory, the stem and an extension: up to the last slash, and from the last
      dot behind it, where there are any. */
  lemma FileParts(file: CString) returns (dir: CString, ext: CString)
    ensures file == dir + Stem(file) + ext
    ensures dir == [] || dir[|dir| - 1] == '/' as int
    ensures '/' as int !in Stem(file) + ext
    ensures if ext == [] then '.' as int !in Stem(file) else ext[0] == '.' as int && '.' as int !in ext[1..]
  {
    hide *;
    StemParts(file);
    var slash := LastIndex(file, 47);
    NotBehind(file, 47, slash + 1);
    Halves(file, slash + 1);
    var base := file[slash + 1..];
    dir := file[..slash + 1];
    ext := ExtensionOf(base);
    Associative(dir, Stem(file), ext);
  }

  lemma Associative(a: CString, b: CString, c: CString)
    ensures a + b + c == a + (b + c)
  {
  }

  lemma ExtensionOf(base: CString) returns (ext: CString)
    ensures var dot := LastIndex(base, 46);
            var stem := if dot < 0 then base else base[..dot];
            && base == stem + ext
            && if ext == [] then '.' as int !in stem else ext[0] == '.' as int && '.' as int !in ext[1..]
  {
    hide LastIndex;
    var dot := LastIndex(base, 46);
    NotBehind(base, 46, dot + 1);
    if dot < 0 {
      ext := [];
      assert base[0..] == base;
    } else {
      ext := base[dot..];
      Halves(base, dot);
    }
  }

  predicate IsAlphanumeric(c: int) {
    48 <= c <= 57 || 65 <= c <= 90 || 97 <= c <= 122
  }

  function Sanitize(c: Byte): Byte {
    if IsAlphanumeric(c) then c else UNDERSCORE
  }

  function SanitizeAll(s: CString): (r: CString)
    ensures |r| == |s|
  {
    seq(|s|, i requires 0 <= i < |s| => Sanitize(s[i]))
  }

  /** Only letters, digits and underscores, and no digit in front. */
  ghost predicate IsIdentifier(s: CString) {
    && s != [] && !IsDigit(s[0])
    && forall c :: c in s ==> IsAlphanumeric(c) || c == UNDERSCORE
  }

  function CName(file: CString, size: nat): CString
    requires size >= 1
  {
    Fit(PREFIX + SanitizeAll(Stem(file)), size)
  }

  lemma Texts()
    ensures PREFIX == Bytes("qjsc_")
    ensures SIZE_SUFFIX == Bytes("_size") && MODULE_NAME_SUFFIX == Bytes("_module_name")
  {
  }

  /** Byte k of the name is that of the prefix or, behind it, the one of the stem if that is a letter
      or digit, and an underscore otherwise. */
  lemma ByteOfCName(file: CString, size: nat, k: nat)
    requires size >= 1 && k < |CName(file, size)|
    ensures |CName(file, size)| == Min(5 + |Stem(file)|, size - 1)
    ensures k < 5 ==> CName(file, size)[k] == Bytes("qjsc_")[k]
    ensures k >= 5 ==>
              var c := Stem(file)[k - 5];
              CName(file, size)[k] ==
                if '0' as int <= c <= '9' as int || 'A' as int <= c <= 'Z' as int || 'a' as int <= c <= 'z' as int
                then c else '_' as int
  {
    Texts();
    hide Stem;
  }

  lemma CNameIsIdentifier(file: CString, size: nat)
    requires size >= 2
    ensures IsIdentifier(CName(file, size))
    ensures var name := CName(file, size);
            && name != [] && !('0' as int <= name[0] <= '9' as int)
            && forall c :: c in name ==>
                 || '0' as int <= c <= '9' as int || 'A' as int <= c <= 'Z' as int
                 || 'a' as int <= c <= 'z' as int || c == '_' as int
  {
    var stem := SanitizeAll(Stem(file));
    var name := CName(file, size);
    hide Stem, Sanitize;
    assert name[0] == PREFIX[0];
    forall c | c in name ensures IsAlphanumeric(c) || c == UNDERSCORE {
      var k :| 0 <= k < |name| && name[k] == c;
      assert name[k] == (PREFIX + stem)[k];
      if k >= |PREFIX| {
        SanitizedByte(Stem(file), k - |PREFIX|);
      }
    }
  }

  lemma SanitizedByte(s: CString, k: nat)
    requires k < |s|
    ensures IsAlphanumeric(SanitizeAll(s)[k]) || SanitizeAll(s)[k] == UNDERSCORE
  {
  }

  /** The name from the first i bytes of the stem. */
  function Partial(stem: CString, i: nat, size: nat): CString
    requires i <= |stem| && size >= 1
  {
    Fit(PREFIX + SanitizeAll(stem[..i]), size)
  }

  lemma PartialGrows(stem: CString, i: nat, size: nat)
    requires i < |stem| && size >= 1
    ensures var s, c := Partial(stem, i, size), Sanitize(stem[i]);
            Partial(stem, i + 1, size) == if |s| < size - 1 then s + [c] else s
  {
    hide Sanitize, Fit;
    var x, c := PREFIX + SanitizeAll(stem[..i]), Sanitize(stem[i]);
    SanitizeGrows(stem, i);
    assert PREFIX + SanitizeAll(stem[..i + 1]) == x + [c];
    FitGrows(x, c, size);
  }

  lemma SanitizeGrows(s: CString, i: nat)
    requires i < |s|
    ensures SanitizeAll(s[..i + 1]) == SanitizeAll(s[..i]) + [Sanitize(s[i])]
  {
    hide Sanitize;
  }

  lemma FitGrows(s: CString, c: Byte, size: nat)
    requires size >= 1
    ensures Fit(s + [c], size) == if |Fit(s, size)| < size - 1 then Fit(s, size) + [c] else Fit(s, size)
  {
  }

  lemma PartialEnds(stem: CString, size: nat)
    requires size >= 1
    ensures Partial(stem, 0, size) == Fit(PREFIX, size)
    ensures Partial(stem, |stem|, size) == Fit(PREFIX + SanitizeAll(stem), size)
  {
    hide Fit;
    assert stem[..0] == [] && stem[..|stem|] == stem && PREFIX + SanitizeAll([]) == PREFIX;
  }

  /** get_c_name */
  method GetCName(file: CString, size: nat) returns (buf: CString)
    requires size >= 2
    ensures buf == CName(file, size)
    ensures IsIdentifier(buf) && |buf| < size
  {
    hide LastIndex, Sanitize, IsIdentifier, Fit, Partial, SanitizeAll;
    var slash := LastIndex(file, 47);
    var p := if slash < 0 then file else file[slash + 1..];
    var dot := LastIndex(p, 46);
    var len := if dot < 0 then |p| else dot;
    ghost var stem := Stem(file);
    assert p == file[slash + 1..];
    assert p[..len] == stem;
    assert CName(file, size) == Fit(PREFIX + SanitizeAll(stem), size);
    hide Stem, CName;
    PartialEnds(stem, size);
    buf := Fit(PREFIX, size);
    for i := 0 to len
      invariant buf == Partial(stem, i, size)
    {
      PartialGrows(stem, i, size);
      assert p[i] == stem[i];
      var c := Sanitize(p[i]);
      if |buf| < size - 1 {
        buf := buf + [c];
      }
    }
    CNameIsIdentifier(file, size);
  }

  // ----- The list of names -----

  class NameList {
    var entries: array<CString>
    var count: nat

    ghost predicate Valid()
      reads this
    {
      count <= entries.Length
    }

    ghost function Names(): seq<CString>
      requires Valid()
      reads this, entries
    {
      entries[..count]
    }

    constructor ()
      ensures Valid() && Names() == [] && fresh(entries)
    {
      entries := new CString[0];
      count := 0;
    }

    /** namelist_add */
    method Add(name: CString)
      requires Valid()
      modifies this, entries
      ensures Valid() && (entries == old(entries) || fresh(entries))
      ensures Names() == old(Names()) + [name]
    {
      if count == entries.Length {
        var a := new CString[entries.Length + entries.Length / 2 + 4];
        for k := 0 to count
          invariant a[..k] == entries[..k]
          modifies a
        {
          a[k] := entries[k];
        }
        entries := a;
      }
      entries[count] := name;
      count := count + 1;
    }

    /** namelist_find */
    method Find(name: CString) returns (found: bool)
      requires Valid()
      ensures found <==> name in Names()
    {
      for i := 0 to count
        invariant name !in entries[..i]
      {
        if entries[i] == name {
          return true;
        }
      }
      return false;
    }

    /** find_unique_cname: the smallest numeric suffix that makes the name new.  The loop has a way
        out only if some suffix of int width does. */
    method FindUnique(cname: CString, size: nat) returns (r: CString)
      requires Valid() && 32 <= size && |cname| < size
      requires exists k :: 1 <= k <= 0x7fff_ffff && Scratch(cname, size, k) !in Names()
      ensures r !in Names() && |r| < size
      ensures exists k :: 1 <= k <= 0x7fff_ffff && r == Scratch(cname, size, k) &&
                forall j :: 1 <= j < k ==> Scratch(cname, size, j) in Names()
    {
      hide Scratch;
      ghost var names := Names();
      ghost var last :| 1 <= last <= 0x7fff_ffff && Scratch(cname, size, last) !in names;
      var base := cname;
      var maxLen := size - 16;
      if |base| > maxLen {
        base := base[..maxLen];
      }
      assert base == Shortened(cname, size);
      var suffix := 1;
      var cname1 := Fit(base + [UNDERSCORE] + Decimal(suffix), 1024);
      assert cname1 == Scratch(cname, size, suffix) by { ScratchIs(cname, size, suffix); }
      var found := Find(cname1);
      while found
        invariant 1 <= suffix <= last
        invariant cname1 == Scratch(cname, size, suffix)
        invariant found <==> cname1 in names
        invariant forall j :: 1 <= j < suffix ==> Scratch(cname, size, j) in names
        decreases last - suffix
      {
        suffix := suffix + 1;
        cname1 := Fit(base + [UNDERSCORE] + Decimal(suffix), 1024);
        assert cname1 == Scratch(cname, size, suffix) by { ScratchIs(cname, size, suffix); }
        found := Find(cname1);
      }
      ScratchFits(cname, size, suffix);
      r := Fit(cname1, size);
    }

    /** The naming path of jsc_module_loader, up to the namelist_add of output_object_code. */
    method AddModule(file: CString) returns (name: CString)
      requires Valid() && count < 0x7fff_ffff
      modifies this, entries
      ensures Valid() && (entries == old(entries) || fresh(entries))
      ensures Names() == old(Names()) + [name]
      ensures name !in old(Names()) && |name| < 1024
      ensures CName(file, 1024) !in old(Names()) ==> name == CName(file, 1024)
      ensures Distinct(old(Names())) ==> Distinct(Names())
    {
      name := GetCName(file, 1024);
      var taken := Find(name);
      if taken {
        FreshCandidateExists(name, 1024, Names());
        name := FindUnique(name, 1024);
      }
      Add(name);
    }

    /** compile_file adds its own name, or the one given on the command line, unchecked. */
    method AddMainFile(name: CString)
      requires Valid()
      modifies this, entries
      ensures Valid() && Names() == old(Names()) + [name]
      ensures Distinct(old(Names())) ==> (Distinct(Names()) <==> name !in old(Names()))
    {
      ghost var names := Names();
      Add(name);
      if Distinct(names) {
        DistinctAfterAppend(names, name);
      }
    }
  }

  lemma DistinctAfterAppend(names: seq<CString>, name: CString)
    requires Distinct(names)
    ensures Distinct(names + [name]) <==> name !in names
  {
    var t := names + [name];
    if name in names {
      var k :| 0 <= k < |names| && names[k] == name;
      assert t[k] == t[|names|];
    }
  }

  // ----- Numeric suffixes -----

  lemma {:induction false} DecimalIsInjective(m: nat, n: nat)
    requires Decimal(m) == Decimal(n)
    ensures m == n
  {
    var x, y := Decimal(m), Decimal(n);
    assert x[|x| - 1] == 48 + m % 10 && y[|y| - 1] == 48 + n % 10;
    if m >= 10 && n >= 10 {
      assert x[..|x| - 1] == Decimal(m / 10) && y[..|y| - 1] == Decimal(n / 10);
      DecimalIsInjective(m / 10, n / 10);
    }
  }

  function Pow10(k: nat): nat {
    if k == 0 then 1 else 10 * Pow10(k - 1)
  }

  lemma {:induction false} DecimalLength(n: nat, k: nat)
    requires k >= 1 && n < Pow10(k)
    ensures |Decimal(n)| <= k
  {
    if n >= 10 {
      assert Pow10(k) == 10 * Pow10(k - 1);
      assert k >= 2 by { assert Pow10(1) == 10 * Pow10(0); }
      DecimalLength(n / 10, k - 1);
    }
  }

  function Shortened(cname: CString, size: nat): CString
    requires size >= 16
  {
    if |cname| > size - 16 then cname[..size - 16] else cname
  }

  function Candidate(cname: CString, size: nat, k: int): CString
    requires size >= 16
  {
    if k < 0 then [] else Shortened(cname, size) + [UNDERSCORE] + Decimal(k)
  }

  /** A name that is short enough is kept whole before its suffix, a longer one cut to leave 16 bytes. */
  lemma CandidateOf(cname: CString, size: nat, k: nat)
    requires size >= 16
    ensures |cname| <= size - 16 ==> Candidate(cname, size, k) == cname + Bytes("_") + Decimal(k)
    ensures |cname| > size - 16 ==>
              HasPrefix(Candidate(cname, size, k), cname[..size - 16] + Bytes("_")) &&
              HasSuffix(Candidate(cname, size, k), Decimal(k)) &&
              |Candidate(cname, size, k)| == size - 15 + |Decimal(k)|
  {
    assert Bytes("_") == [UNDERSCORE];
    hide Bytes, Decimal;
  }

  /** What the scratch buffer holds of a candidate. */
  function Scratch(cname: CString, size: nat, k: int): CString
    requires size >= 16
  {
    Fit(Candidate(cname, size, k), 1024)
  }

  lemma ScratchIs(cname: CString, size: nat, k: nat)
    requires size >= 16
    ensures Scratch(cname, size, k) == Fit(Shortened(cname, size) + [UNDERSCORE] + Decimal(k), 1024)
  {
  }

  lemma DecimalOfInt(k: nat)
    requires k <= 0x7fff_ffff
    ensures |Decimal(k)| <= 10
  {
    assert Pow10(5) == 100000;
    assert Pow10(10) == 100000 * 100000;
    DecimalLength(k, 10);
  }

  /** Copying the scratch buffer back never cuts a name with a suffix of int width. */
  lemma ScratchFits(cname: CString, size: nat, k: nat)
    requires 32 <= size && k <= 0x7fff_ffff
    ensures |Scratch(cname, size, k)| < size
    ensures Fit(Scratch(cname, size, k), size) == Scratch(cname, size, k)
  {
    DecimalOfInt(k);
  }

  /** Where the shortened name leaves room, the scratch buffer cuts no suffix of int width. */
  lemma CandidateFits(cname: CString, size: nat, k: nat)
    requires size >= 16 && Min(|cname|, size - 16) <= 1012 && k <= 0x7fff_ffff
    ensures Scratch(cname, size, k) == Candidate(cname, size, k)
  {
    DecimalOfInt(k);
  }

  /** Where it leaves none, all suffixes are cut off: then a way out exists only if the very first
      candidate is new. */
  lemma LongNamesNeverChange(cname: CString, size: nat, names: seq<CString>)
    requires size >= 16 && |Shortened(cname, size)| >= 1023
    ensures (exists k :: 1 <= k <= 0x7fff_ffff && Scratch(cname, size, k) !in names) <==>
            Scratch(cname, size, 1) !in names
  {
    forall k | k >= 1 ensures Scratch(cname, size, k) == Scratch(cname, size, 1) {
      var base := Shortened(cname, size);
      assert Candidate(cname, size, k)[..1023] == base[..1023] == Candidate(cname, size, 1)[..1023];
    }
  }

  lemma CandidatesDiffer(cname: CString, size: nat, j: nat, k: nat)
    requires size >= 16 && j != k
    ensures Candidate(cname, size, j) != Candidate(cname, size, k)
  {
    var base := Shortened(cname, size) + [UNDERSCORE];
    if base + Decimal(j) == base + Decimal(k) {
      assert (base + Decimal(j))[|base|..] == Decimal(j) && (base + Decimal(k))[|base|..] == Decimal(k);
      DecimalIsInjective(j, k);
    }
  }

  /** n taken candidates need n entries. */
  lemma CandidatesRunOut(cname: CString, size: nat, n: nat, names: seq<CString>)
    requires size >= 16 && forall j :: 1 <= j <= n ==> Candidate(cname, size, j) in names
    ensures n <= |names|
  {
    hide Candidate;
    var taken := seq(n, j requires 0 <= j < n => Candidate(cname, size, j + 1));
    forall i, j | 0 <= i < j < n ensures taken[i] != taken[j] {
      CandidatesDiffer(cname, size, i + 1, j + 1);
    }
    DistinctElementsFit(taken, names);
  }

  /** So where the shortened name leaves room, a suffix of at most one more than the list is long
      makes the name new. */
  lemma FreshCandidateExists(cname: CString, size: nat, names: seq<CString>)
    requires size >= 16 && Min(|cname|, size - 16) <= 1012 && |names| < 0x7fff_ffff
    ensures exists k :: 1 <= k <= |names| + 1 && Scratch(cname, size, k) !in names
  {
    hide Scratch, Candidate;
    if forall k :: 1 <= k <= |names| + 1 ==> Scratch(cname, size, k) in names {
      forall k | 1 <= k <= |names| + 1 ensures Candidate(cname, size, k) in names {
        CandidateFits(cname, size, k);
      }
      CandidatesRunOut(cname, size, |names| + 1, names);
    }
  }

  // ----- The symbols in the generated file -----

  /** A compiled object; only JSON modules come with their module name. */
  datatype Object = Object(name: CString, json: bool)

  /** The symbols defined for one object: its module name, its size and the object itself. */
  function Own(x: Object): seq<CString> {
    (if x.json then [x.name + MODULE_NAME_SUFFIX] else []) + [x.name + SIZE_SUFFIX, x.name]
  }

  function Symbols(objects: seq<Object>): seq<CString> {
    if objects == [] then [] else Symbols(objects[..|objects| - 1]) + Own(objects[|objects| - 1])
  }

  /** The name of x is a symbol of y besides its name. */
  predicate Clash(x: Object, y: Object) {
    x.name == y.name + SIZE_SUFFIX || (y.json && x.name == y.name + MODULE_NAME_SUFFIX)
  }

  ghost predicate Apart(x: Object, y: Object) {
    forall s :: s in Own(x) ==> s !in Own(y)
  }

  /** The symbols of an object, and when the name of another one is among those besides its own. */
  lemma SymbolsOf(x: Object, y: Object, s: CString)
    ensures s in Own(x) <==>
              || s == x.name || s == x.name + Bytes("_size")
              || (x.json && s == x.name + Bytes("_module_name"))
    ensures Clash(y, x) <==>
              y.name == x.name + Bytes("_size") || (x.json && y.name == x.name + Bytes("_module_name"))
  {
    Texts();
  }

  lemma SuffixesDiffer(a: CString, b: CString)
    ensures a + SIZE_SUFFIX == b + SIZE_SUFFIX ==> a == b
    ensures a + MODULE_NAME_SUFFIX == b + MODULE_NAME_SUFFIX ==> a == b
    ensures a + MODULE_NAME_SUFFIX != b + SIZE_SUFFIX
    ensures a != a + SIZE_SUFFIX && a != a + MODULE_NAME_SUFFIX
  {
    var x, y, u, v := a + SIZE_SUFFIX, b + SIZE_SUFFIX, a + MODULE_NAME_SUFFIX, b + MODULE_NAME_SUFFIX;
    assert x[..|x| - 5] == a && y[..|y| - 5] == b && u[..|u| - 12] == a && v[..|v| - 12] == b;
    assert u[|u| - 4] == 110 && y[|y| - 4] == 115;
  }

  lemma ApartIff(x: Object, y: Object)
    ensures Apart(x, y) <==> x.name != y.name && !Clash(x, y) && !Clash(y, x)
  {
    SuffixesDiffer(x.name, y.name);
    SuffixesDiffer(y.name, x.name);
    assert x.name in Own(x) && y.name in Own(y);
    assert x.name + SIZE_SUFFIX in Own(x) && y.name + SIZE_SUFFIX in Own(y);
    assert x.json ==> x.name + MODULE_NAME_SUFFIX in Own(x);
    assert y.json ==> y.name + MODULE_NAME_SUFFIX in Own(y);
  }

  lemma OwnAreDistinct(x: Object)
    ensures Distinct(Own(x))
  {
    SuffixesDiffer(x.name, x.name);
  }

  lemma {:induction false} SymbolOfSome(objects: seq<Object>, s: CString)
    ensures s in Symbols(objects) <==> exists i :: 0 <= i < |objects| && s in Own(objects[i])
  {
    hide Own;
    if objects != [] {
      var n := |objects| - 1;
      SymbolOfSome(objects[..n], s);
      assert forall i :: 0 <= i < n ==> objects[..n][i] == objects[i];
    }
  }

  lemma SharedRepeats(a: seq<CString>, b: seq<CString>, x: CString)
    requires x in a && x in b
    ensures !Distinct(a + b)
  {
    var i :| 0 <= i < |a| && a[i] == x;
    var j :| 0 <= j < |b| && b[j] == x;
    assert (a + b)[i] == (a + b)[|a| + j];
  }

  lemma DistinctParts(a: seq<CString>, b: seq<CString>)
    ensures Distinct(a + b) <==> Distinct(a) && Distinct(b) && forall x :: x in a ==> x !in b
  {
    var t := a + b;
    assert forall i :: 0 <= i < |a| ==> t[i] == a[i];
    if Distinct(t) {
      forall i, j | 0 <= i < j < |b| ensures b[i] != b[j] {
        assert t[|a| + i] == b[i] && t[|a| + j] == b[j];
      }
      forall x | x in a ensures x !in b {
        if x in b {
          SharedRepeats(a, b, x);
        }
      }
    }
    if Distinct(a) && Distinct(b) && forall x :: x in a ==> x !in b {
      forall i, j | 0 <= i < j < |t| ensures t[i] != t[j] {
        assert j >= |a| ==> t[j] == b[j - |a|] && b[j - |a|] in b;
        assert i >= |a| ==> t[i] == b[i - |a|];
      }
    }
  }

  ghost predicate AllApart(objects: seq<Object>) {
    forall i, j :: 0 <= i < j < |objects| ==> Apart(objects[i], objects[j])
  }

  lemma {:induction false} DistinctWhenApart(objects: seq<Object>)
    ensures Distinct(Symbols(objects)) <==> AllApart(objects)
  {
    hide Own, Distinct;
    if objects == [] {
      assert Distinct(Symbols([])) by { NoSymbols(); }
    } else {
      var n := |objects| - 1;
      var init, last := objects[..n], objects[n];
      DistinctWhenApart(init);
      DistinctParts(Symbols(init), Own(last));
      OwnAreDistinct(last);
      forall s ensures s in Symbols(init) <==> exists i :: 0 <= i < n && s in Own(objects[i]) {
        SymbolOfSome(init, s);
        assert forall i :: 0 <= i < n ==> init[i] == objects[i];
      }
      hide Symbols;
      assert AllApart(objects) <==> AllApart(init) && forall i :: 0 <= i < n ==> Apart(objects[i], last);
    }
  }

  lemma NoSymbols()
    ensures Distinct(Symbols([]))
  {
  }

  /** The symbols are distinct exactly when the names are, none of them is another one with "_size"
      behind it, and none is the one of a JSON module with "_module_name" behind it. */
  lemma SymbolsDistinctIff(objects: seq<Object>)
    ensures Distinct(Symbols(objects)) <==>
            forall i, j :: 0 <= i < |objects| && 0 <= j < |objects| && i != j ==>
              objects[i].name != objects[j].name && !Clash(objects[i], objects[j])
  {
    DistinctWhenApart(objects);
    hide Own, Symbols, Distinct, Clash, Apart;
    forall i, j | 0 <= i < j < |objects|
      ensures Apart(objects[i], objects[j]) <==>
                objects[i].name != objects[j].name &&
                !Clash(objects[i], objects[j]) && !Clash(objects[j], objects[i])
    {
      ApartIff(objects[i], objects[j]);
    }
  }

  lemma FitsWhole(s: CString, size: nat)
    requires |s| < size
    ensures Fit(s, size) == s
  {
  }

  lemma SanitizedStays(s: CString)
    requires forall k :: 0 <= k < |s| ==> IsAlphanumeric(s[k]) || s[k] == UNDERSCORE
    ensures SanitizeAll(s) == s
  {
  }

  lemma CleanStemStays(f: CString, t: CString)
    requires Stem(f) == t && |t| <= 1000
    requires forall k :: 0 <= k < |t| ==> IsAlphanumeric(t[k]) || t[k] == UNDERSCORE
    ensures CName(f, 1024) == PREFIX + t
  {
    hide Stem, SanitizeAll, Fit, IsAlphanumeric;
    SanitizedStays(t);
    FitsWhole(PREFIX + t, 1024);
  }

  /** Letters, digits and underscores, few enough for the name to stay whole. */
  ghost predicate IsCleanStem(t: CString) {
    |t| <= 1000 && forall k :: 0 <= k < |t| ==> IsAlphanumeric(t[k]) || t[k] == UNDERSCORE
  }

  /** The extension begins at its only dot. */
  ghost predicate IsExtension(e: CString) {
    e != [] && e[0] == 46 && forall k :: 1 <= k < |e| ==> e[k] != 46 && e[k] != 47
  }

  lemma NameOfFile(t: CString, e: CString)
    requires IsCleanStem(t) && IsExtension(e)
    ensures CName(t + e, 1024) == PREFIX + t
  {
    hide CName, Stem;
    var f := t + e;
    assert f[..|t|] == t && f[|t|] == e[0];
    forall k | |t| < k < |f| ensures f[k] != 46 {
      assert f[k] == e[k - |t|];
    }
    NoSlash(t, e);
    StemOf(f, |t|);
    CleanStemStays(f, t);
  }

  lemma ClashRepeatsSymbol(x: Object, y: Object)
    requires Clash(y, x)
    ensures x.name != y.name && !Distinct(Symbols([x, y]))
  {
    SuffixesDiffer(x.name, x.name);
    hide Symbols;
    assert [x, y][0] == x && [x, y][1] == y;
    SymbolsDistinctIff([x, y]);
  }

  /** ".js" and ".json" */
  const JS: CString := [46, 106, 115]
  const JSON: CString := [46, 106, 115, 111, 110]

  /** Modules t.js and t_size.js get different names that share a symbol. */
  lemma DistinctNamesCanShareSymbol(t: CString)
    requires IsCleanStem(t) && IsCleanStem(t + SIZE_SUFFIX)
    ensures var a, b := CName(t + JS, 1024), CName(t + SIZE_SUFFIX + JS, 1024);
            a != b && !Distinct(Symbols([Object(a, false), Object(b, false)]))
  {
    hide CName, Symbols, IsCleanStem;
    NameOfFile(t, JS);
    NameOfFile(t + SIZE_SUFFIX, JS);
    assert PREFIX + (t + SIZE_SUFFIX) == PREFIX + t + SIZE_SUFFIX;
    ClashRepeatsSymbol(Object(PREFIX + t, false), Object(PREFIX + t + SIZE_SUFFIX, false));
  }

  /** So do the modules t.json and t_module_name.js. */
  lemma JsonNameCanShareSymbol(t: CString)
    requires IsCleanStem(t) && IsCleanStem(t + MODULE_NAME_SUFFIX)
    ensures var a, b := CName(t + JSON, 1024), CName(t + MODULE_NAME_SUFFIX + JS, 1024);
            a != b && !Distinct(Symbols([Object(a, true), Object(b, false)]))
  {
    hide CName, Symbols, IsCleanStem;
    NameOfFile(t, JSON);
    NameOfFile(t + MODULE_NAME_SUFFIX, JS);
    assert PREFIX + (t + MODULE_NAME_SUFFIX) == PREFIX + t + MODULE_NAME_SUFFIX;
    ClashRepeatsSymbol(Object(PREFIX + t, true), Object(PREFIX + t + MODULE_NAME_SUFFIX, false));
  }

  /** After module lib/t.js the main file t.mjs gets the same name. */
  lemma MainFileCanRepeatName(t: CString)
    requires IsCleanStem(t)
    ensures var dir: CString := [108, 105, 98]; var mjs: CString := [46, 109, 106, 115];
            var name := CName(dir + [47] + (t + JS), 1024);
            name == CName(t + mjs, 1024) == PREFIX + t && !Distinct([name] + [name])
  {
    var mjs: CString := [46, 109, 106, 115];
    assert IsExtension(JS) && IsExtension(mjs);
    NameOfFile(t, JS);
    NameOfFile(t, mjs);
    hide Stem;
    assert 47 !in t + JS by { NoSlash(t, JS); }
    StemBehindDirectory([108, 105, 98], t + JS);
    hide CName;
    var names: seq<CString> := [PREFIX + t] + [PREFIX + t];
    assert names[0] == names[1];
  }

  lemma NoSlash(t: CString, e: CString)
    requires IsCleanStem(t) && IsExtension(e)
    ensures 47 !in t + e
  {
    forall c | c in t + e ensures c != 47 {
      var k :| 0 <= k < |t + e| && (t + e)[k] == c;
      assert k < |t| ==> c == t[k];
      assert k >= |t| ==> c == e[k - |t|];
    }
  }

  lemma StemBehindDirectory(dir: CString, base: CString)
    requires 47 !in base
    ensures Stem(dir + [47] + base) == Stem(base)
  {
    hide LastIndex;
    var f := dir + [47] + base;
    forall k | |dir| < k < |f| ensures f[k] != 47 {
      assert f[k] == base[k - |dir| - 1];
    }
    assert f[|dir|] == 47;
    assert LastIndex(f, 47) == |dir|;
    assert LastIndex(base, 47) == -1;
    assert f[|dir| + 1..] == base == base[0..];
  }

  /** A file name without directories and with one dot. */
  lemma StemOf(f: CString, dot: nat)
    requires dot < |f| && f[dot] == 46 && 47 !in f
    requires forall k :: dot < k < |f| ==> f[k] != 46
    ensures Stem(f) == f[..dot]
  {
    hide LastIndex;
    assert LastIndex(f, 47) == -1;
    assert f[0..] == f;
    assert LastIndex(f, 46) == dot;
  }
}
