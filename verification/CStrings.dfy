/** C strings: the bytes before the terminating NUL. */
module CStrings {

  type Byte = b: int | 1 <= b < 256 witness 1

  type CString = seq<Byte>

  /** The byte at offset i, the terminator included.  Reading past the terminator is an error. */
  function At(s: CString, i: nat): int
    requires i <= |s|
  {
    if i < |s| then s[i] else 0
  }

  /** isdigit in the C locale. */
  predicate IsDigit(c: int) {
    48 <= c <= 57
  }

  predicate HasPrefix(s: CString, prefix: CString) {
    prefix <= s
  }

  predicate HasSuffix(s: CString, suffix: CString) {
    |suffix| <= |s| && s[|s| - |suffix|..] == suffix
  }

  function ByteOf(c: char): Byte
    requires 1 <= c as int < 256
  {
    c as int
  }

  /** The bytes of a text of 8-bit characters. */
  function Bytes(text: string): (r: CString)
    requires forall i :: 0 <= i < |text| ==> 1 <= text[i] as int < 256
    ensures |r| == |text|
  {
    seq(|text|, i requires 0 <= i < |text| => ByteOf(text[i]))
  }

  /** %d of a non-negative number. */
  function Decimal(n: nat): (r: CString)
    ensures |r| >= 1 && (|r| == 1 <==> n < 10)
  {
    if n < 10 then [48 + n] else Decimal(n / 10) + [48 + n % 10]
  }

  lemma DigitsAreDecimals(c: int)
    ensures IsDigit(c) <==> '0' as int <= c <= '9' as int
    ensures IsDigit(c) <==> exists d: nat :: d < 10 && Decimal(d) == [c]
  {
    if IsDigit(c) {
      assert Decimal(c - 48) == [c];
    }
  }

  lemma PrefixIff(s: CString, prefix: CString)
    ensures HasPrefix(s, prefix) <==> exists rest: CString :: s == prefix + rest
  {
    if HasPrefix(s, prefix) {
      assert s == prefix + s[|prefix|..];
    }
  }

  lemma SuffixIff(s: CString, suffix: CString)
    ensures HasSuffix(s, suffix) <==> exists front: CString :: s == front + suffix
  {
    if HasSuffix(s, suffix) {
      assert s == s[..|s| - |suffix|] + suffix;
    }
  }
}
