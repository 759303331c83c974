/** The ring-buffer text generator of random.c. */
module RingGenerator {
  import opened Arithmetic

  /** The position in the ring after x steps from its start. */
  function Around(x: nat, size: nat): (r: nat)
    requires size > 0
    ensures r < size
  {
    x % size
  }

  /** The next len bytes of the endless repetition of data, from pos on. */
  function Stream(data: seq<int>, pos: nat, len: nat): (s: seq<int>)
    requires data != []
    ensures |s| == len
  {
    seq(len, i requires 0 <= i < len => data[Around(pos + i, |data|)])
  }

  datatype Generated = Nothing | Text(bytes: seq<int>)

  class RandomGenerator {
    const data: seq<int>
    var pos: nat

    ghost predicate Valid()
      reads this
    {
      data != [] ==> pos < |data|
    }

    /** rand_gen_init copies the data and starts at its first byte. */
    constructor (data: seq<int>)
      ensures Valid() && this.data == data && pos == 0
    {
      this.data := data;
      pos := 0;
    }

    /** rand_gen_generate; a negative length yields nothing. */
    method Generate(len: int) returns (r: Generated)
      requires Valid() && (len > 0 ==> data != [])
      modifies this
      ensures Valid()
      ensures len < 0 ==> r == Nothing && pos == old(pos)
      ensures len == 0 ==> r == Text([]) && pos == old(pos)
      ensures len > 0 ==> r == Text(Stream(data, old(pos), len)) && pos == (old(pos) + len) % |data|
      ensures len > 0 ==> |r.bytes| == len && forall i :: 0 <= i < len ==> r.bytes[i] == data[(old(pos) + i) % |data|]
    {
      if len < 0 {
        return Nothing;
      }
      hide Around;
      var substr := [];
      if data != [] {
        StaysInRing(pos, |data|);
      }
      for i := 0 to len
        invariant Valid()
        invariant data != [] ==> substr == Stream(data, old(pos), i) && pos == Around(old(pos) + i, |data|)
        invariant data == [] ==> substr == [] && pos == old(pos)
      {
        Shift(old(pos) + i, 1, |data|);
        substr := substr + [data[pos]];
        pos := Around(pos + 1, |data|);
      }
      r := Text(substr);
      if len > 0 {
        IsRemainder(old(pos) + len, |data|);
        StreamRepeats(data, old(pos), len);
      }
    }
  }

  lemma IsRemainder(x: nat, size: nat)
    requires size > 0
    ensures Around(x, size) == x % size
  {
  }

  /** The text is data over and over: every byte by its place, and a whole round from the start. */
  lemma StreamRepeats(data: seq<int>, pos: nat, len: nat)
    requires data != []
    ensures forall i :: 0 <= i < len ==> Stream(data, pos, len)[i] == data[(pos + i) % |data|]
    ensures Stream(data, 0, |data|) == data
  {
    forall i | 0 <= i < |data| ensures Stream(data, 0, |data|)[i] == data[i] {
      StaysInRing(i, |data|);
    }
    hide Around;
    forall i | 0 <= i < len ensures Stream(data, pos, len)[i] == data[(pos + i) % |data|] {
      IsRemainder(pos + i, |data|);
    }
  }

  lemma StaysInRing(pos: nat, size: nat)
    requires pos < size
    ensures Around(pos, size) == pos
  {
    DivModUnique(size, 0, pos);
  }

  /** Generating in two portions yields the same text as generating it at once. */
  lemma StreamSplits(data: seq<int>, pos: nat, m: nat, n: nat)
    requires data != []
    ensures Stream(data, pos, m + n) == Stream(data, pos, m) + Stream(data, Around(pos + m, |data|), n)
  {
    hide Around;
    var all, first, second := Stream(data, pos, m + n), Stream(data, pos, m), Stream(data, Around(pos + m, |data|), n);
    forall i: nat | i < n ensures second[i] == all[m + i] {
      Shift(pos + m, i, |data|);
      assert pos + m + i == pos + (m + i);
    }
    assert forall i: nat :: i < m ==> first[i] == all[i];
  }

  lemma Shift(x: nat, i: nat, size: nat)
    requires size > 0
    ensures Around(Around(x, size) + i, size) == Around(x + i, size)
  {
    var q, r := x / size, x % size;
    var p, s := (r + i) / size, (r + i) % size;
    assert x == size * q + r && r + i == size * p + s;
    Distribute(size, q, p);
    assert x + i == size * (q + p) + s;
    DivModUnique(size, q + p, s);
  }
}
