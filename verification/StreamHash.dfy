/** The streaming hash of speedtest1.c: a permutation of the bytes with two cursors. */
module StreamHash {

  type UnsignedChar = b: int | 0 <= b < 256

  type Table = s: seq<UnsignedChar> | |s| == 256 witness seq(256, k => k % 256)

  /** Addition with the wrap-around of an unsigned char. */
  function Add(x: int, y: int): UnsignedChar {
    (x + y) % 256
  }

  function Sub(x: int, y: int): UnsignedChar {
    (x - y) % 256
  }

  lemma AddCommutes(x: int, y: int)
    ensures Add(x, y) == Add(y, x)
  {
  }

  /** Sum and difference wrap around at 256. */
  lemma BytesWrap(x: UnsignedChar, y: UnsignedChar)
    ensures Add(x, y) == if x + y < 256 then x + y else x + y - 256
    ensures Sub(x, y) == if x < y then x - y + 256 else x - y
  {
  }

  /** g.hash.s, g.hash.i and g.hash.j */
  datatype State = State(s: Table, i: UnsignedChar, j: UnsignedChar)

  ghost predicate IsPermutation(s: seq<UnsignedChar>) {
    && |s| == 256
    && (forall a, b :: 0 <= a < b < 256 ==> s[a] != s[b])
  }

  function Swap(s: Table, a: UnsignedChar, b: UnsignedChar): (r: Table)
  {
    s[a := s[b]][b := s[a]]
  }

  /** One byte of a message. */
  function Absorb(h: State, byte: UnsignedChar): State
  {
    var j := Add(h.j, Add(h.s[h.i], byte));
    State(Swap(h.s, h.i, j), Add(h.i, 1), j)
  }

  /** The state after a message. */
  function AbsorbAll(h: State, message: seq<UnsignedChar>): (r: State)
    decreases |message|
  {
    if message == [] then h else AbsorbAll(Absorb(h, message[0]), message[1..])
  }

  /** HashFinal's cursors and table after k output bytes, and those bytes. */
  datatype Output = Output(s: Table, i: UnsignedChar, j: UnsignedChar, r: seq<UnsignedChar>)

  function Emit(o: Output): Output
  {
    var i := Add(o.i, 1);
    var t := o.s[i];
    var j := Add(o.j, t);
    var s := o.s[i := o.s[j]][j := t];
    Output(s, i, j, o.r + [s[Add(t, s[i])]])
  }

  function EmitMany(o: Output, k: nat): (r: Output)
    ensures |r.r| == |o.r| + k
  {
    if k == 0 then o else Emit(EmitMany(o, k - 1))
  }

  class Hash {
    const s: array<UnsignedChar>
    var i: UnsignedChar
    var j: UnsignedChar
    const r: array<UnsignedChar>

    ghost predicate Valid()
      reads this, s
    {
      s.Length == 256 && r.Length == 32 && s != r && IsPermutation(s[..])
    }

    ghost function Value(): State
      requires s.Length == 256
      reads this, s
    {
      State(s[..], i, j)
    }

    /** HashInit on fresh arrays. */
    constructor ()
      ensures Valid() && fresh(s) && fresh(r)
      ensures i == 0 && j == 0 && forall k :: 0 <= k < 256 ==> s[k] == k
    {
      s := new UnsignedChar[256](k => k % 256);
      r := new UnsignedChar[32](_ => 0);
      i, j := 0, 0;
    }

    /** HashUpdate; the trace holds the table and the cursors after each byte. */
    method Update(message: seq<UnsignedChar>) returns (ghost trace: seq<State>)
      requires Valid()
      modifies this, s
      ensures Valid() && multiset(s[..]) == multiset(old(s[..]))
      ensures Value() == AbsorbAll(old(Value()), message)
      ensures |trace| == |message| + 1 && trace[0] == old(Value()) && trace[|message|] == Value()
      ensures forall k :: 0 <= k < |message| ==>
                var h, j' := trace[k], Add(trace[k].j, Add(trace[k].s[trace[k].i], message[k]));
                trace[k + 1] == State(h.s[h.i := h.s[j']][j' := h.s[h.i]], Add(h.i, 1), j')
    {
      hide Add;
      ghost var start := Value();
      assert message[..0] == [];
      for k := 0 to |message|
        invariant Valid()
        invariant AbsorbAll(Value(), message[k..]) == AbsorbAll(start, message)
      {
        ghost var h := Value();
        AbsorbKeepsPermutation(h, message[k]);
        var i', j' := i, Add(j, Add(s[i], message[k]));
        var t := s[j'];
        s[j'] := s[i'];
        s[i'] := t;
        i, j := Add(i, 1), j';
        assert s[..] == Swap(h.s, h.i, j');
        assert message[k..][1..] == message[k + 1..];
      }
      trace := AbsorbTrace(start, message);
      AbsorbKeepsBytes(start, message);
    }

    /** HashFinal works on copies of the cursors but on the table itself; the trace holds the table
        and those copies after each output byte. */
    method Final() returns (ghost trace: seq<State>)
      requires Valid()
      modifies s, r
      ensures Valid() && multiset(s[..]) == multiset(old(s[..]))
      ensures i == old(i) && j == old(j)
      ensures var o := EmitMany(Output(old(s[..]), i, j, []), 32); s[..] == o.s && r[..] == o.r
      ensures |trace| == 33 && trace[0] == old(Value()) && trace[32].s == s[..]
      ensures forall k :: 0 <= k < 32 ==>
                var h, g, i' := trace[k], trace[k + 1], Add(trace[k].i, 1);
                var j' := Add(h.j, h.s[i']);
                && g == State(h.s[i' := h.s[j']][j' := h.s[i']], i', j')
                && r[k] == g.s[Add(g.s[i'], g.s[j'])]
    {
      hide Add;
      ghost var o := Output(s[..], i, j, []);
      var i', j' := i, j;
      for k := 0 to 32
        invariant Valid()
        invariant EmitMany(o, k) == Output(s[..], i', j', r[..k])
      {
        ghost var before := EmitMany(o, k);
        EmitKeepsPermutation(before);
        i' := Add(i', 1);
        var t := s[i'];
        j' := Add(j', t);
        s[i'] := s[j'];
        s[j'] := t;
        assert s[..] == Emit(before).s;
        t := Add(t, s[i']);
        r[k] := s[t];
        assert r[..k + 1] == r[..k] + [s[t]];
      }
      assert r[..] == r[..32];
      ghost var bytes;
      trace, bytes := EmitTrace(o, 32);
      assert bytes == r[..];
      EmitKeepsBytes(o, 32);
    }
  }

  // ----- The table stays a permutation -----

  lemma SwapKeepsPermutation(s: Table, a: UnsignedChar, b: UnsignedChar)
    requires IsPermutation(s)
    ensures IsPermutation(Swap(s, a, b))
  {
  }

  lemma AbsorbKeepsPermutation(h: State, byte: UnsignedChar)
    requires IsPermutation(h.s)
    ensures IsPermutation(Absorb(h, byte).s)
  {
    SwapKeepsPermutation(h.s, h.i, Absorb(h, byte).j);
  }

  lemma EmitKeepsPermutation(o: Output)
    requires IsPermutation(o.s)
    ensures IsPermutation(Emit(o).s)
  {
    var i := Add(o.i, 1);
    SwapKeepsPermutation(o.s, i, Add(o.j, o.s[i]));
  }

  lemma SwapKeepsBytes(s: Table, a: UnsignedChar, b: UnsignedChar)
    ensures multiset(Swap(s, a, b)) == multiset(s)
  {
  }

  lemma {:induction false} AbsorbKeepsBytes(h: State, message: seq<UnsignedChar>)
    ensures multiset(AbsorbAll(h, message).s) == multiset(h.s)
    decreases |message|
  {
    hide Add, Swap;
    if message != [] {
      SwapKeepsBytes(h.s, h.i, Absorb(h, message[0]).j);
      AbsorbKeepsBytes(Absorb(h, message[0]), message[1..]);
    }
  }

  lemma {:induction false} EmitKeepsBytes(o: Output, k: nat)
    ensures multiset(EmitMany(o, k).s) == multiset(o.s)
  {
    hide Emit, Swap;
    if k > 0 {
      EmitKeepsBytes(o, k - 1);
      EmitSwaps(EmitMany(o, k - 1));
    }
  }

  lemma ExchangeIsSwap(s: Table, a: UnsignedChar, b: UnsignedChar)
    ensures s[a := s[b]][b := s[a]] == Swap(s, a, b)
  {
  }

  lemma EmitSwaps(o: Output)
    ensures multiset(Emit(o).s) == multiset(o.s)
  {
    hide Add, Swap;
    var i := Add(o.i, 1);
    var j := Add(o.j, o.s[i]);
    ExchangeIsSwap(o.s, i, j);
    SwapKeepsBytes(o.s, i, j);
  }

  // ----- Step by step -----

  lemma AbsorbStep(h: State, byte: UnsignedChar)
    ensures var j' := Add(h.j, Add(h.s[h.i], byte));
            Absorb(h, byte) == State(h.s[h.i := h.s[j']][j' := h.s[h.i]], Add(h.i, 1), j')
  {
    hide Add;
  }

  lemma EmitStep(o: Output)
    ensures var i', e := Add(o.i, 1), Emit(o);
            var j' := Add(o.j, o.s[i']);
            && e.s == o.s[i' := o.s[j']][j' := o.s[i']] && e.i == i' && e.j == j'
            && e.r == o.r + [e.s[Add(e.s[i'], e.s[j'])]]
  {
    hide Add;
    AddCommutes(o.s[Add(o.i, 1)], o.s[Add(o.j, o.s[Add(o.i, 1)])]);
  }

  lemma AbsorbOneMore(h: State, message: seq<UnsignedChar>, k: nat)
    requires k < |message|
    ensures AbsorbAll(h, message[..k + 1]) == Absorb(AbsorbAll(h, message[..k]), message[k])
  {
    assert message[..k + 1] == message[..k] + [message[k]];
    AbsorbInPortions(h, message[..k], [message[k]]);
    LastByte(AbsorbAll(h, message[..k]), message[k]);
  }

  /** The states after each byte of a message. */
  lemma AbsorbTrace(h: State, message: seq<UnsignedChar>) returns (trace: seq<State>)
    ensures |trace| == |message| + 1 && trace[0] == h && trace[|message|] == AbsorbAll(h, message)
    ensures forall k :: 0 <= k < |message| ==>
              var g, j' := trace[k], Add(trace[k].j, Add(trace[k].s[trace[k].i], message[k]));
              trace[k + 1] == State(g.s[g.i := g.s[j']][j' := g.s[g.i]], Add(g.i, 1), j')
  {
    trace := seq(|message| + 1, k requires 0 <= k <= |message| => AbsorbAll(h, message[..k]));
    assert message[..|message|] == message && AbsorbAll(h, []) == h;
    hide Absorb, AbsorbAll;
    forall k | 0 <= k < |message|
      ensures var g, j' := trace[k], Add(trace[k].j, Add(trace[k].s[trace[k].i], message[k]));
              trace[k + 1] == State(g.s[g.i := g.s[j']][j' := g.s[g.i]], Add(g.i, 1), j')
    {
      AbsorbOneMore(h, message, k);
      AbsorbStep(trace[k], message[k]);
    }
  }

  lemma {:induction false} EmittedStays(o: Output, k: nat, n: nat)
    requires k <= n
    ensures EmitMany(o, k).r <= EmitMany(o, n).r
    decreases n
  {
    hide Add;
    if k < n {
      EmittedStays(o, k, n - 1);
    }
  }

  lemma EmitOneMore(o: Output, k: nat)
    ensures EmitMany(o, k + 1) == Emit(EmitMany(o, k))
  {
  }

  /** Table and cursors after k output bytes. */
  ghost function Emitted(o: Output, k: nat): State {
    var e := EmitMany(o, k);
    State(e.s, e.i, e.j)
  }

  lemma EmittedStep(o: Output, k: nat, n: nat)
    requires k < n
    ensures var h, g, i' := Emitted(o, k), Emitted(o, k + 1), Add(Emitted(o, k).i, 1);
            var j' := Add(h.j, h.s[i']);
            && g == State(h.s[i' := h.s[j']][j' := h.s[i']], i', j')
            && EmitMany(o, n).r[|o.r| + k] == g.s[Add(g.s[i'], g.s[j'])]
  {
    EmitOneMore(o, k);
    EmittedStays(o, k + 1, n);
    hide Emit, EmitMany;
    EmitStep(EmitMany(o, k));
  }

  /** The states after each output byte, and the bytes. */
  lemma EmitTrace(o: Output, n: nat) returns (trace: seq<State>, bytes: seq<UnsignedChar>)
    ensures var e := EmitMany(o, n);
            && |trace| == n + 1 && trace[0] == State(o.s, o.i, o.j) && trace[n] == State(e.s, e.i, e.j)
            && e.r == o.r + bytes
    ensures |bytes| == n
    ensures forall k :: 0 <= k < n ==>
              var h, g, i' := trace[k], trace[k + 1], Add(trace[k].i, 1);
              var j' := Add(h.j, h.s[i']);
              && g == State(h.s[i' := h.s[j']][j' := h.s[i']], i', j')
              && bytes[k] == g.s[Add(g.s[i'], g.s[j'])]
  {
    hide Emit, Add;
    trace := seq(n + 1, k requires 0 <= k <= n => Emitted(o, k));
    bytes := EmitMany(o, n).r[|o.r|..];
    EmittedStays(o, 0, n);
    assert trace[0] == State(o.s, o.i, o.j);
    assert trace[n] == var e := EmitMany(o, n); State(e.s, e.i, e.j);
    hide EmitMany, Emitted;
    forall k | 0 <= k < n
      ensures var h, g, i' := trace[k], trace[k + 1], Add(trace[k].i, 1);
              var j' := Add(h.j, h.s[i']);
              && g == State(h.s[i' := h.s[j']][j' := h.s[i']], i', j')
              && bytes[k] == g.s[Add(g.s[i'], g.s[j'])]
    {
      EmittedStep(o, k, n);
    }
  }

  /** Undoes the exchange and the cursors of one output byte. */
  function Rewind(h: State): State
  {
    var s := Swap(h.s, h.i, h.j);
    State(s, Sub(h.i, 1), Sub(h.j, s[h.i]))
  }

  function RewindMany(h: State, k: nat): (r: State)
    decreases k
  {
    if k == 0 then h else RewindMany(Rewind(h), k - 1)
  }

  lemma RewindUndoesEmit(o: Output)
    ensures var e := Emit(o); Rewind(State(e.s, e.i, e.j)) == State(o.s, o.i, o.j)
  {
    hide Add, Sub, Swap;
    var i := Add(o.i, 1);
    var j := Add(o.j, o.s[i]);
    CursorReturns(o.i, 1);
    CursorReturns(o.j, o.s[i]);
    ExchangeIsSwap(o.s, i, j);
    SwapTwice(o.s, i, j);
  }

  /** The table and the cursors after any number of output bytes give back those before. */
  lemma {:induction false} EmitIsReversible(o: Output, k: nat)
    ensures var e := EmitMany(o, k); RewindMany(State(e.s, e.i, e.j), k) == State(o.s, o.i, o.j)
  {
    if k > 0 {
      RewindUndoesEmit(EmitMany(o, k - 1));
      EmitIsReversible(o, k - 1);
    }
  }

  /** The first bytes of a hash over nothing. */
  lemma FirstBytes(o: Output)
    requires (forall k :: 0 <= k < 256 ==> o.s[k] == k) && o.i == o.j == 0 && o.r == []
    ensures EmitMany(o, 3).r == [2, 5, 7]
  {
    var a := EmitMany(o, 1);
    var b := EmitMany(o, 2);
    EmitStep(o);
    EmitStep(a);
    EmitStep(b);
    hide Emit;
    assert EmitMany(o, 0) == o && EmitMany(o, 3) == Emit(b);
    assert a.i == 1 && a.j == 1 && a.r == [2] && a.s == o.s;
    assert b.i == 2 && b.j == 3 && b.r == [2, 5];
  }

  // ----- Laws of HashUpdate -----

  /** Hashing in two portions is hashing at once. */
  lemma {:induction false} AbsorbInPortions(h: State, a: seq<UnsignedChar>, b: seq<UnsignedChar>)
    ensures AbsorbAll(h, a + b) == AbsorbAll(AbsorbAll(h, a), b)
    decreases |a|
  {
    hide Absorb;
    if a == [] {
      assert a + b == b;
    } else {
      AbsorbInPortions(Absorb(h, a[0]), a[1..], b);
      assert (a + b)[1..] == a[1..] + b;
    }
  }

  /** Undoes the last byte of a message. */
  function Release(h: State, byte: UnsignedChar): State
  {
    var i := Add(h.i, 255);
    var s := Swap(h.s, i, h.j);
    State(s, i, Sub(h.j, Add(s[i], byte)))
  }

  function ReleaseAll(h: State, message: seq<UnsignedChar>): (r: State)
    decreases |message|
  {
    if message == [] then h
    else ReleaseAll(Release(h, message[|message| - 1]), message[..|message| - 1])
  }

  lemma SwapTwice(s: Table, a: UnsignedChar, b: UnsignedChar)
    ensures Swap(Swap(s, a, b), a, b) == s
  {
  }

  lemma StepReturns(i: UnsignedChar)
    ensures Add(Add(i, 1), 255) == i && Add(Add(i, 255), 1) == i
  {
    hide Add;
    BytesWrap(i, 1);
    BytesWrap(i, 255);
    BytesWrap(Add(i, 1), 255);
    BytesWrap(Add(i, 255), 1);
  }

  lemma CursorReturns(j: UnsignedChar, x: UnsignedChar)
    ensures Sub(Add(j, x), x) == j && Add(Sub(j, x), x) == j
  {
    hide Add, Sub;
    BytesWrap(j, x);
    BytesWrap(Add(j, x), x);
    BytesWrap(Sub(j, x), x);
  }

  lemma ReleaseUndoesAbsorb(h: State, byte: UnsignedChar)
    ensures Release(Absorb(h, byte), byte) == h
  {
    hide Add, Sub, Swap;
    StepReturns(h.i);
    SwapTwice(h.s, h.i, Absorb(h, byte).j);
    CursorReturns(h.j, Add(h.s[h.i], byte));
  }

  lemma AbsorbUndoesRelease(h: State, byte: UnsignedChar)
    ensures Absorb(Release(h, byte), byte) == h
  {
    hide Add, Sub, Swap;
    var g := Release(h, byte);
    StepReturns(h.i);
    SwapTwice(h.s, g.i, h.j);
    CursorReturns(h.j, Add(g.s[g.i], byte));
  }

  /** For a fixed message HashUpdate is a bijection on the states. */
  lemma {:induction false} UpdateIsBijection(h: State, message: seq<UnsignedChar>)
    ensures ReleaseAll(AbsorbAll(h, message), message) == h
    ensures AbsorbAll(ReleaseAll(h, message), message) == h
    decreases |message|
  {
    if message != [] {
      var init, last := message[..|message| - 1], message[|message| - 1];
      assert message == init + [last];
      AbsorbInPortions(h, init, [last]);
      LastByte(AbsorbAll(h, init), last);
      ReleaseUndoesAbsorb(AbsorbAll(h, init), last);
      UpdateIsBijection(h, init);
      var g := Release(h, last);
      UpdateIsBijection(g, init);
      AbsorbInPortions(ReleaseAll(g, init), init, [last]);
      LastByte(g, last);
      AbsorbUndoesRelease(h, last);
    }
  }

  lemma LastByte(h: State, byte: UnsignedChar)
    ensures AbsorbAll(h, [byte]) == Absorb(h, byte)
  {
  }

  /** Two messages of one byte never lead to the same state. */
  lemma DifferentBytesDiffer(h: State, x: UnsignedChar, y: UnsignedChar)
    requires |h.s| == 256 && x != y
    ensures Absorb(h, x).j != Absorb(h, y).j
  {
    hide Add;
    var v := h.s[h.i];
    AddCancels(v, x, y);
    AddCancels(h.j, Add(v, x), Add(v, y));
  }

  lemma AddCancels(j: UnsignedChar, x: UnsignedChar, y: UnsignedChar)
    ensures Add(j, x) == Add(j, y) <==> x == y
  {
    hide Add;
    BytesWrap(j, x);
    BytesWrap(j, y);
  }
}
