/** The accounting of the tracing allocator of qjs.c.

    The C library's answers are parameters: `grant` is what malloc or realloc would return.  What
    is assumed of them (`Grantable`) is what a 64-bit C library guarantees: a block that is not
    in use, at least as large as asked for, in an address space of 2^64 bytes. */
module TraceMalloc {

  /** size_t arithmetic. */
  const W: nat := 0x1_0000_0000_0000_0000

  const MALLOC_OVERHEAD: nat := 8

  /** A live block; usable is what malloc_usable_size reports for it. */
  datatype Block = Block(ptr: nat, usable: nat)

  datatype Grant = Refused | Granted(block: Block)

  /** Usable bytes plus overhead of all live blocks. */
  ghost function Footprint(live: seq<Block>): nat {
    if live == [] then 0 else Footprint(live[1..]) + live[0].usable + MALLOC_OVERHEAD
  }

  predicate IsLive(live: seq<Block>, ptr: nat) {
    exists k :: 0 <= k < |live| && live[k].ptr == ptr
  }

  function IndexOf(live: seq<Block>, ptr: nat): (k: nat)
    requires IsLive(live, ptr)
    ensures k < |live| && live[k].ptr == ptr
  {
    if live[0].ptr == ptr then 0
    else
      assert IsLive(live[1..], ptr) by {
        var k :| 0 <= k < |live| && live[k].ptr == ptr;
        assert live[1..][k - 1] == live[k];
      }
      1 + IndexOf(live[1..], ptr)
  }

  function Remove(live: seq<Block>, ptr: nat): (r: seq<Block>)
    requires IsLive(live, ptr)
    ensures |r| == |live| - 1
  {
    var k := IndexOf(live, ptr);
    live[..k] + live[k + 1..]
  }

  lemma {:induction false} FootprintWithout(live: seq<Block>, k: nat)
    requires k < |live|
    ensures Footprint(live) == Footprint(live[..k] + live[k + 1..]) + live[k].usable + 8 && Footprint([]) == 0
  {
    if k == 0 {
      assert live[..0] + live[1..] == live[1..];
    } else {
      FootprintWithout(live[1..], k - 1);
      var r := live[..k] + live[k + 1..];
      assert r[1..] == live[1..][..k - 1] + live[1..][k..];
      assert r[0] == live[0];
    }
  }

  lemma FootprintWith(live: seq<Block>, b: Block)
    ensures Footprint([b] + live) == Footprint(live) + b.usable + MALLOC_OVERHEAD
  {
  }

  lemma FootprintOfOthers(live: seq<Block>, ptr: nat)
    requires IsLive(live, ptr)
    ensures Footprint(live) == Footprint(Remove(live, ptr)) + live[IndexOf(live, ptr)].usable + MALLOC_OVERHEAD
  {
    FootprintWithout(live, IndexOf(live, ptr));
  }

  /** A live block gives way to another one. */
  lemma ReplacementFits(live: seq<Block>, ptr: nat, b: Block)
    requires DistinctPointers(live) && IsLive(live, ptr) && b.ptr != 0 && !IsLive(Remove(live, ptr), b.ptr)
    ensures var after := [b] + Remove(live, ptr);
            && DistinctPointers(after) && |after| == |live|
            && Footprint(after) == Footprint(Remove(live, ptr)) + b.usable + MALLOC_OVERHEAD
            && Footprint(after) == Footprint(live) - live[IndexOf(live, ptr)].usable + b.usable
  {
    var rest := Remove(live, ptr);
    hide Remove, IndexOf, IsLive;
    FootprintOfOthers(live, ptr);
    FootprintWith(rest, b);
    RemoveKeepsDistinct(live, ptr);
    PrependKeepsDistinct(rest, b);
    hide Footprint, DistinctPointers;
  }

  ghost predicate DistinctPointers(live: seq<Block>) {
    && (forall k :: 0 <= k < |live| ==> live[k].ptr != 0)
    && (forall j, k :: 0 <= j < k < |live| ==> live[j].ptr != live[k].ptr)
  }

  /** What the C library may answer to a request for `size` bytes next to the blocks `others`. */
  ghost predicate Grantable(others: seq<Block>, size: nat, grant: Grant) {
    grant.Granted? ==>
      && grant.block.ptr != 0 && !IsLive(others, grant.block.ptr)
      && grant.block.usable >= size
      && Footprint(others) + grant.block.usable + MALLOC_OVERHEAD < W
  }

  /** Any block that is not in use, large enough and within the address space will do. */
  lemma GrantableIff(others: seq<Block>, size: nat, block: Block)
    ensures Grantable(others, size, Refused)
    ensures Grantable(others, size, Granted(block)) <==>
              && block.ptr != 0 && (forall k :: 0 <= k < |others| ==> others[k].ptr != block.ptr)
              && block.usable >= size && Footprint(others) + block.usable + 8 < 0x1_0000_0000_0000_0000
  {
  }

  lemma RemoveKeepsDistinct(live: seq<Block>, ptr: nat)
    requires DistinctPointers(live) && IsLive(live, ptr)
    ensures DistinctPointers(Remove(live, ptr)) && !IsLive(Remove(live, ptr), ptr)
    ensures forall b :: b in Remove(live, ptr) <==> b in live && b.ptr != ptr
  {
  }

  class MallocState {
    var count: nat
    var size: nat
    const limit: nat

    /** The blocks the C library has handed out. */
    var live: seq<Block>

    /** The counters are exact: number and footprint of the live blocks. */
    ghost predicate Valid()
      reads this
    {
      && DistinctPointers(live)
      && Footprint(live) < W && limit < W
      && count == |live| && size == Footprint(live)
    }

    constructor (limit: nat)
      requires limit < W
      ensures Valid() && live == [] && this.limit == limit && size == 0 && count == 0
    {
      count, size, this.limit, live := 0, 0, limit, [];
    }

    /** js_trace_malloc */
    method Malloc(request: nat, grant: Grant, ghost slack: nat) returns (ptr: nat)
      requires Valid() && 0 < request < W
      requires Grantable(live, request, grant)
      modifies this
      ensures Valid()
      ensures ptr != 0 <==> (old(size) + request) % 0x1_0000_0000_0000_0000 <= limit && grant.Granted?
      ensures ptr != 0 ==> ptr == grant.block.ptr && live == [grant.block] + old(live)
      ensures ptr != 0 ==> size == old(size) + grant.block.usable + 8 && count == old(count) + 1
      ensures ptr == 0 ==> live == old(live) && size == old(size) && count == old(count)
      ensures old(size) <= limit + slack + 8 && (grant.Granted? ==> grant.block.usable <= request + slack) ==>
                size <= limit + slack + 8
    {
      if (size + request) % W > limit {
        return 0;
      }
      match grant
      case Refused => return 0;
      case Granted(block) =>
        FootprintWith(live, block);
        count := count + 1;
        size := (size + (block.usable + MALLOC_OVERHEAD)) % W;
        live := [block] + live;
        return block.ptr;
    }

    /** js_trace_free */
    method Free(ptr: nat)
      requires Valid() && (ptr != 0 ==> IsLive(live, ptr))
      modifies this
      ensures Valid()
      ensures ptr == 0 ==> live == old(live) && size == old(size) && count == old(count)
      ensures ptr != 0 ==> live == Remove(old(live), ptr) && !IsLive(live, ptr)
      ensures ptr != 0 ==> size == old(size) - old(UsableSize(ptr)) - 8 && count == old(count) - 1
    {
      hide Footprint, DistinctPointers;
      if ptr == 0 {
        return;
      }
      ghost var k := IndexOf(live, ptr);
      var usable := UsableSize(ptr);
      FootprintWithout(live, k);
      RemoveKeepsDistinct(live, ptr);
      count := count - 1;
      size := (size - (usable + MALLOC_OVERHEAD)) % W;
      live := Remove(live, ptr);
    }

    /** js_trace_malloc_usable_size of a live block. */
    function UsableSize(ptr: nat): (usable: nat)
      requires Valid() && IsLive(live, ptr)
      reads this
      ensures Block(ptr, usable) in live
    {
      live[IndexOf(live, ptr)].usable
    }

    /** js_trace_realloc */
    method Realloc(ptr: nat, request: nat, grant: Grant, ghost slack: nat) returns (r: nat)
      requires Valid() && request < W && (ptr != 0 ==> IsLive(live, ptr))
      requires Grantable(if ptr != 0 then Remove(live, ptr) else live, request, grant)
      modifies this
      ensures Valid()
      ensures request == 0 ==> r == 0 && live == if ptr != 0 then Remove(old(live), ptr) else old(live)
      ensures request > 0 && r == 0 ==> live == old(live) && size == old(size) && count == old(count)
      ensures request > 0 && r != 0 ==>
                grant.Granted? && r == grant.block.ptr &&
                live == [grant.block] + if ptr != 0 then Remove(old(live), ptr) else old(live)
      ensures request > 0 ==>
                var usable := if ptr != 0 then old(UsableSize(ptr)) else 0;
                && (r != 0 <==>
                      (old(size) + request - usable) % 0x1_0000_0000_0000_0000 <= limit && grant.Granted?)
                && (r != 0 ==> size == old(size) - usable + grant.block.usable + if ptr == 0 then 8 else 0)
      ensures old(size) <= limit + slack + 8 && (grant.Granted? ==> grant.block.usable <= request + slack) ==>
                size <= limit + slack + 8
    {
      hide Footprint, DistinctPointers, IsLive, IndexOf, Remove;
      if ptr == 0 {
        if request == 0 {
          return 0;
        }
        r := Malloc(request, grant, slack);
        return;
      }
      if request == 0 {
        Free(ptr);
        return 0;
      }
      r := Resize(ptr, request, grant, slack);
    }

    /** The last part of js_trace_realloc: a live block gets another size. */
    method Resize(ptr: nat, request: nat, grant: Grant, ghost slack: nat) returns (r: nat)
      requires Valid() && 0 < request < W && ptr != 0 && IsLive(live, ptr)
      requires Grantable(Remove(live, ptr), request, grant)
      modifies this
      ensures Valid()
      ensures r != 0 <==>
                (old(size) + request - old(UsableSize(ptr))) % 0x1_0000_0000_0000_0000 <= limit && grant.Granted?
      ensures r != 0 ==> size == old(size) - old(UsableSize(ptr)) + grant.block.usable && count == old(count)
      ensures r == 0 ==> live == old(live) && size == old(size) && count == old(count)
      ensures r != 0 ==> r == grant.block.ptr && live == [grant.block] + Remove(old(live), ptr)
      ensures old(size) <= limit + slack + 8 && (grant.Granted? ==> grant.block.usable <= request + slack) ==>
                size <= limit + slack + 8
    {
      var oldSize := UsableSize(ptr);
      if (size + request - oldSize) % W > limit || grant.Refused? {
        return 0;
      }
      ReplacementFits(live, ptr, grant.block);
      hide Footprint, Remove, IsLive, DistinctPointers, IndexOf;
      size := (size + (grant.block.usable - oldSize)) % W;
      live := [grant.block] + Remove(live, ptr);
      r := grant.block.ptr;
    }
  }

  lemma PrependKeepsDistinct(live: seq<Block>, b: Block)
    requires DistinctPointers(live) && b.ptr != 0 && !IsLive(live, b.ptr)
    ensures DistinctPointers([b] + live)
  {
  }
}
