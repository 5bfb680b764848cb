// src-api/common/autobuf.c: a byte buffer that grows and shrinks in pages.
module Autobufs {
  import opened Words

  class Autobuf {
    // getpagesize()
    const page: nat
    // whether the n-th call of realloc fails
    const reallocFails: nat -> bool
    var buf: array<Byte>
    var len: nat
    var total: nat
    var error: bool
    var calls: nat

    ghost predicate Valid()
      reads this
    {
      page > 0 && len <= total <= buf.Length
    }

    ghost function Contents(): (c: seq<Byte>)
      requires Valid()
      reads this, buf
      ensures |c| == len
    {
      buf[..len]
    }

    // abuf_init, when there is memory
    constructor (page: nat, reallocFails: nat -> bool)
      requires page > 0
      ensures Valid() && Contents() == [] && total == page && fresh(buf)
      ensures this.page == page && this.reallocFails == reallocFails
    {
      this.page, this.reallocFails := page, reallocFails;
      buf := new Byte[page](i => 0);
      len, total, error, calls := 0, page, false, 0;
    }

    // No call of realloc since then has failed.
    ghost predicate NoFailure(since: nat)
      reads `calls
    {
      forall n :: since < n <= calls ==> !reallocFails(n)
    }

    // The multiple of the page size that holds val bytes.
    function RoundUp(val: nat): (size: nat)
      requires page > 0
      ensures val <= size < val + page && size % page == 0
    {
      RoundUpLarge(val, page);
      (val + page - 1) / page * page
    }

    // realloc: a block with the old bytes in front, or none.
    method Realloc(size: nat) returns (p: array?<Byte>)
      requires Valid()
      modifies `calls
      ensures calls == old(calls) + 1
      ensures p == null <==> reallocFails(calls)
      ensures p != null ==> fresh(p) && p.Length == size
      ensures p != null ==> forall i :: 0 <= i < size && i < total ==> p[i] == buf[i]
    {
      calls := calls + 1;
      if reallocFails(calls) {
        return null;
      }
      var block := new Byte[size](i => 0);
      for i := 0 to if size < total then size else total
        modifies block
        invariant forall k :: 0 <= k < i ==> block[k] == buf[k]
      {
        block[i] := buf[i];
      }
      p := block;
    }

    // _autobuf_enlarge
    method Enlarge(newSize: nat) returns (result: int)
      requires Valid()
      modifies this
      ensures Valid() && Contents() == old(Contents()) && len == old(len)
      ensures buf == old(buf) || fresh(buf)
      ensures result == 0 ==> total == if newSize < old(total) then old(total) else RoundUp(newSize + 2)
      ensures result == 0 || (result == -1 && newSize >= total && error && total == old(total))
      ensures old(calls) <= calls <= old(calls) + 1 && (result == 0 <==> NoFailure(old(calls)))
      ensures old(total) > newSize ==> unchanged(this)
    {
      var size := newSize + 1;
      if size > total {
        var roundUpSize := RoundUp(size + 1);
        var p := Realloc(roundUpSize);
        if p == null {
          error := true;
          return -1;
        }
        for i := total to roundUpSize
          modifies p
          invariant forall k :: 0 <= k < total ==> p[k] == buf[k]
        {
          p[i] := 0;
        }
        buf, total := p, roundUpSize;
      }
      return 0;
    }

    // abuf_memcpy
    method Append(p: seq<Byte>) returns (result: int)
      requires Valid()
      modifies this, buf
      ensures Valid() && (buf == old(buf) || fresh(buf))
      ensures (result == 0 || result == -1) && calls >= old(calls) && (result == 0 <==> NoFailure(old(calls)))
      ensures result == -1 ==> p != []
      ensures Contents() == if result == 0 then old(Contents()) + p else old(Contents())
      ensures result == 0 && p != [] ==> len < total && buf[len] == 0
    {
      if |p| == 0 {
        return 0;
      }
      result := Enlarge(len + |p|);
      if result < 0 {
        return -1;
      }
      forall i | 0 <= i < |p| {
        buf[len + i] := p[i];
      }
      assert buf[..len] == old(Contents());
      len := len + |p|;
      buf[len] := 0;
      assert Contents() == old(Contents()) + p;
    }

    // abuf_memcpy_prepend
    method Prepend(p: seq<Byte>) returns (result: int)
      requires Valid()
      modifies this, buf
      ensures Valid() && (buf == old(buf) || fresh(buf))
      ensures (result == 0 || result == -1) && calls >= old(calls) && (result == 0 <==> NoFailure(old(calls)))
      ensures Contents() == if result == 0 then p + old(Contents()) else old(Contents())
      ensures result == 0 && p != [] ==> len < total && buf[len] == 0
    {
      if |p| == 0 {
        return 0;
      }
      result := Enlarge(len + |p|);
      if result < 0 {
        return -1;
      }
      MakeRoom(p);
      len := len + |p|;
      buf[len] := 0;
      assert Contents() == buf[..|p| + old(len)];
    }

    // The memmove and the memcpy of a prefix.
    method MakeRoom(p: seq<Byte>)
      requires Valid() && |p| + len <= buf.Length
      modifies buf
      ensures buf[..|p| + len] == p + old(Contents())
    {
      ghost var c := Contents();
      forall i | |p| <= i < |p| + len {
        buf[i] := buf[i - |p|];
      }
      assert buf[|p|..|p| + len] == c;
      forall i | 0 <= i < |p| {
        buf[i] := p[i];
      }
      assert buf[|p|..|p| + len] == c && buf[..|p|] == p;
      assert buf[..|p| + len] == buf[..|p|] + buf[|p|..|p| + len];
    }

    // abuf_pull. It gives back at most one page, and that can be the one with the room for
    // the terminating zero.
    method Pull(n: nat)
      requires Valid() && n <= len
      modifies this, buf
      ensures Valid() && (buf == old(buf) || fresh(buf))
      ensures Contents() == old(Contents())[n..]
      ensures total == if n == 0 || len + page > old(total) then old(total)
        else if reallocFails(calls) || old(total) >= 2 * page then old(total) - page else page
      ensures n > 0 ==> (len == total <==> len + page == old(total) && (old(total) >= 2 * page || reallocFails(calls)))
    {
      if n == 0 {
        return;
      }
      ghost var rest := Contents()[n..];
      if n != len {
        forall i | 0 <= i < len - n {
          buf[i] := buf[n + i];
        }
      }
      len := len - n;
      assert Contents() == rest;
      if len + page > total {
        return;
      }
      total := total - page;
      var newSize := total;
      if newSize < page {
        newSize := page;
      }
      var was := buf;
      var p := Realloc(newSize);
      if p == null {
        return;
      }
      buf, total := p, newSize;
      assert Contents() == was[..len];
    }
  }

  lemma RoundUpLarge(val: nat, page: nat)
    requires page > 0
    ensures val <= (val + page - 1) / page * page < val + page && (val + page - 1) / page * page % page == 0
  {
    var x := val + page - 1;
    DivMod(x, page);
    DivNat(x, page);
    ModOf(x / page * page, page, x / page, 0);
  }
}
