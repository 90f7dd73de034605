/** `cyclic_buf_*`: a ring of bytes in a fixed array, one cell of which stays
    unused, proved to be a bounded queue. */
module CyclicBuffer {
  import opened Common

  /** The bytes between two indices of a ring, going round once at most. */
  function Ring(mem: seq<byte>, r: nat, w: nat): (c: seq<byte>)
    requires r < |mem| && w < |mem|
    ensures |c| == if r <= w then w - r else |mem| - r + w
  {
    if r <= w then mem[r..w] else mem[r..] + mem[..w]
  }

  /** An index after n steps round the ring. */
  function Advance(i: nat, n: nat, len: nat): (j: nat)
    requires i < len && n <= len
    ensures j < len
  {
    if i + n < len then i + n else i + n - len
  }

  lemma QuotientIsOne(len: int, q: int, r: int, x: int)
    requires x == q * len + r && 0 <= r < len <= x < 2 * len
    ensures q == 1
  {
  }

  lemma ModWrap(x: nat, len: nat)
    requires x < 2 * len
    ensures x % len == if x < len then x else x - len
  {
    if x >= len { QuotientIsOne(len, x / len, x % len, x); }
  }

  lemma RingSkip(mem: seq<byte>, r: nat, w: nat, n: nat)
    requires r < |mem| && w < |mem| && n <= |Ring(mem, r, w)|
    ensures Ring(mem, Advance(r, n, |mem|), w) == Ring(mem, r, w)[n..]
  {
  }

  lemma RingFront(mem: seq<byte>, r: nat, w: nat, n: nat)
    requires r < |mem| && w < |mem| && n <= |Ring(mem, r, w)|
    ensures Ring(mem, r, w)[..n] == if r + n <= |mem| then mem[r..r + n] else mem[r..] + mem[..r + n - |mem|]
  {
  }

  /** Writing behind the queued bytes extends them and leaves them alone. */
  lemma RingExtend(mem: seq<byte>, mem': seq<byte>, r: nat, w: nat, data: seq<byte>)
    requires r < |mem| && w < |mem| && |mem'| == |mem| && |Ring(mem, r, w)| + |data| < |mem|
    requires forall k :: 0 <= k < |data| ==> mem'[Advance(w, k, |mem|)] == data[k]
    requires forall k :: 0 <= k < |Ring(mem, r, w)| ==> mem'[Advance(r, k, |mem|)] == mem[Advance(r, k, |mem|)]
    ensures Ring(mem', r, Advance(w, |data|, |mem|)) == Ring(mem, r, w) + data
  {
    var old', new' := Ring(mem, r, w), Ring(mem', r, Advance(w, |data|, |mem|));
    assert |new'| == |old'| + |data|;
    forall k | 0 <= k < |new'|
      ensures new'[k] == (old' + data)[k]
    {
      RingAt(mem', r, Advance(w, |data|, |mem|), k);
      if k < |old'| {
        RingAt(mem, r, w, k);
      } else {
        assert Advance(r, k, |mem|) == Advance(w, k - |old'|, |mem|);
      }
    }
  }

  lemma RingAt(mem: seq<byte>, r: nat, w: nat, k: nat)
    requires r < |mem| && w < |mem| && k < |Ring(mem, r, w)|
    ensures Ring(mem, r, w)[k] == mem[Advance(r, k, |mem|)]
  {
  }

  class Cyclic {
    const buf: array<byte>
    var readIdx: nat
    var writeIdx: nat

    ghost predicate Valid()
      reads this
    {
      readIdx < buf.Length && writeIdx < buf.Length
    }

    /** The queued bytes, oldest first. */
    ghost function Contents(): (c: seq<byte>)
      requires Valid()
      reads this, buf
      ensures |c| < buf.Length
    {
      Ring(buf[..], readIdx, writeIdx)
    }

    constructor (len: nat)
      requires len > 0
      ensures Valid() && fresh(buf) && buf.Length == len && Contents() == []
    {
      buf := new byte[len](_ => 0);
      readIdx, writeIdx := 0, 0;
    }

    method Count() returns (n: nat)
      requires Valid()
      ensures n == |Contents()|
    {
      ModWrap(writeIdx + buf.Length - readIdx, buf.Length);
      n := (writeIdx + buf.Length - readIdx) % buf.Length;
    }

    /** One cell fewer than the array has can ever be used. */
    method Room() returns (n: nat)
      requires Valid()
      ensures n == buf.Length - 1 - |Contents()|
    {
      ModWrap(readIdx + buf.Length - (writeIdx + 1), buf.Length);
      n := (readIdx + buf.Length - (writeIdx + 1)) % buf.Length;
    }

    /** `sys_memcpy` into the ring's array. */
    method CopyIn(at: nat, data: seq<byte>)
      requires at + |data| <= buf.Length
      modifies buf
      ensures forall i :: 0 <= i < buf.Length ==>
                buf[i] == if at <= i < at + |data| then data[i - at] else old(buf[i])
    {
      forall i | 0 <= i < |data| {
        buf[at + i] := data[i];
      }
    }

    /** `cyclic_buf_write`: all of the data or none of it. */
    method Write(data: seq<byte>) returns (ok: bool)
      requires Valid()
      modifies this`writeIdx, buf
      ensures Valid()
      ensures ok == (old(|Contents()|) + |data| <= buf.Length - 1)
      ensures Contents() == if ok then old(Contents()) + data else old(Contents())
    {
      var room := Room();
      if room < |data| {
        return false;
      }
      ghost var was, w := buf[..], writeIdx;
      if writeIdx + |data| <= buf.Length {
        CopyIn(writeIdx, data);
        writeIdx := writeIdx + |data|;
      } else {
        var tlen := buf.Length - writeIdx;
        CopyIn(writeIdx, data[..tlen]);
        CopyIn(0, data[tlen..]);
        writeIdx := |data| - tlen;
      }
      ModWrap(writeIdx, buf.Length);
      writeIdx := writeIdx % buf.Length;
      assert writeIdx == Advance(w, |data|, buf.Length);
      RingExtend(was, buf[..], readIdx, w, data);
      ok := true;
    }

    /** `cyclic_buf_read`. */
    method Read(n: nat) returns (r: Option<seq<byte>>)
      requires Valid()
      modifies this`readIdx
      ensures Valid()
      ensures r == if n <= old(|Contents()|) then Some(old(Contents())[..n]) else None
      ensures Contents() == if n <= old(|Contents()|) then old(Contents())[n..] else old(Contents())
    {
      var count := Count();
      if n > count {
        return None;
      }
      RingFront(buf[..], readIdx, writeIdx, n);
      RingSkip(buf[..], readIdx, writeIdx, n);
      ghost var start := readIdx;
      if readIdx + n <= buf.Length {
        r := Some(buf[readIdx..readIdx + n]);
        readIdx := readIdx + n;
      } else {
        var tlen := buf.Length - readIdx;
        r := Some(buf[readIdx..] + buf[..n - tlen]);
        readIdx := n - tlen;
      }
      ModWrap(readIdx, buf.Length);
      readIdx := readIdx % buf.Length;
      assert readIdx == Advance(start, n, buf.Length);
    }

    /** `cyclic_buf_drop`. */
    method Drop(n: nat) returns (ok: bool)
      requires Valid()
      modifies this`readIdx
      ensures Valid() && ok == (n <= old(|Contents()|))
      ensures Contents() == if ok then old(Contents())[n..] else old(Contents())
    {
      var count := Count();
      if n > count {
        return false;
      }
      RingSkip(buf[..], readIdx, writeIdx, n);
      ghost var start := readIdx;
      if readIdx + n <= buf.Length {
        readIdx := readIdx + n;
      } else {
        var tlen := buf.Length - readIdx;
        readIdx := n - tlen;
      }
      ModWrap(readIdx, buf.Length);
      readIdx := readIdx % buf.Length;
      assert readIdx == Advance(start, n, buf.Length);
      ok := true;
    }
  }
}
