/**
 The circular byte cache.  Ring is its state as a value; class HiviewCache updates the same state in
 place.  wCursor may equal the size: it wraps only on the next write.
 */
module HiviewCaches {
  import opened Bytes

  datatype Ring = Ring(buffer: seq<Byte>, wCursor: nat, usedSize: nat) {
    predicate Ok() {
      wCursor <= |buffer| && usedSize <= |buffer| < 0x1_0000
    }

    function ReadCursor(): (r: nat)
      requires Ok()
      ensures r <= |buffer| && (usedSize > 0 ==> r < |buffer|)
    {
      if wCursor >= usedSize then wCursor - usedSize else |buffer| - (usedSize - wCursor)
    }

    // Where the i-th byte from the read cursor lies.
    function Cell(i: nat): (c: nat)
      requires Ok() && i < |buffer|
      ensures c < |buffer|
    {
      if ReadCursor() + i < |buffer| then ReadCursor() + i else ReadCursor() + i - |buffer|
    }

    // The unread bytes, oldest first.
    function Contents(): (c: seq<Byte>)
      requires Ok()
      ensures |c| == usedSize && forall i :: 0 <= i < usedSize ==> c[i] == buffer[Cell(i)]
    {
      seq(usedSize, i requires 0 <= i < usedSize => buffer[Cell(i)])
    }

    predicate HasRoom(n: nat) {
      n > 0 && n + usedSize <= |buffer|
    }

    function Written(data: seq<Byte>): (r: Ring)
      requires Ok() && HasRoom(|data|)
      ensures r.Ok() && |r.buffer| == |buffer|
    {
      var n := |buffer|;
      if wCursor + |data| > n then
        var first := n - wCursor;
        var second := |data| - first;
        Ring(data[first..] + buffer[second..wCursor] + data[..first], second, usedSize + |data|)
      else
        Ring(buffer[..wCursor] + data + buffer[wCursor + |data|..], wCursor + |data|, usedSize + |data|)
    }

    function Consumed(n: nat): (r: Ring)
      requires Ok() && n <= usedSize
      ensures r.Ok() && r.buffer == buffer
    {
      this.(usedSize := usedSize - n)
    }
  }

  // A write overwrites none of the unread bytes and does not move them.
  lemma WriteSparesUnread(r: Ring, data: seq<Byte>, i: nat)
    requires r.Ok() && r.HasRoom(|data|) && i < r.usedSize
    ensures r.Written(data).Cell(i) == r.Cell(i)
    ensures r.Written(data).buffer[r.Cell(i)] == r.buffer[r.Cell(i)]
    ensures r.Written(data).ReadCursor() == r.ReadCursor()
  {
  }

  // The i-th cell behind the unread bytes.
  function Behind(r: Ring, i: nat): (c: nat)
    requires r.Ok() && i < |r.buffer|
    ensures c < |r.buffer|
  {
    if r.wCursor + i < |r.buffer| then r.wCursor + i else r.wCursor + i - |r.buffer|
  }

  lemma WrittenBehind(r: Ring, data: seq<Byte>, i: nat)
    requires r.Ok() && r.HasRoom(|data|) && i < |data|
    ensures r.Written(data).buffer[Behind(r, i)] == data[i]
  {
  }

  lemma CellBehind(r: Ring, data: seq<Byte>, i: nat)
    requires r.Ok() && r.HasRoom(|data|) && i < |data|
    ensures r.Written(data).Cell(r.usedSize + i) == Behind(r, i)
  {
    WrittenCursors(r, data);
    hide Ring.Written;
  }

  lemma WrittenCursors(r: Ring, data: seq<Byte>)
    requires r.Ok() && r.HasRoom(|data|)
    ensures var w, end := r.Written(data), r.wCursor + |data|;
      && w.usedSize == r.usedSize + |data|
      && w.wCursor == if end > |r.buffer| then end - |r.buffer| else end
  {
  }

  lemma WriteAppends(r: Ring, data: seq<Byte>)
    requires r.Ok() && r.HasRoom(|data|)
    ensures r.Written(data).Contents() == r.Contents() + data
    ensures r.usedSize > 0 ==> r.Written(data).ReadCursor() == r.ReadCursor()
  {
    var w, all := r.Written(data), r.Contents() + data;
    assert w.usedSize == |all|;
    if r.usedSize > 0 { WriteSparesUnread(r, data, 0); }
    hide Ring.Contents, Ring.Written;
    forall i | 0 <= i < |all|
      ensures w.Contents()[i] == all[i]
    {
      if i < r.usedSize {
        WriteSparesUnread(r, data, i);
      } else {
        WrittenBehind(r, data, i - r.usedSize);
        CellBehind(r, data, i - r.usedSize);
      }
    }
  }

  lemma ReadTakesOldest(r: Ring, n: nat)
    requires r.Ok() && n <= r.usedSize
    ensures r.Consumed(n).Contents() == r.Contents()[n..]
  {
    forall i | 0 <= i < r.usedSize - n
      ensures r.Consumed(n).Contents()[i] == r.Contents()[n + i]
    {
      assert r.Consumed(n).Cell(i) == r.Cell(n + i);
    }
  }

  // s with the bytes of piece written from position at on.
  function Spliced(s: seq<Byte>, at: nat, piece: seq<Byte>): seq<Byte>
    requires at + |piece| <= |s|
  {
    s[..at] + piece + s[at + |piece|..]
  }

  // The one or two copies of a write, and those of a read, have the effect Ring gives them.
  lemma WriteCopies(r: Ring, d: seq<Byte>, n: nat)
    requires r.Ok() && n <= |d| && r.HasRoom(n)
    ensures var first := |r.buffer| - r.wCursor;
      r.Written(d[..n]).buffer ==
      if r.wCursor + n > |r.buffer|
      then Spliced(if first > 0 then Spliced(r.buffer, r.wCursor, d[0..first]) else r.buffer, 0,
                   d[first..first + (n - first)])
      else Spliced(r.buffer, r.wCursor, d[0..n])
    ensures var end := r.wCursor + n;
      r.Written(d[..n]).wCursor == if end > |r.buffer| then n - (|r.buffer| - r.wCursor) else end
    ensures r.Written(d[..n]).usedSize == r.usedSize + n
  {
    var first := |r.buffer| - r.wCursor;
    if r.wCursor + n > |r.buffer| {
      assert d[..n][..first] == d[0..first] && d[..n][first..] == d[first..n];
    } else {
      assert d[..n] == d[0..n];
    }
  }

  lemma SpliceConcat(out: seq<Byte>, a: seq<Byte>, b: seq<Byte>)
    requires |a| + |b| <= |out|
    ensures Spliced(Spliced(out, 0, a), |a|, b) == Spliced(out, 0, a + b)
  {
    assert Spliced(out, 0, a)[..|a|] == a;
  }

  lemma OldestBytes(r: Ring, n: nat)
    requires r.Ok() && 0 < n <= r.usedSize
    ensures r.ReadCursor() < |r.buffer|
    ensures var at, first := r.ReadCursor(), |r.buffer| - r.ReadCursor();
      r.Contents()[..n] ==
      if at + n > |r.buffer| then r.buffer[at..at + first] + r.buffer[0..n - first] else r.buffer[at..at + n]
  {
  }

  lemma ReadCopies(r: Ring, out: seq<Byte>, n: nat)
    requires r.Ok() && 0 < n <= |out| && n <= r.usedSize
    ensures r.ReadCursor() < |r.buffer|
    ensures var at, first := r.ReadCursor(), |r.buffer| - r.ReadCursor();
      Spliced(out, 0, r.Contents()[..n]) ==
      if at + n > |r.buffer|
      then Spliced(Spliced(out, 0, r.buffer[at..at + first]), first, r.buffer[0..n - first])
      else Spliced(out, 0, r.buffer[at..at + n])
  {
    hide Ring.Contents, Spliced, Ring.Cell, Ring.ReadCursor;
    var at, first := r.ReadCursor(), |r.buffer| - r.ReadCursor();
    OldestBytes(r, n);
    if at + n > |r.buffer| {
      SpliceConcat(out, r.buffer[at..at + first], r.buffer[0..n - first]);
    }
  }

  class HiviewCache {
    var wCursor: uint16
    var usedSize: uint16
    var size: uint16
    var buffer: array?<Byte>

    predicate Valid()
      reads this
    {
      wCursor <= size && usedSize <= size && (buffer != null ==> buffer.Length == size)
    }

    function State(): (r: Ring)
      requires Valid() && buffer != null
      reads this, buffer
      ensures r.Ok() && |r.buffer| == size
    {
      Ring(buffer[..], wCursor, usedSize)
    }

    // InitHiviewStaticCache: a cache over memory the caller provides.
    constructor Static(memory: array?<Byte>, size: uint16)
      requires memory != null ==> memory.Length == size
      ensures Valid() && buffer == memory && this.size == size
      ensures buffer != null ==> State().Contents() == []
    {
      usedSize, wCursor := 0, 0;
      buffer, this.size := memory, size;
    }

    // memcpy_s with a destination bound equal to the count: refused for an empty copy.
    static method MemcpyS(dst: array<Byte>, to: nat, src: array<Byte>, from: nat, count: nat) returns (eok: bool)
      requires dst != src && to + count <= dst.Length && from + count <= src.Length
      modifies dst
      ensures eok == (count > 0)
      ensures count == 0 ==> dst[..] == old(dst[..])
      ensures dst[..] == Spliced(old(dst[..]), to, src[..][from..from + count])
    {
      var i := 0;
      while i < count
        invariant i <= count
        invariant forall k :: to <= k < to + i ==> dst[k] == src[k - to + from]
        invariant forall k :: 0 <= k < to || to + i <= k < dst.Length ==> dst[k] == old(dst[k])
      {
        dst[to + i] := src[from + i];
        i := i + 1;
      }
      assert dst[..] == Spliced(old(dst[..]), to, src[..][from..from + count]);
      return count > 0;
    }

    // The copying part of WriteToCache, once there is room.
    method CopyIn(data: array<Byte>, wLen: uint16) returns (r: int)
      requires Valid() && buffer != null && data != buffer && wLen <= data.Length && wLen + usedSize <= size
      modifies this`wCursor, this`usedSize, buffer
      ensures Valid() && r == if wLen > 0 then wLen else -1
      ensures State() == if wLen > 0 then old(State()).Written(old(data[..wLen])) else old(State())
    {
      hide Spliced, Ring.Contents, Ring.Written;
      ghost var was, bytes := State(), data[..];
      if wLen > 0 {
        WriteCopies(was, bytes, wLen);
        assert bytes[..wLen] == data[..wLen];
      }
      if wCursor + wLen > size {
        var firstLen := size - wCursor;
        if firstLen > 0 {
          var eok := MemcpyS(buffer, wCursor, data, 0, firstLen);
          if !eok {
            return -1;
          }
          wCursor := wCursor + firstLen;
          usedSize := usedSize + firstLen;
        }
        wCursor := 0;
        var secondLen := wLen - firstLen;
        if secondLen > 0 {
          var eok := MemcpyS(buffer, wCursor, data, firstLen, secondLen);
          if !eok {
            return firstLen;
          }
          wCursor := wCursor + secondLen;
          usedSize := usedSize + secondLen;
        }
      } else {
        var eok := MemcpyS(buffer, wCursor, data, 0, wLen);
        if !eok {
          return -1;
        }
        wCursor := wCursor + wLen;
        usedSize := usedSize + wLen;
      }
      return wLen;
    }

    method WriteToCache(data: array?<Byte>, wLen: uint16) returns (r: int)
      requires Valid() && (data != null ==> data != buffer && wLen <= data.Length)
      modifies this`wCursor, this`usedSize, buffer
      ensures Valid()
      ensures r == -1 <==> data == null || buffer == null || !old(buffer != null && State().HasRoom(wLen))
      ensures r == -1 ==> buffer != null ==> State() == old(State())
      ensures r != -1 ==> r == wLen && State() == old(State()).Written(data[..wLen])
      ensures r != -1 ==> State().Contents() == old(State().Contents()) + data[..wLen]
    {
      hide Ring.Contents, Ring.Written;
      if data == null || buffer == null {
        return -1;
      }
      if size < wLen + usedSize {
        return -1;
      }
      if wLen > 0 {
        WriteAppends(State(), data[..wLen]);
      }
      r := CopyIn(data, wLen);
    }

    // The copying part that ReadFromCache and PrereadFromCache share.
    method CopyOut(data: array<Byte>, rLen: uint16) returns (r: int)
      requires Valid() && buffer != null && data != buffer && rLen <= data.Length && rLen <= usedSize
      modifies data
      ensures r == if rLen > 0 then rLen else -1
      ensures data[..] == if rLen > 0 then Spliced(old(data[..]), 0, old(State().Contents())[..rLen]) else old(data[..])
    {
      hide Spliced, Ring.Contents;
      if rLen > 0 { ReadCopies(State(), data[..], rLen); }
      var rCursor := if wCursor >= usedSize then wCursor - usedSize else size - (usedSize - wCursor);
      if rCursor + rLen > size {
        var firstLen := size - rCursor;
        if firstLen > 0 {
          var eok := MemcpyS(data, 0, buffer, rCursor, firstLen);
          if !eok {
            return -1;
          }
        }
        var secondLen := rLen - firstLen;
        if secondLen > 0 {
          var eok := MemcpyS(data, firstLen, buffer, 0, secondLen);
          if !eok {
            return firstLen;
          }
        }
      } else {
        var eok := MemcpyS(data, 0, buffer, rCursor, rLen);
        if !eok {
          return -1;
        }
      }
      return rLen;
    }

    method ReadFromCache(data: array?<Byte>, rLen: uint16) returns (r: int)
      requires Valid() && (data != null ==> data != buffer && rLen <= data.Length)
      modifies this`usedSize, data
      ensures Valid()
      ensures r == -1 <==> data == null || buffer == null || old(usedSize) < rLen || rLen == 0
      ensures r == -1 ==> usedSize == old(usedSize) && (data != null ==> data[..] == old(data[..]))
      ensures r != -1 ==> r == rLen && State() == old(State()).Consumed(rLen)
      ensures r != -1 ==> data[..rLen] + State().Contents() == old(State().Contents())
      ensures r != -1 ==> data[rLen..] == old(data[rLen..])
    {
      if data == null || buffer == null {
        return -1;
      }
      if usedSize < rLen {
        return -1;
      }
      ReadTakesOldest(State(), rLen);
      hide Ring.Contents, Ring.Cell;
      r := CopyOut(data, rLen);
      if r == -1 {
        return -1;
      }
      usedSize := usedSize - rLen;
      return rLen;
    }

    // Returns what the next read of the same length would, and leaves the cache alone.
    method PrereadFromCache(data: array?<Byte>, rLen: uint16) returns (r: int)
      requires Valid() && (data != null ==> data != buffer && rLen <= data.Length)
      modifies data
      ensures Valid()
      ensures r == -1 <==> data == null || buffer == null || usedSize < rLen || rLen == 0
      ensures r == -1 ==> data != null ==> data[..] == old(data[..])
      ensures r != -1 ==> r == rLen && data[..rLen] == State().Contents()[..rLen]
      ensures r != -1 ==> data[rLen..] == old(data[rLen..]) && State() == old(State())
    {
      if data == null || buffer == null {
        return -1;
      }
      if usedSize < rLen {
        return -1;
      }
      r := CopyOut(data, rLen);
    }

    method DiscardCacheData()
      requires Valid()
      modifies this`wCursor, this`usedSize
      ensures Valid() && (buffer != null ==> State().Contents() == [])
    {
      wCursor := 0;
      usedSize := 0;
    }
  }
}
