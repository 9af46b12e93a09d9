/** The growable buffer behind every connection: (buf, len, size). */
module MbufModule {
  import opened Bytes

  /** The capacity after an insertion that needs so many bytes: kept, or half as much again. */
  function Grown(capacity: nat, needed: nat): (size: nat)
    ensures size >= needed && size >= capacity
  {
    if needed > capacity then needed * 3 / 2 else capacity
  }

  class Mbuf {
    var buf: array<byte>
    var len: nat
    ghost var Contents: Bytes   // the bytes in use: buf[..len]

    ghost predicate Valid()
      reads this, buf
      ensures Valid() ==> len == |Contents|
    {
      len <= buf.Length && Contents == buf[..len]
    }

    constructor (initialSize: nat)
      ensures Valid() && fresh(buf)
      ensures Contents == [] && buf.Length == initialSize
    {
      buf := new byte[initialSize](_ => 0);
      len := 0;
      Contents := [];
    }

    function At(i: nat): (b: byte)
      requires Valid() && i < len
      reads this, buf
      ensures b == Contents[i]
    {
      buf[i]
    }

    function Slice(lo: nat, hi: nat): (s: Bytes)
      requires Valid() && lo <= hi <= len
      reads this, buf
      ensures s == Contents[lo..hi]
    {
      assert buf[..len][lo..hi] == buf[lo..hi];
      buf[lo..hi]
    }

    /** mbuf_resize: grows freely, shrinks only down to the bytes in use. */
    method Resize(newSize: nat)
      requires Valid()
      modifies this`buf
      ensures Valid()
      ensures buf == old(buf) || fresh(buf)
      ensures buf.Length == if newSize < len then old(buf.Length) else newSize
    {
      if newSize > buf.Length || (newSize < buf.Length && newSize >= len) {
        var moved := new byte[newSize](_ => 0);
        for i := 0 to len
          invariant Valid() && len <= newSize && fresh(moved)
          invariant forall k :: 0 <= k < i ==> moved[k] == Contents[k]
        {
          moved[i] := buf[i];
        }
        buf := moved;
      }
    }

    /** mbuf_insert with a null source: opens a gap of n bytes at off, growing by half if needed. */
    method OpenGap(off: nat, n: nat) returns (ghost gap: Bytes)
      requires Valid() && off <= len
      modifies this, buf
      ensures Valid() && (buf == old(buf) || fresh(buf))
      ensures buf.Length == Grown(old(buf.Length), |old(Contents)| + n)
      ensures |gap| == n && Contents == old(Contents)[..off] + gap + old(Contents)[off..]
    {
      hide Valid;
      if len + n > buf.Length {
        Resize((len + n) * 3 / 2);
      }
      gap := SlideUp(off, n);
    }

    method SlideUp(off: nat, n: nat) returns (ghost gap: Bytes)
      requires Valid() && off <= len && len + n <= buf.Length
      modifies this`len, this`Contents, buf
      ensures Valid()
      ensures |gap| == n && Contents == old(Contents)[..off] + gap + old(Contents)[off..]
    {
      hide Overwrite;
      ghost var was := buf[..];
      assert was[..len] == Contents;
      MemMove(buf, off + n, off, len - off);
      OverwriteGap(was, off, n, len);
      len := len + n;
      Contents := buf[..][..len];
      gap := Contents[off..off + n];
    }

    /** mbuf_insert */
    method Insert(off: nat, data: Bytes)
      requires Valid() && off <= len
      modifies this, buf
      ensures Valid() && (buf == old(buf) || fresh(buf))
      ensures buf.Length == Grown(old(buf.Length), |old(Contents)| + |data|)
      ensures Contents == old(Contents)[..off] + data + old(Contents)[off..]
    {
      ghost var gap := OpenGap(off, |data|);
      Write(off, data);
    }

    /** mbuf_append */
    method Append(data: Bytes)
      requires Valid()
      modifies this, buf
      ensures Valid() && (buf == old(buf) || fresh(buf))
      ensures buf.Length == Grown(old(buf.Length), |old(Contents)| + |data|)
      ensures Contents == old(Contents) + data
    {
      Insert(len, data);
    }

    /** mbuf_remove: drops n leading bytes, or nothing at all when fewer are held. */
    method Remove(n: nat)
      requires Valid()
      modifies this`len, this`Contents, buf
      ensures Valid()
      ensures Contents == if n <= |old(Contents)| then old(Contents)[n..] else old(Contents)
    {
      if 0 < n <= len {
        Move(0, n, len - n);
        Truncate(len - n);
      }
    }

    // What a protocol decoder does to the bytes through its own pointers into the buffer.

    method Move(dst: nat, src: nat, n: nat)
      requires Valid() && dst + n <= len && src + n <= len
      modifies this`Contents, buf
      ensures Valid()
      ensures Contents == Overwrite(old(Contents), dst, old(Contents)[src..src + n])
    {
      hide Overwrite;
      ghost var was := buf[..];
      MemMove(buf, dst, src, n);
      assert was[src..src + n] == Contents[src..src + n];
      OverwritePrefix(was, dst, was[src..src + n], len);
      Contents := buf[..][..len];
    }

    method Write(dst: nat, data: Bytes)
      requires Valid() && dst + |data| <= len
      modifies this`Contents, buf
      ensures Valid()
      ensures Contents == Overwrite(old(Contents), dst, data)
    {
      hide Overwrite;
      ghost var was := buf[..];
      MemCopy(buf, dst, data);
      OverwritePrefix(was, dst, data, len);
      Contents := buf[..][..len];
    }

    method Fill(dst: nat, value: byte, n: nat)
      requires Valid() && dst + n <= len
      modifies this`Contents, buf
      ensures Valid()
      ensures Contents == Overwrite(old(Contents), dst, seq(n, _ => value))
    {
      hide Overwrite;
      ghost var was := buf[..];
      MemSet(buf, dst, value, n);
      OverwritePrefix(was, dst, seq(n, _ => value), len);
      Contents := buf[..][..len];
    }

    method Set(i: nat, value: byte)
      requires Valid() && i < len
      modifies this`Contents, buf
      ensures Valid()
      ensures Contents == old(Contents)[i := value]
    {
      buf[i] := value;
      Contents := buf[..len];
    }

    /** Counts n more bytes of the allocated buffer as content, whatever they hold. */
    method Extend(n: nat)
      requires Valid() && len + n <= buf.Length
      modifies this`len, this`Contents
      ensures Valid()
      ensures |Contents| == |old(Contents)| + n && Contents[..|old(Contents)|] == old(Contents)
    {
      len := len + n;
      Contents := buf[..len];
    }

    method Truncate(n: nat)
      requires Valid() && n <= len
      modifies this`len, this`Contents
      ensures Valid()
      ensures Contents == old(Contents)[..n]
    {
      len := n;
      Contents := buf[..len];
    }
  }
}
