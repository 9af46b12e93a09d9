/** Mongoose's MD5 driver, which counts bits in two words and copies whole blocks. */
module Md5Mongoose {

  import opened Bytes
  import opened Word32
  import opened BlockHash
  import opened Md5
  import opened Md5Digest

  class Context {
    var bits0: nat
    var bits1: nat
    const buf: array<Word>
    const inp: array<byte>

    ghost predicate Valid() {
      buf.Length == 4 && inp.Length == BLOCK
    }

    /** Complete blocks of m are folded, and the rest of it is the first offset bytes of inp. */
    ghost predicate Holds(m: Bytes, offset: nat)
      requires Valid()
      reads buf, inp
    {
      offset == |m| % BLOCK && ChainIn(buf) == Chained(m) && inp[..][..offset] == Rest(m)
    }

    /** The context after the message m, whatever was counted. */
    ghost predicate Absorbed(m: Bytes)
      reads this, buf, inp
    {
      Valid() && Holds(m, |m| % BLOCK) && bits0 < U32 && bits1 < U32 && bits0 % 512 == 8 * (|m| % BLOCK)
    }

    /** The two words hold the number of bits of m modulo 2^64. */
    ghost predicate Counted(m: Bytes)
      reads this
    {
      Total(bits0, bits1) == BitsOf(m)
    }

    /** MD5_Init */
    constructor ()
      ensures Absorbed([]) && Counted([]) && fresh(buf) && fresh(inp)
    {
      bits0, bits1 := 0, 0;
      buf := new Word[4];
      inp := new byte[64];
      new;
      hide Absorbed, Holds, Chained, Counted;
      buf[0], buf[1], buf[2], buf[3] := 0x67452301, 0xefcdab89, 0x98badcfe, 0x10325476;
      StartsEmpty();
    }

    lemma StartsEmpty()
      requires Valid() && bits0 == bits1 == 0 && ChainIn(buf) == INIT
      ensures Absorbed([]) && Counted([])
    {
      hide Chained, Rest, ChainIn;
      ChainedNothing();
      assert inp[..][..0] == [];
    }

    method Transform()
      requires Valid()
      modifies buf
      ensures ChainIn(buf) == Compress(old(ChainIn(buf)), LittleWords(inp[..]))
    {
      Md5Transform(buf, LittleWords(inp[..]));
    }

    /** The three statements that count len bytes. */
    method CountBits(len: nat)
      requires bits0 < U32 && bits1 < U32
      modifies this`bits0, this`bits1
      ensures (bits0, bits1) == Count(old(bits0), old(bits1), len)
    {
      var t := bits0;
      bits0 := (t + len % U32 * 8 % U32) % U32;
      if bits0 < t {
        bits1 := (bits1 + 1) % U32;
      }
      bits1 := (bits1 + len % U32 / 0x2000_0000) % U32;
    }

    /** A piece that does not complete the block is only copied behind what waits. */
    method TakeShort(data: Bytes, ghost m: Bytes, t: nat)
      requires Valid() && Holds(m, t) && t + |data| < BLOCK
      modifies inp
      ensures Holds(m + data, t + |data|)
    {
      hide Chained, Rest;
      MemCopy(inp, t, data);
      ChainedShort(m, data);
      OverwriteEnds(old(inp[..]), t, data, BLOCK);
      assert |m + data| % BLOCK == t + |data|;
    }

    /** A piece that completes the block is copied and the block is transformed. */
    method TakeBlock(data: Bytes, ghost m: Bytes, t: nat)
      requires Valid() && Holds(m, t) && t + |data| == BLOCK
      modifies inp, buf
      ensures Holds(m + data, 0)
    {
      hide Chained, Rest, Compress, LittleWords;
      MemCopy(inp, t, data);
      OverwriteEnds(old(inp[..]), t, data, BLOCK);
      assert inp[..] == Rest(m) + data;
      Transform();
      ChainedBlock(m, data);
      assert |m + data| % BLOCK == 0;
    }

    /** MD5_Update: right for every length, and counting right for lengths below 2^32. */
    method Update(data: Bytes, ghost m: Bytes)
      requires Absorbed(m)
      modifies this`bits0, this`bits1, buf, inp
      ensures Absorbed(m + data)
      ensures (bits0, bits1) == Count(old(bits0), old(bits1), |data|)
      ensures old(Counted(m)) && |data| < U32 ==> Counted(m + data)
    {
      hide Holds, Count;
      hide BitsOf, Total;
      var t: nat := bits0 / 8 % BLOCK;
      CountBits(|data|);
      CountedOffset(old(bits0), |m|, old(bits1), |data|);
      CountedTotal(old(bits0), old(bits1), m, data);
      Copy(data, m, t);
    }

    /** What MD5_Update does with the bytes. */
    method Copy(data: Bytes, ghost m: Bytes, t: nat)
      requires Valid() && t < BLOCK && Holds(m, t)
      modifies buf, inp
      ensures Holds(m + data, |m + data| % BLOCK)
    {
      hide Holds;
      var pos: nat := 0;
      ghost var offset: nat := t;
      if t != 0 {
        pos := BLOCK - t;
        if |data| < pos {
          TakeShort(data, m, t);
          HoldsOffset(m + data, t + |data|);
          return;
        }
        TakeBlock(data[..pos], m, t);
        offset := 0;
      } else {
        assert m + data[..0] == m;
      }
      while |data| - pos >= BLOCK
        invariant pos <= |data| && Holds(m + data[..pos], 0)
        decreases |data| - pos
      {
        TakeBlock(data[pos..pos + BLOCK], m + data[..pos], 0);
        SliceGrows(m, data, pos, pos + BLOCK);
        pos := pos + BLOCK;
      }
      TakeShort(data[pos..], m + data[..pos], 0);
      SliceGrows(m, data, pos, |data|);
      assert data[..|data|] == data && data[pos..|data|] == data[pos..];
      HoldsOffset(m + data, |data| - pos);
    }

    lemma HoldsOffset(m: Bytes, offset: nat)
      requires Valid() && Holds(m, offset)
      ensures offset == |m| % BLOCK
    {
    }

    /** MD5_Final */
    method Final(digest: array<bv8>, ghost m: Bytes)
      requires Absorbed(m) && digest.Length == 16
      modifies this`bits0, this`bits1, buf, inp, digest
      ensures digest[..] == DigestBytes(DigestWith(m, old(Total(bits0, bits1))))
      ensures old(Counted(m)) ==> digest[..] == DigestBytes(Digest(m))
    {
      hide Holds, Digest, DigestWith, DigestBytes, BitsOf, Total;
      if Counted(m) {
        DigestModulo(m, Total(bits0, bits1));
      }
      var count: nat := bits0 / 8 % BLOCK;
      PadInput(count, m);
      AppendCount(m);
      CopyDigest(digest);
      Erase();
    }

    /** The memset that forgets the context. */
    method Erase()
      requires Valid()
      modifies this`bits0, this`bits1, buf, inp
      ensures bits0 == bits1 == 0 && ChainIn(buf) == Chain(0, 0, 0, 0) && inp[..] == Zeros(BLOCK)
    {
      bits0, bits1 := 0, 0;
      buf[0], buf[1], buf[2], buf[3] := 0, 0, 0, 0;
      MemSet(inp, 0, 0, BLOCK);
    }

    /** The memcpy into the digest. */
    method CopyDigest(digest: array<bv8>)
      requires Valid() && digest.Length == 16
      modifies digest
      ensures digest[..] == DigestBytes(ChainIn(buf))
    {
      hide WordBytes;
      for i := 0 to 4
        invariant forall k :: 0 <= k < i ==> digest[..][4 * k..4 * k + 4] == WordBytes(buf[k])
      {
        CopyWord(digest, i);
      }
      SplitDigest(digest[..]);
    }

    /** The end mark and the zeros behind it. */
    method PadInput(count0: nat, ghost m: Bytes)
      requires Valid() && Holds(m, count0) && count0 < BLOCK
      modifies buf, inp
      ensures Holds(m + Padding(|m|), 56)
    {
      hide Chained, Rest, Compress, LittleWords;
      inp[count0] := 0x80;
      ghost var marked := inp[..];
      assert marked[..count0 + 1] == Rest(m) + [ENDMARK];
      var count := BLOCK - 1 - count0;
      if count < 8 {
        MemSet(inp, count0 + 1, 0, count);
        OverwriteEnds(marked, count0 + 1, Zeros(count), BLOCK);
        assert inp[..] == Rest(m) + [ENDMARK] + Zeros(count);
        Transform();
        ghost var full := inp[..];
        MemSet(inp, 0, 0, 56);
        OverwriteEnds(full, 0, Zeros(56), BLOCK);
        PadsInTwoBlocks(m);
      } else {
        MemSet(inp, count0 + 1, 0, count - 8);
        OverwriteEnds(marked, count0 + 1, Zeros(count - 8), BLOCK);
        PadsInOneBlock(m);
      }
    }

    /** The two words of the bit count, and the last block. */
    method AppendCount(ghost m: Bytes)
      requires Valid() && Holds(m + Padding(|m|), 56) && bits0 < U32 && bits1 < U32
      modifies buf, inp
      ensures ChainIn(buf) == DigestWith(m, Total(bits0, bits1))
    {
      hide Chained, Rest, Compress, LittleWords, DigestWith, LittleEndian32;
      ghost var head := inp[..][..56];
      MemCopy(inp, 56, LittleEndian32(bits0));
      MemCopy(inp, 60, LittleEndian32(bits1));
      assert LittleEndian64(Total(bits0, bits1)) == LittleEndian32(bits0) + LittleEndian32(bits1);
      assert inp[..] == head + LittleEndian64(Total(bits0, bits1));
      Transform();
      DigestLastBlock(m, Total(bits0, bits1));
    }

    /** One word of the memcpy into the digest. */
    method CopyWord(digest: array<bv8>, i: nat)
      requires Valid() && digest.Length == 16 && i < 4
      modifies digest
      ensures digest[..][4 * i..4 * i + 4] == WordBytes(buf[i])
      ensures forall k :: 0 <= k < i ==> digest[..][4 * k..4 * k + 4] == old(digest[..])[4 * k..4 * k + 4]
    {
      hide ByteOf;
      digest[i * 4] := ByteOf(buf[i], 0);
      digest[i * 4 + 1] := ByteOf(buf[i], 1);
      digest[i * 4 + 2] := ByteOf(buf[i], 2);
      digest[i * 4 + 3] := ByteOf(buf[i], 3);
    }
  }

  /** Runs mongoose's driver over a message that arrives in pieces. */
  method DigestPieces(pieces: seq<Bytes>, digest: array<bv8>)
    requires digest.Length == 16
    requires forall i :: 0 <= i < |pieces| ==> |pieces[i]| < U32
    modifies digest
    ensures digest[..] == DigestBytes(Digest(Flatten(pieces)))
  {
    hide Digest, Flatten, Context.Absorbed;
    var ctx := new Context();
    FlattenCons<byte>([]);
    assert pieces[..0] == [];
    for i := 0 to |pieces|
      invariant ctx.Absorbed(Flatten(pieces[..i])) && ctx.Counted(Flatten(pieces[..i]))
      invariant fresh(ctx) && fresh(ctx.buf) && fresh(ctx.inp)
    {
      ctx.Update(pieces[i], Flatten(pieces[..i]));
      FlattenSnoc(pieces[..i], pieces[i]);
      assert pieces[..i] + [pieces[i]] == pieces[..i + 1];
    }
    assert pieces[..|pieces|] == pieces;
    ctx.Final(digest, Flatten(pieces));
  }
}
