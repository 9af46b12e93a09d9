/** Mongoose's SHA-1 driver. */
module Sha1Context {

  import opened Bytes
  import opened Word32
  import opened BlockHash
  import opened Sha1

  const INIT := Chain(0x67452301, 0xEFCDAB89, 0x98BADCFE, 0x10325476, 0xC3D2E1F0)

  function Block(s: Chain, block: Bytes): Chain {
    if |block| == BLOCK then Compress(s, BigWords(block)) else s
  }

  /** SHA-1 of a message, as sections 5.1.1 and 6.1.2 of FIPS 180-4 define it. */
  ghost function Digest(m: Bytes): Chain {
    Fold(Block, INIT, Padded(m, BigEndian64(8 * |m|)))
  }

  /** The chaining words after the complete blocks of a message that is still growing. */
  ghost function Chained(m: Bytes): Chain { Fold(Block, INIT, Whole(m)) }

  lemma ChainedShort(m: Bytes, data: Bytes)
    requires |Rest(m)| + |data| < BLOCK
    ensures Chained(m + data) == Chained(m) && Rest(m + data) == Rest(m) + data
  {
    AppendShort(m, data);
  }

  lemma ChainedBlock(m: Bytes, data: Bytes)
    requires |Rest(m)| + |data| == BLOCK
    ensures Rest(m + data) == [] && |Rest(m) + data| == BLOCK
    ensures Chained(m + data) == Compress(Chained(m), BigWords(Rest(m) + data))
  {
    hide Compress, BigWords;
    AppendBlock(Block, INIT, m, data);
  }

  lemma ChainedNothing()
    ensures Chained([]) == INIT && Rest([]) == []
  {
  }

  /** The eight bytes cs_sha1_final makes of the two counters before it pads. */
  lemma CountBytes(m: Bytes, lo: nat, hi: nat)
    requires lo < U32 && hi < U32 && Total(lo, hi) == BitsOf(m)
    ensures BigEndian32(hi) + BigEndian32(lo) == BigEndian64(8 * |m|)
  {
    hide BigEndian32;
    var n := 8 * |m|;
    var q := n / U64;
    assert n == lo + hi * U32 + q * U64;
    assert n % U32 == lo && n / U32 % U32 == hi by {
      assert n == lo + (hi + q * U32) * U32;
      assert n / U32 == hi + q * U32;
    }
  }

  lemma DigestIsChained(m: Bytes)
    ensures Digest(m) == Chained(m + Padding(|m|) + BigEndian64(8 * |m|))
  {
    hide Fold, Padding, BigEndian64;
    var t := m + Padding(|m|) + BigEndian64(8 * |m|);
    assert t == Padded(m, BigEndian64(8 * |m|));
    assert Whole(t) == t;
  }

  function WordIn(s: Chain, i: nat): Word {
    if i == 0 then s.a else if i == 1 then s.b else if i == 2 then s.c else if i == 3 then s.d else s.e
  }

  /** The digest: the chaining words, each from its most significant byte on. */
  function DigestBytes(s: Chain): (r: seq<bv8>)
    ensures |r| == 20
  {
    seq(20, i requires 0 <= i < 20 => ByteOf(WordIn(s, i / 4), 3 - i % 4))
  }

  /** The words can be read back from the digest. */
  lemma WordFromDigest(s: Chain, i: nat)
    requires i < 5
    ensures var r := DigestBytes(s); WordIn(s, i) == Pack(r[4 * i + 3], r[4 * i + 2], r[4 * i + 1], r[4 * i])
  {
    hide ByteOf, Pack, WordIn;
    PackBytes(WordIn(s, i));
  }

  class Context {
    var count0: nat
    var count1: nat
    const state: array<Word>
    const buffer: array<byte>

    ghost predicate Valid() {
      state.Length == 5 && buffer.Length == BLOCK
    }

    /** Complete blocks of m are folded, and the rest of it is the first offset bytes of buffer. */
    ghost predicate Holds(m: Bytes, offset: nat)
      requires Valid()
      reads state, buffer
    {
      offset == |m| % BLOCK && ChainIn(state) == Chained(m) && buffer[..][..offset] == Rest(m)
    }

    /** The context after the message m. */
    ghost predicate Absorbed(m: Bytes)
      reads this, state, buffer
    {
      && Valid() && Holds(m, |m| % BLOCK) && count0 < U32 && count1 < U32
      && count0 % 512 == 8 * (|m| % BLOCK) && Total(count0, count1) == BitsOf(m)
    }

    /** cs_sha1_init */
    constructor ()
      ensures Absorbed([]) && fresh(state) && fresh(buffer)
    {
      count0, count1 := 0, 0;
      state := new Word[5];
      buffer := new byte[64];
      new;
      hide Absorbed, Holds, Chained;
      state[0], state[1], state[2], state[3], state[4] := 0x67452301, 0xEFCDAB89, 0x98BADCFE, 0x10325476, 0xC3D2E1F0;
      StartsEmpty();
    }

    lemma StartsEmpty()
      requires Valid() && count0 == count1 == 0 && ChainIn(state) == INIT
      ensures Absorbed([])
    {
      hide Chained, Rest, ChainIn;
      ChainedNothing();
      assert buffer[..][..0] == [];
    }

    lemma HoldsOffset(m: Bytes, offset: nat)
      requires Valid() && Holds(m, offset)
      ensures offset == |m| % BLOCK
    {
    }

    /** The three statements that count len bytes; len arrives as a 32-bit argument. */
    method CountBits(len: nat)
      requires count0 < U32 && count1 < U32
      modifies this`count0, this`count1
      ensures (count0, count1) == Count(old(count0), old(count1), len)
    {
      var j := count0;
      count0 := (count0 + len % U32 * 8 % U32) % U32;
      if count0 < j {
        count1 := (count1 + 1) % U32;
      }
      count1 := (count1 + len % U32 / 0x2000_0000) % U32;
    }

    /** The last memcpy of cs_sha1_update. */
    method TakeShort(data: Bytes, ghost m: Bytes, j: nat)
      requires Valid() && Holds(m, j) && j + |data| < BLOCK
      modifies buffer
      ensures Holds(m + data, j + |data|)
    {
      hide Chained, Rest;
      ghost var was := buffer[..];
      MemCopy(buffer, j, data);
      ChainedShort(m, data);
      OverwriteEnds(was, j, data, BLOCK);
      assert |m + data| % BLOCK == j + |data|;
    }

    /** The block completed in buffer. */
    method TakeBuffered(data: Bytes, ghost m: Bytes, j: nat)
      requires Valid() && Holds(m, j) && j + |data| == BLOCK
      modifies buffer, state
      ensures Holds(m + data, 0)
    {
      hide Chained, Rest, Compress, BigWords;
      ghost var was := buffer[..];
      MemCopy(buffer, j, data);
      OverwriteEnds(was, j, data, BLOCK);
      assert buffer[..] == Rest(m) + data;
      Transform(state, buffer[..]);
      ChainedBlock(m, data);
      assert |m + data| % BLOCK == 0;
    }

    /** A block transformed where it arrived, without passing through buffer. */
    method TakeDirect(data: Bytes, ghost m: Bytes)
      requires Valid() && Holds(m, 0) && |data| == BLOCK
      modifies state
      ensures Holds(m + data, 0)
    {
      hide Chained, Rest, Compress, BigWords;
      ChainedBlock(m, data);
      assert Rest(m) + data == data;
      Transform(state, data);
      assert |m + data| % BLOCK == 0;
    }

    /** cs_sha1_update, for lengths whose 32-bit sums do not wrap. */
    method Update(data: Bytes, ghost m: Bytes)
      requires Absorbed(m) && |data| + 63 < U32
      modifies this`count0, this`count1, state, buffer
      ensures Absorbed(m + data)
      ensures (count0, count1) == Count(old(count0), old(count1), |data|)
    {
      hide Holds, Count, BitsOf, Total;
      var j: nat := count0 / 8 % BLOCK;
      CountBits(|data|);
      CountedOffset(old(count0), |m|, old(count1), |data|);
      CountedTotal(old(count0), old(count1), m, data);
      Copy(data, m, j);
    }

    /** What cs_sha1_update does with the bytes. */
    method Copy(data: Bytes, ghost m: Bytes, j0: nat)
      requires Valid() && j0 < BLOCK && Holds(m, j0)
      modifies state, buffer
      ensures Holds(m + data, |m + data| % BLOCK)
    {
      hide Holds;
      var i, j: nat := 0, j0;
      if j + |data| > 63 {
        i := BLOCK - j;
        TakeBuffered(data[..i], m, j);
        while i + 63 < |data|
          invariant i <= |data| && Holds(m + data[..i], 0)
        {
          TakeDirect(data[i..i + BLOCK], m + data[..i]);
          SliceGrows(m, data, i, i + BLOCK);
          i := i + BLOCK;
        }
        j := 0;
      } else {
        assert m + data[..0] == m;
      }
      TakeShort(data[i..], m + data[..i], j);
      SliceGrows(m, data, i, |data|);
      assert data[..|data|] == data && data[i..|data|] == data[i..];
      HoldsOffset(m + data, j + (|data| - i));
    }

    /** The end mark and the zeros of cs_sha1_final, one byte at a time. */
    method Pad(ghost m: Bytes)
      requires Absorbed(m)
      modifies this`count0, this`count1, state, buffer
      ensures Absorbed(m + Padding(|m|))
    {
      hide Holds, BitsOf, Total;
      Update([0x80], m);
      ghost var n := 0;
      assert m + [ENDMARK] == m + [ENDMARK] + Zeros(n);
      while count0 / 8 % BLOCK != 56
        invariant n <= (55 - |m|) % BLOCK && Absorbed(m + [ENDMARK] + Zeros(n))
        decreases (55 - |m|) % BLOCK - n
      {
        OffsetOfZeros(m, n, count0);
        Update([0], m + [ENDMARK] + Zeros(n));
        assert m + [ENDMARK] + Zeros(n) + [0] == m + [ENDMARK] + Zeros(n + 1);
        n := n + 1;
      }
      OffsetOfZeros(m, n, count0);
      assert m + [ENDMARK] + Zeros(n) == m + Padding(|m|);
    }

    /** The first loop of cs_sha1_final. */
    method FinalCount() returns (finalCount: Bytes)
      ensures finalCount == BigEndian32(count1) + BigEndian32(count0)
    {
      finalCount := [];
      for i := 0 to 8
        invariant finalCount == (BigEndian32(count1) + BigEndian32(count0))[..i]
      {
        var word := if i >= 4 then count0 else count1;
        var k := 3 - i % 4;
        var shift := if k == 0 then 1 else if k == 1 then 256 else if k == 2 then 65536 else 16777216;
        finalCount := finalCount + [word / shift % 256];
      }
    }

    /** cs_sha1_final */
    method Final(digest: array<bv8>, ghost m: Bytes)
      requires Absorbed(m) && digest.Length == 20
      modifies this`count0, this`count1, state, buffer, digest
      ensures digest[..] == DigestBytes(Digest(m))
    {
      hide Holds, BitsOf, Total, Digest, DigestBytes, BigEndian32, BigEndian64, Padding;
      var finalCount := FinalCount();
      CountBytes(m, count0, count1);
      Pad(m);
      Update(finalCount, m + Padding(|m|));
      DigestIsChained(m);
      HoldsChained(m + Padding(|m|) + BigEndian64(8 * |m|));
      WriteDigest(digest);
      count0, count1 := 0, 0;
      state[0], state[1], state[2], state[3], state[4] := 0, 0, 0, 0, 0;
      MemSet(buffer, 0, 0, BLOCK);
    }

    lemma HoldsChained(m: Bytes)
      requires Absorbed(m)
      ensures ChainIn(state) == Chained(m)
    {
    }

    method WriteDigest(digest: array<bv8>)
      requires Valid() && digest.Length == 20
      modifies digest
      ensures digest[..] == DigestBytes(ChainIn(state))
    {
      hide ByteOf;
      for i := 0 to 20
        invariant forall k :: 0 <= k < i ==> digest[k] == ByteOf(WordIn(ChainIn(state), k / 4), 3 - k % 4)
      {
        digest[i] := ByteOf(state[i / 4], 3 - i % 4);
      }
    }
  }

  /** The padding loop stops exactly at the padding of the standard. */
  lemma OffsetOfZeros(m: Bytes, n: nat, lo: nat)
    requires n <= (55 - |m|) % BLOCK && lo % 512 == 8 * (|m + [ENDMARK] + Zeros(n)| % BLOCK)
    ensures lo / 8 % BLOCK == 56 <==> n == (55 - |m|) % BLOCK
  {
    var filled := (|m| + 1 + n) % BLOCK;
    FilledBytes(lo, filled);
    assert |m| + 1 + (55 - |m|) % BLOCK == 56 + BLOCK * ((|m| + 1 + (55 - |m|) % BLOCK - 56) / BLOCK);
  }

  /** SHA-1 of a message that arrives in pieces. */
  method DigestPieces(pieces: seq<Bytes>, digest: array<bv8>)
    requires digest.Length == 20
    requires forall i :: 0 <= i < |pieces| ==> |pieces[i]| + 63 < U32
    modifies digest
    ensures digest[..] == DigestBytes(Digest(Flatten(pieces)))
  {
    hide Digest, Flatten, Context.Absorbed;
    var ctx := new Context();
    FlattenCons<byte>([]);
    assert pieces[..0] == [];
    for i := 0 to |pieces|
      invariant ctx.Absorbed(Flatten(pieces[..i])) && fresh(ctx) && fresh(ctx.state) && fresh(ctx.buffer)
    {
      ctx.Update(pieces[i], Flatten(pieces[..i]));
      FlattenSnoc(pieces[..i], pieces[i]);
      assert pieces[..i] + [pieces[i]] == pieces[..i + 1];
    }
    assert pieces[..|pieces|] == pieces;
    ctx.Final(digest, Flatten(pieces));
  }
}
