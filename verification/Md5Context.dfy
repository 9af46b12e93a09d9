/** The driver of md5/md5.cc, which takes its input byte by byte. */
module Md5Context {

  import opened Bytes
  import opened Word32
  import opened BlockHash
  import opened Md5
  import opened Md5Digest

  /** The length of a message as the 64-bit size field sees it. */
  function SizeOf(m: Bytes): nat { |m| % U64 }

  function Enlarge(size: nat, n: nat): nat { (size + n) % U64 }

  lemma SizeOffset(m: Bytes)
    ensures SizeOf(m) % BLOCK == |m| % BLOCK
  {
    var q := |m| / U64;
    assert |m| == SizeOf(m) + q * U64;
  }

  lemma SizeOfAppend(m: Bytes, data: Bytes)
    ensures Enlarge(SizeOf(m), |data|) == SizeOf(m + data)
  {
    var q := |m| / U64;
    assert |m + data| == SizeOf(m) + |data| + q * U64;
    AddMultiple(SizeOf(m) + |data|, q);
  }

  /** md5Finalize subtracts the padding it has just fed in. */
  lemma UndoPadding(m: Bytes, n: nat)
    requires n == |Padding(|m|)|
    ensures (SizeOf(m + Padding(|m|)) - n) % U64 == SizeOf(m)
  {
    var all := |m| + n;
    var p, q, r := |m| / U64, all / U64, |m| % U64;
    assert |m| == p * U64 + r && all == q * U64 + all % U64;
    assert q == p || q == p + 1;
    assert all % U64 - n == r + (p - q) * U64;
  }

  /** The two halves of the bit count, computed from a size that is only known modulo 2^64. */
  lemma LowBits(m: Bytes)
    ensures SizeOf(m) * 8 % U64 % U32 == 8 * |m| % U32
    ensures SizeOf(m) * 8 % U64 / U32 == 8 * |m| / U32 % U32
  {
    var q := |m| / U64;
    assert 8 * |m| == 8 * SizeOf(m) + (8 * q) * U64;
    AddMultiple(8 * SizeOf(m), 8 * q);
    Halves(8 * |m|);
    assert SizeOf(m) * 8 == 8 * SizeOf(m);
  }

  lemma PrefixGrows(m: Bytes, data: Bytes, i: nat)
    requires i < |data|
    ensures m + data[..i] + [data[i]] == m + data[..i + 1]
  {
  }

  /** The counter of md5Update's loop, an unsigned int, after k increments. */
  function Counter(k: nat): (i: nat)
    ensures i < U32
  {
    if k == 0 then 0 else (Counter(k - 1) + 1) % U32
  }

  lemma {:induction false} CounterCounts(k: nat)
    requires k < U32
    ensures Counter(k) == k
  {
    if k > 0 {
      CounterCounts(k - 1);
    }
  }

  /** So the loop `i < input_len` ends exactly for lengths below 2^32. */
  lemma LoopEnds(len: nat)
    ensures (exists k: nat :: Counter(k) >= len) <==> len < U32
  {
    hide Counter;
    if len < U32 {
      CounterCounts(len);
    }
  }

  class Context {
    var size: nat
    const buffer: array<Word>
    const input: array<byte>
    const digest: array<bv8>

    ghost predicate Valid() {
      buffer.Length == 4 && input.Length == BLOCK && digest.Length == 16
    }

    /** Complete blocks of m are folded, and the rest of it is the first offset bytes of input. */
    ghost predicate Holds(m: Bytes, offset: nat)
      requires Valid()
      reads buffer, input
    {
      offset == |m| % BLOCK && ChainIn(buffer) == Chained(m) && input[..][..offset] == Rest(m)
    }

    /** The context after the message m. */
    ghost predicate Absorbed(m: Bytes)
      reads this, buffer, input
    {
      Valid() && Holds(m, |m| % BLOCK) && size == SizeOf(m)
    }

    /** md5Init */
    constructor ()
      ensures Absorbed([]) && fresh(buffer) && fresh(input) && fresh(digest)
    {
      size := 0;
      buffer := new Word[4];
      input := new byte[64];
      digest := new bv8[16];
      new;
      hide Absorbed, Holds, Chained;
      buffer[0], buffer[1], buffer[2], buffer[3] := 0x67452301, 0xefcdab89, 0x98badcfe, 0x10325476;
      StartsEmpty();
    }

    lemma StartsEmpty()
      requires Valid() && size == 0 && ChainIn(buffer) == INIT
      ensures Absorbed([])
    {
      hide Chained, Rest, ChainIn;
      ChainedNothing();
      assert input[..][..0] == [];
    }

    lemma HoldsOffset(m: Bytes, offset: nat)
      requires Valid() && Holds(m, offset)
      ensures offset == |m| % BLOCK
    {
    }

    /** Packs the first n words of input into a local array. */
    method LoadWords(words: array<Word>, n: nat)
      requires Valid() && words.Length == 16 && n <= 16 && words != buffer
      modifies words
      ensures forall j :: 0 <= j < n ==> words[j] == PackAt(input[..], 4 * j)
    {
      hide Pack;
      for j := 0 to n
        invariant forall k :: 0 <= k < j ==> words[k] == PackAt(input[..], 4 * k)
      {
        words[j] := Pack(input[4 * j] as bv8, input[4 * j + 1] as bv8, input[4 * j + 2] as bv8,
            input[4 * j + 3] as bv8);
      }
    }

    /** The body of md5Update's loop: one more byte. */
    method TakeByte(b: byte, offset: nat, words: array<Word>, ghost m: Bytes) returns (next: nat)
      requires Valid() && words.Length == 16 && words != buffer && Holds(m, offset)
      modifies buffer, input, words
      ensures Holds(m + [b], next)
    {
      hide Chained, Rest, Compress;
      input[offset] := b;
      next := offset + 1;
      assert input[..][..next] == Rest(m) + [b];
      assert |m + [b]| % BLOCK == next % BLOCK;
      if next % BLOCK == 0 {
        LoadWords(words, 16);
        ChainedBlock(m, [b]);
        assert input[..] == Rest(m) + [b];
        assert words[..] == LittleWords(Rest(m) + [b]);
        Md5Step(buffer, words);
        next := 0;
      } else {
        ChainedShort(m, [b]);
      }
    }

    method Update(data: Bytes, ghost m: Bytes)
      requires Absorbed(m) && |data| < U32
      modifies this`size, buffer, input
      ensures Absorbed(m + data)
    {
      hide Holds, SizeOf, Enlarge;
      var words := new Word[16];
      var offset: nat := size % BLOCK;
      size := Enlarge(size, |data|);
      SizeOffset(m);
      SizeOfAppend(m, data);
      assert m + data[..0] == m;
      for i := 0 to |data|
        invariant Holds(m + data[..i], offset) && size == Enlarge(old(size), |data|)
      {
        offset := TakeByte(data[i], offset, words, m + data[..i]);
        PrefixGrows(m, data, i);
      }
      assert data[..|data|] == data;
      HoldsOffset(m + data, offset);
    }

    /** Pads, appends the bit count, and writes the digest. */
    method Finalize(ghost m: Bytes)
      requires Absorbed(m)
      modifies this`size, buffer, input, digest
      ensures ChainIn(buffer) == Digest(m) && digest[..] == DigestBytes(Digest(m))
    {
      hide Holds, Digest, DigestBytes, SizeOf;
      var offset: nat := size % BLOCK;
      SizeOffset(m);
      var paddingLength := if offset < 56 then 56 - offset else 56 + 64 - offset;
      assert [ENDMARK] + Zeros(paddingLength - 1) == Padding(|m|);
      Update([0x80] + Zeros(paddingLength - 1), m);
      size := (size - paddingLength) % U64;
      UndoPadding(m, paddingLength);
      FinalStep(m);
      WriteDigest();
    }

    /** The last block: what waits in input, then the two halves of the bit count. */
    method FinalStep(ghost m: Bytes)
      requires Valid() && size == SizeOf(m) && Holds(m + Padding(|m|), 56)
      modifies buffer
      ensures ChainIn(buffer) == Digest(m)
    {
      hide Chained, Rest, DigestWith, Compress, Pack, LittleEndian64, WordOf, PackAt, LittleWords, SizeOf;
      ghost var last := Rest(m + Padding(|m|)) + LittleEndian64(8 * |m|);
      var words := new Word[16];
      LoadWords(words, 14);
      words[14] := WordOf(size * 8 % U64 % U32);
      words[15] := WordOf(size * 8 % U64 / U32);
      DigestLastBlock(m, 8 * |m|);
      LengthWords(Rest(m + Padding(|m|)), 8 * |m|);
      LowBits(m);
      HeadWords(input[..]);
      assert words[..] == LittleWords(last);
      Md5Step(buffer, words);
    }

    method WriteDigest()
      requires Valid()
      modifies digest
      ensures digest[..] == DigestBytes(ChainIn(buffer))
    {
      hide WordBytes;
      for i := 0 to 4
        invariant forall k :: 0 <= k < i ==> digest[..][4 * k..4 * k + 4] == WordBytes(buffer[k])
      {
        WriteWord(i);
      }
      SplitDigest(digest[..]);
    }

    /** The four assignments in the last loop of md5Finalize. */
    method WriteWord(i: nat)
      requires Valid() && i < 4
      modifies digest
      ensures digest[..][4 * i..4 * i + 4] == WordBytes(buffer[i])
      ensures forall k :: 0 <= k < i ==> digest[..][4 * k..4 * k + 4] == old(digest[..])[4 * k..4 * k + 4]
    {
      hide ByteOf;
      digest[i * 4] := ByteOf(buffer[i], 0);
      digest[i * 4 + 1] := ByteOf(buffer[i], 1);
      digest[i * 4 + 2] := ByteOf(buffer[i], 2);
      digest[i * 4 + 3] := ByteOf(buffer[i], 3);
    }
  }

  lemma HeadWords(s: Bytes)
    requires |s| == BLOCK
    ensures forall j :: 0 <= j < 14 ==> PackAt(s, 4 * j) == PackAt(s[..56], 4 * j)
  {
    hide Pack;
  }

  /** Runs md5.cc over a message that arrives in pieces. */
  method DigestPieces(pieces: seq<Bytes>) returns (digest: seq<bv8>)
    requires forall i :: 0 <= i < |pieces| ==> |pieces[i]| < U32
    ensures digest == DigestBytes(Digest(Flatten(pieces)))
  {
    hide Digest, Flatten, Context.Absorbed;
    var ctx := new Context();
    FlattenCons<byte>([]);
    assert pieces[..0] == [];
    for i := 0 to |pieces|
      invariant ctx.Absorbed(Flatten(pieces[..i])) && fresh(ctx) && fresh(ctx.buffer) && fresh(ctx.input)
          && fresh(ctx.digest)
    {
      ctx.Update(pieces[i], Flatten(pieces[..i]));
      FlattenSnoc(pieces[..i], pieces[i]);
      assert pieces[..i] + [pieces[i]] == pieces[..i + 1];
    }
    assert pieces[..|pieces|] == pieces;
    ctx.Finalize(Flatten(pieces));
    digest := ctx.digest[..];
  }
}
