/** The driver of md5-optimisation/md5.cpp, which takes the whole message at once and runs any
    of the block programs. */
module Md5OneShot {

  import opened Bytes
  import opened BlockHash
  import opened Md5
  import opened Md5Digest
  import opened Md5Blocks

  /** The template parameter fn. */
  datatype Program = WithLea(lea: LeaForm) | WithoutLea(add: AddForm)

  method RunBlock(fn: Program, state: State, data: Bytes)
    requires |data| == BLOCK
    modifies state
    ensures state.Value() == Compress(old(state.Value()), LittleWords(data))
  {
    match fn
    case WithLea(form) => LeaBlock(form, state, LittleWords(data));
    case WithoutLea(form) => AddBlock(form, state, LittleWords(data));
  }

  /** The unfinished block in the two-iteration loop: zeros up to the bit count would complete
      the padding of m. */
  ghost predicate Nearly(state: State, m: Bytes, head: Bytes)
    reads state
  {
    |head| <= 56 && state.Value() == Chained(m + Padding(|m|)) && head + Zeros(56 - |head|) == Rest(m + Padding(|m|))
  }

  /** The whole blocks at the front of the message. */
  method RunWholeBlocks(fn: Program, state: State, src: Bytes) returns (pos: nat)
    requires state.Value() == INIT
    modifies state
    ensures pos <= |src| && |src| - pos < BLOCK && state.Value() == Chained(src) && src[pos..] == Rest(src)
  {
    hide Chained, Rest, Compress, LittleWords;
    pos := 0;
    ChainedNothing();
    assert src[..0] == [];
    while |src| - pos >= BLOCK
      invariant pos <= |src| && state.Value() == Chained(src[..pos]) && Rest(src[..pos]) == []
      decreases |src| - pos
    {
      RunBlock(fn, state, src[pos..pos + BLOCK]);
      ChainedBlock(src[..pos], src[pos..pos + BLOCK]);
      assert src[..pos] + src[pos..pos + BLOCK] == src[..pos + BLOCK];
      assert [] + src[pos..pos + BLOCK] == src[pos..pos + BLOCK];
      pos := pos + BLOCK;
    }
    ChainedShort(src[..pos], src[pos..]);
    assert src[..pos] + src[pos..] == src;
    assert [] + src[pos..] == src[pos..];
  }

  /** The first iteration, taken when there is no room for the bit count: the block is filled
      with zeros and run. */
  method FillBlock(fn: Program, state: State, block: array<byte>, len: nat, ghost m: Bytes)
    requires block.Length == BLOCK && 56 < len <= BLOCK
    requires state.Value() == Chained(m) && block[..][..len] == Rest(m) + [ENDMARK]
    modifies state, block
    ensures Nearly(state, m, [])
  {
    hide Chained, Rest, Compress, LittleWords;
    ghost var was := block[..];
    MemSet(block, len, 0, BLOCK - len);
    OverwriteEnds(was, len, Zeros(BLOCK - len), BLOCK);
    assert block[..] == Rest(m) + [ENDMARK] + Zeros(63 - |Rest(m)|);
    PadsInTwoBlocks(m);
    RunBlock(fn, state, block[..]);
    assert [] + Zeros(56) == Zeros(56);
  }

  /** The second iteration: zeros, the bit count, and the last block. */
  method FinishBlock(fn: Program, state: State, block: array<byte>, len: nat, totalLen: nat, ghost m: Bytes)
    requires block.Length == BLOCK && len <= 56 && Nearly(state, m, block[..][..len]) && totalLen == BitsOf(m)
    modifies state, block
    ensures state.Value() == Digest(m)
  {
    hide Chained, Rest, Compress, LittleWords, LittleEndian64, DigestWith, BitsOf;
    ghost var was := block[..];
    MemSet(block, len, 0, 56 - len);
    OverwriteEnds(was, len, Zeros(56 - len), BLOCK);
    ghost var padded := block[..];
    assert padded[..56] == Rest(m + Padding(|m|));
    MemCopy(block, 56, LittleEndian64(totalLen));
    OverwriteEnds(padded, 56, LittleEndian64(totalLen), BLOCK);
    assert block[..] == Rest(m + Padding(|m|)) + LittleEndian64(totalLen);
    RunBlock(fn, state, block[..]);
    DigestLastBlock(m, totalLen);
    DigestModulo(m, totalLen);
  }

  /** md5: whichever block program it runs, it computes the MD5 of the message. */
  method OneShot(fn: Program, state: State, src: Bytes)
    modifies state
    ensures state.Value() == Digest(src)
  {
    hide Chained, Rest, Digest, Padding;
    state.A, state.B, state.C, state.D := 0x67452301, 0xefcdab89, 0x98badcfe, 0x10325476;
    var totalLen := |src| * 8 % U64;
    var pos := RunWholeBlocks(fn, state, src);
    var block := new byte[64];
    var len: nat := |src| - pos;
    ghost var was := block[..];
    MemCopy(block, 0, src[pos..]);
    OverwriteEnds(was, 0, src[pos..], len);
    block[len] := 0x80;
    len := len + 1;
    assert block[..][..len] == Rest(src) + [ENDMARK];
    var iter := if len <= 64 - 8 then 1 else 0;
    if iter == 1 {
      PadsInOneBlock(src);
    }
    while iter < 2
      invariant 0 <= iter <= 2 && len <= BLOCK && fresh(block) && block.Length == BLOCK
      invariant iter == 0 ==> 56 < len && state.Value() == Chained(src) && block[..][..len] == Rest(src) + [ENDMARK]
      invariant iter == 1 ==> len <= 56 && Nearly(state, src, block[..][..len])
      invariant iter == 2 ==> state.Value() == Digest(src)
      decreases 2 - iter
    {
      if iter == 0 {
        FillBlock(fn, state, block, len, src);
        len := 0;
      } else {
        FinishBlock(fn, state, block, len, totalLen, src);
      }
      iter := iter + 1;
    }
  }
}
