/** MD5 of a message: the compression function folded over the padded blocks. The three
    drivers of the repository are proved against this definition. */
module Md5Digest {

  import opened Bytes
  import opened Word32
  import opened BlockHash
  import opened Md5

  const INIT := Chain(0x67452301, 0xefcdab89, 0x98badcfe, 0x10325476)

  /** A number below 2^32 as a machine word. */
  function WordOf(n: nat): Word { PackAt(LittleEndian32(n), 0) }

  /** A block whose last eight bytes are a bit count holds the halves of it as its last two words. */
  lemma LengthWords(head: Bytes, n: nat)
    requires |head| == 56
    ensures var x := LittleWords(head + LittleEndian64(n));
            && (forall j :: 0 <= j < 14 ==> x[j] == PackAt(head, 4 * j))
            && x[14] == WordOf(n % U32) && x[15] == WordOf(n / U32 % U32)
  {
    hide PackAt, LittleEndian32, LittleWords;
    var s := head + LittleEndian64(n);
    forall j | 0 <= j < 14
      ensures LittleWords(s)[j] == PackAt(head, 4 * j)
    {
      LittleWordsAt(s, j);
      assert s[4 * j..4 * j + 4] == head[4 * j..4 * j + 4];
      PackAtLocal(s, 4 * j, head, 4 * j);
    }
    var lo, hi := LittleEndian32(n % U32), LittleEndian32(n / U32 % U32);
    assert s[56..60] == lo == lo[0..4] && s[60..64] == hi == hi[0..4];
    LittleWordsAt(s, 14);
    PackAtLocal(s, 56, lo, 0);
    LittleWordsAt(s, 15);
    PackAtLocal(s, 60, hi, 0);
  }

  function Block(s: Chain, block: Bytes): Chain {
    if |block| == BLOCK then Compress(s, LittleWords(block)) else s
  }

  /** The result for a message whose bits were counted as n. */
  ghost function DigestWith(m: Bytes, n: nat): Chain {
    Fold(Block, INIT, Padded(m, LittleEndian64(n)))
  }

  /** MD5 of a message, as sections 3.1 to 3.4 of RFC 1321 define it. */
  ghost function Digest(m: Bytes): Chain { DigestWith(m, 8 * |m|) }

  /** Counting the bits modulo 2^64 is good enough. */
  lemma DigestModulo(m: Bytes, n: nat)
    requires n == BitsOf(m)
    ensures DigestWith(m, n) == Digest(m)
  {
    hide Fold, Padded, LittleEndian32, Block;
    Halves(8 * |m|);
  }

  /** The chaining words after the complete blocks of a message that is still growing. */
  ghost function Chained(m: Bytes): Chain { Fold(Block, INIT, Whole(m)) }

  lemma ChainedShort(m: Bytes, data: Bytes)
    requires |Rest(m)| + |data| < BLOCK
    ensures Chained(m + data) == Chained(m) && Rest(m + data) == Rest(m) + data
  {
    AppendShort(m, data);
  }

  lemma ChainedBlock(m: Bytes, data: Bytes)
    requires |Rest(m)| + |data| == BLOCK
    ensures Rest(m + data) == [] && |Rest(m) + data| == BLOCK
    ensures Chained(m + data) == Compress(Chained(m), LittleWords(Rest(m) + data))
  {
    hide Compress, LittleWords;
    AppendBlock(Block, INIT, m, data);
  }

  lemma ChainedNothing()
    ensures Chained([]) == INIT && Rest([]) == []
  {
  }

  /** Padding a message ends its last block with the bit count. */
  lemma DigestLastBlock(m: Bytes, n: nat)
    ensures var t := m + Padding(|m|);
            |Rest(t)| == 56 && DigestWith(m, n) == Compress(Chained(t), LittleWords(Rest(t) + LittleEndian64(n)))
  {
    hide Compress, LittleWords, LittleEndian64, Padding;
    var t := m + Padding(|m|);
    assert |Rest(t)| == 56;
    ChainedBlock(t, LittleEndian64(n));
    assert Whole(t + LittleEndian64(n)) == t + LittleEndian64(n);
  }

  /** With room for the bit count behind the end mark, the padding stays in one block. */
  lemma PadsInOneBlock(m: Bytes)
    requires |Rest(m)| < 56
    ensures var t := m + Padding(|m|);
            Chained(t) == Chained(m) && Rest(t) == Rest(m) + [ENDMARK] + Zeros(55 - |Rest(m)|)
  {
    hide Chained;
    ChainedShort(m, Padding(|m|));
    assert Padding(|m|) == [ENDMARK] + Zeros(55 - |Rest(m)|);
  }

  /** Without that room it fills the block and most of another one. */
  lemma PadsInTwoBlocks(m: Bytes)
    requires |Rest(m)| >= 56
    ensures var t, block := m + Padding(|m|), Rest(m) + [ENDMARK] + Zeros(63 - |Rest(m)|);
            |block| == BLOCK && Chained(t) == Compress(Chained(m), LittleWords(block)) && Rest(t) == Zeros(56)
  {
    hide Chained, Compress, LittleWords;
    var first := [ENDMARK] + Zeros(63 - |Rest(m)|);
    ChainedBlock(m, first);
    ChainedShort(m + first, Zeros(56));
    assert Padding(|m|) == first + Zeros(56);
    assert m + first + Zeros(56) == m + Padding(|m|);
    assert Rest(m) + first == Rest(m) + [ENDMARK] + Zeros(63 - |Rest(m)|);
  }

  /** The sixteen digest bytes of md5.cc, and of the little-endian memcpy in mongoose. */
  function DigestBytes(s: Chain): (r: seq<bv8>)
    ensures |r| == 16
  {
    WordBytes(s.a) + WordBytes(s.b) + WordBytes(s.c) + WordBytes(s.d)
  }

  function WordBytes(w: Word): (r: seq<bv8>)
    ensures |r| == 4
  {
    [ByteOf(w, 0), ByteOf(w, 1), ByteOf(w, 2), ByteOf(w, 3)]
  }

  lemma WordBytesInjective(v: Word, w: Word)
    requires WordBytes(v) == WordBytes(w)
    ensures v == w
  {
    hide ByteOf, Pack;
    var x, y := WordBytes(v), WordBytes(w);
    assert x[0] == y[0] && x[1] == y[1] && x[2] == y[2] && x[3] == y[3];
    PackBytes(v);
    PackBytes(w);
  }

  lemma SplitEqual<T>(a: seq<T>, b: seq<T>, c: seq<T>, d: seq<T>)
    requires |a| == |c| && a + b == c + d
    ensures a == c && b == d
  {
    assert (a + b)[..|a|] == a && (c + d)[..|c|] == c;
    assert (a + b)[|a|..] == b && (c + d)[|c|..] == d;
  }

  /** The digest loses nothing of the final chaining words. */
  lemma DigestBytesInjective(s: Chain, t: Chain)
    requires DigestBytes(s) == DigestBytes(t)
    ensures s == t
  {
    hide WordBytes;
    SplitEqual(WordBytes(s.a) + WordBytes(s.b) + WordBytes(s.c), WordBytes(s.d),
               WordBytes(t.a) + WordBytes(t.b) + WordBytes(t.c), WordBytes(t.d));
    SplitEqual(WordBytes(s.a) + WordBytes(s.b), WordBytes(s.c), WordBytes(t.a) + WordBytes(t.b), WordBytes(t.c));
    SplitEqual(WordBytes(s.a), WordBytes(s.b), WordBytes(t.a), WordBytes(t.b));
    WordBytesInjective(s.a, t.a);
    WordBytesInjective(s.b, t.b);
    WordBytesInjective(s.c, t.c);
    WordBytesInjective(s.d, t.d);
  }

  lemma SplitDigest(r: seq<bv8>)
    requires |r| == 16
    ensures r == r[0..4] + r[4..8] + r[8..12] + r[12..16]
  {
  }

  lemma Halves(n: nat)
    ensures n % U64 % U32 == n % U32 && n % U64 / U32 == n / U32 % U32
  {
    var q := n / U64;
    assert n == n % U64 + q * U64;
  }
}
