/** What MD5 and SHA-1 share: a compression function folded over 64-byte blocks, the padding
    of section 3.1 of RFC 1321, and counting a message's bits in two 32-bit words. */
module BlockHash {

  import opened Bytes
  import opened Word32

  const BLOCK := 64

  const U32 := 0x1_0000_0000

  const U64 := 0x1_0000_0000_0000_0000

  const ENDMARK: byte := 0x80

  /** The chaining value after all the blocks of m. */
  ghost function Fold<S>(f: (S, Bytes) -> S, init: S, m: Bytes): S
    requires |m| % BLOCK == 0
  {
    if m == [] then init else f(Fold(f, init, m[..|m| - BLOCK]), m[|m| - BLOCK..])
  }

  /** The bytes of the complete blocks of m, and the bytes behind them. */
  function Whole(m: Bytes): (r: Bytes)
    ensures |r| % BLOCK == 0
  {
    m[..|m| - |m| % BLOCK]
  }

  function Rest(m: Bytes): (r: Bytes)
    ensures |r| == |m| % BLOCK
  {
    m[|m| - |m| % BLOCK..]
  }

  /** A short piece only makes the unfinished block longer. */
  lemma AppendShort(m: Bytes, data: Bytes)
    requires |Rest(m)| + |data| < BLOCK
    ensures Whole(m + data) == Whole(m) && Rest(m + data) == Rest(m) + data
  {
    assert |m + data| % BLOCK == |Rest(m)| + |data|;
  }

  /** A piece that completes the unfinished block adds one application of f to the fold. */
  lemma AppendBlock<S>(f: (S, Bytes) -> S, init: S, m: Bytes, data: Bytes)
    requires |Rest(m)| + |data| == BLOCK
    ensures Rest(m + data) == [] && |Rest(m) + data| == BLOCK
    ensures Fold(f, init, Whole(m + data)) == f(Fold(f, init, Whole(m)), Rest(m) + data)
  {
    var t := Whole(m + data);
    assert |m + data| % BLOCK == 0;
    assert t == m + data;
    assert t[..|t| - BLOCK] == Whole(m);
    assert t[|t| - BLOCK..] == Rest(m) + data;
  }

  // Padding.

  function Zeros(n: nat): (r: Bytes)
    ensures |r| == n
  {
    seq(n, _ => 0)
  }

  /** One end mark, then zeros up to eight bytes before the end of a block. */
  function Padding(n: nat): (r: Bytes)
    ensures (n + |r|) % BLOCK == 56 && 1 <= |r| <= 64
  {
    [ENDMARK] + Zeros((55 - n) % BLOCK)
  }

  /** The padded message: length is the bit count of m in the byte order of the hash. */
  function Padded(m: Bytes, length: Bytes): (r: Bytes)
    requires |length| == 8
    ensures |r| % BLOCK == 0
  {
    m + Padding(|m|) + length
  }

  function LittleEndian32(n: nat): (r: Bytes)
    ensures |r| == 4
  {
    [n % 256, n / 256 % 256, n / 65536 % 256, n / 16777216 % 256]
  }

  function LittleEndian64(n: nat): (r: Bytes)
    ensures |r| == 8
  {
    LittleEndian32(n % U32) + LittleEndian32(n / U32 % U32)
  }

  function BigEndian32(n: nat): (r: Bytes)
    ensures |r| == 4
  {
    [n / 16777216 % 256, n / 65536 % 256, n / 256 % 256, n % 256]
  }

  function BigEndian64(n: nat): (r: Bytes)
    ensures |r| == 8
  {
    BigEndian32(n / U32 % U32) + BigEndian32(n % U32)
  }

  lemma LittleEndian32Injective(n: nat, k: nat)
    requires n < U32 && k < U32 && LittleEndian32(n) == LittleEndian32(k)
    ensures n == k
  {
    var x, y := LittleEndian32(n), LittleEndian32(k);
    assert x[0] == y[0] && x[1] == y[1] && x[2] == y[2] && x[3] == y[3];
    FourDigits(n);
    FourDigits(k);
  }

  lemma LittleEndian64Injective(n: nat, k: nat)
    requires n < U64 && k < U64 && LittleEndian64(n) == LittleEndian64(k)
    ensures n == k
  {
    hide LittleEndian32;
    var x, y := LittleEndian64(n), LittleEndian64(k);
    assert x[..4] == LittleEndian32(n % U32) && y[..4] == LittleEndian32(k % U32);
    assert x[4..] == LittleEndian32(n / U32 % U32) && y[4..] == LittleEndian32(k / U32 % U32);
    LittleEndian32Injective(n % U32, k % U32);
    LittleEndian32Injective(n / U32 % U32, k / U32 % U32);
  }

  /** Padding never lets two messages collide, as long as their bit counts fit in 64 bits. */
  lemma PaddedInjective(m: Bytes, n: Bytes)
    requires 8 * |m| < U64 && 8 * |n| < U64
    requires Padded(m, LittleEndian64(8 * |m|)) == Padded(n, LittleEndian64(8 * |n|))
    ensures m == n
  {
    hide LittleEndian64, Padding;
    var p, q := Padded(m, LittleEndian64(8 * |m|)), Padded(n, LittleEndian64(8 * |n|));
    assert p[|p| - 8..] == LittleEndian64(8 * |m|) && q[|q| - 8..] == LittleEndian64(8 * |n|);
    LittleEndian64Injective(8 * |m|, 8 * |n|);
    assert p[..|m|] == m && q[..|n|] == n;
  }

  // Counting bits in two 32-bit words.

  /** What the two words stand for. */
  function Total(lo: nat, hi: nat): nat { lo + hi * U32 }

  /** The number of bits of a message, modulo 2^64. */
  function BitsOf(m: Bytes): nat { 8 * |m| % U64 }

  /** Counting on is counting the longer message. */
  lemma BitsOfAppend(m: Bytes, data: Bytes)
    ensures (BitsOf(m) + 8 * |data|) % U64 == BitsOf(m + data)
  {
    var q := 8 * |m| / U64;
    assert 8 * |m + data| == 8 * |m| % U64 + 8 * |data| + q * U64;
    AddMultiple(8 * |m| % U64 + 8 * |data|, q);
  }

  /** How an update of len bytes changes the two words: len is cast to 32 bits, and a sum
      that came out smaller than it was shows a carry. */
  function Count(lo: nat, hi: nat, len: nat): (r: (nat, nat))
    ensures r.0 < U32 && r.1 < U32
  {
    var sum := (lo + len % U32 * 8 % U32) % U32;
    var carried := if sum < lo then (hi + 1) % U32 else hi;
    (sum, (carried + len % U32 / 0x2000_0000) % U32)
  }

  /** Shifting a 32-bit length left by three drops what shifting it right by 29 keeps. */
  lemma ShiftSplits(n: nat)
    ensures n * 8 == n * 8 % U32 + n / 0x2000_0000 * U32
  {
    var q, r := n / 0x2000_0000, n % 0x2000_0000;
    assert n * 8 == U32 * q + 8 * r;
    AddMultiple32(8 * r, q);
  }

  lemma AddMultiple32(a: nat, k: nat)
    ensures (a + U32 * k) % U32 == a % U32
  {
  }

  /** The two words count the bits modulo 2^64, of what the cast to 32 bits leaves of len. */
  lemma CountAdds(lo: nat, hi: nat, len: nat)
    requires lo < U32 && hi < U32
    ensures var r := Count(lo, hi, len); Total(r.0, r.1) == (Total(lo, hi) + 8 * (len % U32)) % U64
  {
    var n := len % U32;
    CountAddsShort(lo, hi, n);
  }

  lemma CountAddsShort(lo: nat, hi: nat, n: nat)
    requires lo < U32 && hi < U32
    ensures var sum := (lo + n * 8 % U32) % U32;
            var carried := if sum < lo then (hi + 1) % U32 else hi;
            Total(sum, (carried + n / 0x2000_0000) % U32) == (Total(lo, hi) + 8 * n) % U64
  {
    var q, add := n / 0x2000_0000, n * 8 % U32;
    ShiftSplits(n);
    var sum := (lo + add) % U32;
    var carry := if sum < lo then 1 else 0;
    assert sum == lo + add - carry * U32;
    var top := hi + carry + q;
    assert ((hi + carry) % U32 + q) % U32 == top % U32;
    TotalModulo(sum, top);
    assert Total(sum, top) == Total(lo, hi) + 8 * n;
  }

  lemma TotalModulo(lo: nat, hi: nat)
    requires lo < U32
    ensures Total(lo, hi % U32) == Total(lo, hi) % U64
  {
    var q := hi / U32;
    assert Total(lo, hi) == Total(lo, hi % U32) + q * U64;
  }

  /** So the bit count of a message stays right exactly when the cast loses nothing that
      counts modulo 2^64 bits. */
  lemma CountIsExact(lo: nat, hi: nat, len: nat)
    requires lo < U32 && hi < U32 && len < U64
    ensures var r := Count(lo, hi, len);
            Total(r.0, r.1) == (Total(lo, hi) + 8 * len) % U64 <==> len / U32 % 0x2000_0000 == 0
  {
    CountAdds(lo, hi, len);
    var n, q := len % U32, len / U32;
    var a, x := Total(lo, hi) + 8 * n, 8 * q * U32;
    assert Total(lo, hi) + 8 * len == a + x;
    var k := q / 0x2000_0000;
    assert x == q % 0x2000_0000 * (8 * U32) + k * U64;
    SameResidue(a, q % 0x2000_0000 * (8 * U32), k);
  }

  /** The shortest such message: 2^32 bytes are counted as none. */
  lemma LongUpdateIsMiscounted()
    ensures Count(0, 0, U32) == (0, 0) && (Total(0, 0) + 8 * U32) % U64 == 8 * U32
    ensures U32 / U32 % 0x2000_0000 != 0
  {
    CountIsExact(0, 0, U32);
  }

  lemma SameResidue(a: nat, y: nat, k: nat)
    requires y < U64
    ensures a % U64 == (a + (y + k * U64)) % U64 <==> y == 0
  {
    assert (a + (y + k * U64)) % U64 == (a + y) % U64 by { AddMultiple(a + y, k); }
  }

  lemma AddMultiple(a: nat, k: nat)
    ensures (a + k * U64) % U64 == a % U64
  {
  }

  lemma SliceGrows(m: Bytes, data: Bytes, i: nat, j: nat)
    requires i <= j <= |data|
    ensures m + data[..i] + data[i..j] == m + data[..j]
  {
    assert data[..i] + data[i..j] == data[..j];
  }

  lemma CountedTotal(lo: nat, hi: nat, m: Bytes, data: Bytes)
    requires lo < U32 && hi < U32
    ensures var r := Count(lo, hi, |data|);
            Total(lo, hi) == BitsOf(m) && |data| < U32 ==> Total(r.0, r.1) == BitsOf(m + data)
  {
    hide BitsOf, Total, Count;
    CountAdds(lo, hi, |data|);
    BitsOfAppend(m, data);
  }

  /** The low word always knows how much of the last block is filled. */
  lemma CountedOffset(lo: nat, n: nat, hi: nat, len: nat)
    requires lo % 512 == 8 * (n % BLOCK)
    ensures lo / 8 % BLOCK == n % BLOCK && Count(lo, hi, len).0 % 512 == 8 * ((n + len) % BLOCK)
  {
    FilledBytes(lo, n % BLOCK);
    SumModulo512(lo, len);
    Modulo512(8 * (n % BLOCK) + 8 * len, lo / 512);
    Modulo64(n, len);
    assert lo + 8 * len == (8 * (n % BLOCK) + 8 * len) + 512 * (lo / 512);
  }

  lemma FilledBytes(lo: nat, filled: nat)
    requires filled < BLOCK && lo % 512 == 8 * filled
    ensures lo / 8 % BLOCK == filled
  {
    assert lo == 512 * (lo / 512) + 8 * filled;
    assert lo / 8 == 64 * (lo / 512) + filled;
  }

  lemma SumModulo512(lo: nat, len: nat)
    ensures (lo + len % U32 * 8 % U32) % U32 % 512 == (lo + 8 * len) % 512
  {
    var add := len % U32 * 8 % U32;
    var sum := (lo + add) % U32;
    var c, a, b := len / U32, len % U32 * 8 / U32, (lo + add) / U32;
    assert len == c * U32 + len % U32;
    assert len % U32 * 8 == a * U32 + add;
    assert lo + add == b * U32 + sum;
    var wraps := 8 * c + a + b;
    assert lo + 8 * len == sum + wraps * U32;
    Modulo512(sum, 8388608 * wraps);
  }

  lemma Modulo512(a: nat, k: nat)
    ensures (a + 512 * k) % 512 == a % 512
  {
  }

  lemma Modulo64(n: nat, len: nat)
    ensures (8 * (n % BLOCK) + 8 * len) % 512 == 8 * ((n + len) % BLOCK)
  {
    var p, r := n / BLOCK, (n + len) / BLOCK;
    assert n == BLOCK * p + n % BLOCK && n + len == BLOCK * r + (n + len) % BLOCK;
    assert 8 * (n % BLOCK) + 8 * len == 8 * ((n + len) % BLOCK) + 512 * (r - p);
  }

  // Blocks as words.

  /** The little-endian word at position i. */
  function PackAt(s: Bytes, i: nat): Word
    requires i + 4 <= |s|
  {
    Pack(s[i] as bv8, s[i + 1] as bv8, s[i + 2] as bv8, s[i + 3] as bv8)
  }

  /** The sixteen little-endian words of a block. */
  function LittleWords(block: Bytes): (x: seq<Word>)
    requires |block| == BLOCK
    ensures |x| == 16
  {
    seq(16, i requires 0 <= i < 16 => PackAt(block, 4 * i))
  }

  lemma LittleWordsAt(block: Bytes, j: nat)
    requires |block| == BLOCK && j < 16
    ensures LittleWords(block)[j] == PackAt(block, 4 * j)
  {
  }

  /** Packing looks at four bytes only. */
  lemma PackAtLocal(s: Bytes, i: nat, t: Bytes, j: nat)
    requires i + 4 <= |s| && j + 4 <= |t| && s[i..i + 4] == t[j..j + 4]
    ensures PackAt(s, i) == PackAt(t, j)
  {
    hide Pack;
    var p, q := s[i..i + 4], t[j..j + 4];
    assert p[0] == q[0] && p[1] == q[1] && p[2] == q[2] && p[3] == q[3];
  }
}
