/** 32-bit machine words: one function per register operation of the hash programs, and the
    algebra their proofs need. Everything else is proved from that algebra with the
    operations themselves hidden. */
module Word32 {

  type Word = bv32

  function Add(x: Word, y: Word): Word { x + y }

  function And(x: Word, y: Word): Word { x & y }

  function Or(x: Word, y: Word): Word { x | y }

  function Xor(x: Word, y: Word): Word { x ^ y }

  function Not(x: Word): Word { !x }

  function Rol(x: Word, n: nat): Word
    requires n <= 32
  {
    (x << n) | (x >> (32 - n))
  }

  // A rotation takes the top n bits of a word round to the bottom and moves the others up, for each
  // amount that MD5 and SHA-1 use.

  lemma Rotation1(x: Word)
    ensures Rol(x, 1) & 0x1 == x >> 31 && Rol(x, 1) >> 1 == x & 0x7FFFFFFF
  {
  }

  lemma Rotation4(x: Word)
    ensures Rol(x, 4) & 0xF == x >> 28 && Rol(x, 4) >> 4 == x & 0xFFFFFFF
  {
  }

  lemma Rotation5(x: Word)
    ensures Rol(x, 5) & 0x1F == x >> 27 && Rol(x, 5) >> 5 == x & 0x7FFFFFF
  {
  }

  lemma Rotation6(x: Word)
    ensures Rol(x, 6) & 0x3F == x >> 26 && Rol(x, 6) >> 6 == x & 0x3FFFFFF
  {
  }

  lemma Rotation7(x: Word)
    ensures Rol(x, 7) & 0x7F == x >> 25 && Rol(x, 7) >> 7 == x & 0x1FFFFFF
  {
  }

  lemma Rotation8(x: Word)
    ensures Rol(x, 8) & 0xFF == x >> 24 && Rol(x, 8) >> 8 == x & 0xFFFFFF
  {
  }

  lemma Rotation9(x: Word)
    ensures Rol(x, 9) & 0x1FF == x >> 23 && Rol(x, 9) >> 9 == x & 0x7FFFFF
  {
  }

  lemma Rotation10(x: Word)
    ensures Rol(x, 10) & 0x3FF == x >> 22 && Rol(x, 10) >> 10 == x & 0x3FFFFF
  {
  }

  lemma Rotation11(x: Word)
    ensures Rol(x, 11) & 0x7FF == x >> 21 && Rol(x, 11) >> 11 == x & 0x1FFFFF
  {
  }

  lemma Rotation12(x: Word)
    ensures Rol(x, 12) & 0xFFF == x >> 20 && Rol(x, 12) >> 12 == x & 0xFFFFF
  {
  }

  lemma Rotation14(x: Word)
    ensures Rol(x, 14) & 0x3FFF == x >> 18 && Rol(x, 14) >> 14 == x & 0x3FFFF
  {
  }

  lemma Rotation15(x: Word)
    ensures Rol(x, 15) & 0x7FFF == x >> 17 && Rol(x, 15) >> 15 == x & 0x1FFFF
  {
  }

  lemma Rotation16(x: Word)
    ensures Rol(x, 16) & 0xFFFF == x >> 16 && Rol(x, 16) >> 16 == x & 0xFFFF
  {
  }

  lemma Rotation17(x: Word)
    ensures Rol(x, 17) & 0x1FFFF == x >> 15 && Rol(x, 17) >> 17 == x & 0x7FFF
  {
  }

  lemma Rotation20(x: Word)
    ensures Rol(x, 20) & 0xFFFFF == x >> 12 && Rol(x, 20) >> 20 == x & 0xFFF
  {
  }

  lemma Rotation21(x: Word)
    ensures Rol(x, 21) & 0x1FFFFF == x >> 11 && Rol(x, 21) >> 21 == x & 0x7FF
  {
  }

  lemma Rotation22(x: Word)
    ensures Rol(x, 22) & 0x3FFFFF == x >> 10 && Rol(x, 22) >> 22 == x & 0x3FF
  {
  }

  lemma Rotation23(x: Word)
    ensures Rol(x, 23) & 0x7FFFFF == x >> 9 && Rol(x, 23) >> 23 == x & 0x1FF
  {
  }

  lemma Rotation24(x: Word)
    ensures Rol(x, 24) & 0xFFFFFF == x >> 8 && Rol(x, 24) >> 24 == x & 0xFF
  {
  }

  lemma Rotation30(x: Word)
    ensures Rol(x, 30) & 0x3FFFFFFF == x >> 2 && Rol(x, 30) >> 30 == x & 0x3
  {
  }

  // Equal words may replace each other below an operator.

  lemma SumOf(p: Word, s: Word, z: Word)
    requires p == s
    ensures p + z == s + z && z + p == z + s
  {
  }

  lemma XorOf(p: Word, s: Word, z: Word)
    requires p == s
    ensures p ^ z == s ^ z && z ^ p == z ^ s
  {
  }

  lemma AndOf(p: Word, s: Word, z: Word)
    requires p == s
    ensures p & z == s & z && z & p == z & s
  {
  }

  lemma OrOf(p: Word, s: Word, q: Word, t: Word)
    requires p == s && q == t
    ensures p | q == s | t
  {
  }

  lemma AddCommutes(x: Word, y: Word)
    ensures Add(x, y) == Add(y, x)
  {
  }

  lemma AddAssociates(x: Word, y: Word, z: Word)
    ensures Add(Add(x, y), z) == Add(x, Add(y, z))
  {
    SumOf(Add(x, y), x + y, z);
    SumOf(Add(y, z), y + z, x);
  }

  lemma AndCommutes(x: Word, y: Word)
    ensures And(x, y) == And(y, x)
  {
  }

  lemma OrCommutes(x: Word, y: Word)
    ensures Or(x, y) == Or(y, x)
  {
  }

  lemma XorCommutes(x: Word, y: Word)
    ensures Xor(x, y) == Xor(y, x)
  {
  }

  lemma XorAssociates(x: Word, y: Word, z: Word)
    ensures Xor(Xor(x, y), z) == Xor(x, Xor(y, z))
  {
    XorOf(Xor(x, y), x ^ y, z);
    XorOf(Xor(y, z), y ^ z, x);
  }

  lemma XorCancels(x: Word, y: Word)
    ensures Xor(Xor(x, y), y) == x
  {
    XorOf(Xor(x, y), x ^ y, y);
  }

  // Choosing the bits of y where x is set and those of z elsewhere, in three spellings.

  function Choose(x: Word, y: Word, z: Word): Word { Or(And(x, y), And(Not(x), z)) }

  lemma AndIsRaw(x: Word, y: Word)
    ensures And(x, y) == x & y
  {
  }

  lemma AndNotIsRaw(x: Word, y: Word)
    ensures And(Not(x), y) == !x & y
  {
    AndOf(Not(x), !x, y);
  }

  lemma ChooseIsRaw(x: Word, y: Word, z: Word)
    ensures Choose(x, y, z) == (x & y) | (!x & z)
  {
    hide And, Not;
    AndIsRaw(x, y);
    AndNotIsRaw(x, z);
    OrOf(And(x, y), x & y, And(Not(x), z), !x & z);
  }

  lemma SelectIsRaw(x: Word, y: Word, z: Word)
    ensures And(Xor(z, y), x) == (z ^ y) & x
  {
    AndOf(Xor(z, y), z ^ y, x);
  }

  lemma XorSelectIsRaw(x: Word, y: Word, z: Word)
    ensures Xor(And(Xor(z, y), x), z) == ((z ^ y) & x) ^ z
  {
    hide And;
    SelectIsRaw(x, y, z);
    XorOf(And(Xor(z, y), x), (z ^ y) & x, z);
  }

  lemma RawSelect(x: Word, y: Word, z: Word)
    ensures ((z ^ y) & x) ^ z == (x & y) | (!x & z)
  {
  }

  lemma SelectByXor(x: Word, y: Word, z: Word)
    ensures Xor(And(Xor(z, y), x), z) == Choose(x, y, z)
  {
    hide *;
    XorSelectIsRaw(x, y, z);
    RawSelect(x, y, z);
    ChooseIsRaw(x, y, z);
  }

  lemma RawDisjoint(x: Word, y: Word, z: Word)
    ensures (!x & z) + (x & y) == (x & y) | (!x & z)
  {
  }

  lemma AddSelectIsRaw(x: Word, y: Word, z: Word)
    ensures Add(And(Not(x), z), And(x, y)) == (!x & z) + (x & y)
  {
    hide And, Not;
    AndIsRaw(x, y);
    AndNotIsRaw(x, z);
    SumOf(And(Not(x), z), !x & z, And(x, y));
    SumOf(And(x, y), x & y, !x & z);
  }

  /** The two halves of a choice have no bit in common, so adding them is the same as or-ing. */
  lemma SelectByAdd(x: Word, y: Word, z: Word)
    ensures Add(And(Not(x), z), And(x, y)) == Choose(x, y, z)
  {
    hide *;
    AddSelectIsRaw(x, y, z);
    RawDisjoint(x, y, z);
    ChooseIsRaw(x, y, z);
  }

  // Words and bytes.

  /** The word whose least significant byte is b0. */
  function Pack(b0: bv8, b1: bv8, b2: bv8, b3: bv8): Word {
    ((b3 as bv32) << 24) | ((b2 as bv32) << 16) | ((b1 as bv32) << 8) | (b0 as bv32)
  }

  /** Byte k of a word, counted from the least significant one. */
  function ByteOf(w: Word, k: nat): bv8
    requires k < 4
  {
    if k == 0 then (w & 0xFF) as bv8
    else if k == 1 then ((w >> 8) & 0xFF) as bv8
    else if k == 2 then ((w >> 16) & 0xFF) as bv8
    else ((w >> 24) & 0xFF) as bv8
  }

  lemma RawPackBytes(w: Word)
    ensures (((((w >> 24) & 0xFF) as bv8) as bv32) << 24) | (((((w >> 16) & 0xFF) as bv8) as bv32) << 16)
            | (((((w >> 8) & 0xFF) as bv8) as bv32) << 8) | (((w & 0xFF) as bv8) as bv32) == w
  {
  }

  /** A word is the packing of its bytes. */
  lemma PackBytes(w: Word)
    ensures Pack(ByteOf(w, 0), ByteOf(w, 1), ByteOf(w, 2), ByteOf(w, 3)) == w
  {
    RawPackBytes(w);
  }
}
