/** Mongoose's SHA-1 transform: the message schedule lives in sixteen words that are rewritten
    in place, and the five registers take turns instead of being moved. */
module Sha1 {

  import opened Bytes
  import opened Word32
  import opened BlockHash

  // Section 6.1 of FIPS 180-4.

  datatype Chain = Chain(a: Word, b: Word, c: Word, d: Word, e: Word)

  /** The message schedule: word t of the eighty. */
  function Schedule(x: seq<Word>, t: nat): Word
    requires |x| == 16
  {
    if t < 16 then x[t]
    else Rol(Xor(Xor(Xor(Schedule(x, t - 3), Schedule(x, t - 8)), Schedule(x, t - 14)), Schedule(x, t - 16)), 1)
  }

  function Ch(x: Word, y: Word, z: Word): Word { Xor(And(x, y), And(Not(x), z)) }

  function Parity(x: Word, y: Word, z: Word): Word { Xor(Xor(x, y), z) }

  function Maj(x: Word, y: Word, z: Word): Word { Xor(Xor(And(x, y), And(x, z)), And(y, z)) }

  function F(t: nat, x: Word, y: Word, z: Word): Word {
    if t < 20 then Ch(x, y, z)
    else if t < 40 then Parity(x, y, z)
    else if t < 60 then Maj(x, y, z)
    else Parity(x, y, z)
  }

  function K(t: nat): Word {
    if t < 20 then 0x5a827999 else if t < 40 then 0x6ed9eba1 else if t < 60 then 0x8f1bbcdc else 0xca62c1d6
  }

  function Temp(t: nat, s: Chain, w: Word): Word {
    Add(Add(Add(Add(Rol(s.a, 5), F(t, s.b, s.c, s.d)), s.e), K(t)), w)
  }

  function Step(t: nat, s: Chain, w: Word): Chain {
    Chain(Temp(t, s, w), s.a, Rol(s.b, 30), s.c, s.d)
  }

  function Rounds(s: Chain, x: seq<Word>, n: nat): Chain
    requires |x| == 16
  {
    if n == 0 then s else Step(n - 1, Rounds(s, x, n - 1), Schedule(x, n - 1))
  }

  function Sum(s: Chain, t: Chain): Chain {
    Chain(Add(s.a, t.a), Add(s.b, t.b), Add(s.c, t.c), Add(s.d, t.d), Add(s.e, t.e))
  }

  function Compress(s: Chain, x: seq<Word>): Chain
    requires |x| == 16
  {
    Sum(s, Rounds(s, x, 80))
  }

  // The three round functions as mongoose spells them.

  lemma RawChoice(x: Word, y: Word, z: Word)
    ensures (x & (y ^ z)) ^ z == (x & y) ^ (!x & z)
  {
  }

  lemma LeftChoice(x: Word, y: Word, z: Word)
    ensures And(x, Xor(y, z)) == x & (y ^ z)
  {
    AndOf(Xor(y, z), y ^ z, x);
  }

  lemma LeftChoiceXor(x: Word, y: Word, z: Word)
    ensures Xor(And(x, Xor(y, z)), z) == (x & (y ^ z)) ^ z
  {
    hide And;
    LeftChoice(x, y, z);
    XorOf(And(x, Xor(y, z)), x & (y ^ z), z);
  }

  lemma XorOfBoth(p: Word, s: Word, q: Word, t: Word)
    requires p == s && q == t
    ensures p ^ q == s ^ t
  {
  }

  lemma RightChoice(x: Word, y: Word, z: Word)
    ensures Ch(x, y, z) == (x & y) ^ (!x & z)
  {
    hide And, Not;
    AndIsRaw(x, y);
    AndNotIsRaw(x, z);
    XorOfBoth(And(x, y), x & y, And(Not(x), z), !x & z);
  }

  lemma ChSpelled(x: Word, y: Word, z: Word)
    ensures Xor(And(x, Xor(y, z)), z) == Ch(x, y, z)
  {
    hide *;
    LeftChoiceXor(x, y, z);
    RightChoice(x, y, z);
    RawChoice(x, y, z);
  }

  lemma RawMajority(x: Word, y: Word, z: Word)
    ensures ((x | y) & z) | (x & y) == (x & y) ^ (x & z) ^ (y & z)
  {
  }

  lemma LeftMajority(x: Word, y: Word, z: Word)
    ensures And(Or(x, y), z) == (x | y) & z
  {
    AndOf(Or(x, y), x | y, z);
  }

  lemma LeftMajorityOr(x: Word, y: Word, z: Word)
    ensures Or(And(Or(x, y), z), And(x, y)) == ((x | y) & z) | (x & y)
  {
    hide And;
    LeftMajority(x, y, z);
    AndIsRaw(x, y);
    OrOf(And(Or(x, y), z), (x | y) & z, And(x, y), x & y);
  }

  lemma RightMajority(x: Word, y: Word, z: Word)
    ensures Xor(And(x, y), And(x, z)) == (x & y) ^ (x & z)
  {
    hide And;
    AndIsRaw(x, y);
    AndIsRaw(x, z);
    XorOfBoth(And(x, y), x & y, And(x, z), x & z);
  }

  lemma RightMajorityXor(x: Word, y: Word, z: Word)
    ensures Maj(x, y, z) == (x & y) ^ (x & z) ^ (y & z)
  {
    hide And;
    RightMajority(x, y, z);
    AndIsRaw(y, z);
    XorOfBoth(Xor(And(x, y), And(x, z)), (x & y) ^ (x & z), And(y, z), y & z);
  }

  lemma MajSpelled(x: Word, y: Word, z: Word)
    ensures Or(And(Or(x, y), z), And(x, y)) == Maj(x, y, z)
  {
    hide *;
    LeftMajorityOr(x, y, z);
    RightMajorityXor(x, y, z);
    RawMajority(x, y, z);
  }

  lemma StepSum(z: Word, f: Word, w: Word, k: Word, r: Word)
    ensures Add(z, Add(Add(Add(f, w), k), r)) == Add(Add(Add(Add(r, f), z), k), w)
  {
    hide Add;
    AddAssociates(f, w, k);
    AddCommutes(w, k);
    AddCommutes(Add(f, Add(k, w)), r);
    AddAssociates(r, f, Add(k, w));
    AddCommutes(z, Add(Add(r, f), Add(k, w)));
    AddAssociates(Add(r, f), Add(k, w), z);
    AddCommutes(Add(k, w), z);
    AddAssociates(Add(r, f), z, Add(k, w));
    AddAssociates(Add(Add(r, f), z), k, w);
  }

  // The big-endian words.

  /** blk0's expression for exchanging the bytes of a word. */
  function Swapped(w: Word): Word { Or(And(Rol(w, 24), 0xFF00FF00), And(Rol(w, 8), 0x00FF00FF)) }

  lemma RolIsRaw(w: Word)
    ensures Rol(w, 24) == (w << 24) | (w >> 8) && Rol(w, 8) == (w << 8) | (w >> 24)
  {
  }

  lemma MaskedIsRaw(w: Word)
    ensures And(Rol(w, 24), 0xFF00FF00) == ((w << 24) | (w >> 8)) & 0xFF00FF00
    ensures And(Rol(w, 8), 0x00FF00FF) == ((w << 8) | (w >> 24)) & 0x00FF00FF
  {
    hide Rol;
    RolIsRaw(w);
    AndOf(Rol(w, 24), (w << 24) | (w >> 8), 0xFF00FF00);
    AndOf(Rol(w, 8), (w << 8) | (w >> 24), 0x00FF00FF);
  }

  lemma SwappedIsRaw(w: Word)
    ensures Swapped(w) == (((w << 24) | (w >> 8)) & 0xFF00FF00) | (((w << 8) | (w >> 24)) & 0x00FF00FF)
  {
    hide Rol, And;
    MaskedIsRaw(w);
    OrOf(And(Rol(w, 24), 0xFF00FF00), ((w << 24) | (w >> 8)) & 0xFF00FF00,
         And(Rol(w, 8), 0x00FF00FF), ((w << 8) | (w >> 24)) & 0x00FF00FF);
  }

  lemma RawSwap(w: Word, b0: bv8, b1: bv8, b2: bv8, b3: bv8)
    requires w == ((b3 as bv32) << 24) | ((b2 as bv32) << 16) | ((b1 as bv32) << 8) | (b0 as bv32)
    ensures (((w << 24) | (w >> 8)) & 0xFF00FF00) | (((w << 8) | (w >> 24)) & 0x00FF00FF)
            == ((b0 as bv32) << 24) | ((b1 as bv32) << 16) | ((b2 as bv32) << 8) | (b3 as bv32)
  {
  }

  lemma PackIsRaw(b0: bv8, b1: bv8, b2: bv8, b3: bv8)
    ensures Pack(b0, b1, b2, b3) == ((b3 as bv32) << 24) | ((b2 as bv32) << 16) | ((b1 as bv32) << 8) | (b0 as bv32)
  {
  }

  /** On a little-endian machine blk0 turns a loaded word into the big-endian one. */
  lemma SwapPacks(b0: bv8, b1: bv8, b2: bv8, b3: bv8)
    ensures Swapped(Pack(b0, b1, b2, b3)) == Pack(b3, b2, b1, b0)
  {
    hide *;
    var w := Pack(b0, b1, b2, b3);
    PackIsRaw(b0, b1, b2, b3);
    PackIsRaw(b3, b2, b1, b0);
    SwappedIsRaw(w);
    RawSwap(w, b0, b1, b2, b3);
  }

  function BigPackAt(s: Bytes, i: nat): Word
    requires i + 4 <= |s|
  {
    Pack(s[i + 3] as bv8, s[i + 2] as bv8, s[i + 1] as bv8, s[i] as bv8)
  }

  /** The sixteen big-endian words of a block. */
  function BigWords(block: Bytes): (x: seq<Word>)
    requires |block| == BLOCK
    ensures |x| == 16
  {
    seq(16, i requires 0 <= i < 16 => BigPackAt(block, 4 * i))
  }

  lemma BigWordsAt(block: Bytes, j: nat)
    requires |block| == BLOCK && j < 16
    ensures BigWords(block)[j] == Swapped(LittleWords(block)[j])
  {
    hide Swapped, Pack;
    SwapPacks(block[4 * j] as bv8, block[4 * j + 1] as bv8, block[4 * j + 2] as bv8, block[4 * j + 3] as bv8);
  }

  /** The last operation before t whose number is j modulo 16. */
  function Latest(t: int, j: int): int { t - 1 - (t - 1 - j) % 16 }

  lemma LatestIs(t: nat, k: nat)
    requires k < t <= k + 16
    ensures Latest(t, k % 16) == k
  {
    var q := k / 16;
    assert t - 1 - k % 16 == (t - 1 - k) + 16 * q;
  }

  lemma LatestKept(t: nat, j: nat)
    requires j < 16 && j != t % 16
    ensures Latest(t + 1, j) == Latest(t, j)
  {
    var q := (t - 1 - j) / 16;
    assert t - 1 - j == 16 * q + (t - 1 - j) % 16;
    assert (t - 1 - j) % 16 != 15;
    assert t - j == 16 * q + ((t - 1 - j) % 16 + 1);
  }

  /** What word j of the block holds before operation t: the word still to be loaded, or the
      latest word of the schedule with that number modulo 16. */
  function Slot(data: Bytes, t: nat, j: nat): Word
    requires |data| == BLOCK && j < 16
  {
    if t <= j || Latest(t, j) < 0 then LittleWords(data)[j] else Schedule(BigWords(data), Latest(t, j))
  }

  ghost predicate Circular(l: seq<Word>, data: Bytes, t: nat)
    requires |l| == 16 && |data| == BLOCK
  {
    forall j {:trigger l[j]} :: 0 <= j < 16 ==> l[j] == Slot(data, t, j)
  }

  lemma SlotIs(data: Bytes, t: nat, k: nat)
    requires |data| == BLOCK && k < t <= k + 16
    ensures Slot(data, t, k % 16) == Schedule(BigWords(data), k)
  {
    hide Schedule, Latest;
    LatestIs(t, k);
  }

  lemma SlotKept(data: Bytes, t: nat, j: nat)
    requires |data| == BLOCK && j < 16 && j != t % 16
    ensures Slot(data, t + 1, j) == Slot(data, t, j)
  {
    hide Schedule, Latest;
    LatestKept(t, j);
  }

  /** Writing the next word of the schedule in its place. */
  lemma CircularNext(l: seq<Word>, data: Bytes, t: nat, w: Word)
    requires |l| == 16 && |data| == BLOCK && Circular(l, data, t) && w == Schedule(BigWords(data), t)
    ensures Circular(l[t % 16 := w], data, t + 1)
  {
    hide Slot, Schedule;
    var next := l[t % 16 := w];
    forall j {:trigger next[j]} | 0 <= j < 16
      ensures next[j] == Slot(data, t + 1, j)
    {
      if j == t % 16 {
        SlotIs(data, t + 1, t);
      } else {
        SlotKept(data, t, j);
      }
    }
  }

  lemma SlotLoaded(data: Bytes, t: nat)
    requires |data| == BLOCK && t < 16
    ensures Slot(data, t, t) == LittleWords(data)[t] && Schedule(BigWords(data), t) == BigWords(data)[t]
  {
  }

  lemma CircularLoad(l: seq<Word>, data: Bytes, t: nat, w: Word)
    requires |l| == 16 && |data| == BLOCK && Circular(l, data, t) && t < 16 && w == Swapped(l[t])
    ensures w == Schedule(BigWords(data), t) && Circular(l[t := w], data, t + 1)
  {
    hide Swapped, BigWords, LittleWords, Slot, Schedule;
    SlotLoaded(data, t);
    BigWordsAt(data, t);
    CircularNext(l, data, t, w);
    assert t % 16 == t;
  }

  lemma ScheduleStep(x: seq<Word>, t: nat)
    requires |x| == 16 && t >= 16
    ensures Schedule(x, t) ==
            Rol(Xor(Xor(Xor(Schedule(x, t - 3), Schedule(x, t - 8)), Schedule(x, t - 14)), Schedule(x, t - 16)), 1)
  {
  }

  lemma CircularIndices(t: nat)
    requires t >= 16
    ensures (t - 3) % 16 == (t + 13) % 16 && (t - 8) % 16 == (t + 8) % 16
    ensures (t - 14) % 16 == (t + 2) % 16 && (t - 16) % 16 == t % 16
  {
    SixteenLater(t - 3);
    SixteenLater(t - 8);
    SixteenLater(t - 14);
    SixteenLater(t - 16);
  }

  lemma SixteenLater(k: nat)
    ensures (k + 16) % 16 == k % 16
  {
    var q, r := k / 16, k % 16;
    assert k + 16 == 16 * (q + 1) + r;
  }

  lemma CircularStep(l: seq<Word>, data: Bytes, t: nat, w: Word)
    requires |l| == 16 && |data| == BLOCK && Circular(l, data, t) && t >= 16
    requires w == Rol(Xor(Xor(Xor(l[(t + 13) % 16], l[(t + 8) % 16]), l[(t + 2) % 16]), l[t % 16]), 1)
    ensures w == Schedule(BigWords(data), t) && Circular(l[t % 16 := w], data, t + 1)
  {
    hide Slot, Xor, Rol, Schedule, BigWords;
    CircularIndices(t);
    SlotIs(data, t, t - 3);
    SlotIs(data, t, t - 8);
    SlotIs(data, t, t - 14);
    SlotIs(data, t, t - 16);
    ScheduleStep(BigWords(data), t);
    CircularNext(l, data, t, w);
  }

  /** blk0: load word i and turn it around. */
  method Blk0(block: array<Word>, i: nat, ghost data: Bytes) returns (w: Word)
    requires block.Length == 16 && |data| == BLOCK && i < 16 && Circular(block[..], data, i)
    modifies block
    ensures w == Schedule(BigWords(data), i) && Circular(block[..], data, i + 1)
  {
    hide Circular, Rol, And, Or, Schedule;
    ghost var was := block[..];
    block[i] := Or(And(Rol(block[i], 24), 0xFF00FF00), And(Rol(block[i], 8), 0x00FF00FF));
    w := block[i];
    CircularLoad(was, data, i, w);
    assert block[..] == was[i := w];
  }

  /** blk: the next word of the schedule replaces the one sixteen places before it. */
  method Blk(block: array<Word>, i: nat, ghost data: Bytes) returns (w: Word)
    requires block.Length == 16 && |data| == BLOCK && i >= 16 && Circular(block[..], data, i)
    modifies block
    ensures w == Schedule(BigWords(data), i) && Circular(block[..], data, i + 1)
  {
    hide Circular, Rol, Xor, Schedule;
    ghost var was := block[..];
    block[i % 16] := Rol(Xor(Xor(Xor(block[(i + 13) % 16], block[(i + 8) % 16]), block[(i + 2) % 16]), block[i % 16]),
        1);
    w := block[i % 16];
    CircularStep(was, data, i, w);
    assert block[..] == was[i % 16 := w];
  }

  /** The five round macros. */
  datatype Macro = R0 | R1 | R2 | R3 | R4

  /** Which macro the code uses for operation t. */
  function MacroAt(t: nat): Macro {
    if t < 16 then R0 else if t < 20 then R1 else if t < 40 then R2 else if t < 60 then R3 else R4
  }

  /** What a macro adds to z before the rotation of v. */
  method Mixed(r: Macro, w: Word, x: Word, y: Word, i: nat, block: array<Word>, ghost data: Bytes) returns (sum: Word)
    requires block.Length == 16 && |data| == BLOCK && Circular(block[..], data, i) && r == MacroAt(i)
    modifies block
    ensures Circular(block[..], data, i + 1)
    ensures sum == Add(Add(F(i, w, x, y), Schedule(BigWords(data), i)), K(i))
  {
    hide Circular, Schedule, Add, And, Or, Xor, Ch, Maj;
    ChSpelled(w, x, y);
    MajSpelled(w, x, y);
    var word: Word;
    if r == R0 {
      word := Blk0(block, i, data);
    } else {
      word := Blk(block, i, data);
    }
    match r
    case R0 => sum := Add(Add(Xor(And(w, Xor(x, y)), y), word), 0x5A827999);
    case R1 => sum := Add(Add(Xor(And(w, Xor(x, y)), y), word), 0x5A827999);
    case R2 => sum := Add(Add(Xor(Xor(w, x), y), word), 0x6ED9EBA1);
    case R3 => sum := Add(Add(Or(And(Or(w, x), y), And(w, x)), word), 0x8F1BBCDC);
    case R4 => sum := Add(Add(Xor(Xor(w, x), y), word), 0xCA62C1D6);
  }

  /** One macro: z becomes the new first register and w is rotated where it is. */
  method Round(r: Macro, v: Word, w0: Word, x: Word, y: Word, z0: Word, i: nat, block: array<Word>, ghost data: Bytes)
    returns (w: Word, z: Word)
    requires block.Length == 16 && |data| == BLOCK && Circular(block[..], data, i) && r == MacroAt(i)
    modifies block
    ensures Circular(block[..], data, i + 1)
    ensures Chain(z, v, w, x, y) == Step(i, Chain(v, w0, x, y, z0), Schedule(BigWords(data), i))
  {
    hide Circular, Schedule, Add, F, K, Rol;
    var sum := Mixed(r, w0, x, y, i, block, data);
    z := Add(z0, Add(sum, Rol(v, 5)));
    w := Rol(w0, 30);
    StepSum(z0, F(i, w0, x, y), Schedule(BigWords(data), i), K(i), Rol(v, 5));
  }

  /** Five consecutive macros, after which every register is back in its place. */
  method Five(first: Macro, others: Macro, a0: Word, b0: Word, c0: Word, d0: Word, e0: Word, t: nat,
              block: array<Word>, ghost data: Bytes, ghost s: Chain)
    returns (a: Word, b: Word, c: Word, d: Word, e: Word)
    requires block.Length == 16 && |data| == BLOCK && Circular(block[..], data, t)
    requires first == MacroAt(t) && forall k :: t < k < t + 5 ==> others == MacroAt(k)
    requires Chain(a0, b0, c0, d0, e0) == Rounds(s, BigWords(data), t)
    modifies block
    ensures Circular(block[..], data, t + 5)
    ensures Chain(a, b, c, d, e) == Rounds(s, BigWords(data), t + 5)
  {
    hide Circular, Schedule, Step, Rounds, BigWords;
    a, b, c, d, e := a0, b0, c0, d0, e0;
    b, e := Round(first, a, b, c, d, e, t, block, data);
    OneRound(s, BigWords(data), t);
    a, d := Round(others, e, a, b, c, d, t + 1, block, data);
    OneRound(s, BigWords(data), t + 1);
    e, c := Round(others, d, e, a, b, c, t + 2, block, data);
    OneRound(s, BigWords(data), t + 2);
    d, b := Round(others, c, d, e, a, b, t + 3, block, data);
    OneRound(s, BigWords(data), t + 3);
    c, a := Round(others, b, c, d, e, a, t + 4, block, data);
    OneRound(s, BigWords(data), t + 4);
  }

  lemma NoRounds(s: Chain, x: seq<Word>)
    requires |x| == 16
    ensures Rounds(s, x, 0) == s
  {
  }

  lemma OneRound(s: Chain, x: seq<Word>, n: nat)
    requires |x| == 16
    ensures Rounds(s, x, n + 1) == Step(n, Rounds(s, x, n), Schedule(x, n))
  {
  }

  ghost function ChainIn(state: array<Word>): Chain
    requires state.Length == 5
    reads state
  {
    Chain(state[0], state[1], state[2], state[3], state[4])
  }

  /** cs_sha1_transform: sixteen words of schedule and register renaming compute what the
      eighty-word schedule of the standard does. */
  method Transform(state: array<Word>, buffer: Bytes)
    requires state.Length == 5 && |buffer| == BLOCK
    modifies state
    ensures ChainIn(state) == Compress(old(ChainIn(state)), BigWords(buffer))
  {
    hide Circular, Schedule, Rounds, BigWords, LittleWords, Add;
    var block := new Word[16](i requires 0 <= i < 16 => LittleWords(buffer)[i]);
    ghost var s := ChainIn(state);
    var a, b, c, d, e := state[0], state[1], state[2], state[3], state[4];
    NoRounds(s, BigWords(buffer));
    assert block[..] == LittleWords(buffer);
    CircularStart(buffer);
    a, b, c, d, e := TransformLow(a, b, c, d, e, block, buffer, s);
    a, b, c, d, e := TransformHigh(a, b, c, d, e, block, buffer, s);
    state[0] := Add(state[0], a);
    state[1] := Add(state[1], b);
    state[2] := Add(state[2], c);
    state[3] := Add(state[3], d);
    state[4] := Add(state[4], e);
  }

  lemma CircularStart(data: Bytes)
    requires |data| == BLOCK
    ensures Circular(LittleWords(data), data, 0)
  {
  }

  /** The macros for operations 0 to 39. */
  method TransformLow(a0: Word, b0: Word, c0: Word, d0: Word, e0: Word, block: array<Word>, ghost data: Bytes,
      ghost s: Chain)
    returns (a: Word, b: Word, c: Word, d: Word, e: Word)
    requires block.Length == 16 && |data| == BLOCK && Circular(block[..], data, 0)
    requires Chain(a0, b0, c0, d0, e0) == Rounds(s, BigWords(data), 0)
    modifies block
    ensures Circular(block[..], data, 40)
    ensures Chain(a, b, c, d, e) == Rounds(s, BigWords(data), 40)
  {
    hide Circular, Schedule, Rounds, BigWords;
    a, b, c, d, e := a0, b0, c0, d0, e0;
    a, b, c, d, e := Five(R0, R0, a, b, c, d, e, 0, block, data, s);
    a, b, c, d, e := Five(R0, R0, a, b, c, d, e, 5, block, data, s);
    a, b, c, d, e := Five(R0, R0, a, b, c, d, e, 10, block, data, s);
    a, b, c, d, e := Five(R0, R1, a, b, c, d, e, 15, block, data, s);
    a, b, c, d, e := Five(R2, R2, a, b, c, d, e, 20, block, data, s);
    a, b, c, d, e := Five(R2, R2, a, b, c, d, e, 25, block, data, s);
    a, b, c, d, e := Five(R2, R2, a, b, c, d, e, 30, block, data, s);
    a, b, c, d, e := Five(R2, R2, a, b, c, d, e, 35, block, data, s);
  }

  /** The macros for operations 40 to 79. */
  method TransformHigh(a0: Word, b0: Word, c0: Word, d0: Word, e0: Word, block: array<Word>, ghost data: Bytes,
      ghost s: Chain)
    returns (a: Word, b: Word, c: Word, d: Word, e: Word)
    requires block.Length == 16 && |data| == BLOCK && Circular(block[..], data, 40)
    requires Chain(a0, b0, c0, d0, e0) == Rounds(s, BigWords(data), 40)
    modifies block
    ensures Circular(block[..], data, 80)
    ensures Chain(a, b, c, d, e) == Rounds(s, BigWords(data), 80)
  {
    hide Circular, Schedule, Rounds, BigWords;
    a, b, c, d, e := a0, b0, c0, d0, e0;
    a, b, c, d, e := Five(R3, R3, a, b, c, d, e, 40, block, data, s);
    a, b, c, d, e := Five(R3, R3, a, b, c, d, e, 45, block, data, s);
    a, b, c, d, e := Five(R3, R3, a, b, c, d, e, 50, block, data, s);
    a, b, c, d, e := Five(R3, R3, a, b, c, d, e, 55, block, data, s);
    a, b, c, d, e := Five(R4, R4, a, b, c, d, e, 60, block, data, s);
    a, b, c, d, e := Five(R4, R4, a, b, c, d, e, 65, block, data, s);
    a, b, c, d, e := Five(R4, R4, a, b, c, d, e, 70, block, data, s);
    a, b, c, d, e := Five(R4, R4, a, b, c, d, e, 75, block, data, s);
  }
}
