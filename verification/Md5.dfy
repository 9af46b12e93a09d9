/** The MD5 compression function: the rotating-variable loop of md5/md5.cc, which is the
    form of section 3.4 of RFC 1321, and mongoose's unrolled version of it. */
module Md5 {

  import opened Word32

  /** The four chaining words. */
  datatype Chain = Chain(a: Word, b: Word, c: Word, d: Word)

  datatype Mix = MixF | MixG | MixH | MixI

  function Apply(m: Mix, x: Word, y: Word, z: Word): Word {
    match m
    case MixF => Or(And(x, y), And(Not(x), z))
    case MixG => Or(And(x, z), And(y, Not(z)))
    case MixH => Xor(Xor(x, y), z)
    case MixI => Xor(y, Or(x, Not(z)))
  }

  /** The word one operation computes from the chaining words, its constant, its input word
      and its rotation. */
  function Next(m: Mix, s: Chain, k: Word, w: Word, r: nat): Word
    requires r <= 32
  {
    Add(s.b, Rol(Add(Add(Add(s.a, Apply(m, s.b, s.c, s.d)), k), w), r))
  }

  function Step(m: Mix, s: Chain, k: Word, w: Word, r: nat): Chain
    requires r <= 32
  {
    Chain(s.d, Next(m, s, k, w, r), s.b, s.c)
  }

  function MixAt(i: nat): Mix {
    if i < 16 then MixF else if i < 32 then MixG else if i < 48 then MixH else MixI
  }

  /** Which input word operation i takes. */
  function WordAt(i: nat): (j: nat)
    ensures j < 16
  {
    if i < 16 then i
    else if i < 32 then (i * 5 + 1) % 16
    else if i < 48 then (i * 3 + 5) % 16
    else (i * 7) % 16
  }

  /** How far operation i rotates: each row of the table S repeats four values. */
  function Shift(i: nat): (r: nat)
    ensures r <= 32
  {
    var column := i % 4;
    if i < 16 then (if column == 0 then 7 else if column == 1 then 12 else if column == 2 then 17 else 22)
    else if i < 32 then (if column == 0 then 5 else if column == 1 then 9 else if column == 2 then 14 else 20)
    else if i < 48 then (if column == 0 then 4 else if column == 1 then 11 else if column == 2 then 16 else 23)
    else (if column == 0 then 6 else if column == 1 then 10 else if column == 2 then 15 else 21)
  }

  /** The table K. */
  function Sine(i: nat): Word {
    match i
    case 0 => 0xd76aa478 case 1 => 0xe8c7b756 case 2 => 0x242070db case 3 => 0xc1bdceee
    case 4 => 0xf57c0faf case 5 => 0x4787c62a case 6 => 0xa8304613 case 7 => 0xfd469501
    case 8 => 0x698098d8 case 9 => 0x8b44f7af case 10 => 0xffff5bb1 case 11 => 0x895cd7be
    case 12 => 0x6b901122 case 13 => 0xfd987193 case 14 => 0xa679438e case 15 => 0x49b40821
    case 16 => 0xf61e2562 case 17 => 0xc040b340 case 18 => 0x265e5a51 case 19 => 0xe9b6c7aa
    case 20 => 0xd62f105d case 21 => 0x02441453 case 22 => 0xd8a1e681 case 23 => 0xe7d3fbc8
    case 24 => 0x21e1cde6 case 25 => 0xc33707d6 case 26 => 0xf4d50d87 case 27 => 0x455a14ed
    case 28 => 0xa9e3e905 case 29 => 0xfcefa3f8 case 30 => 0x676f02d9 case 31 => 0x8d2a4c8a
    case 32 => 0xfffa3942 case 33 => 0x8771f681 case 34 => 0x6d9d6122 case 35 => 0xfde5380c
    case 36 => 0xa4beea44 case 37 => 0x4bdecfa9 case 38 => 0xf6bb4b60 case 39 => 0xbebfbc70
    case 40 => 0x289b7ec6 case 41 => 0xeaa127fa case 42 => 0xd4ef3085 case 43 => 0x04881d05
    case 44 => 0xd9d4d039 case 45 => 0xe6db99e5 case 46 => 0x1fa27cf8 case 47 => 0xc4ac5665
    case 48 => 0xf4292244 case 49 => 0x432aff97 case 50 => 0xab9423a7 case 51 => 0xfc93a039
    case 52 => 0x655b59c3 case 53 => 0x8f0ccc92 case 54 => 0xffeff47d case 55 => 0x85845dd1
    case 56 => 0x6fa87e4f case 57 => 0xfe2ce6e0 case 58 => 0xa3014314 case 59 => 0x4e0811a1
    case 60 => 0xf7537e82 case 61 => 0xbd3af235 case 62 => 0x2ad7d2bb case 63 => 0xeb86d391
    case _ => 0
  }

  /** The chaining words after the first n of the 64 operations on the block x. */
  function Rounds(s: Chain, x: seq<Word>, n: nat): Chain
    requires |x| == 16
  {
    if n == 0 then s
    else Step(MixAt(n - 1), Rounds(s, x, n - 1), Sine(n - 1), x[WordAt(n - 1)], Shift(n - 1))
  }

  function Sum(s: Chain, t: Chain): Chain {
    Chain(Add(s.a, t.a), Add(s.b, t.b), Add(s.c, t.c), Add(s.d, t.d))
  }

  /** The compression function. */
  function Compress(s: Chain, x: seq<Word>): Chain
    requires |x| == 16
  {
    Sum(s, Rounds(s, x, 64))
  }

  /** Four operations in a row: after them every register has been written once. */
  function Quad(m: Mix, s: Chain, k: (Word, Word, Word, Word), w: (Word, Word, Word, Word), r: (nat, nat, nat,
      nat)): Chain
    requires r.0 <= 32 && r.1 <= 32 && r.2 <= 32 && r.3 <= 32
  {
    Step(m, Step(m, Step(m, Step(m, s, k.0, w.0, r.0), k.1, w.1, r.1), k.2, w.2, r.2), k.3, w.3, r.3)
  }

  lemma OneRound(s: Chain, x: seq<Word>, n: nat)
    requires |x| == 16
    ensures Rounds(s, x, n + 1) == Step(MixAt(n), Rounds(s, x, n), Sine(n), x[WordAt(n)], Shift(n))
  {
  }

  lemma NoRounds(s: Chain, x: seq<Word>)
    requires |x| == 16
    ensures Rounds(s, x, 0) == s
  {
  }

  /** Operations 4 * g to 4 * g + 3 are one quad, whose constants the tables give. */
  lemma FourRounds(s: Chain, x: seq<Word>, g: nat)
    requires |x| == 16 && g < 16
    ensures Rounds(s, x, 4 * g + 4) ==
            Quad(MixAt(4 * g), Rounds(s, x, 4 * g),
                 (Sine(4 * g), Sine(4 * g + 1), Sine(4 * g + 2), Sine(4 * g + 3)),
                 (x[WordAt(4 * g)], x[WordAt(4 * g + 1)], x[WordAt(4 * g + 2)], x[WordAt(4 * g + 3)]),
                 (Shift(4 * g), Shift(4 * g + 1), Shift(4 * g + 2), Shift(4 * g + 3)))
  {
    hide Step, Rounds, Sine, Shift, WordAt;
    OneRound(s, x, 4 * g);
    OneRound(s, x, 4 * g + 1);
    OneRound(s, x, 4 * g + 2);
    OneRound(s, x, 4 * g + 3);
  }

  // The sixteen quads with their constants, input words and rotations written out.

  lemma QuadF0(s: Chain, x: seq<Word>)
    requires |x| == 16
    ensures Rounds(s, x, 4) == Quad(MixF, Rounds(s, x, 0), (0xd76aa478, 0xe8c7b756, 0x242070db, 0xc1bdceee),
                                     (x[0], x[1], x[2], x[3]), (7, 12, 17, 22))
  {
    hide Quad, Rounds;
    FourRounds(s, x, 0);
  }

  lemma QuadF1(s: Chain, x: seq<Word>)
    requires |x| == 16
    ensures Rounds(s, x, 8) == Quad(MixF, Rounds(s, x, 4), (0xf57c0faf, 0x4787c62a, 0xa8304613, 0xfd469501),
                                     (x[4], x[5], x[6], x[7]), (7, 12, 17, 22))
  {
    hide Quad, Rounds;
    FourRounds(s, x, 1);
  }

  lemma QuadF2(s: Chain, x: seq<Word>)
    requires |x| == 16
    ensures Rounds(s, x, 12) == Quad(MixF, Rounds(s, x, 8), (0x698098d8, 0x8b44f7af, 0xffff5bb1, 0x895cd7be),
                                     (x[8], x[9], x[10], x[11]), (7, 12, 17, 22))
  {
    hide Quad, Rounds;
    FourRounds(s, x, 2);
  }

  lemma QuadF3(s: Chain, x: seq<Word>)
    requires |x| == 16
    ensures Rounds(s, x, 16) == Quad(MixF, Rounds(s, x, 12), (0x6b901122, 0xfd987193, 0xa679438e, 0x49b40821),
                                     (x[12], x[13], x[14], x[15]), (7, 12, 17, 22))
  {
    hide Quad, Rounds;
    FourRounds(s, x, 3);
  }

  lemma QuadG0(s: Chain, x: seq<Word>)
    requires |x| == 16
    ensures Rounds(s, x, 20) == Quad(MixG, Rounds(s, x, 16), (0xf61e2562, 0xc040b340, 0x265e5a51, 0xe9b6c7aa),
                                     (x[1], x[6], x[11], x[0]), (5, 9, 14, 20))
  {
    hide Quad, Rounds;
    FourRounds(s, x, 4);
  }

  lemma QuadG1(s: Chain, x: seq<Word>)
    requires |x| == 16
    ensures Rounds(s, x, 24) == Quad(MixG, Rounds(s, x, 20), (0xd62f105d, 0x02441453, 0xd8a1e681, 0xe7d3fbc8),
                                     (x[5], x[10], x[15], x[4]), (5, 9, 14, 20))
  {
    hide Quad, Rounds;
    FourRounds(s, x, 5);
  }

  lemma QuadG2(s: Chain, x: seq<Word>)
    requires |x| == 16
    ensures Rounds(s, x, 28) == Quad(MixG, Rounds(s, x, 24), (0x21e1cde6, 0xc33707d6, 0xf4d50d87, 0x455a14ed),
                                     (x[9], x[14], x[3], x[8]), (5, 9, 14, 20))
  {
    hide Quad, Rounds;
    FourRounds(s, x, 6);
  }

  lemma QuadG3(s: Chain, x: seq<Word>)
    requires |x| == 16
    ensures Rounds(s, x, 32) == Quad(MixG, Rounds(s, x, 28), (0xa9e3e905, 0xfcefa3f8, 0x676f02d9, 0x8d2a4c8a),
                                     (x[13], x[2], x[7], x[12]), (5, 9, 14, 20))
  {
    hide Quad, Rounds;
    FourRounds(s, x, 7);
  }

  lemma QuadH0(s: Chain, x: seq<Word>)
    requires |x| == 16
    ensures Rounds(s, x, 36) == Quad(MixH, Rounds(s, x, 32), (0xfffa3942, 0x8771f681, 0x6d9d6122, 0xfde5380c),
                                     (x[5], x[8], x[11], x[14]), (4, 11, 16, 23))
  {
    hide Quad, Rounds;
    FourRounds(s, x, 8);
  }

  lemma QuadH1(s: Chain, x: seq<Word>)
    requires |x| == 16
    ensures Rounds(s, x, 40) == Quad(MixH, Rounds(s, x, 36), (0xa4beea44, 0x4bdecfa9, 0xf6bb4b60, 0xbebfbc70),
                                     (x[1], x[4], x[7], x[10]), (4, 11, 16, 23))
  {
    hide Quad, Rounds;
    FourRounds(s, x, 9);
  }

  lemma QuadH2(s: Chain, x: seq<Word>)
    requires |x| == 16
    ensures Rounds(s, x, 44) == Quad(MixH, Rounds(s, x, 40), (0x289b7ec6, 0xeaa127fa, 0xd4ef3085, 0x04881d05),
                                     (x[13], x[0], x[3], x[6]), (4, 11, 16, 23))
  {
    hide Quad, Rounds;
    FourRounds(s, x, 10);
  }

  lemma QuadH3(s: Chain, x: seq<Word>)
    requires |x| == 16
    ensures Rounds(s, x, 48) == Quad(MixH, Rounds(s, x, 44), (0xd9d4d039, 0xe6db99e5, 0x1fa27cf8, 0xc4ac5665),
                                     (x[9], x[12], x[15], x[2]), (4, 11, 16, 23))
  {
    hide Quad, Rounds;
    FourRounds(s, x, 11);
  }

  lemma QuadI0(s: Chain, x: seq<Word>)
    requires |x| == 16
    ensures Rounds(s, x, 52) == Quad(MixI, Rounds(s, x, 48), (0xf4292244, 0x432aff97, 0xab9423a7, 0xfc93a039),
                                     (x[0], x[7], x[14], x[5]), (6, 10, 15, 21))
  {
    hide Quad, Rounds;
    FourRounds(s, x, 12);
  }

  lemma QuadI1(s: Chain, x: seq<Word>)
    requires |x| == 16
    ensures Rounds(s, x, 56) == Quad(MixI, Rounds(s, x, 52), (0x655b59c3, 0x8f0ccc92, 0xffeff47d, 0x85845dd1),
                                     (x[12], x[3], x[10], x[1]), (6, 10, 15, 21))
  {
    hide Quad, Rounds;
    FourRounds(s, x, 13);
  }

  lemma QuadI2(s: Chain, x: seq<Word>)
    requires |x| == 16
    ensures Rounds(s, x, 60) == Quad(MixI, Rounds(s, x, 56), (0x6fa87e4f, 0xfe2ce6e0, 0xa3014314, 0x4e0811a1),
                                     (x[8], x[15], x[6], x[13]), (6, 10, 15, 21))
  {
    hide Quad, Rounds;
    FourRounds(s, x, 14);
  }

  lemma QuadI3(s: Chain, x: seq<Word>)
    requires |x| == 16
    ensures Rounds(s, x, 64) == Quad(MixI, Rounds(s, x, 60), (0xf7537e82, 0xbd3af235, 0x2ad7d2bb, 0xeb86d391),
                                     (x[4], x[11], x[2], x[9]), (6, 10, 15, 21))
  {
    hide Quad, Rounds;
    FourRounds(s, x, 15);
  }

  ghost function ChainIn(buffer: array<Word>): Chain
    requires buffer.Length == 4
    reads buffer
  {
    Chain(buffer[0], buffer[1], buffer[2], buffer[3])
  }

  /** The switch of md5Step: which mixing function and which input word operation i takes. */
  method Select(i: nat, bb: Word, cc: Word, dd: Word) returns (e: Word, j: nat)
    requires i < 64
    ensures e == Apply(MixAt(i), bb, cc, dd) && j == WordAt(i)
  {
    hide And, Or, Xor, Not;
    if i / 16 == 0 {
      e := Or(And(bb, cc), And(Not(bb), dd));
      j := i;
    } else if i / 16 == 1 {
      e := Or(And(bb, dd), And(cc, Not(dd)));
      j := (i * 5 + 1) % 16;
    } else if i / 16 == 2 {
      e := Xor(Xor(bb, cc), dd);
      j := (i * 3 + 5) % 16;
    } else {
      e := Xor(cc, Or(bb, Not(dd)));
      j := (i * 7) % 16;
    }
  }

  /** md5Step: the rotating-variable loop. */
  method Md5Step(buffer: array<Word>, input: array<Word>)
    requires buffer.Length == 4 && input.Length == 16 && buffer != input
    modifies buffer
    ensures ChainIn(buffer) == Compress(old(ChainIn(buffer)), input[..])
  {
    hide Sine, Shift, Rol, Add, Apply, MixAt, WordAt, Rounds;
    NoRounds(ChainIn(buffer), input[..]);
    var aa, bb, cc, dd := buffer[0], buffer[1], buffer[2], buffer[3];
    for i := 0 to 64
      invariant Chain(aa, bb, cc, dd) == Rounds(old(ChainIn(buffer)), input[..], i)
      invariant buffer[..] == old(buffer[..])
    {
      var e, j := Select(i, bb, cc, dd);
      OneRound(old(ChainIn(buffer)), input[..], i);
      var temp := dd;
      dd := cc;
      cc := bb;
      bb := Add(bb, Rol(Add(Add(Add(aa, e), Sine(i)), input[j]), Shift(i)));
      aa := temp;
    }
    buffer[0] := Add(buffer[0], aa);
    buffer[1] := Add(buffer[1], bb);
    buffer[2] := Add(buffer[2], cc);
    buffer[3] := Add(buffer[3], dd);
  }

  // Mongoose's spelling of the mixing functions.

  function F1(x: Word, y: Word, z: Word): Word { Xor(z, And(x, Xor(y, z))) }

  function Spelled(m: Mix, x: Word, y: Word, z: Word): Word {
    match m
    case MixF => F1(x, y, z)
    case MixG => F1(z, x, y)
    case MixH => Xor(Xor(x, y), z)
    case MixI => Xor(y, Or(x, Not(z)))
  }

  lemma F1IsChoose(x: Word, y: Word, z: Word)
    ensures F1(x, y, z) == Choose(x, y, z)
  {
    hide Choose, Xor, And;
    SelectByXor(x, y, z);
    XorCommutes(y, z);
    AndCommutes(x, Xor(z, y));
    XorCommutes(z, And(Xor(z, y), x));
  }

  /** F and G are the same choice with the roles of their arguments exchanged. */
  lemma MixIsChoose(x: Word, y: Word, z: Word)
    ensures Apply(MixF, x, y, z) == Choose(x, y, z)
    ensures Apply(MixG, x, y, z) == Choose(z, x, y)
  {
    hide And, Not, Or;
    AndCommutes(x, z);
    AndCommutes(y, Not(z));
  }

  lemma SpelledIsApply(m: Mix, x: Word, y: Word, z: Word)
    ensures Spelled(m, x, y, z) == Apply(m, x, y, z)
  {
    hide F1, Xor, Or, Not;
    F1IsChoose(x, y, z);
    F1IsChoose(z, x, y);
    MixIsChoose(x, y, z);
  }

  /** The macro MD5STEP, where data is an input word plus its constant. */
  method Md5StepMacro(m: Mix, w0: Word, x: Word, y: Word, z: Word, input: Word, k: Word, s: nat) returns (w: Word)
    requires s <= 32
    ensures w == Next(m, Chain(w0, x, y, z), k, input, s)
  {
    hide Spelled, Apply, Rol, Add;
    var data := Add(input, k);
    w := Add(w0, Add(Spelled(m, x, y, z), data));
    w := Rol(w, s);
    w := Add(w, x);
    SpelledIsApply(m, x, y, z);
    StepSum(w0, Apply(m, x, y, z), k, input);
    AddCommutes(w0, data);
    AddCommutes(x, Rol(Add(Add(Add(w0, Apply(m, x, y, z)), k), input), s));
  }

  lemma StepSum(a: Word, e: Word, k: Word, w: Word)
    ensures Add(a, Add(e, Add(w, k))) == Add(Add(Add(a, e), k), w)
  {
    hide Add;
    AddCommutes(w, k);
    AddAssociates(e, k, w);
    AddAssociates(a, Add(e, k), w);
    AddAssociates(a, e, k);
  }

  /** Four consecutive MD5STEP lines, which write a, d, c and b in turn. */
  method FourSteps(m: Mix, a0: Word, b0: Word, c0: Word, d0: Word,
                   k: (Word, Word, Word, Word), w: (Word, Word, Word, Word), r: (nat, nat, nat, nat))
    returns (a: Word, b: Word, c: Word, d: Word)
    requires r.0 <= 32 && r.1 <= 32 && r.2 <= 32 && r.3 <= 32
    ensures Chain(a, b, c, d) == Quad(m, Chain(a0, b0, c0, d0), k, w, r)
  {
    hide Next;
    a, b, c, d := a0, b0, c0, d0;
    a := Md5StepMacro(m, a, b, c, d, w.0, k.0, r.0);
    d := Md5StepMacro(m, d, a, b, c, w.1, k.1, r.1);
    c := Md5StepMacro(m, c, d, a, b, w.2, k.2, r.2);
    b := Md5StepMacro(m, b, c, d, a, w.3, k.3, r.3);
  }

  /** The sixteen lines of MD5Transform that use F1. */
  method TransformF(a0: Word, b0: Word, c0: Word, d0: Word, input: seq<Word>, ghost s: Chain)
    returns (a: Word, b: Word, c: Word, d: Word)
    requires |input| == 16 && Chain(a0, b0, c0, d0) == Rounds(s, input, 0)
    ensures Chain(a, b, c, d) == Rounds(s, input, 16)
  {
    hide *;
    a, b, c, d := FourSteps(MixF, a0, b0, c0, d0, (0xd76aa478, 0xe8c7b756, 0x242070db, 0xc1bdceee),
        (input[0], input[1], input[2], input[3]), (7, 12, 17, 22));
    QuadF0(s, input);
    a, b, c, d := FourSteps(MixF, a, b, c, d, (0xf57c0faf, 0x4787c62a, 0xa8304613, 0xfd469501),
        (input[4], input[5], input[6], input[7]), (7, 12, 17, 22));
    QuadF1(s, input);
    a, b, c, d := FourSteps(MixF, a, b, c, d, (0x698098d8, 0x8b44f7af, 0xffff5bb1, 0x895cd7be),
        (input[8], input[9], input[10], input[11]), (7, 12, 17, 22));
    QuadF2(s, input);
    a, b, c, d := FourSteps(MixF, a, b, c, d, (0x6b901122, 0xfd987193, 0xa679438e, 0x49b40821),
        (input[12], input[13], input[14], input[15]), (7, 12, 17, 22));
    QuadF3(s, input);
  }

  /** The sixteen lines of MD5Transform that use F2. */
  method TransformG(a0: Word, b0: Word, c0: Word, d0: Word, input: seq<Word>, ghost s: Chain)
    returns (a: Word, b: Word, c: Word, d: Word)
    requires |input| == 16 && Chain(a0, b0, c0, d0) == Rounds(s, input, 16)
    ensures Chain(a, b, c, d) == Rounds(s, input, 32)
  {
    hide *;
    a, b, c, d := FourSteps(MixG, a0, b0, c0, d0, (0xf61e2562, 0xc040b340, 0x265e5a51, 0xe9b6c7aa),
        (input[1], input[6], input[11], input[0]), (5, 9, 14, 20));
    QuadG0(s, input);
    a, b, c, d := FourSteps(MixG, a, b, c, d, (0xd62f105d, 0x02441453, 0xd8a1e681, 0xe7d3fbc8),
        (input[5], input[10], input[15], input[4]), (5, 9, 14, 20));
    QuadG1(s, input);
    a, b, c, d := FourSteps(MixG, a, b, c, d, (0x21e1cde6, 0xc33707d6, 0xf4d50d87, 0x455a14ed),
        (input[9], input[14], input[3], input[8]), (5, 9, 14, 20));
    QuadG2(s, input);
    a, b, c, d := FourSteps(MixG, a, b, c, d, (0xa9e3e905, 0xfcefa3f8, 0x676f02d9, 0x8d2a4c8a),
        (input[13], input[2], input[7], input[12]), (5, 9, 14, 20));
    QuadG3(s, input);
  }

  /** The sixteen lines of MD5Transform that use F3. */
  method TransformH(a0: Word, b0: Word, c0: Word, d0: Word, input: seq<Word>, ghost s: Chain)
    returns (a: Word, b: Word, c: Word, d: Word)
    requires |input| == 16 && Chain(a0, b0, c0, d0) == Rounds(s, input, 32)
    ensures Chain(a, b, c, d) == Rounds(s, input, 48)
  {
    hide *;
    a, b, c, d := FourSteps(MixH, a0, b0, c0, d0, (0xfffa3942, 0x8771f681, 0x6d9d6122, 0xfde5380c),
        (input[5], input[8], input[11], input[14]), (4, 11, 16, 23));
    QuadH0(s, input);
    a, b, c, d := FourSteps(MixH, a, b, c, d, (0xa4beea44, 0x4bdecfa9, 0xf6bb4b60, 0xbebfbc70),
        (input[1], input[4], input[7], input[10]), (4, 11, 16, 23));
    QuadH1(s, input);
    a, b, c, d := FourSteps(MixH, a, b, c, d, (0x289b7ec6, 0xeaa127fa, 0xd4ef3085, 0x04881d05),
        (input[13], input[0], input[3], input[6]), (4, 11, 16, 23));
    QuadH2(s, input);
    a, b, c, d := FourSteps(MixH, a, b, c, d, (0xd9d4d039, 0xe6db99e5, 0x1fa27cf8, 0xc4ac5665),
        (input[9], input[12], input[15], input[2]), (4, 11, 16, 23));
    QuadH3(s, input);
  }

  /** The sixteen lines of MD5Transform that use F4. */
  method TransformI(a0: Word, b0: Word, c0: Word, d0: Word, input: seq<Word>, ghost s: Chain)
    returns (a: Word, b: Word, c: Word, d: Word)
    requires |input| == 16 && Chain(a0, b0, c0, d0) == Rounds(s, input, 48)
    ensures Chain(a, b, c, d) == Rounds(s, input, 64)
  {
    hide *;
    a, b, c, d := FourSteps(MixI, a0, b0, c0, d0, (0xf4292244, 0x432aff97, 0xab9423a7, 0xfc93a039),
        (input[0], input[7], input[14], input[5]), (6, 10, 15, 21));
    QuadI0(s, input);
    a, b, c, d := FourSteps(MixI, a, b, c, d, (0x655b59c3, 0x8f0ccc92, 0xffeff47d, 0x85845dd1),
        (input[12], input[3], input[10], input[1]), (6, 10, 15, 21));
    QuadI1(s, input);
    a, b, c, d := FourSteps(MixI, a, b, c, d, (0x6fa87e4f, 0xfe2ce6e0, 0xa3014314, 0x4e0811a1),
        (input[8], input[15], input[6], input[13]), (6, 10, 15, 21));
    QuadI2(s, input);
    a, b, c, d := FourSteps(MixI, a, b, c, d, (0xf7537e82, 0xbd3af235, 0x2ad7d2bb, 0xeb86d391),
        (input[4], input[11], input[2], input[9]), (6, 10, 15, 21));
    QuadI3(s, input);
  }

  /** Mongoose's unrolled MD5Transform computes the same function as md5Step. */
  method Md5Transform(buf: array<Word>, input: seq<Word>)
    requires buf.Length == 4 && |input| == 16
    modifies buf
    ensures ChainIn(buf) == Compress(old(ChainIn(buf)), input)
  {
    hide Rounds, Add;
    ghost var s := ChainIn(buf);
    var a, b, c, d := buf[0], buf[1], buf[2], buf[3];
    NoRounds(s, input);
    a, b, c, d := TransformF(a, b, c, d, input, s);
    a, b, c, d := TransformG(a, b, c, d, input, s);
    a, b, c, d := TransformH(a, b, c, d, input, s);
    a, b, c, d := TransformI(a, b, c, d, input, s);
    buf[0] := Add(buf[0], a);
    buf[1] := Add(buf[1], b);
    buf[2] := Add(buf[2], c);
    buf[3] := Add(buf[3], d);
  }
}
