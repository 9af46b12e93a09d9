/** The register-level MD5 block programs of md5-optimisation/md5-x86-asm.h, one statement for
    each instruction. Every program ends with the state md5Step computes. */
module Md5Blocks {

  import opened Word32
  import opened Md5

  class State {
    var A: Word
    var B: Word
    var C: Word
    var D: Word

    ghost function Value(): Chain
      reads this
    {
      Chain(A, B, C, D)
    }

    /** The four additions that end every program. */
    method Accumulate(a: Word, b: Word, c: Word, d: Word)
      modifies this
      ensures Value() == Sum(old(Value()), Chain(a, b, c, d))
    {
      A := Add(A, a);
      B := Add(B, b);
      C := Add(C, c);
      D := Add(D, d);
    }
  }

  // The orders in which the programs add up the four summands of an operation.

  lemma SumByLea(a: Word, e: Word, k: Word, w: Word)
    ensures Add(Add(k, Add(a, w)), e) == Add(Add(Add(a, e), k), w)
  {
    hide Add;
    AddCommutes(k, Add(a, w));
    AddAssociates(a, w, k);
    AddCommutes(Add(a, Add(w, k)), e);
    AddCommutes(w, k);
    AddAssociates(e, a, Add(k, w));
    AddCommutes(e, a);
    AddAssociates(Add(a, e), k, w);
  }

  lemma SumByAdd(a: Word, e: Word, k: Word, w: Word)
    ensures Add(Add(Add(a, w), k), e) == Add(Add(Add(a, e), k), w)
  {
    hide Add;
    AddCommutes(Add(a, w), k);
    SumByLea(a, e, k, w);
  }

  // What the two temporaries hold when a mixing value is complete.

  lemma FInRegister(b: Word, c: Word, d: Word)
    ensures Xor(And(Xor(d, c), b), d) == Apply(MixF, b, c, d)
  {
    hide *;
    SelectByXor(b, c, d);
    MixIsChoose(b, c, d);
  }

  lemma GInRegister(b: Word, c: Word, d: Word)
    ensures Or(And(Not(d), c), And(d, b)) == Apply(MixG, b, c, d)
    ensures Add(And(Not(d), c), And(d, b)) == Apply(MixG, b, c, d)
  {
    hide Add, And, Or, Not;
    OrCommutes(And(Not(d), c), And(d, b));
    SelectByAdd(d, b, c);
    MixIsChoose(b, c, d);
  }

  lemma HInRegister(b: Word, c: Word, d: Word)
    ensures Xor(Xor(d, c), b) == Apply(MixH, b, c, d)
    ensures Xor(Xor(c, d), b) == Apply(MixH, b, c, d)
  {
    hide Xor;
    XorCommutes(d, c);
    XorCommutes(Xor(c, d), b);
    XorAssociates(b, c, d);
  }

  /** Taking the register about to be written out of the previous value of H leaves the two
      summands that the next value of H shares with it. */
  lemma HFromPrevious(a: Word, b: Word, c: Word, d: Word)
    ensures Xor(Xor(Apply(MixH, c, d, a), a), b) == Apply(MixH, b, c, d)
    ensures Xor(Apply(MixH, b, c, d), d) == Xor(b, c)
  {
    hide Xor;
    XorCancels(Xor(c, d), a);
    HInRegister(b, c, d);
    XorCancels(Xor(b, c), d);
  }

  lemma IInRegister(b: Word, c: Word, d: Word)
    ensures Xor(Or(Not(d), b), c) == Apply(MixI, b, c, d)
  {
    hide Xor, Or, Not;
    OrCommutes(Not(d), b);
    XorCommutes(Or(b, Not(d)), c);
  }

  // The lea programs: TMP2 (t2) holds the input word of the operation, TMP1 (t1) a copy of D.

  /** md5_block_std, md5_block_gopt and md5_block_ghopt. */
  datatype LeaForm = Std | Gopt | Ghopt

  method LeaF(a0: Word, b: Word, c: Word, d: Word, u1: Word, u2: Word, next: Word, k: Word, r: nat)
    returns (a: Word, t1: Word, t2: Word)
    requires r <= 32 && u1 == d
    ensures a == Next(MixF, Chain(a0, b, c, d), k, u2, r) && t1 == c && t2 == next
  {
    hide Rol, Add, Xor, And, Apply;
    t1 := Xor(u1, c);
    a := Add(k, Add(a0, u2));
    t1 := And(t1, b);
    t2 := next;
    t1 := Xor(t1, d);
    a := Add(a, t1);
    FInRegister(b, c, d);
    SumByLea(a0, Apply(MixF, b, c, d), k, u2);
    a := Rol(a, r);
    t1 := c;
    AddCommutes(a, b);
    a := Add(a, b);
  }

  method LeaG(form: LeaForm, a0: Word, b: Word, c: Word, d: Word, u1: Word, u2: Word, next: Word, k: Word, r: nat)
    returns (a: Word, t1: Word, t2: Word)
    requires r <= 32 && u1 == d
    ensures a == Next(MixG, Chain(a0, b, c, d), k, u2, r) && t1 == c && t2 == next
  {
    hide Rol, Add, And, Or, Not, Apply;
    GInRegister(b, c, d);
    SumByLea(a0, Apply(MixG, b, c, d), k, u2);
    AddAssociates(Add(k, Add(a0, u2)), And(Not(d), c), And(d, b));
    t1 := Not(u1);
    var t3: Word;
    if form == Std {
      t3 := d;
      a := Add(k, Add(a0, u2));
      t1 := And(t1, c);
      t2 := next;
      t3 := And(t3, b);
      t1 := Or(t1, t3);
      a := Add(a, t1);
    } else {
      a := Add(k, Add(a0, u2));
      t1 := And(t1, c);
      t2 := next;
      t3 := d;
      a := Add(a, t1);
      t3 := And(t3, b);
      a := Add(a, t3);
    }
    a := Rol(a, r);
    t1 := c;
    AddCommutes(a, b);
    a := Add(a, b);
  }

  method LeaH(a0: Word, b: Word, c: Word, d: Word, u1: Word, u2: Word, next: Word, k: Word, r: nat)
    returns (a: Word, t1: Word, t2: Word)
    requires r <= 32 && u1 == d
    ensures a == Next(MixH, Chain(a0, b, c, d), k, u2, r) && t1 == c && t2 == next
  {
    hide Rol, Add, Xor, Apply;
    t1 := Xor(u1, c);
    a := Add(k, Add(a0, u2));
    t1 := Xor(t1, b);
    t2 := next;
    a := Add(a, t1);
    HInRegister(b, c, d);
    SumByLea(a0, Apply(MixH, b, c, d), k, u2);
    a := Rol(a, r);
    t1 := c;
    AddCommutes(a, b);
    a := Add(a, b);
  }

  /** What TMP1 holds before an operation of the ghopt H round: the value of H before it. */
  function PreviousH(s: Chain): Word { Apply(MixH, s.c, s.d, s.a) }

  /** ghopt's ROUND_H: TMP1 carries the previous value of H. */
  method LeaHCarried(a0: Word, b: Word, c: Word, d: Word, u1: Word, u2: Word, next: Word, k: Word, r: nat)
    returns (a: Word, t1: Word, t2: Word)
    requires r <= 32 && u1 == PreviousH(Chain(a0, b, c, d))
    ensures a == Next(MixH, Chain(a0, b, c, d), k, u2, r) && t1 == PreviousH(Chain(d, a, b, c)) && t2 == next
  {
    hide Rol, Add, Xor, Apply;
    t1 := Xor(u1, a0);
    a := Add(k, Add(a0, u2));
    t1 := Xor(t1, b);
    t2 := next;
    a := Add(a, t1);
    HFromPrevious(a0, b, c, d);
    SumByLea(a0, Apply(MixH, b, c, d), k, u2);
    a := Rol(a, r);
    AddCommutes(a, b);
    a := Add(a, b);
  }

  /** ghopt's first H operation, which still finds D in TMP1. */
  method LeaHFirst(a0: Word, b: Word, c: Word, d: Word, u1: Word, u2: Word, next: Word, k: Word, r: nat)
    returns (a: Word, t1: Word, t2: Word)
    requires r <= 32 && u1 == d
    ensures a == Next(MixH, Chain(a0, b, c, d), k, u2, r) && t1 == PreviousH(Chain(d, a, b, c)) && t2 == next
  {
    hide Rol, Add, Xor, Apply;
    t1 := Xor(u1, c);
    a := Add(k, Add(a0, u2));
    t1 := Xor(t1, b);
    t2 := next;
    a := Add(a, t1);
    HInRegister(b, c, d);
    SumByLea(a0, Apply(MixH, b, c, d), k, u2);
    a := Rol(a, r);
    AddCommutes(a, b);
    a := Add(a, b);
  }

  method LeaI(a0: Word, b: Word, c: Word, d: Word, u1: Word, u2: Word, next: Word, k: Word, r: nat)
    returns (a: Word, t1: Word, t2: Word)
    requires r <= 32 && u1 == d
    ensures a == Next(MixI, Chain(a0, b, c, d), k, u2, r) && t1 == c && t2 == next
  {
    hide Rol, Add, Xor, Or, Not, Apply;
    t1 := Not(u1);
    a := Add(k, Add(a0, u2));
    t1 := Or(t1, b);
    t2 := next;
    t1 := Xor(t1, c);
    a := Add(a, t1);
    IInRegister(b, c, d);
    SumByLea(a0, Apply(MixI, b, c, d), k, u2);
    a := Rol(a, r);
    t1 := c;
    AddCommutes(a, b);
    a := Add(a, b);
  }

  method LeaILast(a0: Word, b: Word, c: Word, d: Word, u1: Word, u2: Word, k: Word, r: nat) returns (a: Word)
    requires r <= 32 && u1 == d
    ensures a == Next(MixI, Chain(a0, b, c, d), k, u2, r)
  {
    hide Rol, Add, Xor, Or, Not, Apply;
    var t1 := Not(u1);
    a := Add(k, Add(a0, u2));
    t1 := Or(t1, b);
    t1 := Xor(t1, c);
    a := Add(a, t1);
    IInRegister(b, c, d);
    SumByLea(a0, Apply(MixI, b, c, d), k, u2);
    a := Rol(a, r);
    AddCommutes(a, b);
    a := Add(a, b);
  }

  /** What TMP1 holds before an operation of the lea programs. */
  function LeaHeld(form: LeaForm, m: Mix, s: Chain): Word {
    if form == Ghopt && m == MixH then PreviousH(s) else s.d
  }

  method LeaRound(form: LeaForm, m: Mix, a0: Word, b: Word, c: Word, d: Word, u1: Word, u2: Word,
                  next: Word, k: Word, r: nat)
    returns (a: Word, t1: Word, t2: Word)
    requires r <= 32 && u1 == LeaHeld(form, m, Chain(a0, b, c, d))
    ensures a == Next(m, Chain(a0, b, c, d), k, u2, r) && t1 == LeaHeld(form, m, Chain(d, a, b, c)) && t2 == next
  {
    hide Next, PreviousH;
    match m
    case MixF => a, t1, t2 := LeaF(a0, b, c, d, u1, u2, next, k, r);
    case MixG => a, t1, t2 := LeaG(form, a0, b, c, d, u1, u2, next, k, r);
    case MixH =>
      if form == Ghopt {
        a, t1, t2 := LeaHCarried(a0, b, c, d, u1, u2, next, k, r);
      } else {
        a, t1, t2 := LeaH(a0, b, c, d, u1, u2, next, k, r);
      }
    case MixI => a, t1, t2 := LeaI(a0, b, c, d, u1, u2, next, k, r);
  }

  /** The macros RF4, RG4, RH4 and RI4: i lists the input words to load, one operation ahead. */
  method LeaQuad(form: LeaForm, m: Mix, a0: Word, b0: Word, c0: Word, d0: Word, u1: Word, u2: Word,
                 i: (Word, Word, Word, Word), k: (Word, Word, Word, Word), r: (nat, nat, nat, nat))
    returns (a: Word, b: Word, c: Word, d: Word, t1: Word, t2: Word)
    requires r.0 <= 32 && r.1 <= 32 && r.2 <= 32 && r.3 <= 32
    requires u1 == LeaHeld(form, m, Chain(a0, b0, c0, d0))
    ensures Chain(a, b, c, d) == Quad(m, Chain(a0, b0, c0, d0), k, (u2, i.0, i.1, i.2), r)
    ensures t1 == LeaHeld(form, m, Chain(a, b, c, d)) && t2 == i.3
  {
    hide Next, LeaHeld;
    a, t1, t2 := LeaRound(form, m, a0, b0, c0, d0, u1, u2, i.0, k.0, r.0);
    d, t1, t2 := LeaRound(form, m, d0, a, b0, c0, t1, t2, i.1, k.1, r.1);
    c, t1, t2 := LeaRound(form, m, c0, d, a, b0, t1, t2, i.2, k.2, r.2);
    b, t1, t2 := LeaRound(form, m, b0, c, d, a, t1, t2, i.3, k.3, r.3);
  }

  /** The first four H operations of ghopt. */
  method LeaQuadFirstH(a0: Word, b0: Word, c0: Word, d0: Word, u1: Word, u2: Word,
                       i: (Word, Word, Word, Word), k: (Word, Word, Word, Word))
    returns (a: Word, b: Word, c: Word, d: Word, t1: Word, t2: Word)
    requires u1 == d0
    ensures Chain(a, b, c, d) == Quad(MixH, Chain(a0, b0, c0, d0), k, (u2, i.0, i.1, i.2), (4, 11, 16, 23))
    ensures t1 == PreviousH(Chain(a, b, c, d)) && t2 == i.3
  {
    hide Next, PreviousH;
    a, t1, t2 := LeaHFirst(a0, b0, c0, d0, u1, u2, i.0, k.0, 4);
    d, t1, t2 := LeaHCarried(d0, a, b0, c0, t1, t2, i.1, k.1, 11);
    c, t1, t2 := LeaHCarried(c0, d, a, b0, t1, t2, i.2, k.2, 16);
    b, t1, t2 := LeaHCarried(b0, c, d, a, t1, t2, i.3, k.3, 23);
  }

  /** The last four operations, after which nothing is loaded any more. */
  method LeaQuadLast(a0: Word, b0: Word, c0: Word, d0: Word, u1: Word, u2: Word,
                     i: (Word, Word, Word), k: (Word, Word, Word, Word))
    returns (a: Word, b: Word, c: Word, d: Word)
    requires u1 == d0
    ensures Chain(a, b, c, d) == Quad(MixI, Chain(a0, b0, c0, d0), k, (u2, i.0, i.1, i.2), (6, 10, 15, 21))
  {
    hide Next;
    var t1, t2;
    a, t1, t2 := LeaI(a0, b0, c0, d0, u1, u2, i.0, k.0, 6);
    d, t1, t2 := LeaI(d0, a, b0, c0, t1, t2, i.1, k.1, 10);
    c, t1, t2 := LeaI(c0, d, a, b0, t1, t2, i.2, k.2, 15);
    b := LeaILast(b0, c, d, a, t1, t2, k.3, 21);
  }

  method LeaF16(form: LeaForm, a0: Word, b0: Word, c0: Word, d0: Word, u1: Word, u2: Word, x: seq<Word>, ghost s: Chain)
    returns (a: Word, b: Word, c: Word, d: Word, t1: Word, t2: Word)
    requires |x| == 16 && Chain(a0, b0, c0, d0) == Rounds(s, x, 0) && u1 == d0 && u2 == x[0]
    ensures Chain(a, b, c, d) == Rounds(s, x, 16) && t1 == d && t2 == x[1]
  {
    hide Rounds, Quad, PreviousH;
    a, b, c, d, t1, t2 := LeaQuad(form, MixF, a0, b0, c0, d0, u1, u2, (x[1], x[2], x[3], x[4]),
        (-0x28955b88, -0x173848aa, 0x242070db, -0x3e423112), (7, 12, 17, 22));
    QuadF0(s, x);
    a, b, c, d, t1, t2 := LeaQuad(form, MixF, a, b, c, d, t1, t2, (x[5], x[6], x[7], x[8]),
        (-0x0a83f051, 0x4787c62a, -0x57cfb9ed, -0x02b96aff), (7, 12, 17, 22));
    QuadF1(s, x);
    a, b, c, d, t1, t2 := LeaQuad(form, MixF, a, b, c, d, t1, t2, (x[9], x[10], x[11], x[12]),
        (0x698098d8, -0x74bb0851, -0x0000a44f, -0x76a32842), (7, 12, 17, 22));
    QuadF2(s, x);
    a, b, c, d, t1, t2 := LeaQuad(form, MixF, a, b, c, d, t1, t2, (x[13], x[14], x[15], x[1]),
        (0x6b901122, -0x02678e6d, -0x5986bc72, 0x49b40821), (7, 12, 17, 22));
    QuadF3(s, x);
  }

  method LeaG16(form: LeaForm, a0: Word, b0: Word, c0: Word, d0: Word, u1: Word, u2: Word, x: seq<Word>, ghost s: Chain)
    returns (a: Word, b: Word, c: Word, d: Word, t1: Word, t2: Word)
    requires |x| == 16 && Chain(a0, b0, c0, d0) == Rounds(s, x, 16) && u1 == d0 && u2 == x[1]
    ensures Chain(a, b, c, d) == Rounds(s, x, 32) && t1 == d && t2 == x[5]
  {
    hide Rounds, Quad, PreviousH;
    a, b, c, d, t1, t2 := LeaQuad(form, MixG, a0, b0, c0, d0, u1, u2, (x[6], x[11], x[0], x[5]),
        (-0x09e1da9e, -0x3fbf4cc0, 0x265e5a51, -0x16493856), (5, 9, 14, 20));
    QuadG0(s, x);
    a, b, c, d, t1, t2 := LeaQuad(form, MixG, a, b, c, d, t1, t2, (x[10], x[15], x[4], x[9]),
        (-0x29d0efa3, 0x02441453, -0x275e197f, -0x182c0438), (5, 9, 14, 20));
    QuadG1(s, x);
    a, b, c, d, t1, t2 := LeaQuad(form, MixG, a, b, c, d, t1, t2, (x[14], x[3], x[8], x[13]),
        (0x21e1cde6, -0x3cc8f82a, -0x0b2af279, 0x455a14ed), (5, 9, 14, 20));
    QuadG2(s, x);
    a, b, c, d, t1, t2 := LeaQuad(form, MixG, a, b, c, d, t1, t2, (x[2], x[7], x[12], x[5]),
        (-0x561c16fb, -0x03105c08, 0x676f02d9, -0x72d5b376), (5, 9, 14, 20));
    QuadG3(s, x);
  }

  method LeaH16(form: LeaForm, a0: Word, b0: Word, c0: Word, d0: Word, u1: Word, u2: Word, x: seq<Word>, ghost s: Chain)
    returns (a: Word, b: Word, c: Word, d: Word, t1: Word, t2: Word)
    requires |x| == 16 && Chain(a0, b0, c0, d0) == Rounds(s, x, 32) && u1 == d0 && u2 == x[5]
    ensures Chain(a, b, c, d) == Rounds(s, x, 48) && t1 == d && t2 == x[0]
  {
    hide Rounds, Quad, PreviousH;
    if form == Ghopt {
      a, b, c, d, t1, t2 := LeaQuadFirstH(a0, b0, c0, d0, u1, u2, (x[8], x[11], x[14], x[1]),
          (-0x0005c6be, -0x788e097f, 0x6d9d6122, -0x021ac7f4));
    } else {
      a, b, c, d, t1, t2 := LeaQuad(form, MixH, a0, b0, c0, d0, u1, u2, (x[8], x[11], x[14], x[1]),
          (-0x0005c6be, -0x788e097f, 0x6d9d6122, -0x021ac7f4), (4, 11, 16, 23));
    }
    QuadH0(s, x);
    a, b, c, d, t1, t2 := LeaQuad(form, MixH, a, b, c, d, t1, t2, (x[4], x[7], x[10], x[13]),
        (-0x5b4115bc, 0x4bdecfa9, -0x0944b4a0, -0x41404390), (4, 11, 16, 23));
    QuadH1(s, x);
    a, b, c, d, t1, t2 := LeaQuad(form, MixH, a, b, c, d, t1, t2, (x[0], x[3], x[6], x[9]),
        (0x289b7ec6, -0x155ed806, -0x2b10cf7b, 0x04881d05), (4, 11, 16, 23));
    QuadH2(s, x);
    a, b, c, d, t1, t2 := LeaQuad(form, MixH, a, b, c, d, t1, t2, (x[12], x[15], x[2], x[0]),
        (-0x262b2fc7, -0x1924661b, 0x1fa27cf8, -0x3b53a99b), (4, 11, 16, 23));
    QuadH3(s, x);
    if form == Ghopt {
      t1 := d;
    }
  }

  method LeaI16(form: LeaForm, a0: Word, b0: Word, c0: Word, d0: Word, u1: Word, u2: Word, x: seq<Word>, ghost s: Chain)
    returns (a: Word, b: Word, c: Word, d: Word)
    requires |x| == 16 && Chain(a0, b0, c0, d0) == Rounds(s, x, 48) && u1 == d0 && u2 == x[0]
    ensures Chain(a, b, c, d) == Rounds(s, x, 64)
  {
    hide Rounds, Quad, PreviousH;
    var t1, t2;
    a, b, c, d, t1, t2 := LeaQuad(form, MixI, a0, b0, c0, d0, u1, u2, (x[7], x[14], x[5], x[12]),
        (-0x0bd6ddbc, 0x432aff97, -0x546bdc59, -0x036c5fc7), (6, 10, 15, 21));
    QuadI0(s, x);
    a, b, c, d, t1, t2 := LeaQuad(form, MixI, a, b, c, d, t1, t2, (x[3], x[10], x[1], x[8]),
        (0x655b59c3, -0x70f3336e, -0x00100b83, -0x7a7ba22f), (6, 10, 15, 21));
    QuadI1(s, x);
    a, b, c, d, t1, t2 := LeaQuad(form, MixI, a, b, c, d, t1, t2, (x[15], x[6], x[13], x[4]),
        (0x6fa87e4f, -0x01d31920, -0x5cfebcec, 0x4e0811a1), (6, 10, 15, 21));
    QuadI2(s, x);
    a, b, c, d := LeaQuadLast(a, b, c, d, t1, t2, (x[11], x[2], x[9]),
        (-0x08ac817e, -0x42c50dcb, 0x2ad7d2bb, -0x14792c6f));
    QuadI3(s, x);
  }

  /** md5_block_std, md5_block_gopt and md5_block_ghopt compute what md5Step computes. */
  method LeaBlock(form: LeaForm, state: State, x: seq<Word>)
    requires |x| == 16
    modifies state
    ensures state.Value() == Compress(old(state.Value()), x)
  {
    hide Rounds, Sum;
    ghost var s := state.Value();
    var a, b, c, d := state.A, state.B, state.C, state.D;
    var t2 := x[0];
    var t1 := d;
    NoRounds(s, x);
    a, b, c, d, t1, t2 := LeaF16(form, a, b, c, d, t1, t2, x, s);
    a, b, c, d, t1, t2 := LeaG16(form, a, b, c, d, t1, t2, x, s);
    a, b, c, d, t1, t2 := LeaH16(form, a, b, c, d, t1, t2, x, s);
    a, b, c, d := LeaI16(form, a, b, c, d, t1, t2, x, s);
    state.Accumulate(a, b, c, d);
  }

  // The programs without lea: the register to be written already holds its input word, added
  // while D was last read. The ghost v is its value without that word.

  /** md5_block_nolea, md5_block_noleag and md5_block_noleagh. */
  datatype AddForm = Nolea | Noleag | Noleagh

  method AddF(a0: Word, b: Word, c: Word, d0: Word, u1: Word, next: Word, k: Word, r: nat, ghost v: Word, ghost w: Word)
    returns (a: Word, d: Word, t1: Word)
    requires r <= 32 && u1 == d0 && a0 == Add(v, w)
    ensures a == Next(MixF, Chain(v, b, c, d0), k, w, r) && d == Add(d0, next) && t1 == c
  {
    hide Rol, Add, Xor, And, Apply;
    t1 := Xor(u1, c);
    a := Add(a0, k);
    t1 := And(t1, b);
    t1 := Xor(t1, d0);
    d := Add(d0, next);
    a := Add(a, t1);
    FInRegister(b, c, d0);
    SumByAdd(v, Apply(MixF, b, c, d0), k, w);
    a := Rol(a, r);
    t1 := c;
    AddCommutes(a, b);
    a := Add(a, b);
  }

  method AddG(form: AddForm, a0: Word, b: Word, c: Word, d0: Word, u1: Word, next: Word, k: Word, r: nat,
              ghost v: Word, ghost w: Word)
    returns (a: Word, d: Word, t1: Word)
    requires r <= 32 && u1 == d0 && a0 == Add(v, w)
    ensures a == Next(MixG, Chain(v, b, c, d0), k, w, r) && d == Add(d0, next) && t1 == c
  {
    hide Rol, Add, And, Or, Not, Apply;
    GInRegister(b, c, d0);
    SumByAdd(v, Apply(MixG, b, c, d0), k, w);
    AddAssociates(Add(a0, k), And(Not(d0), c), And(d0, b));
    t1 := Not(u1);
    var t2: Word;
    if form == Nolea {
      t2 := d0;
      a := Add(a0, k);
      d := Add(d0, next);
      t1 := And(t1, c);
      t2 := And(t2, b);
      t1 := Or(t1, t2);
      a := Add(a, t1);
    } else {
      a := Add(a0, k);
      t1 := And(t1, c);
      t2 := d0;
      d := Add(d0, next);
      a := Add(a, t1);
      t2 := And(t2, b);
      a := Add(a, t2);
    }
    a := Rol(a, r);
    t1 := c;
    AddCommutes(a, b);
    a := Add(a, b);
  }

  method AddH(a0: Word, b: Word, c: Word, d0: Word, u1: Word, next: Word, k: Word, r: nat, ghost v: Word, ghost w: Word)
    returns (a: Word, d: Word, t1: Word)
    requires r <= 32 && u1 == d0 && a0 == Add(v, w)
    ensures a == Next(MixH, Chain(v, b, c, d0), k, w, r) && d == Add(d0, next) && t1 == c
  {
    hide Rol, Add, Xor, Apply;
    t1 := Xor(u1, c);
    a := Add(a0, k);
    d := Add(d0, next);
    t1 := Xor(t1, b);
    a := Add(a, t1);
    HInRegister(b, c, d0);
    SumByAdd(v, Apply(MixH, b, c, d0), k, w);
    a := Rol(a, r);
    t1 := c;
    AddCommutes(a, b);
    a := Add(a, b);
  }

  /** noleagh's ROUND_H: TMP1 carries the exclusive or of C and D. */
  method AddHCarried(a0: Word, b: Word, c: Word, d0: Word, u1: Word, next: Word, k: Word, r: nat, ghost v: Word,
      ghost w: Word)
    returns (a: Word, d: Word, t1: Word)
    requires r <= 32 && u1 == Xor(c, d0) && a0 == Add(v, w)
    ensures a == Next(MixH, Chain(v, b, c, d0), k, w, r) && d == Add(d0, next) && t1 == Xor(b, c)
  {
    hide Rol, Add, Xor, Apply;
    a := Add(a0, k);
    t1 := Xor(u1, b);
    a := Add(a, t1);
    HInRegister(b, c, d0);
    HFromPrevious(a0, b, c, d0);
    SumByAdd(v, Apply(MixH, b, c, d0), k, w);
    t1 := Xor(t1, d0);
    d := Add(d0, next);
    a := Rol(a, r);
    AddCommutes(a, b);
    a := Add(a, b);
  }

  /** noleagh's first H operation, which still finds D in TMP1. */
  method AddHFirst(a0: Word, b: Word, c: Word, d0: Word, u1: Word, next: Word, k: Word, r: nat, ghost v: Word,
      ghost w: Word)
    returns (a: Word, d: Word, t1: Word)
    requires r <= 32 && u1 == d0 && a0 == Add(v, w)
    ensures a == Next(MixH, Chain(v, b, c, d0), k, w, r) && d == Add(d0, next) && t1 == Xor(b, c)
  {
    hide Rol, Add, Xor, Apply;
    t1 := Xor(u1, c);
    a := Add(a0, k);
    t1 := Xor(t1, b);
    a := Add(a, t1);
    HInRegister(b, c, d0);
    HFromPrevious(a0, b, c, d0);
    SumByAdd(v, Apply(MixH, b, c, d0), k, w);
    t1 := Xor(t1, d0);
    d := Add(d0, next);
    a := Rol(a, r);
    AddCommutes(a, b);
    a := Add(a, b);
  }

  method AddI(a0: Word, b: Word, c: Word, d0: Word, u1: Word, next: Word, k: Word, r: nat, ghost v: Word, ghost w: Word)
    returns (a: Word, d: Word, t1: Word)
    requires r <= 32 && u1 == d0 && a0 == Add(v, w)
    ensures a == Next(MixI, Chain(v, b, c, d0), k, w, r) && d == Add(d0, next) && t1 == c
  {
    hide Rol, Add, Xor, Or, Not, Apply;
    t1 := Not(u1);
    a := Add(a0, k);
    d := Add(d0, next);
    t1 := Or(t1, b);
    t1 := Xor(t1, c);
    a := Add(a, t1);
    IInRegister(b, c, d0);
    SumByAdd(v, Apply(MixI, b, c, d0), k, w);
    a := Rol(a, r);
    t1 := c;
    AddCommutes(a, b);
    a := Add(a, b);
  }

  method AddILast(a0: Word, b: Word, c: Word, d: Word, u1: Word, k: Word, r: nat, ghost v: Word, ghost w: Word)
    returns (a: Word)
    requires r <= 32 && u1 == d && a0 == Add(v, w)
    ensures a == Next(MixI, Chain(v, b, c, d), k, w, r)
  {
    hide Rol, Add, Xor, Or, Not, Apply;
    var t1 := Not(u1);
    a := Add(a0, k);
    t1 := Or(t1, b);
    t1 := Xor(t1, c);
    a := Add(a, t1);
    IInRegister(b, c, d);
    SumByAdd(v, Apply(MixI, b, c, d), k, w);
    a := Rol(a, r);
    AddCommutes(a, b);
    a := Add(a, b);
  }

  /** What TMP1 holds before an operation of the programs without lea. */
  function AddHeld(form: AddForm, m: Mix, c: Word, d: Word): Word {
    if form == Noleagh && m == MixH then Xor(c, d) else d
  }

  method AddRound(form: AddForm, m: Mix, a0: Word, b: Word, c: Word, d0: Word, u1: Word, next: Word, k: Word, r: nat,
                  ghost v: Word, ghost w: Word)
    returns (a: Word, d: Word, t1: Word)
    requires r <= 32 && u1 == AddHeld(form, m, c, d0) && a0 == Add(v, w)
    ensures a == Next(m, Chain(v, b, c, d0), k, w, r) && d == Add(d0, next) && t1 == AddHeld(form, m, b, c)
  {
    hide Next, Add, Xor;
    match m
    case MixF => a, d, t1 := AddF(a0, b, c, d0, u1, next, k, r, v, w);
    case MixG => a, d, t1 := AddG(form, a0, b, c, d0, u1, next, k, r, v, w);
    case MixH =>
      if form == Noleagh {
        a, d, t1 := AddHCarried(a0, b, c, d0, u1, next, k, r, v, w);
      } else {
        a, d, t1 := AddH(a0, b, c, d0, u1, next, k, r, v, w);
      }
    case MixI => a, d, t1 := AddI(a0, b, c, d0, u1, next, k, r, v, w);
  }

  /** The macros RF4, RG4, RH4 and RI4: i lists the input words to add, one operation ahead. */
  method AddQuad(form: AddForm, m: Mix, a0: Word, b0: Word, c0: Word, d0: Word, u1: Word,
                 i: (Word, Word, Word, Word), k: (Word, Word, Word, Word), r: (nat, nat, nat, nat), ghost v: Word,
                     ghost w: Word)
    returns (a: Word, b: Word, c: Word, d: Word, t1: Word, ghost nv: Word)
    requires r.0 <= 32 && r.1 <= 32 && r.2 <= 32 && r.3 <= 32
    requires u1 == AddHeld(form, m, c0, d0) && a0 == Add(v, w)
    ensures Chain(nv, b, c, d) == Quad(m, Chain(v, b0, c0, d0), k, (w, i.0, i.1, i.2), r)
    ensures a == Add(nv, i.3) && t1 == AddHeld(form, m, c, d)
  {
    hide Next, AddHeld, Add;
    a, d, t1 := AddRound(form, m, a0, b0, c0, d0, u1, i.0, k.0, r.0, v, w);
    d, c, t1 := AddRound(form, m, d, a, b0, c0, t1, i.1, k.1, r.1, d0, i.0);
    c, b, t1 := AddRound(form, m, c, d, a, b0, t1, i.2, k.2, r.2, c0, i.1);
    nv := a;
    b, a, t1 := AddRound(form, m, b, c, d, a, t1, i.3, k.3, r.3, b0, i.2);
  }

  /** The first four H operations of noleagh. */
  method AddQuadFirstH(a0: Word, b0: Word, c0: Word, d0: Word, u1: Word,
                       i: (Word, Word, Word, Word), k: (Word, Word, Word, Word), ghost v: Word, ghost w: Word)
    returns (a: Word, b: Word, c: Word, d: Word, t1: Word, ghost nv: Word)
    requires u1 == d0 && a0 == Add(v, w)
    ensures Chain(nv, b, c, d) == Quad(MixH, Chain(v, b0, c0, d0), k, (w, i.0, i.1, i.2), (4, 11, 16, 23))
    ensures a == Add(nv, i.3) && t1 == Xor(c, d)
  {
    hide Next, Add, Xor;
    a, d, t1 := AddHFirst(a0, b0, c0, d0, u1, i.0, k.0, 4, v, w);
    d, c, t1 := AddHCarried(d, a, b0, c0, t1, i.1, k.1, 11, d0, i.0);
    c, b, t1 := AddHCarried(c, d, a, b0, t1, i.2, k.2, 16, c0, i.1);
    nv := a;
    b, a, t1 := AddHCarried(b, c, d, a, t1, i.3, k.3, 23, b0, i.2);
  }

  /** The last four operations, after which nothing is added any more. */
  method AddQuadLast(a0: Word, b0: Word, c0: Word, d0: Word, u1: Word,
                     i: (Word, Word, Word), k: (Word, Word, Word, Word), ghost v: Word, ghost w: Word)
    returns (a: Word, b: Word, c: Word, d: Word)
    requires u1 == d0 && a0 == Add(v, w)
    ensures Chain(a, b, c, d) == Quad(MixI, Chain(v, b0, c0, d0), k, (w, i.0, i.1, i.2), (6, 10, 15, 21))
  {
    hide Next, Add;
    var t1;
    a, d, t1 := AddI(a0, b0, c0, d0, u1, i.0, k.0, 6, v, w);
    d, c, t1 := AddI(d, a, b0, c0, t1, i.1, k.1, 10, d0, i.0);
    c, b, t1 := AddI(c, d, a, b0, t1, i.2, k.2, 15, c0, i.1);
    b := AddILast(b, c, d, a, t1, k.3, 21, b0, i.2);
  }

  method AddF16(form: AddForm, a0: Word, b0: Word, c0: Word, d0: Word, u1: Word, x: seq<Word>, ghost s: Chain,
      ghost v0: Word)
    returns (a: Word, b: Word, c: Word, d: Word, t1: Word, ghost v: Word)
    requires |x| == 16 && Chain(v0, b0, c0, d0) == Rounds(s, x, 0) && u1 == d0 && a0 == Add(v0, x[0])
    ensures Chain(v, b, c, d) == Rounds(s, x, 16) && t1 == d && a == Add(v, x[1])
  {
    hide Rounds, Quad, Add, Xor;
    a, b, c, d, t1, v := AddQuad(form, MixF, a0, b0, c0, d0, u1, (x[1], x[2], x[3], x[4]),
        (-0x28955b88, -0x173848aa, 0x242070db, -0x3e423112), (7, 12, 17, 22), v0, x[0]);
    QuadF0(s, x);
    a, b, c, d, t1, v := AddQuad(form, MixF, a, b, c, d, t1, (x[5], x[6], x[7], x[8]),
        (-0x0a83f051, 0x4787c62a, -0x57cfb9ed, -0x02b96aff), (7, 12, 17, 22), v, x[4]);
    QuadF1(s, x);
    a, b, c, d, t1, v := AddQuad(form, MixF, a, b, c, d, t1, (x[9], x[10], x[11], x[12]),
        (0x698098d8, -0x74bb0851, -0x0000a44f, -0x76a32842), (7, 12, 17, 22), v, x[8]);
    QuadF2(s, x);
    a, b, c, d, t1, v := AddQuad(form, MixF, a, b, c, d, t1, (x[13], x[14], x[15], x[1]),
        (0x6b901122, -0x02678e6d, -0x5986bc72, 0x49b40821), (7, 12, 17, 22), v, x[12]);
    QuadF3(s, x);
  }

  method AddG16(form: AddForm, a0: Word, b0: Word, c0: Word, d0: Word, u1: Word, x: seq<Word>, ghost s: Chain,
      ghost v0: Word)
    returns (a: Word, b: Word, c: Word, d: Word, t1: Word, ghost v: Word)
    requires |x| == 16 && Chain(v0, b0, c0, d0) == Rounds(s, x, 16) && u1 == d0 && a0 == Add(v0, x[1])
    ensures Chain(v, b, c, d) == Rounds(s, x, 32) && t1 == d && a == Add(v, x[5])
  {
    hide Rounds, Quad, Add, Xor;
    a, b, c, d, t1, v := AddQuad(form, MixG, a0, b0, c0, d0, u1, (x[6], x[11], x[0], x[5]),
        (-0x09e1da9e, -0x3fbf4cc0, 0x265e5a51, -0x16493856), (5, 9, 14, 20), v0, x[1]);
    QuadG0(s, x);
    a, b, c, d, t1, v := AddQuad(form, MixG, a, b, c, d, t1, (x[10], x[15], x[4], x[9]),
        (-0x29d0efa3, 0x02441453, -0x275e197f, -0x182c0438), (5, 9, 14, 20), v, x[5]);
    QuadG1(s, x);
    a, b, c, d, t1, v := AddQuad(form, MixG, a, b, c, d, t1, (x[14], x[3], x[8], x[13]),
        (0x21e1cde6, -0x3cc8f82a, -0x0b2af279, 0x455a14ed), (5, 9, 14, 20), v, x[9]);
    QuadG2(s, x);
    a, b, c, d, t1, v := AddQuad(form, MixG, a, b, c, d, t1, (x[2], x[7], x[12], x[5]),
        (-0x561c16fb, -0x03105c08, 0x676f02d9, -0x72d5b376), (5, 9, 14, 20), v, x[13]);
    QuadG3(s, x);
  }

  method AddH16(form: AddForm, a0: Word, b0: Word, c0: Word, d0: Word, u1: Word, x: seq<Word>, ghost s: Chain,
      ghost v0: Word)
    returns (a: Word, b: Word, c: Word, d: Word, t1: Word, ghost v: Word)
    requires |x| == 16 && Chain(v0, b0, c0, d0) == Rounds(s, x, 32) && u1 == d0 && a0 == Add(v0, x[5])
    ensures Chain(v, b, c, d) == Rounds(s, x, 48) && t1 == d && a == Add(v, x[0])
  {
    hide Rounds, Quad, Add, Xor;
    if form == Noleagh {
      a, b, c, d, t1, v := AddQuadFirstH(a0, b0, c0, d0, u1, (x[8], x[11], x[14], x[1]),
          (-0x0005c6be, -0x788e097f, 0x6d9d6122, -0x021ac7f4), v0, x[5]);
    } else {
      a, b, c, d, t1, v := AddQuad(form, MixH, a0, b0, c0, d0, u1, (x[8], x[11], x[14], x[1]),
          (-0x0005c6be, -0x788e097f, 0x6d9d6122, -0x021ac7f4), (4, 11, 16, 23), v0, x[5]);
    }
    QuadH0(s, x);
    a, b, c, d, t1, v := AddQuad(form, MixH, a, b, c, d, t1, (x[4], x[7], x[10], x[13]),
        (-0x5b4115bc, 0x4bdecfa9, -0x0944b4a0, -0x41404390), (4, 11, 16, 23), v, x[1]);
    QuadH1(s, x);
    a, b, c, d, t1, v := AddQuad(form, MixH, a, b, c, d, t1, (x[0], x[3], x[6], x[9]),
        (0x289b7ec6, -0x155ed806, -0x2b10cf7b, 0x04881d05), (4, 11, 16, 23), v, x[13]);
    QuadH2(s, x);
    a, b, c, d, t1, v := AddQuad(form, MixH, a, b, c, d, t1, (x[12], x[15], x[2], x[0]),
        (-0x262b2fc7, -0x1924661b, 0x1fa27cf8, -0x3b53a99b), (4, 11, 16, 23), v, x[9]);
    QuadH3(s, x);
    if form == Noleagh {
      t1 := d;
    }
  }

  method AddI16(form: AddForm, a0: Word, b0: Word, c0: Word, d0: Word, u1: Word, x: seq<Word>, ghost s: Chain,
      ghost v0: Word)
    returns (a: Word, b: Word, c: Word, d: Word)
    requires |x| == 16 && Chain(v0, b0, c0, d0) == Rounds(s, x, 48) && u1 == d0 && a0 == Add(v0, x[0])
    ensures Chain(a, b, c, d) == Rounds(s, x, 64)
  {
    hide Rounds, Quad, Add, Xor;
    var t1;
    ghost var v;
    a, b, c, d, t1, v := AddQuad(form, MixI, a0, b0, c0, d0, u1, (x[7], x[14], x[5], x[12]),
        (-0x0bd6ddbc, 0x432aff97, -0x546bdc59, -0x036c5fc7), (6, 10, 15, 21), v0, x[0]);
    QuadI0(s, x);
    a, b, c, d, t1, v := AddQuad(form, MixI, a, b, c, d, t1, (x[3], x[10], x[1], x[8]),
        (0x655b59c3, -0x70f3336e, -0x00100b83, -0x7a7ba22f), (6, 10, 15, 21), v, x[12]);
    QuadI1(s, x);
    a, b, c, d, t1, v := AddQuad(form, MixI, a, b, c, d, t1, (x[15], x[6], x[13], x[4]),
        (0x6fa87e4f, -0x01d31920, -0x5cfebcec, 0x4e0811a1), (6, 10, 15, 21), v, x[8]);
    QuadI2(s, x);
    a, b, c, d := AddQuadLast(a, b, c, d, t1, (x[11], x[2], x[9]),
        (-0x08ac817e, -0x42c50dcb, 0x2ad7d2bb, -0x14792c6f), v, x[4]);
    QuadI3(s, x);
  }

  /** md5_block_nolea, md5_block_noleag and md5_block_noleagh compute what md5Step computes. */
  method AddBlock(form: AddForm, state: State, x: seq<Word>)
    requires |x| == 16
    modifies state
    ensures state.Value() == Compress(old(state.Value()), x)
  {
    hide Rounds, Sum, Add;
    ghost var s := state.Value();
    ghost var v := state.A;
    var a, b, c, d := state.A, state.B, state.C, state.D;
    a := Add(a, x[0]);
    var t1 := d;
    NoRounds(s, x);
    a, b, c, d, t1, v := AddF16(form, a, b, c, d, t1, x, s, v);
    a, b, c, d, t1, v := AddG16(form, a, b, c, d, t1, x, s, v);
    a, b, c, d, t1, v := AddH16(form, a, b, c, d, t1, x, s, v);
    a, b, c, d := AddI16(form, a, b, c, d, t1, x, s, v);
    state.Accumulate(a, b, c, d);
  }
}
