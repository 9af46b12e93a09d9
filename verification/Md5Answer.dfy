/** The example "abc" of section A.5 of RFC 1321, from the message to its digest. It ties the definition
    that the programs are proved against to the published one: constants, rotations, padding, byte order. */
module Md5Answer {

  import opened Bytes
  import opened Word32
  import opened BlockHash
  import opened Md5
  import opened Md5Digest

  /** The padded message as words. */
  const WORDS: seq<Word> := [0x80636261, 0, 0, 0, 0, 0, 0, 0, 0, 0, 0, 0, 0, 0, 24, 0]

  // Four operations at a time.

  lemma AbcF0()
    ensures Quad(MixF, Chain(0x67452301, 0xefcdab89, 0x98badcfe, 0x10325476),
                 (0xd76aa478, 0xe8c7b756, 0x242070db, 0xc1bdceee),
                 (0x80636261, 0, 0, 0), (7, 12, 17, 22)) ==
            Chain(0xd6d117b4, 0x7ad956f2, 0x2f6fbd72, 0x344a8432)
  {
  }

  lemma AbcF1()
    ensures Quad(MixF, Chain(0xd6d117b4, 0x7ad956f2, 0x2f6fbd72, 0x344a8432),
                 (0xf57c0faf, 0x4787c62a, 0xa8304613, 0xfd469501),
                 (0, 0, 0, 0), (7, 12, 17, 22)) ==
            Chain(0xc73741ef, 0x928d99f6, 0x207dc67b, 0x8bac3051)
  {
  }

  lemma AbcF2()
    ensures Quad(MixF, Chain(0xc73741ef, 0x928d99f6, 0x207dc67b, 0x8bac3051),
                 (0x698098d8, 0x8b44f7af, 0xffff5bb1, 0x895cd7be),
                 (0, 0, 0, 0), (7, 12, 17, 22)) ==
            Chain(0x854b3712, 0x5ed49596, 0x3020401c, 0x74e2f284)
  {
  }

  lemma AbcF3()
    ensures Quad(MixF, Chain(0x854b3712, 0x5ed49596, 0x3020401c, 0x74e2f284),
                 (0x6b901122, 0xfd987193, 0xa679438e, 0x49b40821),
                 (0, 0, 24, 0), (7, 12, 17, 22)) ==
            Chain(0xdda9b9a6, 0x72aff2e0, 0xe396856b, 0xa1051895)
  {
  }

  lemma AbcG0()
    ensures Quad(MixG, Chain(0xdda9b9a6, 0x72aff2e0, 0xe396856b, 0xa1051895),
                 (0xf61e2562, 0xc040b340, 0x265e5a51, 0xe9b6c7aa),
                 (0, 0, 0, 0x80636261), (5, 9, 14, 20)) ==
            Chain(0x3e9e9126, 0xb5b204e4, 0xe25e1652, 0x4a1d804e)
  {
  }

  lemma AbcG1()
    ensures Quad(MixG, Chain(0x3e9e9126, 0xb5b204e4, 0xe25e1652, 0x4a1d804e),
                 (0xd62f105d, 0x02441453, 0xd8a1e681, 0xe7d3fbc8),
                 (0, 0, 0, 0), (5, 9, 14, 20)) ==
            Chain(0x59a8ffda, 0x47092c07, 0xabfc7920, 0x6d002f1e)
  {
  }

  lemma AbcG2()
    ensures Quad(MixG, Chain(0x59a8ffda, 0x47092c07, 0xabfc7920, 0x6d002f1e),
                 (0x21e1cde6, 0xc33707d6, 0xf4d50d87, 0x455a14ed),
                 (0, 24, 0, 0), (5, 9, 14, 20)) ==
            Chain(0xb7f268cf, 0x786acb8f, 0xfe1623b1, 0x09388eff)
  {
  }

  lemma AbcG3()
    ensures Quad(MixG, Chain(0xb7f268cf, 0x786acb8f, 0xfe1623b1, 0x09388eff),
                 (0xa9e3e905, 0xfcefa3f8, 0x676f02d9, 0x8d2a4c8a),
                 (0, 0, 0, 0), (5, 9, 14, 20)) ==
            Chain(0x790a77fb, 0x726342d3, 0xa62884aa, 0x9f47e4f8)
  {
  }

  lemma AbcH0()
    ensures Quad(MixH, Chain(0x790a77fb, 0x726342d3, 0xa62884aa, 0x9f47e4f8),
                 (0xfffa3942, 0x8771f681, 0x6d9d6122, 0xfde5380c),
                 (0, 0, 0, 24), (4, 11, 16, 23)) ==
            Chain(0xb3707ebf, 0x3b0875c7, 0x8d212ff5, 0x60127b2e)
  {
  }

  lemma AbcH1()
    ensures Quad(MixH, Chain(0xb3707ebf, 0x3b0875c7, 0x8d212ff5, 0x60127b2e),
                 (0xa4beea44, 0x4bdecfa9, 0xf6bb4b60, 0xbebfbc70),
                 (0, 0, 0, 0), (4, 11, 16, 23)) ==
            Chain(0x21b117b9, 0x5a2f5ea5, 0x3575227e, 0x6e7429d5)
  {
  }

  lemma AbcH2()
    ensures Quad(MixH, Chain(0x21b117b9, 0x5a2f5ea5, 0x3575227e, 0x6e7429d5),
                 (0x289b7ec6, 0xeaa127fa, 0xd4ef3085, 0x04881d05),
                 (0, 0x80636261, 0, 0), (4, 11, 16, 23)) ==
            Chain(0x11de1779, 0x4c6124f4, 0x31c465ca, 0xfadcaa38)
  {
  }

  lemma AbcH3()
    ensures Quad(MixH, Chain(0x11de1779, 0x4c6124f4, 0x31c465ca, 0xfadcaa38),
                 (0xd9d4d039, 0xe6db99e5, 0x1fa27cf8, 0xc4ac5665),
                 (0, 0, 0, 0), (4, 11, 16, 23)) ==
            Chain(0x7f2e507b, 0x7beb9700, 0x8fae6399, 0x99d9679d)
  {
  }

  lemma AbcI0()
    ensures Quad(MixI, Chain(0x7f2e507b, 0x7beb9700, 0x8fae6399, 0x99d9679d),
                 (0xf4292244, 0x432aff97, 0xab9423a7, 0xfc93a039),
                 (0x80636261, 0, 24, 0), (6, 10, 15, 21)) ==
            Chain(0x7b201df8, 0x8bf025c4, 0xb298cefd, 0xf4e8e96e)
  {
  }

  lemma AbcI1()
    ensures Quad(MixI, Chain(0x7b201df8, 0x8bf025c4, 0xb298cefd, 0xf4e8e96e),
                 (0x655b59c3, 0x8f0ccc92, 0xffeff47d, 0x85845dd1),
                 (0, 0, 0, 0), (6, 10, 15, 21)) ==
            Chain(0x06cc5e8a, 0x3bfa2c27, 0x7d632dd0, 0x5b0d97aa)
  {
  }

  lemma AbcI2()
    ensures Quad(MixI, Chain(0x06cc5e8a, 0x3bfa2c27, 0x7d632dd0, 0x5b0d97aa),
                 (0x6fa87e4f, 0xfe2ce6e0, 0xa3014314, 0x4e0811a1),
                 (0, 0, 0, 0), (6, 10, 15, 21)) ==
            Chain(0x7f81cc35, 0x7327d604, 0x4f9dbe3f, 0x094454ab)
  {
  }

  lemma AbcI3()
    ensures Quad(MixI, Chain(0x7f81cc35, 0x7327d604, 0x4f9dbe3f, 0x094454ab),
                 (0xf7537e82, 0xbd3af235, 0x2ad7d2bb, 0xeb86d391),
                 (0, 0, 0, 0), (6, 10, 15, 21)) ==
            Chain(0x310ade8f, 0xc08226b3, 0xe484b9d8, 0x624d8cb2)
  {
  }

  // The four rounds.

  lemma Round1()
    ensures Rounds(INIT, WORDS, 16) ==
            Chain(0xdda9b9a6, 0x72aff2e0, 0xe396856b, 0xa1051895)
  {
    hide Rounds, Quad, Sine, Shift, WordAt, MixAt;
    NoRounds(INIT, WORDS);
    QuadF0(INIT, WORDS);
    AbcF0();
    QuadF1(INIT, WORDS);
    AbcF1();
    QuadF2(INIT, WORDS);
    AbcF2();
    QuadF3(INIT, WORDS);
    AbcF3();
  }

  lemma Round2()
    ensures Rounds(INIT, WORDS, 32) ==
            Chain(0x790a77fb, 0x726342d3, 0xa62884aa, 0x9f47e4f8)
  {
    hide Rounds, Quad, Sine, Shift, WordAt, MixAt;
    Round1();
    QuadG0(INIT, WORDS);
    AbcG0();
    QuadG1(INIT, WORDS);
    AbcG1();
    QuadG2(INIT, WORDS);
    AbcG2();
    QuadG3(INIT, WORDS);
    AbcG3();
  }

  lemma Round3()
    ensures Rounds(INIT, WORDS, 48) ==
            Chain(0x7f2e507b, 0x7beb9700, 0x8fae6399, 0x99d9679d)
  {
    hide Rounds, Quad, Sine, Shift, WordAt, MixAt;
    Round2();
    QuadH0(INIT, WORDS);
    AbcH0();
    QuadH1(INIT, WORDS);
    AbcH1();
    QuadH2(INIT, WORDS);
    AbcH2();
    QuadH3(INIT, WORDS);
    AbcH3();
  }

  lemma Round4()
    ensures Rounds(INIT, WORDS, 64) ==
            Chain(0x310ade8f, 0xc08226b3, 0xe484b9d8, 0x624d8cb2)
  {
    hide Rounds, Quad, Sine, Shift, WordAt, MixAt;
    Round3();
    QuadI0(INIT, WORDS);
    AbcI0();
    QuadI1(INIT, WORDS);
    AbcI1();
    QuadI2(INIT, WORDS);
    AbcI2();
    QuadI3(INIT, WORDS);
    AbcI3();
  }

  // The message and the digest.

  lemma MessageWords()
    ensures var block := Padded(Ascii("abc"), LittleEndian64(24)); |block| == BLOCK && LittleWords(block) == WORDS
  {
    var m := Ascii("abc");
    var block := Padded(m, LittleEndian64(24));
    assert m == [97, 98, 99];
    assert |block| == BLOCK;
    WordsAt(block);
  }

  lemma WordsAt(block: Bytes)
    requires |block| == BLOCK
    requires block == [97, 98, 99] + Padding(3) + LittleEndian64(24)
    ensures LittleWords(block) == WORDS
  {
    hide LittleWords;
    assert Pack(97, 98, 99, 0x80) == 0x80636261 && Pack(0, 0, 0, 0) == 0 && Pack(24, 0, 0, 0) == 24;
    forall j | 0 <= j < 16
      ensures LittleWords(block)[j] == WORDS[j]
    {
      LittleWordsAt(block, j);
    }
  }

  lemma DigestOfAbc()
    ensures Digest(Ascii("abc")) == Chain(0x98500190, 0xb04fd23c, 0x7d3f96d6, 0x727fe128)
  {
    hide Rounds, LittleWords;
    MessageWords();
    Round4();
    var block := Padded(Ascii("abc"), LittleEndian64(24));
    assert block[..0] == [] && block[0..] == block;
  }

  /** The digest is 900150983cd24fb0d6963f7d28e17f72. */
  lemma AnswerForAbc()
    ensures DigestBytes(Digest(Ascii("abc"))) ==
            [0x90, 0x01, 0x50, 0x98, 0x3c, 0xd2, 0x4f, 0xb0, 0xd6, 0x96, 0x3f, 0x7d, 0x28, 0xe1, 0x7f, 0x72]
  {
    hide Digest;
    DigestOfAbc();
  }
}
