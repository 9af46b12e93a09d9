/** WebSocket frames on the wire (section 5.2 of RFC 6455). */
module WebSocketFrame {
  import opened Bytes

  // ----- bytes and masks -----

  function Pow2(n: nat): (p: nat)
    ensures p > 0
  {
    if n == 0 then 1 else 2 * Pow2(n - 1)
  }

  /** Exclusive or of the low n bits, bit by bit. */
  function XorBits(a: nat, b: nat, n: nat): (r: nat)
    ensures r < Pow2(n)
  {
    if n == 0 then 0 else 2 * XorBits(a / 2, b / 2, n - 1) + (if a % 2 == b % 2 then 0 else 1)
  }

  lemma XorBitsStep(a: nat, b: nat, n: nat)
    requires n > 0
    ensures XorBits(a, b, n) == 2 * XorBits(a / 2, b / 2, n - 1) + (if a % 2 == b % 2 then 0 else 1)
  {
  }

  lemma {:induction false} XorBitsTwice(a: nat, b: nat, n: nat)
    requires a < Pow2(n)
    ensures XorBits(XorBits(a, b, n), b, n) == a
  {
    hide XorBits;
    if n > 0 {
      var high, low := XorBits(a / 2, b / 2, n - 1), if a % 2 == b % 2 then 0 else 1;
      XorBitsTwice(a / 2, b / 2, n - 1);
      XorBitsStep(a, b, n);
      XorBitsStep(2 * high + low, b, n);
      assert (2 * high + low) / 2 == high && (2 * high + low) % 2 == low;
    }
  }

  function Xor(a: byte, b: byte): byte {
    assert Pow2(8) == 256 by { Pow2Of8(); }
    XorBits(a, b, 8)
  }

  lemma Pow2Of8()
    ensures Pow2(8) == 256
  {
    assert Pow2(4) == 16;
    assert Pow2(6) == 4 * Pow2(4);
    assert Pow2(8) == 4 * Pow2(6);
  }

  /** x without its lowest i binary digits. */
  function Shifted(x: nat, i: nat): nat {
    if i == 0 then x else Shifted(x / 2, i - 1)
  }

  lemma {:induction false} XorBitsDigit(a: nat, b: nat, n: nat, i: nat)
    requires i < n
    ensures Shifted(XorBits(a, b, n), i) % 2 == (Shifted(a, i) + Shifted(b, i)) % 2
  {
    hide XorBits;
    XorBitsStep(a, b, n);
    if i > 0 {
      assert XorBits(a, b, n) / 2 == XorBits(a / 2, b / 2, n - 1);
      XorBitsDigit(a / 2, b / 2, n - 1, i - 1);
    }
  }

  lemma ShiftedIs(x: nat)
    ensures Shifted(x, 0) == x && Shifted(x, 1) == x / 2 && Shifted(x, 2) == x / 4 && Shifted(x, 3) == x / 8
    ensures Shifted(x, 4) == x / 16 && Shifted(x, 5) == x / 32 && Shifted(x, 6) == x / 64 && Shifted(x, 7) == x / 128
  {
    ShiftedStep(x, 1);
    ShiftedStep(x, 2);
    ShiftedStep(x, 3);
    ShiftedStep(x, 4);
    ShiftedStep(x, 5);
    ShiftedStep(x, 6);
    ShiftedStep(x, 7);
  }

  lemma {:induction false} ShiftedStep(x: nat, i: nat)
    requires i > 0
    ensures Shifted(x, i) == Shifted(x, i - 1) / 2
  {
    if i > 1 {
      ShiftedStep(x / 2, i - 1);
    }
  }

  /** Each binary digit of the result is the sum modulo 2 of the digits of a and b. */
  lemma XorDigits(a: byte, b: byte)
    ensures var x := Xor(a, b);
            && x % 2 == (a + b) % 2 && x / 2 % 2 == (a / 2 + b / 2) % 2
            && x / 4 % 2 == (a / 4 + b / 4) % 2 && x / 8 % 2 == (a / 8 + b / 8) % 2
            && x / 16 % 2 == (a / 16 + b / 16) % 2 && x / 32 % 2 == (a / 32 + b / 32) % 2
            && x / 64 % 2 == (a / 64 + b / 64) % 2 && x / 128 % 2 == (a / 128 + b / 128) % 2
  {
    hide XorBits, Shifted;
    assert Pow2(8) == 256 by { Pow2Of8(); }
    forall i: nat | i < 8
      ensures Shifted(Xor(a, b), i) % 2 == (Shifted(a, i) + Shifted(b, i)) % 2
    {
      XorBitsDigit(a, b, 8, i);
    }
    ShiftedIs(a);
    ShiftedIs(b);
    ShiftedIs(Xor(a, b));
  }

  /** So the digits determine the result. */
  lemma XorIs(a: byte, b: byte, r: byte)
    requires r % 2 == (a + b) % 2 && r / 2 % 2 == (a / 2 + b / 2) % 2
    requires r / 4 % 2 == (a / 4 + b / 4) % 2 && r / 8 % 2 == (a / 8 + b / 8) % 2
    requires r / 16 % 2 == (a / 16 + b / 16) % 2 && r / 32 % 2 == (a / 32 + b / 32) % 2
    requires r / 64 % 2 == (a / 64 + b / 64) % 2 && r / 128 % 2 == (a / 128 + b / 128) % 2
    ensures Xor(a, b) == r
  {
    hide Xor;
    XorDigits(a, b);
    ByDigits(Xor(a, b));
    ByDigits(r);
  }

  lemma ByDigits(x: byte)
    ensures x == x % 2 + x / 2 % 2 * 2 + x / 4 % 2 * 4 + x / 8 % 2 * 8 + x / 16 % 2 * 16 + x / 32 % 2 * 32
                 + x / 64 % 2 * 64 + x / 128 % 2 * 128
  {
    Halves(x);
  }

  lemma Halves(x: byte)
    ensures x / 2 / 2 == x / 4 && x / 4 / 2 == x / 8 && x / 8 / 2 == x / 16 && x / 16 / 2 == x / 32
    ensures x / 32 / 2 == x / 64 && x / 64 / 2 == x / 128
  {
  }

  lemma XorTwice(a: byte, b: byte)
    ensures Xor(Xor(a, b), b) == a
  {
    Pow2Of8();
    XorBitsTwice(a, b, 8);
  }

  /** data with byte i combined with byte i % 4 of the key. */
  function Mask(key: Bytes, data: Bytes): (r: Bytes)
    requires |key| == 4
    ensures |r| == |data|
  {
    seq(|data|, i requires 0 <= i < |data| => Xor(data[i], key[i % 4]))
  }

  lemma MaskTwice(key: Bytes, data: Bytes)
    requires |key| == 4
    ensures Mask(key, Mask(key, data)) == data
  {
    forall i | 0 <= i < |data|
      ensures Mask(key, Mask(key, data))[i] == data[i]
    {
      XorTwice(data[i], key[i % 4]);
    }
  }

  // ----- frames on the wire -----

  /** mg_is_ws_fragment */
  predicate IsFragment(flags: byte) {
    flags < 0x80 || flags % 16 == 0
  }

  /** mg_is_ws_first_fragment */
  predicate IsFirstFragment(flags: byte) {
    flags < 0x80 && flags % 16 != 0
  }

  /** The three ways to write a payload length. */
  datatype Form = Short | Medium | Long

  function BigEndian(n: nat, width: nat): (s: Bytes)
    ensures |s| == width
  {
    if width == 0 then [] else BigEndian(n / 256, width - 1) + [n % 256]
  }

  function FromBigEndian(s: Bytes): nat {
    if s == [] then 0 else FromBigEndian(s[..|s| - 1]) * 256 + s[|s| - 1]
  }

  function Pow256(n: nat): nat {
    if n == 0 then 1 else 256 * Pow256(n - 1)
  }

  lemma {:induction false} BigEndianRoundTrip(n: nat, width: nat)
    requires n < Pow256(width)
    ensures FromBigEndian(BigEndian(n, width)) == n
  {
    if width > 0 {
      BigEndianRoundTrip(n / 256, width - 1);
      var s := BigEndian(n, width);
      assert s[..|s| - 1] == BigEndian(n / 256, width - 1);
    }
  }

  datatype Frame = Frame(flags: byte, form: Form, key: Option<Bytes>, payload: Bytes) {
    predicate Valid() {
      && (key.Some? ==> |key.value| == 4)
      && |payload| < (match form case Short => 126 case Medium => 0x1_0000 case Long => 0x8000_0000_0000_0000)
    }

    function LengthBits(): byte {
      match form
      case Short => if |payload| < 126 then |payload| else 0
      case Medium => 126
      case Long => 127
    }

    function Header(): Bytes {
      [flags, LengthBits() + (if key.Some? then 128 else 0)]
      + (match form case Short => [] case Medium => BigEndian(|payload|, 2) case Long => BigEndian(|payload|, 8))
      + (if key.Some? then key.value else [])
    }

    function Wire(): Bytes
      requires Valid()
    {
      Header() + (if key.Some? then Mask(key.value, payload) else payload)
    }
  }

  /** What the decoder reads from the front of a buffer: lengths, and no header at all if it is incomplete. */
  datatype Layout = Layout(headerLen: nat, maskLen: nat, dataLen: nat)

  function ReadLayout(b: Bytes): Layout {
    if |b| < 2 then Layout(0, 0, 0)
    else
      var len := b[1] % 128;
      var maskLen := if b[1] >= 128 then 4 else 0;
      if len < 126 && |b| >= maskLen then Layout(2 + maskLen, maskLen, len)
      else if len == 126 && |b| >= 4 + maskLen then Layout(4 + maskLen, maskLen, FromBigEndian(b[2..4]))
      else if |b| >= 10 + maskLen then Layout(10 + maskLen, maskLen, FromBigEndian(b[2..10]))
      else Layout(0, maskLen, 0)
  }

  predicate Complete(b: Bytes) {
    var l := ReadLayout(b);
    0 < l.headerLen + l.dataLen <= |b|
  }

  lemma CompleteHasHeader(b: Bytes)
    requires Complete(b)
    ensures ReadLayout(b).headerLen >= 2 + ReadLayout(b).maskLen
    ensures ReadLayout(b).headerLen + ReadLayout(b).dataLen <= |b|
  {
    hide FromBigEndian;
  }

  /** The payload with the mask taken off. */
  function ReadPayload(b: Bytes): (r: Bytes)
    requires Complete(b)
    ensures |r| == ReadLayout(b).dataLen
  {
    var l := ReadLayout(b);
    CompleteHasHeader(b);
    var data := b[l.headerLen..l.headerLen + l.dataLen];
    if l.maskLen > 0 then Mask(b[l.headerLen - 4..l.headerLen], data) else data
  }

  /** A whole frame at the front of the buffer is read exactly, whatever follows it. */
  lemma ReadFrame(f: Frame, rest: Bytes)
    requires f.Valid()
    ensures var b := f.Wire() + rest;
            && ReadLayout(b) == Layout(|f.Header()|, if f.key.Some? then 4 else 0, |f.payload|)
            && Complete(b) && |f.Wire()| == |f.Header()| + |f.payload|
            && ReadPayload(b) == f.payload
  {
    hide FromBigEndian, BigEndian, Mask;
    var b := f.Wire() + rest;
    ReadLengths(f, rest);
    var n := |f.Header()|;
    if f.key.Some? {
      assert b[n - 4..n] == f.key.value;
      assert b[n..n + |f.payload|] == Mask(f.key.value, f.payload);
      MaskTwice(f.key.value, f.payload);
    } else {
      assert b[n..n + |f.payload|] == f.payload;
    }
  }

  lemma ReadLengths(f: Frame, rest: Bytes)
    requires f.Valid()
    ensures ReadLayout(f.Wire() + rest) == Layout(|f.Header()|, if f.key.Some? then 4 else 0, |f.payload|)
  {
    hide FromBigEndian, BigEndian, Mask;
    var b := f.Wire() + rest;
    assert b[1] == f.Header()[1];
    Powers();
    if f.form.Medium? {
      assert b[2..4] == BigEndian(|f.payload|, 2);
      BigEndianRoundTrip(|f.payload|, 2);
    }
    if f.form.Long? {
      assert b[2..10] == BigEndian(|f.payload|, 8);
      BigEndianRoundTrip(|f.payload|, 8);
    }
  }

  lemma Powers()
    ensures Pow256(2) == 0x1_0000 && Pow256(8) == 0x1_0000_0000_0000_0000
  {
    assert Pow256(2) == 256 * Pow256(1);
    assert Pow256(4) == 0x1_0000 * Pow256(2);
    assert Pow256(6) == 0x1_0000 * Pow256(4);
    assert Pow256(8) == 0x1_0000 * Pow256(6);
  }

  /** A frame of which bytes are still missing is left alone. */
  lemma IncompleteFrame(f: Frame, b: Bytes, missing: Bytes)
    requires f.Valid() && b + missing == f.Wire() && missing != []
    ensures !Complete(b)
  {
    hide FromBigEndian, BigEndian, Mask;
    var w, h := f.Wire(), f.Header();
    assert |b| < |w| && forall i :: 0 <= i < |b| ==> b[i] == w[i];
    if |b| >= 2 {
      assert b[1] == h[1];
      Powers();
      if f.form.Medium? && |b| >= 4 {
        assert b[2..4] == w[2..4] == BigEndian(|f.payload|, 2);
        BigEndianRoundTrip(|f.payload|, 2);
      }
      if f.form.Long? && |b| >= 10 {
        assert b[2..10] == w[2..10] == BigEndian(|f.payload|, 8);
        BigEndianRoundTrip(|f.payload|, 8);
      }
    }
  }

  // ----- the examples of section 5.7 of RFC 6455 -----

  const HELLO: Bytes := Ascii("Hello")

  lemma MaskedHello()
    ensures Mask([0x37, 0xfa, 0x21, 0x3d], HELLO) == [0x7f, 0x9f, 0x4d, 0x51, 0x58]
  {
    hide Xor;
    XorIs(72, 0x37, 0x7f);
    XorIs(101, 0xfa, 0x9f);
    XorIs(108, 0x21, 0x4d);
    XorIs(108, 0x3d, 0x51);
    XorIs(111, 0x37, 0x58);
    var key: Bytes := [0x37, 0xfa, 0x21, 0x3d];
    var m := Mask(key, HELLO);
    assert m[0] == Xor(72, key[0]) && m[1] == Xor(101, key[1]) && m[2] == Xor(108, key[2]);
    assert m[3] == Xor(108, key[3]) && m[4] == Xor(111, key[0]);
  }

  /** A text message, unmasked and masked. */
  lemma HelloFrames()
    ensures Frame(0x81, Short, None, HELLO).Wire() == [0x81, 0x05, 0x48, 0x65, 0x6c, 0x6c, 0x6f]
    ensures Frame(0x81, Short, Some([0x37, 0xfa, 0x21, 0x3d]), HELLO).Wire()
         == [0x81, 0x85, 0x37, 0xfa, 0x21, 0x3d, 0x7f, 0x9f, 0x4d, 0x51, 0x58]
  {
    hide Mask;
    MaskedHello();
  }

  /** Binary messages of 256 bytes and of 64 KiB. */
  lemma LongHeaders(payload: Bytes)
    ensures |payload| == 256 ==> Frame(0x82, Medium, None, payload).Header() == [0x82, 0x7e, 0x01, 0x00]
    ensures |payload| == 65536 ==>
              Frame(0x82, Long, None, payload).Header() == [0x82, 0x7f, 0, 0, 0, 0, 0, 1, 0, 0]
  {
    assert BigEndian(256, 2) == [1, 0];
    assert BigEndian(256, 6) == [0, 0, 0, 0, 1, 0] by {
      assert BigEndian(1, 5) == [0, 0, 0, 0, 1];
    }
    assert BigEndian(65536, 8) == BigEndian(1, 6) + [0, 0];
    assert BigEndian(1, 6) == [0, 0, 0, 0, 0, 1];
  }

  /** Pings are never fragments; a message starts with a data opcode and goes on with opcode 0. */
  lemma FragmentFlags()
    ensures IsFirstFragment(0x01) && IsFirstFragment(0x02)
    ensures IsFragment(0x00) && !IsFirstFragment(0x00) && IsFragment(0x80) && !IsFirstFragment(0x80)
    ensures !IsFragment(0x81) && !IsFragment(0x82) && !IsFragment(0x88) && !IsFragment(0x89)
    ensures forall flags: byte :: IsFirstFragment(flags) ==> IsFragment(flags)
  {
  }
}
