/** Base64 as in section 4 of RFC 4648: mongoose's one-shot encoder, its streaming encoder, and
    its decoder. */
module Base64 {

  import opened Bytes

  const PAD: byte := 61   // '='

  // The alphabet.

  /** cs_base64_emit_code, and the table of the one-shot encoder. */
  function Code(v: int): byte
    requires 0 <= v < 64
  {
    if v < 26 then v + 65
    else if v < 52 then v - 26 + 97
    else if v < 62 then v - 52 + 48
    else if v == 62 then 43
    else 47
  }

  /** from_b64: the inverse table, which looks at seven bits only; 200 stands for '=' and 255
      for everything else. */
  function FromB64(ch: byte): (v: int)
    ensures 0 <= v < 64 || v == 200 || v == 255
  {
    var c := ch % 128;
    if c == 43 then 62
    else if c == 47 then 63
    else if 48 <= c <= 57 then c - 48 + 52
    else if c == 61 then 200
    else if 65 <= c <= 90 then c - 65
    else if 97 <= c <= 122 then c - 97 + 26
    else 255
  }

  lemma CodeRoundTrip(v: int)
    requires 0 <= v < 64
    ensures FromB64(Code(v)) == v
  {
  }

  lemma PadIsPad()
    ensures FromB64(PAD) == 200
  {
  }

  // The encoding.

  /** The text of n bytes, the missing ones of which are zero. */
  function Chunk(a: byte, b: byte, c: byte, n: nat): Bytes
    requires 1 <= n <= 3
  {
    [Code(a / 4), Code(a % 4 * 16 + b / 16)]
    + (if n > 1 then [Code(b % 16 * 4 + c / 64)] else [])
    + (if n > 2 then [Code(c % 64)] else [])
  }

  /** The size of the text of n bytes without and with its padding. */
  function TextSize(n: nat): nat { n + (n + 2) / 3 }

  function EncodedSize(n: nat): nat { (n + 2) / 3 * 4 }

  lemma SizesAgree(n: nat)
    ensures TextSize(n) + (3 - n % 3) % 3 == EncodedSize(n)
  {
    var q, r := n / 3, n % 3;
    assert n == 3 * q + r;
    if r == 0 {
      assert (n + 2) / 3 == q;
    } else {
      assert (n + 2) / 3 == q + 1;
    }
  }

  lemma TextSizeMonotone(n: nat, k: nat)
    requires n <= k
    ensures TextSize(n) <= TextSize(k)
  {
  }

  /** The text without its padding. */
  function Text(src: Bytes): (r: Bytes)
    ensures |r| == TextSize(|src|)
  {
    if src == [] then []
    else if |src| == 1 then Chunk(src[0], 0, 0, 1)
    else if |src| == 2 then Chunk(src[0], src[1], 0, 2)
    else Chunk(src[0], src[1], src[2], 3) + Text(src[3..])
  }

  function Padding(n: nat): (r: Bytes)
    ensures |r| == (3 - n % 3) % 3
  {
    seq((3 - n % 3) % 3, _ => PAD)
  }

  function Encoded(src: Bytes): (r: Bytes)
    ensures |r| == EncodedSize(|src|)
  {
    SizesAgree(|src|);
    Text(src) + Padding(|src|)
  }

  /** Text of whole groups is followed by the text of the rest. */
  lemma {:induction false} TextAppend(m: Bytes, rest: Bytes)
    requires |m| % 3 == 0
    ensures Text(m + rest) == Text(m) + Text(rest)
  {
    hide Chunk;
    if m == [] {
      assert m + rest == rest;
    } else {
      assert (m + rest)[3..] == m[3..] + rest;
      TextAppend(m[3..], rest);
      Regroup(Chunk(m[0], m[1], m[2], 3), Text(m[3..]), Text(rest));
    }
  }

  /** Any one to three bytes behind whole groups add one chunk to the text. */
  lemma TextGroup(m: Bytes, group: Bytes)
    requires |m| % 3 == 0 && 1 <= |group| <= 3
    ensures Text(m + group) ==
            Text(m) + Chunk(group[0], if |group| > 1 then group[1] else 0, if |group| > 2 then group[2] else 0, |group|)
  {
    hide Chunk;
    TextAppend(m, group);
    if |group| == 3 {
      assert group[3..] == [];
      assert Text(group) == Chunk(group[0], group[1], group[2], 3) + [];
    }
  }

  lemma TextNothing()
    ensures Text([]) == [] && TextSize(0) == 0
  {
  }

  // Decoding.

  /** What cs_base64_decode writes, and how much of the text it consumes. */
  function Decoded(s: Bytes): (r: (Bytes, nat))
    ensures r.1 <= |s| && |r.0| <= |s| / 4 * 3
  {
    if |s| < 4 then ([], 0)
    else
      var a, b, c, d := FromB64(s[0]), FromB64(s[1]), FromB64(s[2]), FromB64(s[3]);
      if a == 255 || b == 255 || c == 255 || d == 255 then ([], 0)
      else if a == 200 || b == 200 then ([], 4)
      else if c == 200 then ([a * 4 + b / 16], 4)
      else if d == 200 then ([a * 4 + b / 16, b % 16 * 16 + c / 4], 4)
      else
        var rest := Decoded(s[4..]);
        ([a * 4 + b / 16, b % 16 * 16 + c / 4, c % 4 * 64 + d] + rest.0, 4 + rest.1)
  }

  lemma DecodedGroup(x: byte, y: byte, z: byte, w: byte, tail: Bytes)
    requires x < 64 && y < 64 && z < 64 && w < 64
    ensures Decoded([Code(x), Code(y), Code(z), Code(w)] + tail) ==
            ([x * 4 + y / 16, y % 16 * 16 + z / 4, z % 4 * 64 + w] + Decoded(tail).0, 4 + Decoded(tail).1)
  {
    hide Code, FromB64;
    var s := [Code(x), Code(y), Code(z), Code(w)] + tail;
    CodeRoundTrip(x);
    CodeRoundTrip(y);
    CodeRoundTrip(z);
    CodeRoundTrip(w);
    assert s[4..] == tail;
  }

  /** Four groups of six bits hold three bytes. */
  lemma SixBits(a: byte, b: byte, c: byte)
    ensures a / 4 * 4 + (a % 4 * 16 + b / 16) / 16 == a
    ensures (a % 4 * 16 + b / 16) % 16 * 16 + (b % 16 * 4 + c / 64) / 4 == b
    ensures (b % 16 * 4 + c / 64) % 4 * 64 + c % 64 == c
  {
  }

  lemma DecodedFull(a: byte, b: byte, c: byte, tail: Bytes)
    ensures Decoded(Chunk(a, b, c, 3) + tail) == ([a, b, c] + Decoded(tail).0, 4 + Decoded(tail).1)
  {
    hide Decoded, Code;
    DecodedGroup(a / 4, a % 4 * 16 + b / 16, b % 16 * 4 + c / 64, c % 64, tail);
    SixBits(a, b, c);
    assert Chunk(a, b, c, 3) == [Code(a / 4), Code(a % 4 * 16 + b / 16), Code(b % 16 * 4 + c / 64), Code(c % 64)];
  }

  lemma DecodedTwo(a: byte, b: byte, tail: Bytes)
    ensures Decoded(Chunk(a, b, 0, 2) + Padding(2) + tail) == ([a, b], 4)
  {
    hide Code, FromB64;
    PadIsPad();
    var s := Chunk(a, b, 0, 2) + Padding(2) + tail;
    CodeRoundTrip(a / 4);
    CodeRoundTrip(a % 4 * 16 + b / 16);
    CodeRoundTrip(b % 16 * 4);
    assert s[0] == Code(a / 4) && s[1] == Code(a % 4 * 16 + b / 16) && s[2] == Code(b % 16 * 4) && s[3] == PAD;
  }

  lemma DecodedOne(a: byte, tail: Bytes)
    ensures Decoded(Chunk(a, 0, 0, 1) + Padding(1) + tail) == ([a], 4)
  {
    hide Code, FromB64;
    PadIsPad();
    var s := Chunk(a, 0, 0, 1) + Padding(1) + tail;
    CodeRoundTrip(a / 4);
    CodeRoundTrip(a % 4 * 16);
    assert s[0] == Code(a / 4) && s[1] == Code(a % 4 * 16) && s[2] == PAD && s[3] == PAD;
  }

  /** Decoding an encoded message gives it back and consumes all of its text; padding, where
      there is some, also stops the decoder in front of whatever follows. */
  lemma {:induction false} RoundTrip(m: Bytes, tail: Bytes)
    ensures Decoded(Encoded(m)) == (m, |Encoded(m)|)
    ensures |m| % 3 != 0 ==> Decoded(Encoded(m) + tail) == (m, |Encoded(m)|)
  {
    hide Chunk, Decoded, Padding, Encoded, EncodedSize;
    if |m| < 3 {
      EncodedShort(m);
      assert Encoded(m) + [] == Encoded(m);
      if m == [] {
        DecodedNothing();
      } else if |m| == 1 {
        DecodedOne(m[0], []);
        DecodedOne(m[0], tail);
      } else {
        DecodedTwo(m[0], m[1], []);
        DecodedTwo(m[0], m[1], tail);
      }
    } else {
      RoundTrip(m[3..], tail);
      EncodedCons(m);
      DecodedFull(m[0], m[1], m[2], Encoded(m[3..]));
      DecodedFull(m[0], m[1], m[2], Encoded(m[3..]) + tail);
      Regroup(Chunk(m[0], m[1], m[2], 3), Encoded(m[3..]), tail);
      assert [m[0], m[1], m[2]] + m[3..] == m;
    }
  }

  lemma EncodedShort(m: Bytes)
    requires |m| < 3
    ensures |m| == 0 ==> Encoded(m) == []
    ensures |m| == 1 ==> Encoded(m) == Chunk(m[0], 0, 0, 1) + Padding(1) && m == [m[0]]
    ensures |m| == 2 ==> Encoded(m) == Chunk(m[0], m[1], 0, 2) + Padding(2) && m == [m[0], m[1]]
    ensures |m| > 0 ==> |Encoded(m)| == 4
  {
    hide Chunk, Padding, EncodedSize, TextSize;
    SizesShort(|m|);
    if |m| == 0 {
      assert Padding(0) == [];
    }
  }

  lemma SizesShort(n: nat)
    requires n < 3
    ensures n > 0 ==> EncodedSize(n) == 4
  {
  }

  lemma SizesStep(n: nat)
    requires n >= 3
    ensures EncodedSize(n) == 4 + EncodedSize(n - 3) && (n - 3) % 3 == n % 3
  {
  }

  lemma EncodedCons(m: Bytes)
    requires |m| >= 3
    ensures Encoded(m) == Chunk(m[0], m[1], m[2], 3) + Encoded(m[3..])
    ensures |Encoded(m)| == 4 + |Encoded(m[3..])| && |m| % 3 == |m[3..]| % 3
  {
    hide Chunk, TextSize, EncodedSize;
    SizesStep(|m|);
    assert Padding(|m|) == Padding(|m[3..]|);
    Regroup(Chunk(m[0], m[1], m[2], 3), Text(m[3..]), Padding(|m|));
  }

  lemma DecodedNothing()
    ensures Decoded([]) == ([], 0)
  {
  }

  // cs_base64_encode

  /** Groups, then padding, then the final zero. */
  method Encode(src: Bytes, dst: array<byte>) returns (j: nat)
    requires dst.Length > EncodedSize(|src|)
    modifies dst
    ensures j == |Encoded(src)| && dst[..][..j] == Encoded(src) && dst[j] == NUL
    ensures dst[..][j + 1..] == old(dst[..])[j + 1..]
  {
    hide Text, Padding, TextSize, EncodedSize;
    SizesAgree(|src|);
    j := PutGroups(src, dst);
    j := PutPadding(dst, j, |src|);
    ghost var was := dst[..];
    dst[j] := NUL;
    assert dst[..][..j] == was[..j] && dst[..][j + 1..] == was[j..][1..];
  }

  /** The loop over groups: the last one may be short. */
  method PutGroups(src: Bytes, dst: array<byte>) returns (j: nat)
    requires dst.Length > EncodedSize(|src|)
    modifies dst
    ensures j == TextSize(|src|) && dst[..][..j] == Text(src) && dst[..][j..] == old(dst[..])[j..]
  {
    hide Chunk, Text, TextSize, EncodedSize;
    var i := 0;
    j := 0;
    TextNothing();
    SizesAgree(|src|);
    TextSizeMonotone(0, |src|);
    ghost var done: Bytes := [];
    assert src[..0] == [];
    while i < |src|
      invariant i % 3 == 0 && done == src[..if i < |src| then i else |src|]
      invariant j == TextSize(|done|) && j <= TextSize(|src|)
      invariant dst[..][..j] == Text(done) && dst[..][j..] == old(dst[..])[j..]
    {
      var b := if i + 1 >= |src| then 0 else src[i + 1];
      var c := if i + 2 >= |src| then 0 else src[i + 2];
      var n := if i + 2 < |src| then 3 else |src| - i;
      NextGroup(src, i, b, c, n);
      TextSizeMonotone(i + n, |src|);
      SameTail(dst[..], old(dst[..]), j, j + 1 + n);
      PutChunk(dst, j, src[i], b, c, n);
      done := src[..i + n];
      i := i + 3;
      j := j + 1 + n;
    }
    assert done == src;
  }

  lemma SameTail(s: Bytes, t: Bytes, j: nat, k: nat)
    requires j <= k <= |s| == |t| && s[j..] == t[j..]
    ensures s[k..] == t[k..]
  {
    assert s[j..][k - j..] == s[k..] && t[j..][k - j..] == t[k..];
  }

  lemma NextGroup(src: Bytes, i: nat, b: byte, c: byte, n: nat)
    requires i % 3 == 0 && 1 <= n <= 3 && i + n <= |src|
    requires b == (if n > 1 then src[i + 1] else 0) && c == (if n > 2 then src[i + 2] else 0)
    ensures Text(src[..i + n]) == Text(src[..i]) + Chunk(src[i], b, c, n)
    ensures TextSize(i + n) == TextSize(i) + 1 + n
  {
    hide Text;
    TextGroup(src[..i], src[i..i + n]);
    assert src[..i] + src[i..i + n] == src[..i + n];
  }

  /** The loop that fills up the last group. */
  method PutPadding(dst: array<byte>, j0: nat, ghost n: nat) returns (j: nat)
    requires j0 == TextSize(n) && j0 + (3 - n % 3) % 3 <= dst.Length
    modifies dst
    ensures j == j0 + |Padding(n)| && dst[..][..j] == old(dst[..])[..j0] + Padding(n)
    ensures dst[..][j..] == old(dst[..])[j..]
  {
    j := j0;
    ghost var size := (3 - n % 3) % 3;
    SizesAgree(n);
    assert (j0 + size) % 4 == 0;
    while j % 4 != 0
      invariant j0 <= j <= j0 + size
      invariant dst[..][..j] == old(dst[..])[..j0] + seq(j - j0, _ => PAD) && dst[..][j..] == old(dst[..])[j..]
      decreases j0 + size - j
    {
      ghost var was := dst[..];
      dst[j] := PAD;
      assert dst[..][..j + 1] == was[..j] + [PAD];
      assert dst[..][j + 1..] == was[j + 1..];
      SameTail(was, old(dst[..]), j, j + 1);
      j := j + 1;
    }
  }

  /** The BASE64_OUT lines of one group. */
  method PutChunk(dst: array<byte>, j: nat, a: byte, b: byte, c: byte, n: nat)
    requires 1 <= n <= 3 && j + 1 + n <= dst.Length
    modifies dst
    ensures dst[..][..j + 1 + n] == old(dst[..])[..j] + Chunk(a, b, c, n)
    ensures dst[..][j + 1 + n..] == old(dst[..])[j + 1 + n..]
  {
    hide Code;
    dst[j] := Code(a / 4);
    dst[j + 1] := Code(a % 4 * 16 + b / 16);
    if n > 1 {
      dst[j + 2] := Code(b % 16 * 4 + c / 64);
    }
    if n > 2 {
      dst[j + 3] := Code(c % 64);
    }
  }

  // cs_base64_init, cs_base64_update and cs_base64_finish

  class Context {
    const chunk: array<byte>
    var chunkSize: nat
    var out: Bytes   // what b64_putc has been given

    ghost predicate Valid()
      reads this
    {
      chunk.Length == 3 && chunkSize < 3
    }

    /** Whole groups of m are out, and the rest waits in chunk. */
    ghost predicate Absorbed(m: Bytes)
      reads this, chunk
    {
      && Valid() && chunkSize == |m| % 3
      && out == Text(m[..|m| - chunkSize]) && chunk[..][..chunkSize] == m[|m| - chunkSize..]
    }

    constructor ()
      ensures Absorbed([]) && fresh(chunk)
    {
      chunk := new byte[3];
      chunkSize := 0;
      out := [];
    }

    method EmitChunk()
      requires chunk.Length == 3 && 1 <= chunkSize <= 3
      modifies this`out
      ensures out == old(out) + Chunk(chunk[0], chunk[1], chunk[2], chunkSize)
    {
      var a, b, c := chunk[0], chunk[1], chunk[2];
      out := out + [Code(a / 4)];
      out := out + [Code(a % 4 * 16 + b / 16)];
      if chunkSize > 1 {
        out := out + [Code(b % 16 * 4 + c / 64)];
      }
      if chunkSize > 2 {
        out := out + [Code(c % 64)];
      }
    }

    /** The body of the loop of cs_base64_update. */
    method TakeByte(b: byte, ghost m: Bytes)
      requires Absorbed(m)
      modifies this`chunkSize, this`out, chunk
      ensures Absorbed(m + [b])
    {
      hide Text, Chunk, TextSize;
      ghost var whole, held := m[..|m| - chunkSize], m[|m| - chunkSize..];
      OneMore(m, b);
      chunk[chunkSize] := b;
      chunkSize := chunkSize + 1;
      assert chunk[..][..chunkSize] == held + [b];
      if chunkSize == 3 {
        EmitChunk();
        TextGroup(whole, held + [b]);
        chunkSize := 0;
      }
    }

    method Update(str: Bytes, ghost m: Bytes)
      requires Absorbed(m)
      modifies this`chunkSize, this`out, chunk
      ensures Absorbed(m + str)
    {
      hide Absorbed;
      assert m + str[..0] == m;
      for i := 0 to |str|
        invariant Absorbed(m + str[..i])
      {
        TakeByte(str[i], m + str[..i]);
        assert m + str[..i] + [str[i]] == m + str[..i + 1];
      }
      assert str[..|str|] == str;
    }

    /** The streamed text is the text of the one-shot encoder. */
    method Finish(ghost m: Bytes)
      requires Absorbed(m)
      modifies this`out, chunk
      ensures out == Encoded(m)
    {
      hide Text, Chunk, TextSize, EncodedSize;
      ghost var whole, held := m[..|m| - chunkSize], m[|m| - chunkSize..];
      assert m == whole + held;
      if chunkSize > 0 {
        TextGroup(whole, held);
        MemSet(chunk, chunkSize, 0, 3 - chunkSize);
        assert chunk[..][..chunkSize] == held;
        EmitChunk();
        ghost var text := out;
        for i := 0 to 3 - chunkSize
          invariant out == text + seq(i, _ => PAD)
        {
          out := out + [PAD];
        }
        assert seq(3 - chunkSize, _ => PAD) == Padding(|m|);
      } else {
        assert held == [] && whole == m;
        assert out + Padding(|m|) == out;
      }
    }
  }

  /** One more byte either waits with the others or completes their group. */
  lemma OneMore(m: Bytes, b: byte)
    ensures var k, n := |m| % 3, |m| + 1;
            var whole, held := m[..|m| - k], m[|m| - k..];
            && |whole| % 3 == 0 && |held| == k
            && (k < 2 ==> n % 3 == k + 1 && (m + [b])[..n - (k + 1)] == whole && (m + [b])[n - (k + 1)..] == held + [b])
            && (k == 2 ==> n % 3 == 0 && (m + [b])[..n - 0] == whole + (held + [b]) && (m + [b])[n - 0..] == [])
  {
  }

  /** Any split of a message into updates emits its text. */
  method EncodePieces(pieces: seq<Bytes>) returns (text: Bytes)
    ensures text == Encoded(Flatten(pieces))
  {
    hide Encoded, Context.Absorbed, EncodedSize, Flatten;
    var ctx := new Context();
    FlattenCons<byte>([]);
    assert pieces[..0] == [];
    for i := 0 to |pieces|
      invariant ctx.Absorbed(Flatten(pieces[..i])) && fresh(ctx) && fresh(ctx.chunk)
    {
      ctx.Update(pieces[i], Flatten(pieces[..i]));
      FlattenSnoc(pieces[..i], pieces[i]);
      assert pieces[..i] + [pieces[i]] == pieces[..i + 1];
    }
    assert pieces[..|pieces|] == pieces;
    ctx.Finish(Flatten(pieces));
    text := ctx.out;
  }

  // cs_base64_decode

  method Decode(s: Bytes, dst: array<byte>) returns (used: nat, decLen: nat)
    requires dst.Length > |s| / 4 * 3
    modifies dst
    ensures used == Decoded(s).1 && decLen == |Decoded(s).0|
    ensures dst[..][..decLen] == Decoded(s).0 && dst[decLen] == NUL
  {
    hide Decoded, FromB64, Group;
    used, decLen := 0, 0;
    ghost var groups: nat := 0;
    var more := true;
    ghost var done: Bytes := [];
    assert s[0..] == s && [] + Decoded(s).0 == Decoded(s).0;
    while more
      invariant used == 4 * groups <= |s| && decLen <= 3 * groups && done == dst[..][..decLen]
      invariant more ==> Decoded(s) == (done + Decoded(s[used..]).0, used + Decoded(s[used..]).1)
      invariant !more ==> Decoded(s) == (done, used)
      decreases if more then |s| - used + 1 else 0
    {
      more := false;
      assert done + [] == done;
      DecodedStep(s, used);
      if |s| - used >= 4 {
        var a, b, c, d := FromB64(s[used]), FromB64(s[used + 1]), FromB64(s[used + 2]), FromB64(s[used + 3]);
        if a != 255 && b != 255 && c != 255 && d != 255 {
          used := used + 4;
          groups := groups + 1;
          if a != 200 && b != 200 {
            ghost var group := Group(a, b, c, d);
            Regroup(done, group, Decoded(s[used..]).0);
            decLen, more := PutGroup(dst, decLen, a, b, c, d);
            done := done + group;
          }
        }
      }
    }
    dst[decLen] := NUL;
  }

  /** The bytes of a group, of which the last two may be padding. */
  function Group(a: byte, b: byte, c: byte, d: byte): (r: Bytes)
    requires a < 64 && b < 64 && (c < 64 || c == 200) && (d < 64 || d == 200)
    ensures 1 <= |r| <= 3
  {
    if c == 200 then [a * 4 + b / 16]
    else if d == 200 then [a * 4 + b / 16, b % 16 * 16 + c / 4]
    else [a * 4 + b / 16, b % 16 * 16 + c / 4, c % 4 * 64 + d]
  }

  /** The assignments of one group, until padding ends it. */
  method PutGroup(dst: array<byte>, at: nat, a: byte, b: byte, c: byte, d: byte) returns (next: nat, more: bool)
    requires at + 3 <= dst.Length && a < 64 && b < 64 && (c < 64 || c == 200) && (d < 64 || d == 200)
    modifies dst
    ensures next == at + |Group(a, b, c, d)| && dst[..][..next] == old(dst[..])[..at] + Group(a, b, c, d)
    ensures more <==> c != 200 && d != 200
  {
    ghost var was := dst[..];
    dst[at] := a * 4 + b / 16;
    next := at + 1;
    if c == 200 {
      return next, false;
    }
    dst[next] := b % 16 * 16 + c / 4;
    next := next + 1;
    if d == 200 {
      return next, false;
    }
    dst[next] := c % 4 * 64 + d;
    next := next + 1;
    more := true;
  }

  /** One iteration of the decoder. */
  lemma DecodedStep(s: Bytes, used: nat)
    requires used <= |s|
    ensures |s| - used < 4 ==> Decoded(s[used..]) == ([], 0)
    ensures |s| - used >= 4 ==>
              var a, b, c, d := FromB64(s[used]), FromB64(s[used + 1]), FromB64(s[used + 2]), FromB64(s[used + 3]);
              if a == 255 || b == 255 || c == 255 || d == 255 then Decoded(s[used..]) == ([], 0)
              else if a == 200 || b == 200 then Decoded(s[used..]) == ([], 4)
              else if c == 200 || d == 200 then Decoded(s[used..]) == (Group(a, b, c, d), 4)
              else Decoded(s[used..]) == (Group(a, b, c, d) + Decoded(s[used + 4..]).0, 4 + Decoded(s[used + 4..]).1)
  {
    hide FromB64;
    if |s| - used >= 4 {
      assert s[used..][4..] == s[used + 4..];
    }
  }

  // The published tables.

  /** Table 1 of RFC 4648. */
  lemma Alphabet(i: nat)
    ensures i < 26 ==> Code(i) == Ascii("ABCDEFGHIJKLMNOPQRSTUVWXYZ")[i]
    ensures i < 26 ==> Code(26 + i) == Ascii("abcdefghijklmnopqrstuvwxyz")[i]
    ensures i < 10 ==> Code(52 + i) == Ascii("0123456789")[i]
    ensures Code(62) == Ascii("+")[0] && Code(63) == Ascii("/")[0] && PAD == Ascii("=")[0]
  {
    LettersInOrder();
  }

  /** Test vectors of section 10 of RFC 4648. */
  lemma TestVectors()
    ensures Encoded(Ascii("f")) == Ascii("Zg==") && Encoded(Ascii("fo")) == Ascii("Zm8=")
    ensures Encoded(Ascii("foo")) == Ascii("Zm9v") && Encoded(Ascii("bar")) == Ascii("YmFy")
    ensures Encoded(Ascii("foobar")) == Ascii("Zm9vYmFy")
  {
    hide Code, Chunk, Encoded;
    Chunks();
    OneGroup(Ascii("foo"));
    OneGroup(Ascii("bar"));
    ShortGroups(102, 111);
    var foobar := Ascii("foobar");
    assert Ascii("f") == [102] && Ascii("fo") == [102, 111];
    assert foobar[..3] == Ascii("foo") && foobar[3..] == Ascii("bar");
    EncodedCons(foobar);
    assert Ascii("Zm9v") + Ascii("YmFy") == Ascii("Zm9vYmFy");
  }

  lemma Chunks()
    ensures Chunk(102, 0, 0, 1) == Ascii("Zg") && Chunk(102, 111, 0, 2) == Ascii("Zm8")
    ensures Chunk(102, 111, 111, 3) == Ascii("Zm9v") && Chunk(98, 97, 114, 3) == Ascii("YmFy")
  {
  }

  lemma OneGroup(m: Bytes)
    requires |m| == 3
    ensures Encoded(m) == Chunk(m[0], m[1], m[2], 3)
  {
    hide Chunk;
    assert m[3..] == [];
    assert Text(m) == Chunk(m[0], m[1], m[2], 3) + [];
  }

  lemma ShortGroups(a: byte, b: byte)
    ensures Encoded([a]) == Chunk(a, 0, 0, 1) + [PAD, PAD] && Encoded([a, b]) == Chunk(a, b, 0, 2) + [PAD]
  {
    hide Chunk;
  }
}
