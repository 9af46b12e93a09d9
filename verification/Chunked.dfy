/** Chunked transfer coding: in-place reassembly of a body that arrives in arbitrary pieces. */
module Chunked {
  import opened Bytes
  import opened MbufModule

  // ----- the wire format (section 4.1 of RFC 7230) -----

  predicate IsHexDigit(b: byte) {
    48 <= b <= 57 || 65 <= b <= 70 || 97 <= b <= 102
  }

  function HexDigit(b: byte): (v: nat)
  {
    if !IsHexDigit(b) then 0 else if b <= 57 then b - 48 else if b <= 70 then b - 55 else b - 87
  }

  predicate AllHex(s: Bytes) {
    forall i :: 0 <= i < |s| ==> IsHexDigit(s[i])
  }

  function HexValue(s: Bytes): nat
  {
    if s == [] then 0 else HexValue(s[..|s| - 1]) * 16 + HexDigit(s[|s| - 1])
  }

  /** One chunk as a sender may write it: any spelling of the size, then the data. */
  datatype Chunk = Chunk(digits: Bytes, data: Bytes) {
    predicate Valid() {
      digits != [] && AllHex(digits) && HexValue(digits) == |data|
    }

    function Wire(): Bytes {
      digits + CRLF + data + CRLF
    }
  }

  function WireOf(chunks: seq<Chunk>): Bytes {
    if chunks == [] then [] else chunks[0].Wire() + WireOf(chunks[1..])
  }

  function DataOf(chunks: seq<Chunk>): Bytes {
    if chunks == [] then [] else chunks[0].data + DataOf(chunks[1..])
  }

  // ----- what the decoder computes -----

  /** Where a fully buffered chunk keeps its data, and how many bytes it spans. */
  datatype Span = Span(dataAt: nat, dataLen: nat, size: nat)

  function HexRun(s: Bytes): (n: nat)
    ensures n <= |s|
  {
    if s != [] && IsHexDigit(s[0]) then 1 + HexRun(s[1..]) else 0
  }

  predicate CrlfAt(s: Bytes, i: nat) {
    i + 2 <= |s| && s[i] == CR && s[i + 1] == LF
  }

  function ParseChunk(s: Bytes): (r: Option<Span>)
    ensures r.Some? ==> r.value.dataAt + r.value.dataLen + 2 == r.value.size <= |s|
  {
    var i := HexRun(s);
    if i == 0 || !CrlfAt(s, i) then None
    else
      var n := HexValue(s[..i]);
      if !CrlfAt(s, i + 2 + n) then None else Some(Span(i + 2, n, i + 2 + n + 2))
  }

  /** Everything that can be decoded from the front of s. */
  datatype Collapsed = Collapsed(data: Bytes, used: nat, last: bool)

  function Collapse(s: Bytes): (r: Collapsed)
    ensures |r.data| <= r.used <= |s|
    ensures r.used == 0 || |r.data| < r.used
    ensures r.last ==> r.used > 0
    decreases |s|
  {
    match ParseChunk(s)
    case None => Collapsed([], 0, false)
    case Some(c) =>
      if c.dataLen == 0 then Collapsed([], c.size, true)
      else
        var r := Collapse(s[c.size..]);
        Collapsed(s[c.dataAt..c.dataAt + c.dataLen] + r.data, c.size + r.used, r.last)
  }

  // ----- lemmas about the decoder -----

  lemma {:induction false} HexRunExact(digits: Bytes, rest: Bytes)
    requires AllHex(digits)
    requires rest != [] ==> !IsHexDigit(rest[0])
    ensures HexRun(digits + rest) == |digits|
  {
    if digits == [] {
      assert digits + rest == rest;
    } else {
      assert (digits + rest)[1..] == digits[1..] + rest;
      HexRunExact(digits[1..], rest);
    }
  }

  lemma {:induction false} HexRunIsHex(s: Bytes)
    ensures AllHex(s[..HexRun(s)])
  {
    if s != [] && IsHexDigit(s[0]) {
      HexRunIsHex(s[1..]);
      assert s[..HexRun(s)] == [s[0]] + s[1..][..HexRun(s[1..])];
    }
  }

  /** A chunk at the front of the input is recognised exactly, whatever follows it. */
  lemma ParseWire(c: Chunk, rest: Bytes)
    requires c.Valid()
    ensures ParseChunk(c.Wire() + rest) == Some(Span(|c.digits| + 2, |c.data|, |c.Wire()|))
  {
    var s := c.Wire() + rest;
    var tail := CRLF + c.data + CRLF + rest;
    assert s == c.digits + tail;
    HexRunExact(c.digits, tail);
    assert s[..|c.digits|] == c.digits;
    var k := |c.digits| + 2 + |c.data|;
    assert s[k] == CR && s[k + 1] == LF;
  }

  /** Conversely, only a well-formed chunk is ever recognised. */
  lemma ParseIsWire(s: Bytes) returns (c: Chunk)
    requires ParseChunk(s).Some?
    ensures c.Valid()
    ensures c.Wire() == s[..ParseChunk(s).value.size]
    ensures c.data == s[ParseChunk(s).value.dataAt..ParseChunk(s).value.dataAt + ParseChunk(s).value.dataLen]
  {
    var p := ParseChunk(s).value;
    HexRunIsHex(s);
    c := Chunk(s[..HexRun(s)], s[p.dataAt..p.dataAt + p.dataLen]);
    assert s[..p.size] == s[..HexRun(s)] + CRLF + c.data + CRLF;
  }

  /** More input never changes a chunk that was already complete. */
  lemma ParseStable(s: Bytes, more: Bytes)
    requires ParseChunk(s).Some?
    ensures ParseChunk(s + more) == ParseChunk(s)
  {
    var c := ParseIsWire(s);
    var p := ParseChunk(s).value;
    assert s + more == c.Wire() + (s[p.size..] + more);
    ParseWire(c, s[p.size..] + more);
  }

  lemma CollapseCons(c: Chunk, rest: Bytes)
    requires c.Valid() && c.data != []
    ensures Collapse(c.Wire() + rest)
         == Collapsed(c.data + Collapse(rest).data, |c.Wire()| + Collapse(rest).used, Collapse(rest).last)
  {
    hide Collapse, ParseChunk;
    ParseWire(c, rest);
    CollapseUnfold(c.Wire() + rest);
    assert (c.Wire() + rest)[|c.Wire()|..] == rest;
    assert (c.Wire() + rest)[|c.digits| + 2..|c.digits| + 2 + |c.data|] == c.data;
  }

  lemma CollapseLast(c: Chunk, rest: Bytes)
    requires c.Valid() && c.data == []
    ensures Collapse(c.Wire() + rest) == Collapsed([], |c.Wire()|, true)
  {
    ParseWire(c, rest);
  }

  function Then(first: Collapsed, second: Collapsed): Collapsed {
    Collapsed(first.data + second.data, first.used + second.used, second.last)
  }

  lemma ResumeCons(c: Chunk, rest: Bytes, more: Bytes)
    requires c.Valid() && c.data != []
    requires Collapse(rest + more) == Then(Collapse(rest), Collapse(rest[Collapse(rest).used..] + more))
    ensures var s := c.Wire() + rest;
            Collapse(s + more) == Then(Collapse(s), Collapse(s[Collapse(s).used..] + more))
  {
    hide Collapse, ParseChunk;
    var s := c.Wire() + rest;
    CollapseCons(c, rest);
    CollapseCons(c, rest + more);
    assert s + more == c.Wire() + (rest + more);
    assert rest[Collapse(rest).used..] == s[Collapse(s).used..];
  }

  lemma CollapseUnfold(s: Bytes)
    requires ParseChunk(s).Some?
    ensures var p := ParseChunk(s).value;
            Collapse(s) == if p.dataLen == 0 then Collapsed([], p.size, true)
                           else Then(Collapsed(s[p.dataAt..p.dataAt + p.dataLen], p.size, false), Collapse(s[p.size..]))
  {
    hide ParseChunk;
  }

  lemma ThenAssociative(a: Collapsed, b: Collapsed, c: Collapsed)
    ensures Then(a, Then(b, c)) == Then(Then(a, b), c)
  {
  }

  lemma CollapseNone(s: Bytes)
    requires ParseChunk(s) == None
    ensures Collapse(s) == Collapsed([], 0, false)
  {
  }

  lemma ResumeNone(s: Bytes, more: Bytes)
    requires ParseChunk(s) == None
    ensures Collapse(s + more) == Then(Collapse(s), Collapse(s[Collapse(s).used..] + more))
  {
    hide Collapse, ParseChunk;
    CollapseNone(s);
    assert s[0..] == s;
    assert [] + Collapse(s + more).data == Collapse(s + more).data;
  }

  lemma CollapseFirst(s: Bytes) returns (c: Chunk)
    requires ParseChunk(s).Some? && !Collapse(s).last
    ensures c.Valid() && c.data != [] && c.Wire() <= s
    ensures !Collapse(s[|c.Wire()|..]).last
  {
    c := ParseIsWire(s);
  }

  /**
   Fragmentation independence of one step: decoding what arrived, keeping the undecoded
   suffix and decoding it again with more bytes behind it gives what decoding all of it at
   once gives.
   */
  lemma {:induction false} CollapseResumes(s: Bytes, more: Bytes)
    requires !Collapse(s).last
    ensures Collapse(s + more) == Then(Collapse(s), Collapse(s[Collapse(s).used..] + more))
    decreases |s|
  {
    hide Collapse, ParseChunk;
    if ParseChunk(s) == None {
      ResumeNone(s, more);
    } else {
      var c := CollapseFirst(s);
      var rest := s[|c.Wire()|..];
      assert s == c.Wire() + rest;
      CollapseResumes(rest, more);
      ResumeCons(c, rest, more);
    }
  }

  /** Once the zero chunk has been decoded, bytes behind it change nothing. */
  lemma {:induction false} CollapseFinal(s: Bytes, more: Bytes)
    requires Collapse(s).last
    ensures Collapse(s + more) == Collapse(s)
    decreases |s|
  {
    hide Collapse, ParseChunk;
    if ParseChunk(s) == None {
      CollapseNone(s);
    } else {
      var c := ParseIsWire(s);
      var rest := s[|c.Wire()|..];
      assert s == c.Wire() + rest;
      assert s + more == c.Wire() + (rest + more);
      if c.data == [] {
        CollapseLast(c, rest);
        CollapseLast(c, rest + more);
      } else {
        CollapseCons(c, rest);
        CollapseFinal(rest, more);
        CollapseCons(c, rest + more);
      }
    }
  }

  /** A whole well-formed message decodes to the concatenation of its chunks. */
  lemma {:induction false} CollapseWire(chunks: seq<Chunk>, last: Chunk)
    requires forall k :: 0 <= k < |chunks| ==> chunks[k].Valid() && chunks[k].data != []
    requires last.Valid() && last.data == []
    ensures Collapse(WireOf(chunks) + last.Wire())
         == Collapsed(DataOf(chunks), |WireOf(chunks) + last.Wire()|, true)
  {
    if chunks == [] {
      CollapseLast(last, []);
      assert WireOf(chunks) + last.Wire() == last.Wire() + [];
    } else {
      var c := chunks[0];
      var rest := WireOf(chunks[1..]) + last.Wire();
      assert WireOf(chunks) + last.Wire() == c.Wire() + rest;
      CollapseWire(chunks[1..], last);
      CollapseCons(c, rest);
    }
  }

  const LOWER_DIGITS: Bytes := Ascii("0123456789abcdef")
  const UPPER_DIGITS: Bytes := Ascii("0123456789ABCDEF")

  /** What a digit is worth, in either case, and that there are no others. */
  lemma DigitValues(b: byte)
    ensures forall v :: 0 <= v < 16 ==>
              IsHexDigit(LOWER_DIGITS[v]) && HexDigit(LOWER_DIGITS[v]) == v
              && IsHexDigit(UPPER_DIGITS[v]) && HexDigit(UPPER_DIGITS[v]) == v
    ensures IsHexDigit(b) ==> b == LOWER_DIGITS[HexDigit(b)] || b == UPPER_DIGITS[HexDigit(b)]
  {
  }

  /** A number written in hexadecimal. */
  function HexText(n: nat, digits: Bytes): (s: Bytes)
    requires |digits| == 16
    ensures s != []
  {
    if n < 16 then [digits[n]] else HexText(n / 16, digits) + [digits[n % 16]]
  }

  /** A sender that writes the size so has written a valid chunk. */
  lemma {:induction false} HexTextValue(n: nat, digits: Bytes)
    requires digits == LOWER_DIGITS || digits == UPPER_DIGITS
    ensures AllHex(HexText(n, digits)) && HexValue(HexText(n, digits)) == n
  {
    hide HexDigit, IsHexDigit;
    DigitValues(0);
    var s := HexText(n, digits);
    if n < 16 {
      assert s[..0] == [];
    } else {
      HexTextValue(n / 16, digits);
      assert s[..|s| - 1] == HexText(n / 16, digits);
    }
  }

  lemma TenBytesWritten(c: Chunk, last: Chunk)
    requires c == Chunk(Ascii("a"), Ascii("0123456789")) && last == Chunk(Ascii("0"), [])
    ensures c.Wire() == Ascii("a\r\n0123456789\r\n") && last.Wire() == Ascii("0\r\n\r\n")
    ensures c.Valid() && last.Valid()
  {
    hide HexValue, HexDigit;
    assert c.digits == HexText(10, LOWER_DIGITS) && last.digits == HexText(0, LOWER_DIGITS);
    HexTextValue(10, LOWER_DIGITS);
    HexTextValue(0, LOWER_DIGITS);
  }

  /** An example: one chunk of ten bytes and the end. */
  lemma TenBytes()
    ensures Collapse(Ascii("a\r\n0123456789\r\n") + Ascii("0\r\n\r\n"))
         == Collapsed(Ascii("0123456789"), 20, true)
  {
    hide Collapse, Chunk.Wire, Chunk.Valid;
    var c, last := Chunk(Ascii("a"), Ascii("0123456789")), Chunk(Ascii("0"), []);
    TenBytesWritten(c, last);
    assert [c][1..] == [] && WireOf([c]) == c.Wire() + [] == c.Wire();
    assert DataOf([c]) == c.data + [] == c.data;
    CollapseWire([c], last);
  }

  // ----- the connection -----

  lemma HexRunStep(s: Bytes, i: nat)
    requires i <= |s|
    ensures HexRun(s[i..]) == if i < |s| && IsHexDigit(s[i]) then 1 + HexRun(s[i + 1..]) else 0
  {
    if i < |s| {
      assert s[i..][1..] == s[i + 1..];
    }
  }

  lemma HexValueStep(s: Bytes, i: nat)
    requires i < |s|
    ensures HexValue(s[..i + 1]) == HexValue(s[..i]) * 16 + HexDigit(s[i])
  {
    assert s[..i + 1][..i] == s[..i];
  }

  /** The digit loop of mg_http_parse_chunk, on the len bytes of the buffer from at on. */
  method ScanSize(io: Mbuf, at: nat, len: nat) returns (i: nat, n: nat)
    requires io.Valid() && at + len <= io.len
    ensures i == HexRun(io.Contents[at..at + len])
    ensures n == HexValue(io.Contents[at..at + len][..i])
  {
    hide HexRun, HexDigit, IsHexDigit, Mbuf.Valid;
    ghost var s := io.Contents[at..at + len];
    n, i := 0, 0;
    assert s[0..] == s && s[..0] == [];
    while i < len && IsHexDigit(io.At(at + i))
      invariant i <= len
      invariant n == HexValue(s[..i])
      invariant HexRun(s) == i + HexRun(s[i..])
    {
      HexRunStep(s, i);
      HexValueStep(s, i);
      n := n * 16 + HexDigit(io.At(at + i));
      i := i + 1;
    }
    HexRunStep(s, i);
  }

  /** mg_http_parse_chunk */
  method ParseChunkAt(io: Mbuf, at: nat, len: nat) returns (r: Option<Span>)
    requires io.Valid() && at + len <= io.len
    ensures r == ParseChunk(io.Contents[at..at + len])
  {
    ghost var s := io.Contents[at..at + len];
    var i, n := ScanSize(io, at, len);
    assert i + 2 <= len ==> s[i] == io.At(at + i) && s[i + 1] == io.At(at + i + 1);
    if i == 0 || i + 2 > len || io.At(at + i) != CR || io.At(at + i + 1) != LF {
      return None;
    }
    i := i + 2;
    var dataAt := i;
    i := i + n;
    if i + 2 > len || io.At(at + i) != CR || io.At(at + i + 1) != LF {
      return None;
    }
    return Some(Span(dataAt, n, i + 2));
  }

  lemma CollapseEmpty()
    ensures Collapse([]) == Collapsed([], 0, false)
  {
  }

  lemma CollapseStart(was: Bytes, base: nat)
    requires base <= |was|
    ensures var none := Collapsed([], 0, false);
            && was == Overwrite(was, base, none.data)
            && was[base..][0..] == was[base..] == was[base..|was|]
            && Collapse(was[base..]) == Then(none, Collapse(was[base..]))
  {
    hide Collapse;
    var c := Collapse(was[base..]);
    assert [] + c.data == c.data;
  }

  lemma CollapseEnd(s: Bytes, done: Collapsed)
    requires done.used <= |s| && ParseChunk(s[done.used..]) == None && !done.last
    ensures Then(done, Collapse(s[done.used..])) == done
  {
    hide Collapse, ParseChunk;
    CollapseNone(s[done.used..]);
    assert done.data + [] == done.data;
  }

  lemma CollapseAlgebra(s: Bytes, done: Collapsed) returns (next: Collapsed)
    requires done.used <= |s| && !done.last && ParseChunk(s[done.used..]).Some?
    requires Collapse(s) == Then(done, Collapse(s[done.used..]))
    ensures var p := ParseChunk(s[done.used..]).value;
            && next.used == done.used + p.size <= |s|
            && next.data == done.data + s[done.used + p.dataAt..done.used + p.dataAt + p.dataLen]
            && next.last == (p.dataLen == 0)
            && Collapse(s) == if next.last then next else Then(next, Collapse(s[next.used..]))
  {
    hide Collapse, ParseChunk;
    var rest := s[done.used..];
    var p := ParseChunk(rest).value;
    var data := rest[p.dataAt..p.dataAt + p.dataLen];
    next := Collapsed(done.data + data, done.used + p.size, p.dataLen == 0);
    CollapseUnfold(rest);
    assert rest[p.size..] == s[next.used..];
    if p.dataLen == 0 {
      assert done.data + data == done.data;
    } else {
      ThenAssociative(done, Collapsed(data, p.size, false), Collapse(rest[p.size..]));
    }
  }

  /**
   One turn of the loop, on the bytes alone: moving the next chunk's data behind what was
   already collapsed extends the collapsed part and touches nothing still to be read.
   */
  lemma CollapseMore(was: Bytes, base: nat, done: Collapsed) returns (next: Collapsed)
    requires base + done.used <= |was| && |done.data| <= done.used && !done.last
    requires var s := was[base..];
             ParseChunk(s[done.used..]).Some? && Collapse(s) == Then(done, Collapse(s[done.used..]))
    ensures var s, p := was[base..], ParseChunk(was[base..][done.used..]).value;
            var src, dst := base + done.used + p.dataAt, base + |done.data|;
            var cur := Overwrite(was, base, done.data);
            && next.used == done.used + p.size <= |s| && |next.data| == |done.data| + p.dataLen
            && Overwrite(cur, dst, cur[src..src + p.dataLen]) == Overwrite(was, base, next.data)
            && Overwrite(was, base, next.data)[base + next.used..] == s[next.used..]
            && next.last == (p.dataLen == 0)
            && Collapse(s) == if next.last then next else Then(next, Collapse(s[next.used..]))
  {
    hide Collapse, ParseChunk, Overwrite, Then;
    var s := was[base..];
    var p := ParseChunk(s[done.used..]).value;
    var src := base + done.used + p.dataAt;
    next := CollapseAlgebra(s, done);
    SliceOfSuffix(was, base, done.used + p.dataAt, p.dataLen);
    MoveChunk(was, base, done.data, src, p.dataLen, base + next.used);
    assert was[base + next.used..] == s[next.used..];
  }

  lemma MoveChunk(was: Bytes, base: nat, data: Bytes, src: nat, n: nat, next: nat)
    requires base + |data| <= src && src + n <= next <= |was|
    ensures var cur, more := Overwrite(was, base, data), data + was[src..src + n];
            && Overwrite(cur, base + |data|, cur[src..src + n]) == Overwrite(was, base, more)
            && Overwrite(was, base, more)[next..] == was[next..]
  {
    hide Overwrite;
    OverwriteAbove(was, base, data, src, src + n);
    OverwriteTwice(was, base, data, was[src..src + n]);
    OverwriteEnds(was, base, data + was[src..src + n], next);
  }

  lemma SliceOfSuffix(s: Bytes, base: nat, i: nat, n: nat)
    requires base + i + n <= |s|
    ensures s[base..][i..i + n] == s[base + i..base + i + n]
  {
  }

  method ParseRest(io: Mbuf, at: nat) returns (r: Option<Span>)
    requires io.Valid() && at <= io.len
    ensures r == ParseChunk(io.Contents[at..])
  {
    hide ParseChunk, Mbuf.Valid;
    r := ParseChunkAt(io, at, io.len - at);
    assert io.Contents[at..io.len] == io.Contents[at..];
  }

  /**
   The loop of mg_handle_chunked over the body, which starts at `at`: the data of every fully
   buffered chunk is moved down to the write cursor `size`, which the read cursor `i` always
   stays ahead of.
   */
  method CollapseInPlace(io: Mbuf, at: nat, bodyLen: nat)
    returns (i: nat, size: nat, zero: bool)
    requires io.Valid() && at + bodyLen <= io.len
    modifies io`Contents, io.buf
    ensures io.Valid()
    ensures var c := Collapse(old(io.Contents)[at + bodyLen..]);
            && i == bodyLen + c.used && size == bodyLen + |c.data| && zero == c.last
            && io.Contents == Overwrite(old(io.Contents), at + bodyLen, c.data)
  {
    hide Collapse, ParseChunk, Overwrite, Then, Mbuf.Valid;
    ghost var was := io.Contents;
    ghost var s := was[at + bodyLen..];
    ghost var done := Collapsed([], 0, false);
    i, size, zero := bodyLen, bodyLen, false;
    CollapseStart(was, at + bodyLen);
    var r := ParseRest(io, at + i);
    while r.Some?
      invariant io.Valid() && bodyLen <= size <= i <= io.len - at
      invariant i == bodyLen + done.used && size == bodyLen + |done.data| && !done.last
      invariant io.Contents == Overwrite(was, at + bodyLen, done.data)
      invariant r == ParseChunk(s[done.used..])
      invariant Collapse(s) == Then(done, Collapse(s[done.used..]))
      decreases io.len - i
    {
      var p := r.value;
      ghost var next := CollapseMore(was, at + bodyLen, done);
      io.Move(at + size, at + i + p.dataAt, p.dataLen);
      size := size + p.dataLen;
      i := i + p.size;
      if p.dataLen == 0 {
        zero := true;
        return;
      }
      done := next;
      r := ParseRest(io, at + i);
    }
    CollapseEnd(s, done);
  }

  /**
   The streaming invariant: what was deleted, what is still in place and what is undecoded
   are the decoded data and the undecoded suffix of everything received.
   */
  predicate Tracks(received: Bytes, deleted: Bytes, body: Bytes, pending: Bytes) {
    var c := Collapse(received);
    deleted + body == c.data && pending == received[c.used..]
  }

  lemma TracksNothing()
    ensures Tracks(Flatten([]), [], [], []) && !Collapse(Flatten([])).last
  {
    CollapseEmpty();
  }

  lemma TracksMore(received: Bytes, deleted: Bytes, body: Bytes, pending: Bytes, more: Bytes, delete: bool)
    requires Tracks(received, deleted, body, pending) && !Collapse(received).last
    ensures var c := Collapse(pending + more);
            var all := body + c.data;
            var gone := c.used > 0 && delete;
            && Tracks(received + more, if gone then deleted + all else deleted + [],
                      if gone then [] else all, (pending + more)[c.used..])
            && Collapse(received + more).last == c.last
  {
    hide Collapse;
    CollapseResumes(received, more);
    var front, c := Collapse(received), Collapse(pending + more);
    assert deleted + [] == deleted;
    Regroup(deleted, body, c.data);
    assert deleted + (body + c.data) + [] == deleted + (body + c.data);
    SuffixOfSuffix(received, front.used, more, c.used);
  }

  lemma SuffixOfSuffix(s: Bytes, i: nat, more: Bytes, j: nat)
    requires i <= |s| && i + j <= |s + more|
    ensures (s[i..] + more)[j..] == (s + more)[i + j..]
  {
    assert s[i..] + more == (s + more)[i..];
  }

  lemma TracksWhole(received: Bytes, missing: Bytes, deleted: Bytes, body: Bytes, pending: Bytes,
                    chunks: seq<Chunk>, last: Chunk)
    requires forall k :: 0 <= k < |chunks| ==> chunks[k].Valid() && chunks[k].data != []
    requires last.Valid() && last.data == []
    requires received + missing == WireOf(chunks) + last.Wire()
    requires Tracks(received, deleted, body, pending) && (missing == [] || Collapse(received).last)
    ensures deleted + body == DataOf(chunks) && pending == []
  {
    hide Collapse, WireOf, DataOf, Chunk.Wire, Chunk.Valid;
    CollapseWire(chunks, last);
    if missing == [] {
      assert received + missing == received;
    }
    if Collapse(received).last {
      CollapseFinal(received, missing);
    }
  }

  // ----- what the handler is shown -----

  /** Of the bodies shown, those that were taken away. */
  function TakenOf(events: seq<Bytes>, taken: seq<bool>): seq<Bytes>
    requires |events| == |taken|
  {
    if events == [] then []
    else
      var n := |events| - 1;
      TakenOf(events[..n], taken[..n]) + (if taken[n] then [events[n]] else [])
  }

  /**
   The events of a run, with the handler's decisions: what was deleted is what it was shown and
   took, what is in place is what it was shown last and left, and a body it left is the beginning
   of the next one.
   */
  predicate Shows(events: seq<Bytes>, taken: seq<bool>, deleted: Bytes, body: Bytes) {
    && |events| == |taken|
    && deleted == Flatten(TakenOf(events, taken))
    && body == (if events == [] || taken[|events| - 1] then [] else events[|events| - 1])
    && forall i :: 0 <= i < |events| - 1 && !taken[i] ==> events[i] <= events[i + 1]
  }

  lemma ShowsMore(events: seq<Bytes>, taken: seq<bool>, deleted: Bytes, body: Bytes, data: Bytes, take: bool)
    requires Shows(events, taken, deleted, body)
    ensures Shows(events + [body + data], taken + [take], if take then deleted + (body + data) else deleted + [],
                  if take then [] else body + data)
  {
    var now, flags, n := events + [body + data], taken + [take], |events|;
    assert now[..n] == events && flags[..n] == taken;
    FlattenSnoc(TakenOf(events, taken), body + data);
    assert TakenOf(events, taken) + [] == TakenOf(events, taken) && deleted + [] == deleted;
    forall i | 0 <= i < n && !flags[i]
      ensures now[i] <= now[i + 1]
    {
      assert now[i] == events[i];
      if i < n - 1 {
        assert now[i + 1] == events[i + 1];
      }
    }
  }

  lemma ShowsNothing()
    ensures Shows([], [], [], [])
  {
    assert Flatten<byte>([]) == [];
  }

  /** One call of mg_handle_chunked with the outcome c. */
  lemma ShowsCall(events: seq<Bytes>, taken: seq<bool>, deleted: Bytes, body: Bytes, c: Collapsed,
                  deletes: seq<bool>, k: nat) returns (next: seq<bool>)
    requires Shows(events, taken, deleted, body) && |c.data| <= c.used && k < |deletes|
    requires forall b <- taken :: b in deletes
    ensures var all, shown := body + c.data, c.used > 0;
            Shows(events + (if shown then [all] else []), next,
                  deleted + (if shown && deletes[k] then all else []), if shown && deletes[k] then [] else all)
    ensures forall b <- next :: b in deletes
  {
    hide Shows;
    next := taken;
    if c.used > 0 {
      ShowsMore(events, taken, deleted, body, c.data, deletes[k]);
      next := taken + [deletes[k]];
    } else {
      assert body + c.data == body && deleted + [] == deleted && events + [] == events;
    }
  }

  lemma {:induction false} TakenAll(events: seq<Bytes>, taken: seq<bool>, take: bool)
    requires |events| == |taken| && forall i :: 0 <= i < |taken| ==> taken[i] == take
    ensures TakenOf(events, taken) == if take then events else []
  {
    if events != [] {
      var n := |events| - 1;
      TakenAll(events[..n], taken[..n], take);
      assert events == events[..n] + [events[n]];
    }
  }

  /** A handler that always deletes is shown the data in pieces; one that never does, all so far. */
  lemma ShownData(events: seq<Bytes>, taken: seq<bool>, deleted: Bytes, body: Bytes, take: bool)
    requires Shows(events, taken, deleted, body) && forall i :: 0 <= i < |taken| ==> taken[i] == take
    ensures take ==> Flatten(events) == deleted + body
    ensures !take && events != [] ==> events[|events| - 1] == deleted + body
    ensures events == [] ==> deleted + body == []
  {
    TakenAll(events, taken, take);
    assert deleted + [] == deleted && [] + body == body;
  }

  lemma HandlerSees(events: seq<Bytes>, taken: seq<bool>, deleted: Bytes, body: Bytes, deletes: seq<bool>)
    requires Shows(events, taken, deleted, body) && forall b <- taken :: b in deletes
    ensures (forall d <- deletes :: d) ==> Flatten(events) == deleted + body
    ensures (forall d <- deletes :: !d) && events != [] ==> events[|events| - 1] == deleted + body
    ensures events == [] ==> deleted + body == []
  {
    assert forall i :: 0 <= i < |taken| ==> taken[i] in taken;
    if forall i :: 0 <= i < |taken| ==> taken[i] {
      ShownData(events, taken, deleted, body, true);
    }
    if forall i :: 0 <= i < |taken| ==> !taken[i] {
      ShownData(events, taken, deleted, body, false);
    }
  }

  /** What the loop leaves in a buffer of headers, body and pending bytes. */
  lemma Layout(headers: Bytes, body: Bytes, pending: Bytes, c: Collapsed)
    requires |c.data| <= c.used <= |pending|
    ensures var was, n := headers + body + pending, |headers| + |body|;
            var now := Overwrite(was, n, c.data);
            && was[n..] == pending
            && now[..n + |c.data|] == headers + (body + c.data)
            && now[n + c.used..] == pending[c.used..]
            && now[|headers|..n + |c.data|] == body + c.data
            && (c.used == 0 ==> now == headers + (body + c.data) + pending[c.used..])
  {
    OverwriteTail(headers + body, pending, c.data);
  }

  class ChunkedConnection {
    const io: Mbuf
    const headerLen: nat          // bytes of the request line and headers kept in front of the body
    var bodyLen: nat              // pd->chunk.body_len: reassembled bytes already in place
    var events: seq<Bytes>        // bodies shown by MG_EV_HTTP_CHUNK
    var deleted: Bytes            // bodies the handler took away with MG_F_DELETE_CHUNK

    ghost var Headers: Bytes
    ghost var Body: Bytes         // decoded data still in the buffer
    ghost var Pending: Bytes      // bytes received but not yet decoded

    /** The buffer is always: headers, decoded data, undecoded suffix. */
    ghost predicate Valid()
      reads this, io, io.buf
    {
      && io.Valid()
      && |Headers| == headerLen && |Body| == bodyLen
      && io.Contents == Headers + Body + Pending
    }

    constructor (headers: Bytes)
      ensures Valid() && fresh(io) && fresh(io.buf)
      ensures Headers == headers && Body == [] && Pending == []
      ensures events == [] && deleted == []
    {
      io := new Mbuf(0);
      headerLen := |headers|;
      bodyLen := 0;
      events, deleted := [], [];
      Headers, Body, Pending := headers, [], [];
      new;
      io.Append(headers);
    }

    /**
     "Shift unparsed content to the parsed body": size is the write cursor, and the gap up to
     the read cursor i holds bytes that are no longer needed.
     */
    method Compact(i: nat, size: nat, ghost body: Bytes, ghost rest: Bytes)
      requires io.Valid() && |Headers| == headerLen && headerLen + i <= io.len && |body| == size < i
      requires io.Contents[..headerLen + size] == Headers + body && io.Contents[headerLen + i..] == rest
      modifies this`bodyLen, this`Body, this`Pending, io`len, io`Contents, io.buf
      ensures Valid() && Body == body && Pending == rest
    {
      hide Mbuf.Valid;
      var n := io.len - headerLen - i;
      io.Move(headerLen + size, headerLen + i, n);
      io.Fill(headerLen + size + n, 0, i - size);
      io.Truncate(headerLen + size + n);
      bodyLen, Body, Pending := size, body, rest;
    }

    /** The MG_F_DELETE_CHUNK branch: the reassembled body leaves the buffer. */
    method DropBody()
      requires Valid()
      modifies this`bodyLen, this`Body, io`len, io`Contents, io.buf
      ensures Valid() && Body == []
    {
      hide Mbuf.Valid;
      var n := io.len - headerLen - bodyLen;
      io.Fill(headerLen, 0, bodyLen);
      assert io.Contents[headerLen + bodyLen..] == Pending && io.Contents[..headerLen] == Headers;
      io.Move(headerLen, headerLen + bodyLen, n);
      io.Truncate(headerLen + n);
      bodyLen, Body := 0, [];
    }

    /** Compaction, the MG_EV_HTTP_CHUNK event, and deletion if the handler asked for it. */
    method Deliver(i: nat, size: nat, deleteChunk: bool, ghost body: Bytes, ghost rest: Bytes)
      requires io.Valid() && |Headers| == headerLen && headerLen + i <= io.len && |body| == size < i
      requires io.Contents[..headerLen + size] == Headers + body && io.Contents[headerLen + i..] == rest
      modifies this`bodyLen, this`events, this`deleted, this`Body, this`Pending
      modifies io`len, io`Contents, io.buf
      ensures Valid() && Pending == rest
      ensures Body == (if deleteChunk then [] else body)
      ensures deleted == old(deleted) + (if deleteChunk then body else [])
      ensures events == old(events) + [body]
    {
      hide Mbuf.Valid;
      Compact(i, size, body, rest);
      var shown := io.Slice(headerLen, headerLen + size);
      assert shown == body;
      events := events + [shown];
      if deleteChunk {
        deleted := deleted + shown;
        DropBody();
      }
    }

    /** The loop of mg_handle_chunked, seen from the connection. */
    method CollapsePending(ghost c: Collapsed) returns (i: nat, size: nat, zero: bool)
      requires Valid() && c == Collapse(Pending)
      modifies io`Contents, io.buf
      ensures io.Valid() && io.len == |Headers + Body + Pending|
      ensures i == bodyLen + c.used && size == |Body + c.data| && zero == c.last && headerLen + i <= io.len
      ensures io.Contents[..headerLen + size] == Headers + (Body + c.data)
      ensures io.Contents[headerLen + i..] == Pending[c.used..]
      ensures i <= size ==> c.used == 0 && Valid()
    {
      hide Collapse, Overwrite, Mbuf.Valid;
      Layout(Headers, Body, Pending, c);
      i, size, zero := CollapseInPlace(io, headerLen, bodyLen);
    }

    /**
     mg_handle_chunked. The handler's wish to delete what it was shown is the parameter
     deleteChunk; the result is the reassembled size, and messageLen is hm->message.len
     once the zero chunk has been seen.
     */
    method HandleChunked(deleteChunk: bool) returns (size: nat, messageLen: Option<nat>)
      requires Valid()
      modifies this`bodyLen, this`events, this`deleted, this`Body, this`Pending
      modifies io`len, io`Contents, io.buf
      ensures Valid() && Pending == old(Pending)[Collapse(old(Pending)).used..]
      ensures var c := Collapse(old(Pending));
              var body := old(Body) + c.data;
              var shown := c.used > 0;
              && size == |body|
              && Body == (if shown && deleteChunk then [] else body)
              && deleted == old(deleted) + (if shown && deleteChunk then body else [])
              && events == old(events) + (if shown then [body] else [])
      ensures messageLen == if Collapse(old(Pending)).last then Some(io.len) else None
      // So hm->message.len is "len(body) + len(headers)", as the code's comment has it, only
      // when nothing has arrived behind the zero chunk.
      ensures messageLen.Some? ==> (messageLen.value == headerLen + bodyLen <==> Pending == [])
    {
      hide Collapse, Overwrite, Mbuf.Valid;
      ghost var c := Collapse(Pending);
      ghost var body, rest := Body + c.data, Pending[c.used..];
      var i, zero;
      i, size, zero := CollapsePending(c);
      messageLen := None;
      if i > size {
        Deliver(i, size, deleteChunk, body, rest);
        if zero {
          messageLen := Some(bodyLen + (io.len - headerLen - bodyLen) + headerLen);
        }
      }
    }

    /** New bytes are appended to the connection's buffer. */
    method Arrive(data: Bytes)
      requires Valid()
      modifies this`Pending, io, io.buf
      ensures Valid() && Pending == old(Pending) + data
      ensures io.buf == old(io.buf) || fresh(io.buf)
    {
      io.Append(data);
      Pending := Pending + data;
    }

    /** One arrival and the call it leads to, as part of a run that has received so much before. */
    method TakeArrival(data: Bytes, deletes: seq<bool>, k: nat, ghost received: Bytes, ghost taken: seq<bool>)
      returns (done: bool, ghost next: seq<bool>)
      requires Valid() && k < |deletes| && forall b <- taken :: b in deletes
      requires Tracks(received, deleted, Body, Pending) && !Collapse(received).last
      requires Shows(events, taken, deleted, Body)
      modifies this, io, io.buf
      ensures Valid() && Headers == old(Headers) && (io.buf == old(io.buf) || fresh(io.buf))
      ensures Tracks(received + data, deleted, Body, Pending) && done == Collapse(received + data).last
      ensures Shows(events, next, deleted, Body) && forall b <- next :: b in deletes
    {
      hide Collapse, Valid, Mbuf.Valid, Shows, Tracks;
      TracksMore(received, deleted, Body, Pending, data, deletes[k]);
      Arrive(data);
      next := ShowsCall(events, taken, deleted, Body, Collapse(Pending), deletes, k);
      var size, messageLen := HandleChunked(deletes[k]);
      done := messageLen.Some?;
    }

    /**
     The receive loop: pieces arrive one after the other, the handler deletes when it likes,
     and the connection stops listening for chunks once the zero chunk has been seen.
     */
    method ReceiveAll(arrivals: seq<Bytes>, deletes: seq<bool>) returns (k: nat, done: bool, ghost taken: seq<bool>)
      requires Valid() && Body == Pending == deleted == [] && events == [] && |deletes| == |arrivals|
      modifies this, io, io.buf
      ensures Valid() && Headers == old(Headers) && k <= |arrivals| && (k < |arrivals| ==> done)
      ensures var received := Flatten(arrivals[..k]);
              Tracks(received, deleted, Body, Pending) && done == Collapse(received).last
      ensures Shows(events, taken, deleted, Body) && forall b <- taken :: b in deletes
    {
      hide Collapse, Valid, Mbuf.Valid, Shows, Tracks, Flatten;
      k, done, taken := 0, false, [];
      ShowsNothing();
      TracksNothing();
      assert arrivals[..0] == [];
      while k < |arrivals| && !done
        invariant Valid() && Headers == old(Headers) && k <= |arrivals|
        invariant io.buf == old(io.buf) || fresh(io.buf)
        invariant Tracks(Flatten(arrivals[..k]), deleted, Body, Pending)
        invariant done == Collapse(Flatten(arrivals[..k])).last
        invariant Shows(events, taken, deleted, Body) && forall b <- taken :: b in deletes
        decreases |arrivals| - k
      {
        FlattenSnoc(arrivals[..k], arrivals[k]);
        assert arrivals[..k] + [arrivals[k]] == arrivals[..k + 1];
        done, taken := TakeArrival(arrivals[k], deletes, k, Flatten(arrivals[..k]), taken);
        k := k + 1;
      }
    }

    /**
     However a well-formed message is cut into pieces and whatever the handler deletes on the
     way, the bodies taken away followed by the body left over are the chunks' data. If it always
     deletes, that is what it was shown altogether; if it never does, what it was shown last.
     */
    method ReceiveMessage(arrivals: seq<Bytes>, deletes: seq<bool>, ghost chunks: seq<Chunk>, ghost last: Chunk)
      requires Valid() && Body == Pending == deleted == [] && events == [] && |deletes| == |arrivals|
      requires forall k :: 0 <= k < |chunks| ==> chunks[k].Valid() && chunks[k].data != []
      requires last.Valid() && last.data == []
      requires Flatten(arrivals) == WireOf(chunks) + last.Wire()
      modifies this, io, io.buf
      ensures Valid() && Headers == old(Headers)
      ensures deleted + Body == DataOf(chunks) && Pending == []
      ensures (forall d <- deletes :: d) ==> Flatten(events) == DataOf(chunks)
      ensures (forall d <- deletes :: !d) && events != [] ==> events[|events| - 1] == DataOf(chunks)
      ensures events == [] ==> DataOf(chunks) == []
      ensures exists taken: seq<bool> :: Shows(events, taken, deleted, Body) && forall b <- taken :: b in deletes
    {
      hide Collapse, Valid, Mbuf.Valid, Shows;
      var k, done, taken := ReceiveAll(arrivals, deletes);
      FlattenAppend(arrivals[..k], arrivals[k..]);
      assert arrivals[..k] + arrivals[k..] == arrivals;
      assert !done ==> arrivals[k..] == [];
      TracksWhole(Flatten(arrivals[..k]), Flatten(arrivals[k..]), deleted, Body, Pending, chunks, last);
      HandlerSees(events, taken, deleted, Body, deletes);
    }
  }
}
