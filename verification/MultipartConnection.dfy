/** The connection that runs the multipart machine on its receive buffer. */
module MultipartConnection {
  import opened Bytes
  import opened MbufModule
  import opened Multipart
  import opened MultipartStream

  /** c_strnstr over the whole buffer. */
  method StrnStr(io: Mbuf, find: Bytes) returns (r: Option<nat>)
    requires io.Valid()
    ensures r == Find(io.Contents, find)
  {
    hide Mbuf.Valid;
    var i := 0;
    while i < io.len
      invariant i <= io.len
      invariant Find(io.Contents, find) == FindFrom(io.Contents, find, i)
    {
      if i + |find| > io.len {
        return None;
      }
      if io.Slice(i, i + |find|) == find {
        return Some(i);
      }
      i := i + 1;
    }
    return None;
  }

  /** mg_get_line_len on the buffered bytes from at on. */
  method GetLineLen(io: Mbuf, at: nat) returns (len: nat)
    requires io.Valid() && at <= io.len
    ensures len == LineLen(io.Contents[at..])
  {
    hide Mbuf.Valid;
    ghost var s := io.Contents[at..];
    len := 0;
    assert s[0..] == s;
    while at + len < io.len && io.At(at + len) != LF
      invariant at + len <= io.len
      invariant LineLen(s) == if LineLen(s[len..]) == 0 then 0 else len + LineLen(s[len..])
      decreases io.len - len
    {
      assert s[len..][1..] == s[len + 1..];
      len := len + 1;
    }
    len := if at + len == io.len then 0 else len + 1;
  }

  lemma UsedNothing(r: Headers)
    ensures Used(0, r) == r
  {
  }

  lemma ScanUnfold(s: Bytes, extra: nat, header: Option<Bytes>, before: nat)
    ensures var n := LineLen(s);
            Used(before, ScanHeaders(s, extra, header)) ==
              if n == 0 then if extra > 0 then Overread else NeedMore
              else if IsDisposition(s[..n]) then
                Used(before + n, ScanHeaders(s[n..], extra, Some(DispositionValue(s[..n]))))
              else if s[..n] == CRLF then HeadersEnd(before + n, header)
              else Used(before + n, ScanHeaders(s[n..], extra + n, header))
  {
    hide IsDisposition, LineLen;
  }

  class MultipartConnection {
    const recv: Mbuf
    const boundary: Bytes
    var state: State
    var prevIoLen: nat
    var processingPart: nat
    var overread: bool            // the header scan has read behind the buffer
    const quiet: bool             // no line feed stands there
    var events: seq<Event>        // the calls of the handler

    ghost function Abs(): Stream
      reads this, recv
    {
      Stream(state, recv.Contents, prevIoLen, processingPart, overread, events, quiet)
    }

    /** mg_http_multipart_begin, with the request headers already removed from the buffer. */
    constructor (boundary: Bytes, quiet: bool)
      requires boundary != []
      ensures recv.Valid() && fresh(recv) && fresh(recv.buf) && this.boundary == boundary && Abs() == Start(quiet)
    {
      recv := new Mbuf(0);
      this.boundary, this.quiet := boundary, quiet;
      state, prevIoLen, processingPart, overread, events := Begin, 0, 0, false, [];
    }

    /** mg_http_multipart_wait_for_boundary */
    method WaitForBoundary() returns (more: bool)
      requires recv.Valid() && Multipart.Valid(Abs(), boundary) && state == WaitingForBoundary
      modifies this, recv`len, recv`Contents, recv.buf
      ensures recv.Valid() && Turn(Abs(), more) == Multipart.WaitForBoundary(old(Abs()), boundary)
    {
      hide Mbuf.Valid, Find;
      if recv.len < |boundary| + 2 {
        return false;
      }
      var found := StrnStr(recv, boundary);
      if found == None {
        return false;
      }
      var end := found.value + |boundary|;
      if recv.len - end < 4 {
        return false;
      }
      if recv.Slice(end, end + 4) == DASHES + CRLF {
        state := Finalize;
        recv.Remove(end + 4);
      } else {
        state := GotBoundary;
      }
      return true;
    }

    /** The header loop of mg_http_multipart_process_boundary, from the byte at start on. */
    method ScanHeaderLines(start: nat) returns (result: Headers)
      requires recv.Valid() && start <= recv.len
      ensures result == ScanHeaders(recv.Contents[start..], 0, None)
    {
      hide Mbuf.Valid, IsDisposition, ScanHeaders, Used, LineLen;
      var begin, extra: nat, header := start, 0, None;
      ghost var s := recv.Contents[start..];
      UsedNothing(ScanHeaders(s, 0, None));
      while true
        invariant start <= begin <= recv.len
        invariant ScanHeaders(s, 0, None) == Used(begin - start, ScanHeaders(recv.Contents[begin..], extra, header))
        decreases recv.len - begin
      {
        var lineLen := GetLineLen(recv, begin);
        ghost var t := recv.Contents[begin..];
        ScanUnfold(t, extra, header, begin - start);
        if lineLen == 0 {
          return if extra > 0 then Overread else NeedMore;
        }
        var line := recv.Slice(begin, begin + lineLen);
        assert line == t[..lineLen] && t[lineLen..] == recv.Contents[begin + lineLen..];
        if IsDisposition(line) {
          header := Some(DispositionValue(line));
        } else if line == CRLF {
          return HeadersEnd(begin - start + lineLen, header);
        } else {
          extra := extra + lineLen;
        }
        begin := begin + lineLen;
      }
    }

    /** mg_http_multipart_process_boundary */
    method ProcessBoundary() returns (more: bool)
      requires recv.Valid() && Multipart.Valid(Abs(), boundary) && state == GotBoundary
      modifies this, recv`len, recv`Contents, recv.buf
      ensures recv.Valid() && Turn(Abs(), more) == Multipart.ProcessBoundary(old(Abs()), boundary)
    {
      hide Mbuf.Valid, Find, ScanHeaders;
      var found := StrnStr(recv, boundary);
      var begin := found.value + |boundary| + 2;
      var headers := ScanHeaderLines(begin);
      match headers {
        case NeedMore =>
          state := WaitingForBoundary;
          return false;
        case Overread =>
          overread := true;
          if quiet {
            state := WaitingForBoundary;
          }
          return false;
        case HeadersEnd(used, header) =>
          assert recv.Contents[begin..][used..] == recv.Contents[begin + used..];
          recv.Remove(begin + used);
          if processingPart != 0 {
            events := events + [PartEnd];
          }
          events := events + [PartBegin(header)];
          state := WaitingForChunk;
          processingPart := processingPart + 1;
          return true;
      }
    }

    /** mg_http_multipart_continue_wait_for_chunk */
    method ContinueWaitForChunk() returns (more: bool)
      requires recv.Valid() && Multipart.Valid(Abs(), boundary) && state == WaitingForChunk
      modifies this, recv`len, recv`Contents, recv.buf
      ensures recv.Valid() && Turn(Abs(), more) == Multipart.ContinueWaitForChunk(old(Abs()), boundary)
    {
      hide Mbuf.Valid, Find;
      if recv.len < |boundary| + 6 {
        return false;
      }
      var found := StrnStr(recv, boundary);
      if found == None {
        if prevIoLen == 0 {
          prevIoLen := recv.len;
          return false;
        }
        if recv.len > prevIoLen + |boundary| + 4 {
          state := GotChunk;
          return true;
        }
        return false;
      }
      var dataSize := found.value - 4;
      if dataSize < 0 {
        events := events + [BadData(dataSize)];
      } else {
        var data := recv.Slice(0, dataSize);
        assert data == recv.Contents[..dataSize];
        events := events + [PartData(data)];
      }
      recv.Remove(found.value);
      prevIoLen := 0;
      state := WaitingForBoundary;
      return true;
    }

    /** mg_http_multipart_got_chunk */
    method TakeChunk() returns (more: bool)
      requires recv.Valid() && Multipart.Valid(Abs(), boundary) && state == GotChunk
      modifies this, recv`len, recv`Contents, recv.buf
      ensures recv.Valid() && Turn(Abs(), more) == Multipart.TakeChunk(old(Abs()), boundary)
    {
      hide Mbuf.Valid, Find;
      var data := recv.Slice(0, prevIoLen);
      assert data == recv.Contents[..prevIoLen];
      events := events + [PartData(data)];
      recv.Remove(prevIoLen);
      prevIoLen := 0;
      state := WaitingForChunk;
      return false;
    }

    /** mg_http_multipart_continue */
    method Continue()
      requires recv.Valid() && Multipart.Valid(Abs(), boundary)
      modifies this, recv`len, recv`Contents, recv.buf
      ensures recv.Valid() && Abs() == Multipart.Continue(old(Abs()), boundary)
    {
      hide Mbuf.Valid, Find, Multipart.Continue;
      while true
        invariant recv.Valid() && Multipart.Valid(Abs(), boundary)
        invariant Multipart.Continue(Abs(), boundary) == Multipart.Continue(old(Abs()), boundary)
        decreases recv.len, Rank(state)
      {
        ContinueUnfold(Abs(), boundary);
        ghost var before := Abs();
        var more := TakeTurn();
        if !more {
          return;
        }
      }
    }

    /** The switch. */
    method TakeTurn() returns (more: bool)
      requires recv.Valid() && Multipart.Valid(Abs(), boundary)
      modifies this, recv`len, recv`Contents, recv.buf
      ensures recv.Valid() && Multipart.Turn(Abs(), more) == Step(old(Abs()), boundary)
    {
      hide Mbuf.Valid, Find;
      match state {
        case Begin =>
          state := WaitingForBoundary;
          more := true;
        case WaitingForBoundary => more := WaitForBoundary();
        case GotBoundary => more := ProcessBoundary();
        case WaitingForChunk => more := ContinueWaitForChunk();
        case GotChunk => more := TakeChunk();
        case Finalize =>
          events := events + [PartEnd];
          events := events + [RequestEnd];
          assert events == old(events) + [PartEnd, RequestEnd];
          state := Finished;
          more := true;
        case Finished =>
          recv.Remove(recv.len);
          more := false;
      }
    }

    /** The arrivals of a whole body, each followed by a run of the machine. */
    method ReceiveAll(arrivals: seq<Bytes>)
      requires recv.Valid() && Abs() == Start(quiet) && boundary != []
      modifies this, recv, recv.buf
      ensures recv.Valid() && Abs() == ArriveAll(Start(quiet), boundary, arrivals)
    {
      hide Mbuf.Valid, Find, Multipart.Continue, ArriveAll;
      var k := 0;
      assert arrivals[0..] == arrivals;
      while k < |arrivals|
        invariant k <= |arrivals| && recv.Valid() && (recv.buf == old(recv.buf) || fresh(recv.buf))
        invariant Multipart.Valid(Abs(), boundary) && Resting(Abs())
        invariant ArriveAll(Abs(), boundary, arrivals[k..]) == ArriveAll(Start(quiet), boundary, arrivals)
      {
        ArriveAllUnfold(Abs(), boundary, arrivals[k..]);
        assert arrivals[k..][1..] == arrivals[k + 1..];
        if state != Finished && (!overread || quiet) {
          recv.Append(arrivals[k]);
          ContinueRests(Abs(), boundary);
          Continue();
        }
        k := k + 1;
      }
      assert arrivals[k..] == [];
      ArriveAllUnfold(Abs(), boundary, []);
    }

    /**
     Every well-formed body is delivered whole, unless an arrival ends among the header lines of a
     part behind one that is not a Content-Disposition line, and a line is found behind the buffer.
     */
    method ReceiveBody(arrivals: seq<Bytes>, ghost intro: Bytes, ghost ps: seq<Part>)
      requires recv.Valid() && Abs() == Start(quiet)
      requires ValidBody(boundary, intro, ps) && Flatten(arrivals) == WireOf(boundary, intro, ps)
      modifies this, recv, recv.buf
      ensures recv.Valid() && (overread <==> CutsSomeHeader(boundary, intro, ps, arrivals))
      ensures quiet || !overread ==>
                && state == Finished && recv.Contents == []
                && See(NOTHING, events) == Seen(Expected(ps), None, true, true)
    {
      hide Mbuf.Valid, ArriveAll, See, Flatten, WireOf, ValidBody, CutsSomeHeader;
      StreamsWhole(boundary, intro, ps, arrivals, quiet);
      BodyHasBoundary(boundary, intro, ps);
      ReceiveAll(arrivals);
    }
  }

  lemma BodyHasBoundary(b: Bytes, intro: Bytes, ps: seq<Part>)
    requires ValidBody(b, intro, ps)
    ensures b != []
  {
  }
}
