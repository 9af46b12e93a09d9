/** The streaming multipart machine: states, transitions and the events it shows the handler. */
module Multipart {
  import opened Bytes

  const DASHES: Bytes := [DASH, DASH]

  /** "Content-Disposition: " in lower case. */
  const DISPOSITION: Bytes :=
    [99, 111, 110, 116, 101, 110, 116, 45, 100, 105, 115, 112, 111, 115, 105, 116, 105, 111, 110, 58, 32]

  datatype State =
    Begin | WaitingForBoundary | WaitingForChunk | GotChunk | GotBoundary | Finalize | Finished

  /** What the handler is called with. A part begins with its last Content-Disposition value. */
  datatype Event =
    | PartBegin(header: Option<Bytes>)
    | PartData(data: Bytes)
    | BadData(size: int)      // a negative length
    | PartEnd
    | RequestEnd

  /**
   mp_stream, with the receive buffer and the calls made so far. overread tells that the header scan
   has looked behind the buffer, and quiet whether the bytes it finds there hold no line feed.
   */
  datatype Stream = Stream(
    state: State, io: Bytes, prevIoLen: nat, processingPart: nat, overread: bool, events: seq<Event>, quiet: bool
  ) {
    /** What the code does with a line found behind its buffer is not part of this model. */
    predicate Stopped() {
      overread && !quiet
    }
  }

  // ----- searching -----

  predicate OccursAt(s: Bytes, b: Bytes, i: nat) {
    i + |b| <= |s| && s[i..i + |b|] == b
  }

  /** c_strnstr from index i on. */
  function FindFrom(s: Bytes, b: Bytes, i: nat): (r: Option<nat>)
    requires i <= |s|
    ensures r.Some? ==> i <= r.value && OccursAt(s, b, r.value)
    decreases |s| - i
  {
    if i == |s| || i + |b| > |s| then None
    else if OccursAt(s, b, i) then Some(i)
    else FindFrom(s, b, i + 1)
  }

  function Find(s: Bytes, b: Bytes): (r: Option<nat>)
    ensures r.Some? ==> OccursAt(s, b, r.value)
  {
    FindFrom(s, b, 0)
  }

  /** mg_get_line_len: the first line with its newline, or 0 if there is no newline. */
  function LineLen(s: Bytes): (n: nat)
    ensures n <= |s|
    ensures n > 0 ==> s[n - 1] == LF
  {
    if s == [] then 0 else if s[0] == LF then 1 else if LineLen(s[1..]) == 0 then 0 else 1 + LineLen(s[1..])
  }

  predicate IsDisposition(line: Bytes) {
    |line| > |DISPOSITION| + 1 && forall i :: 0 <= i < |DISPOSITION| ==> Lower(line[i]) == DISPOSITION[i]
  }

  /** The value of a disposition line, without the line end. */
  function DispositionValue(line: Bytes): Bytes
    requires IsDisposition(line)
  {
    line[|DISPOSITION|..|line| - 2]
  }

  // ----- transitions -----

  datatype Headers = HeadersEnd(used: nat, header: Option<Bytes>) | NeedMore | Overread

  /**
   The header loop of mg_http_multipart_process_boundary over the buffered bytes s. A line that
   is neither a disposition nor blank is skipped without lowering data_size, so afterwards the
   code reads up to `extra` bytes behind the buffer.
   */
  function ScanHeaders(s: Bytes, extra: nat, header: Option<Bytes>): (r: Headers)
    ensures r.HeadersEnd? ==> 0 < r.used <= |s|
    decreases |s|
  {
    var n := LineLen(s);
    if n == 0 then if extra > 0 then Overread else NeedMore
    else if IsDisposition(s[..n]) then
      Used(n, ScanHeaders(s[n..], extra, Some(DispositionValue(s[..n]))))
    else if s[..n] == CRLF then HeadersEnd(n, header)
    else Used(n, ScanHeaders(s[n..], extra + n, header))
  }

  /** The same loop over the memory from block_begin on, of which data_size bytes are looked at. */
  function ScanMemory(mem: Bytes, size: nat, header: Option<Bytes>): Headers
    decreases |mem|
  {
    if size > |mem| then Overread
    else
      var n := LineLen(mem[..size]);
      if n == 0 then NeedMore
      else if IsDisposition(mem[..n]) then
        Used(n, ScanMemory(mem[n..], size - n, Some(DispositionValue(mem[..n]))))
      else if mem[..n] == CRLF then HeadersEnd(n, header)
      else Used(n, ScanMemory(mem[n..], size, header))
  }

  function Used(n: nat, r: Headers): Headers {
    if r.HeadersEnd? then HeadersEnd(n + r.used, r.header) else r
  }

  /** The outcome of one case of the switch: the new stream, and whether the loop goes on. */
  datatype Turn = Turn(stream: Stream, more: bool)

  function Stop(st: Stream): Turn {
    Turn(st, false)
  }

  predicate Valid(st: Stream, b: Bytes) {
    && b != []
    && st.prevIoLen <= |st.io|
    && (st.state == GotBoundary ==> Find(st.io, b).Some? && Find(st.io, b).value + |b| + 4 <= |st.io|)
    && (st.state != WaitingForChunk && st.state != GotChunk ==> st.prevIoLen == 0)
  }

  function Rank(state: State): nat {
    match state
    case Begin => 4
    case WaitingForChunk => 3
    case WaitingForBoundary => 2
    case GotBoundary => 1
    case GotChunk => 1
    case Finalize => 1
    case Finished => 0
  }

  /** A turn keeps the machine's invariant, and one that goes on brings the loop closer to its end. */
  predicate Turns(st: Stream, b: Bytes, t: Turn) {
    && Valid(t.stream, b)
    && (t.more ==> |t.stream.io| < |st.io| || (|t.stream.io| == |st.io| && Rank(t.stream.state) < Rank(st.state)))
  }

  function WaitForBoundary(st: Stream, b: Bytes): (t: Turn)
    requires Valid(st, b) && st.state == WaitingForBoundary
    ensures Turns(st, b, t)
  {
    if |st.io| < |b| + 2 then Stop(st)
    else
      match Find(st.io, b)
      case None => Stop(st)
      case Some(p) =>
        var end := p + |b|;
        if |st.io| - end < 4 then Stop(st)
        else if st.io[end..end + 4] == DASHES + CRLF then
          Turn(st.(state := Finalize, io := st.io[end + 4..]), true)
        else Turn(st.(state := GotBoundary), true)
  }

  function ProcessBoundary(st: Stream, b: Bytes): (t: Turn)
    requires Valid(st, b) && st.state == GotBoundary
    ensures Turns(st, b, t)
  {
    var s := st.io[Find(st.io, b).value + |b| + 2..];
    match ScanHeaders(s, 0, None)
    case NeedMore => Stop(st.(state := WaitingForBoundary))
    case Overread => Stop(st.(overread := true, state := if st.quiet then WaitingForBoundary else st.state))
    case HeadersEnd(used, header) =>
      Turn(st.(
        state := WaitingForChunk, io := s[used..], processingPart := st.processingPart + 1,
        events := st.events + (if st.processingPart != 0 then [PartEnd] else []) + [PartBegin(header)]), true)
  }

  function ContinueWaitForChunk(st: Stream, b: Bytes): (t: Turn)
    requires Valid(st, b) && st.state == WaitingForChunk
    ensures Turns(st, b, t)
  {
    if |st.io| < |b| + 6 then Stop(st)
    else
      match Find(st.io, b)
      case None =>
        if st.prevIoLen == 0 then Stop(st.(prevIoLen := |st.io|))
        else if |st.io| > st.prevIoLen + |b| + 4 then Turn(st.(state := GotChunk), true)
        else Stop(st)
      case Some(p) =>
        var data := if p < 4 then BadData(p - 4) else PartData(st.io[..p - 4]);
        Turn(st.(state := WaitingForBoundary, io := st.io[p..], prevIoLen := 0, events := st.events + [data]), true)
  }

  function TakeChunk(st: Stream, b: Bytes): (t: Turn)
    requires Valid(st, b)
    ensures Turns(st, b, t)
  {
    Stop(st.(state := WaitingForChunk, io := st.io[st.prevIoLen..], prevIoLen := 0,
             events := st.events + [PartData(st.io[..st.prevIoLen])]))
  }

  /** One turn of the loop of mg_http_multipart_continue. */
  function Step(st: Stream, b: Bytes): (t: Turn)
    requires Valid(st, b)
    ensures Turns(st, b, t)
  {
    match st.state
    case Begin => Turn(st.(state := WaitingForBoundary), true)
    case WaitingForBoundary => WaitForBoundary(st, b)
    case GotBoundary => ProcessBoundary(st, b)
    case WaitingForChunk => ContinueWaitForChunk(st, b)
    case GotChunk => TakeChunk(st, b)
    case Finalize => Turn(st.(state := Finished, events := st.events + [PartEnd, RequestEnd]), true)
    case Finished => Stop(st.(io := []))
  }

  /** mg_http_multipart_continue: turns until one of them says to return. */
  function Continue(st: Stream, b: Bytes): (r: Stream)
    requires Valid(st, b)
    ensures Valid(r, b)
    decreases |st.io|, Rank(st.state)
  {
    var t := Step(st, b);
    if t.more then Continue(t.stream, b) else t.stream
  }
}
