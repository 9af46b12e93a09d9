/**
 Multipart bodies (section 5.1.1 of RFC 2046) in arbitrary fragments: every part reaches the
 handler whole, between its own begin and end.
 */
module MultipartStream {
  import opened Bytes
  import opened Multipart

  // ----- searching -----

  lemma {:induction false} FindFromIs(s: Bytes, b: Bytes, i: nat, k: nat)
    requires b != [] && i <= k && OccursAt(s, b, k)
    requires forall j :: i <= j < k ==> !OccursAt(s, b, j)
    ensures FindFrom(s, b, i) == Some(k)
    decreases k - i
  {
    if i < k {
      FindFromIs(s, b, i + 1, k);
    }
  }

  lemma {:induction false} FindFromFirst(s: Bytes, b: Bytes, i: nat)
    requires b != [] && i <= |s|
    ensures match FindFrom(s, b, i)
            case None => forall j :: i <= j <= |s| ==> !OccursAt(s, b, j)
            case Some(k) => forall j :: i <= j < k ==> !OccursAt(s, b, j)
    decreases |s| - i
  {
    if i < |s| && i + |b| <= |s| && !OccursAt(s, b, i) {
      FindFromFirst(s, b, i + 1);
    }
  }

  /** Find is the first occurrence, and None means that there is none. */
  lemma FindIsFirst(s: Bytes, b: Bytes)
    requires b != []
    ensures Find(s, b) == None <==> forall j :: 0 <= j <= |s| ==> !OccursAt(s, b, j)
    ensures forall k :: Find(s, b) == Some(k) <==>
              0 <= k && OccursAt(s, b, k) && forall j :: 0 <= j < k ==> !OccursAt(s, b, j)
  {
    FindFromFirst(s, b, 0);
    forall k | 0 <= k && OccursAt(s, b, k) && forall j :: 0 <= j < k ==> !OccursAt(s, b, j)
      ensures Find(s, b) == Some(k)
    {
      FindFromIs(s, b, 0, k);
    }
  }

  lemma OccursPrefix(s: Bytes, t: Bytes, b: Bytes, j: nat)
    requires s <= t
    ensures OccursAt(s, b, j) <==> OccursAt(t, b, j) && j + |b| <= |s|
  {
    if j + |b| <= |s| {
      assert s[j..j + |b|] == t[j..j + |b|];
    }
  }

  /**
   In a stream t whose first boundary is at k, the part s that has arrived contains it exactly
   when it is long enough.
   */
  lemma FindInPrefix(s: Bytes, t: Bytes, b: Bytes, k: nat)
    requires b != [] && s <= t && Find(t, b) == Some(k)
    ensures Find(s, b) == if k + |b| <= |s| then Some(k) else None
  {
    hide OccursAt, Find;
    FindIsFirst(s, b);
    FindIsFirst(t, b);
    forall j: nat
      ensures OccursAt(s, b, j) <==> OccursAt(t, b, j) && j + |b| <= |s|
    {
      OccursPrefix(s, t, b, j);
    }
    OccursBound(t, b);
  }

  lemma OccursBound(s: Bytes, b: Bytes)
    ensures forall j: nat :: OccursAt(s, b, j) ==> j + |b| <= |s|
  {
  }

  lemma FindExtends(s: Bytes, b: Bytes, more: Bytes, k: nat)
    requires b != [] && Find(s, b) == Some(k)
    ensures Find(s + more, b) == Some(k)
  {
    hide OccursAt, Find;
    var t := s + more;
    FindIsFirst(s, b);
    FindIsFirst(t, b);
    OccursBound(s, b);
    forall j: nat | j <= k
      ensures OccursAt(s, b, j) <==> OccursAt(t, b, j)
    {
      OccursPrefix(s, t, b, j);
    }
  }

  lemma FindDrop(s: Bytes, b: Bytes, n: nat, k: nat)
    requires b != [] && Find(s, b) == Some(k) && n <= k
    ensures Find(s[n..], b) == Some(k - n)
  {
    hide OccursAt, Find;
    FindIsFirst(s, b);
    FindIsFirst(s[n..], b);
    OccursBound(s, b);
    forall j: nat
      ensures OccursAt(s[n..], b, j) <==> OccursAt(s, b, j + n)
    {
      OccursDrop(s, b, n, j);
    }
  }

  lemma OccursDrop(s: Bytes, b: Bytes, n: nat, j: nat)
    requires n <= |s|
    ensures OccursAt(s[n..], b, j) <==> OccursAt(s, b, j + n)
  {
    if j + n + |b| <= |s| {
      assert s[n..][j..j + |b|] == s[j + n..j + n + |b|];
    }
  }

  // ----- bodies -----

  datatype Part = Part(lines: seq<Bytes>, content: Bytes)

  /** The value of the last Content-Disposition line, or the one before all of them. */
  function LastValue(lines: seq<Bytes>, header: Option<Bytes>): Option<Bytes> {
    if lines == [] then header
    else LastValue(lines[1..], if IsDisposition(lines[0]) then Some(DispositionValue(lines[0])) else header)
  }

  function HeaderOf(lines: seq<Bytes>): Option<Bytes> {
    LastValue(lines, None)
  }

  /** Any header line: it ends at its first newline, and it is not the blank line. */
  predicate ValidLine(line: Bytes) {
    line != [] && LineLen(line) == |line| && line != CRLF
  }

  /** Header lines of any kind, and no boundary before the delimiter behind the content. */
  predicate ValidPart(b: Bytes, p: Part) {
    && (forall i :: 0 <= i < |p.lines| ==> ValidLine(p.lines[i]))
    && Find(p.content + CRLF + DASHES + b, b) == Some(|p.content| + 4)
  }

  predicate ValidParts(b: Bytes, ps: seq<Part>) {
    forall i :: 0 <= i < |ps| ==> ValidPart(b, ps[i])
  }

  /** A part behind its boundary, up to the dashes of the next delimiter. */
  function PartTail(p: Part): Bytes {
    CRLF + (Flatten(p.lines) + CRLF + (p.content + CRLF + DASHES))
  }

  /** From one boundary to the end of the body. */
  function FromBoundary(b: Bytes, ps: seq<Part>): Bytes {
    if ps == [] then b + (DASHES + CRLF) else b + (PartTail(ps[0]) + FromBoundary(b, ps[1..]))
  }

  function WireOf(b: Bytes, intro: Bytes, ps: seq<Part>): Bytes {
    intro + DASHES + FromBoundary(b, ps)
  }

  /** A body as this machine expects it. */
  predicate ValidBody(b: Bytes, intro: Bytes, ps: seq<Part>) {
    b != [] && ps != [] && ValidParts(b, ps) && Find(intro + DASHES + b, b) == Some(|intro| + 2)
  }

  // ----- what the handler has seen -----

  datatype Seen = Seen(
    parts: seq<(Option<Bytes>, Bytes)>, current: Option<(Option<Bytes>, Bytes)>, ended: bool, bracketed: bool
  )

  const NOTHING: Seen := Seen([], None, false, true)

  /** A call changes what has been seen, or breaks the bracketing BEGIN DATA* END. */
  function SeeOne(s: Seen, e: Event): Seen {
    match e
    case PartBegin(header) =>
      if s.current == None && !s.ended then s.(current := Some((header, []))) else s.(bracketed := false)
    case PartData(data) =>
      if s.current == None then s.(bracketed := false)
      else s.(current := Some((s.current.value.0, s.current.value.1 + data)))
    case BadData(_) => s.(bracketed := false)
    case PartEnd =>
      if s.current == None then s.(bracketed := false)
      else s.(parts := s.parts + [s.current.value], current := None)
    case RequestEnd => if s.current == None && !s.ended then s.(ended := true) else s.(bracketed := false)
  }

  function See(s: Seen, events: seq<Event>): Seen
    decreases |events|
  {
    if events == [] then s else See(SeeOne(s, events[0]), events[1..])
  }

  lemma {:induction false} SeeAppend(s: Seen, a: seq<Event>, b: seq<Event>)
    ensures See(s, a + b) == See(See(s, a), b)
    decreases |a|
  {
    hide SeeOne;
    if a == [] {
      assert a + b == b;
    } else {
      assert (a + b)[1..] == a[1..] + b && (a + b)[0] == a[0];
      SeeAppend(SeeOne(s, a[0]), a[1..], b);
    }
  }

  /** Data delivered in two pieces is data delivered in one. */
  lemma SeeDataJoined(s: Seen, x: Bytes, y: Bytes, more: seq<Event>)
    ensures See(s, [PartData(x)] + ([PartData(y)] + more)) == See(s, [PartData(x + y)] + more)
  {
    SeeCons(s, PartData(x), [PartData(y)] + more);
    SeeCons(SeeOne(s, PartData(x)), PartData(y), more);
    SeeCons(s, PartData(x + y), more);
    hide See;
    if s.current.Some? {
      assert s.current.value.1 + x + y == s.current.value.1 + (x + y);
    }
  }

  lemma SeeCons(s: Seen, e: Event, more: seq<Event>)
    ensures See(s, [e] + more) == See(SeeOne(s, e), more)
  {
    assert ([e] + more)[1..] == more;
  }

  function Expected(ps: seq<Part>): seq<(Option<Bytes>, Bytes)> {
    if ps == [] then [] else [(HeaderOf(ps[0].lines), ps[0].content)] + Expected(ps[1..])
  }

  /** The calls a body amounts to, with each part's data in one piece. */
  function DueParts(ps: seq<Part>): seq<Event> {
    if ps == [] then [RequestEnd]
    else [PartBegin(HeaderOf(ps[0].lines))] + ([PartData(ps[0].content)] + ([PartEnd] + DueParts(ps[1..])))
  }

  lemma {:induction false} SeeDueParts(s: Seen, ps: seq<Part>)
    requires s.current == None && !s.ended && s.bracketed
    ensures See(s, DueParts(ps)) == Seen(s.parts + Expected(ps), None, true, true)
    decreases |ps|
  {
    hide See;
    if ps == [] {
      SeeEnd(s);
      assert s.parts + Expected(ps) == s.parts;
    } else {
      var part := (HeaderOf(ps[0].lines), ps[0].content);
      var done := s.(parts := s.parts + [part]);
      SeePart(s, HeaderOf(ps[0].lines), ps[0].content, DueParts(ps[1..]));
      SeeDueParts(done, ps[1..]);
      assert s.parts + [part] + Expected(ps[1..]) == s.parts + Expected(ps);
    }
  }

  lemma SeeEnd(s: Seen)
    ensures See(s, [RequestEnd]) == SeeOne(s, RequestEnd)
  {
    assert [RequestEnd][1..] == [];
  }

  lemma SeePart(s: Seen, header: Option<Bytes>, data: Bytes, more: seq<Event>)
    requires s.current == None && !s.ended && s.bracketed
    ensures See(s, [PartBegin(header)] + ([PartData(data)] + ([PartEnd] + more)))
         == See(s.(parts := s.parts + [(header, data)]), more)
  {
    SeeCons(s, PartBegin(header), [PartData(data)] + ([PartEnd] + more));
    var s1 := s.(current := Some((header, [])));
    SeeCons(s1, PartData(data), [PartEnd] + more);
    assert [] + data == data;
    var s2 := s.(current := Some((header, data)));
    SeeCons(s2, PartEnd, more);
  }

  // ----- scanning the header lines -----

  lemma {:induction false} LineLenPrefix(line: Bytes, n: nat)
    requires LineLen(line) == |line| && n < |line|
    ensures LineLen(line[..n]) == 0
  {
    if n > 0 {
      LineLenPrefix(line[1..], n - 1);
      assert line[..n][1..] == line[1..][..n - 1];
    }
  }

  lemma {:induction false} LineLenExtends(line: Bytes, more: Bytes)
    requires LineLen(line) == |line| && line != []
    ensures LineLen(line + more) == |line|
  {
    if line[0] != LF {
      assert (line + more)[1..] == line[1..] + more;
      LineLenExtends(line[1..], more);
    }
  }

  lemma BlankLine()
    ensures LineLen(CRLF) == 2 && !IsDisposition(CRLF)
  {
    assert CRLF[1..] == [LF];
  }

  lemma ScanOneLine(line: Bytes, s: Bytes, extra: nat, header: Option<Bytes>)
    requires ValidLine(line)
    ensures ScanHeaders(line + s, extra, header) ==
            Used(|line|, if IsDisposition(line) then ScanHeaders(s, extra, Some(DispositionValue(line)))
                         else ScanHeaders(s, extra + |line|, header))
  {
    hide IsDisposition;
    LineLenExtends(line, s);
    assert (line + s)[..|line|] == line && (line + s)[|line|..] == s;
  }

  /** What the scan says when no whole line is left. */
  function Cut(extra: nat): Headers {
    if extra > 0 then Overread else NeedMore
  }

  lemma ScanShort(line: Bytes, s: Bytes, extra: nat, header: Option<Bytes>)
    requires LineLen(line) == |line| && s <= line && |s| < |line|
    ensures ScanHeaders(s, extra, header) == Cut(extra)
  {
    LineLenPrefix(line, |s|);
    assert line[..|s|] == s;
  }

  lemma ScanBlank(s: Bytes, extra: nat, header: Option<Bytes>)
    ensures ScanHeaders(CRLF + s, extra, header) == HeadersEnd(2, header)
  {
    BlankLine();
    LineLenExtends(CRLF, s);
    assert (CRLF + s)[..2] == CRLF;
  }

  lemma {:induction false} LineLenOfJoined(s: Bytes, more: Bytes)
    ensures LineLen(s) > 0 ==> LineLen(s + more) == LineLen(s)
    ensures LineLen(s) == 0 && LF !in more ==> LineLen(s + more) == 0
  {
    if s == [] {
      assert s + more == more;
      NoLine(more);
    } else {
      assert (s + more)[1..] == s[1..] + more;
      LineLenOfJoined(s[1..], more);
    }
  }

  lemma {:induction false} NoLine(s: Bytes)
    ensures LF !in s ==> LineLen(s) == 0
  {
    if s != [] {
      NoLine(s[1..]);
    }
  }

  lemma ScanHeadersUnfold(s: Bytes, extra: nat, header: Option<Bytes>)
    ensures var n := LineLen(s);
            ScanHeaders(s, extra, header) ==
              if n == 0 then if extra > 0 then Overread else NeedMore
              else if IsDisposition(s[..n]) then Used(n, ScanHeaders(s[n..], extra, Some(DispositionValue(s[..n]))))
              else if s[..n] == CRLF then HeadersEnd(n, header)
              else Used(n, ScanHeaders(s[n..], extra + n, header))
  {
    hide IsDisposition, LineLen;
  }

  lemma ScanMemoryUnfold(mem: Bytes, size: nat, header: Option<Bytes>)
    requires size <= |mem|
    ensures var n := LineLen(mem[..size]);
            ScanMemory(mem, size, header) ==
              if n == 0 then NeedMore
              else if IsDisposition(mem[..n]) then
                Used(n, ScanMemory(mem[n..], size - n, Some(DispositionValue(mem[..n]))))
              else if mem[..n] == CRLF then HeadersEnd(n, header)
              else Used(n, ScanMemory(mem[n..], size, header))
  {
    hide IsDisposition, LineLen;
  }

  /**
   What Overread means: a scan over s and the memory behind it gives the same result whatever that
   memory holds, but for Overread, which is a harmless NeedMore if no line feed stands there.
   */
  lemma {:induction false} ScanMemoryIs(s: Bytes, behind: Bytes, extra: nat, header: Option<Bytes>)
    requires |s| + extra <= |behind| && (ScanHeaders(s, extra, header) == Overread ==> LF !in behind)
    ensures ScanMemory(s + behind, |s| + extra, header)
         == if ScanHeaders(s, extra, header) == Overread then NeedMore else ScanHeaders(s, extra, header)
    decreases |s|
  {
    hide IsDisposition, LineLen, ScanHeaders, ScanMemory;
    var mem, size, n := s + behind, |s| + extra, LineLen(s);
    assert mem[..size] == s + behind[..extra];
    LineLenOfJoined(s, behind[..extra]);
    ScanHeadersUnfold(s, extra, header);
    ScanMemoryUnfold(mem, size, header);
    if n > 0 {
      var t := s[n..];
      assert mem[..n] == s[..n] && mem[n..] == t + behind;
      if IsDisposition(s[..n]) {
        ScanMemoryIs(t, behind, extra, Some(DispositionValue(s[..n])));
      } else if s[..n] != CRLF {
        ScanMemoryIs(t, behind, extra + n, header);
      }
    }
  }

  /** Among the first n bytes of the header lines is a whole one that is not a disposition. */
  predicate Skipped(lines: seq<Bytes>, n: int) {
    lines != [] && |lines[0]| <= n && (!IsDisposition(lines[0]) || Skipped(lines[1..], n - |lines[0]|))
  }

  /**
   With all header lines buffered the blank line is found behind them. Until then the scan waits,
   unless it has skipped a line that is not a disposition: then it looks behind the buffer.
   */
  lemma {:induction false} ScanLines(lines: seq<Bytes>, tail: Bytes, s: Bytes, left: Bytes, extra: nat,
      header: Option<Bytes>)
    requires forall i :: 0 <= i < |lines| ==> ValidLine(lines[i])
    requires s + left == Flatten(lines) + CRLF + tail
    ensures var used := |Flatten(lines)| + 2;
            ScanHeaders(s, extra, header) ==
            if used <= |s| then HeadersEnd(used, LastValue(lines, header))
            else if extra > 0 || Skipped(lines, |s|) then Overread else NeedMore
    decreases |lines|
  {
    hide ScanHeaders, ValidLine, IsDisposition, Flatten;
    FlattenCons(lines);
    if lines == [] {
      ScanNoLines(tail, s, left, extra, header);
    } else {
      var line := lines[0];
      assert ValidLine(line);
      ValidLineLen(line);
      RegroupFour(line, Flatten(lines[1..]), CRLF, tail);
      SplitAt(s, left, line, Flatten(lines[1..]) + CRLF + tail);
      if |s| >= |line| {
        var t := s[|line|..];
        ScanOneLine(line, t, extra, header);
        if IsDisposition(line) {
          ScanLines(lines[1..], tail, t, left, extra, Some(DispositionValue(line)));
        } else {
          ScanLines(lines[1..], tail, t, left, extra + |line|, header);
        }
      } else {
        ScanShort(line, s, extra, header);
      }
    }
  }

  lemma ScanNoLines(tail: Bytes, s: Bytes, left: Bytes, extra: nat, header: Option<Bytes>)
    requires s + left == [] + CRLF + tail
    ensures ScanHeaders(s, extra, header) == if 2 <= |s| then HeadersEnd(2, header) else Cut(extra)
  {
    hide ScanHeaders, IsDisposition;
    BlankLine();
    assert [] + CRLF + tail == CRLF + tail;
    SplitAt(s, left, CRLF, tail);
    if |s| >= 2 {
      ScanBlank(s[2..], extra, header);
    } else {
      ScanShort(CRLF, s, extra, header);
    }
  }

  lemma ValidLineLen(line: Bytes)
    requires ValidLine(line)
    ensures LineLen(line) == |line| && line != []
  {
  }

  /** Two ways to cut the same bytes. */
  lemma SplitAt(s: Bytes, left: Bytes, head: Bytes, tail: Bytes)
    requires s + left == head + tail
    ensures |s| >= |head| ==> s == head + s[|head|..] && s[|head|..] + left == tail
    ensures |s| < |head| ==> s <= head && left != []
  {
    if |s| >= |head| {
      assert s[..|head|] == (s + left)[..|head|] == head;
      assert s[|head|..] + left == (s + left)[|head|..] == tail;
    } else {
      assert s == (s + left)[..|s|] == (head + tail)[..|s|] == head[..|s|];
    }
  }

  // ----- progress through a body -----

  /**
   Where the machine stands: before a boundary that follows `skip`, inside a part of whose
   content `rest` is still to come, behind the closing boundary, or done.
   */
  datatype Progress =
    | AtBoundary(skip: Bytes, first: bool, ps: seq<Part>)
    | InContent(rest: Bytes, ps: seq<Part>)
    | Closed
    | Done

  predicate ValidProgress(b: Bytes, p: Progress) {
    b != [] &&
    match p
    case AtBoundary(skip, first, ps) =>
      ValidParts(b, ps) && Find(skip + b, b) == Some(|skip|) && (first ==> ps != [])
    case InContent(rest, ps) =>
      ValidParts(b, ps) && Find(rest + CRLF + DASHES + b, b) == Some(|rest| + 4)
    case _ => true
  }

  function Ahead(b: Bytes, p: Progress): Bytes {
    match p
    case AtBoundary(skip, _, ps) => skip + FromBoundary(b, ps)
    case InContent(rest, ps) => rest + CRLF + DASHES + FromBoundary(b, ps)
    case _ => []
  }

  function Due(p: Progress): seq<Event> {
    match p
    case AtBoundary(_, first, ps) => if first then DueParts(ps) else [PartEnd] + DueParts(ps)
    case InContent(rest, ps) => [PartData(rest)] + ([PartEnd] + DueParts(ps))
    case Closed => [PartEnd, RequestEnd]
    case Done => []
  }

  predicate StateFits(st: Stream, p: Progress) {
    match p
    case AtBoundary(_, first, _) =>
      && (st.state == WaitingForBoundary || st.state == GotBoundary || (first && st.state == Begin))
      && (st.processingPart == 0 <==> first)
    case InContent(_, _) => (st.state == WaitingForChunk || st.state == GotChunk) && st.processingPart != 0
    case Closed => st.state == Finalize
    case Done => st.state == Finished
  }

  /** The stream st stands at p; `left` has not arrived, and `target` is what will have been seen. */
  predicate Stands(st: Stream, b: Bytes, p: Progress, left: Bytes, target: Seen) {
    && ValidProgress(b, p) && Valid(st, b) && StateFits(st, p) && !st.Stopped()
    && st.io + left == Ahead(b, p)
    && (st.state == GotBoundary ==> p.ps != [])
    && (st.state == GotChunk ==> Find(st.io, b) == None && |st.io| > st.prevIoLen + |b| + 4)
    && See(NOTHING, st.events + Due(p)) == target
  }

  // ----- where an arrival may not end -----

  /**
   n bytes of the body from a boundary on have arrived, and the last of them lies among the header
   lines of some part, behind one that is not a disposition.
   */
  predicate CutsHeader(b: Bytes, ps: seq<Part>, n: int)
    decreases |ps|
  {
    ps != [] && |b| + 4 <= n &&
    var arrived, used := n - |b| - 2, |Flatten(ps[0].lines)| + 2;
    if arrived < used then Skipped(ps[0].lines, arrived)
    else CutsHeader(b, ps[1..], arrived - used - |ps[0].content| - 4)
  }

  /** The same for n bytes from where the machine stands. */
  predicate CutsAhead(b: Bytes, p: Progress, n: int) {
    match p
    case AtBoundary(skip, _, ps) => CutsHeader(b, ps, n - |skip|)
    case InContent(rest, ps) => CutsHeader(b, ps, n - |rest| - 4)
    case _ => false
  }

  /** Standing d bytes further on at q, with at least `from` bytes arrived, makes no difference. */
  ghost predicate Shifts(b: Bytes, p: Progress, q: Progress, d: nat, from: nat) {
    forall n: nat {:trigger CutsAhead(b, q, n)} :: n >= from ==> (CutsAhead(b, q, n) <==> CutsAhead(b, p, n + d))
  }

  lemma ShiftsOn(b: Bytes, p: Progress, q: Progress, r: Progress, d: nat, e: nat, from: nat, later: nat)
    requires Shifts(b, p, q, d, from) && Shifts(b, q, r, e, later) && later + e >= from
    ensures Shifts(b, p, r, d + e, later)
  {
    hide CutsAhead;
    forall n: nat {:trigger CutsAhead(b, r, n)} | n >= later
      ensures CutsAhead(b, r, n) <==> CutsAhead(b, p, n + (d + e))
    {
      assert CutsAhead(b, q, n + e) <==> CutsAhead(b, p, n + e + d);
    }
  }

  lemma ShiftsNot(b: Bytes, p: Progress, from: nat)
    ensures Shifts(b, p, p, 0, from)
  {
  }

  lemma ShiftsToClosed(b: Bytes, p: Progress, d: nat, from: nat)
    requires p.AtBoundary? && p.ps == []
    ensures Shifts(b, p, Closed, d, from)
  {
  }

  lemma ShiftsIntoPart(b: Bytes, p: Progress, from: nat)
    requires p.AtBoundary? && p.ps != []
    ensures Shifts(b, p, InContent(p.ps[0].content, p.ps[1..]), |p.skip| + |b| + 2 + |Flatten(p.ps[0].lines)| + 2, from)
  {
    hide Flatten;
  }

  lemma ShiftsToBoundary(b: Bytes, p: Progress, first: bool, from: nat)
    requires p.InContent?
    ensures Shifts(b, p, AtBoundary([], first, p.ps), |p.rest| + 4, from)
  {
  }

  lemma ShiftsInContent(b: Bytes, p: Progress, d: nat, from: nat)
    requires p.InContent? && d <= |p.rest|
    ensures Shifts(b, p, InContent(p.rest[d..], p.ps), d, from)
  {
  }

  /** Behind any boundary at least four bytes follow, and they tell a part from the end. */
  lemma BehindBoundary(b: Bytes, ps: seq<Part>)
    ensures |FromBoundary(b, ps)| >= |b| + 4
    ensures var x := FromBoundary(b, ps)[|b|..];
            && FromBoundary(b, ps) == b + x
            && (x[..4] == DASHES + CRLF <==> ps == [])
            && (ps == [] ==> x == DASHES + CRLF)
            && (ps != [] ==> x == PartTail(ps[0]) + FromBoundary(b, ps[1..]))
  {
    hide Flatten;
    var x := FromBoundary(b, ps)[|b|..];
    if ps != [] {
      assert x == PartTail(ps[0]) + FromBoundary(b, ps[1..]);
      assert x[0] == CR && (DASHES + CRLF)[0] == DASH;
      assert x[..4][0] == CR;
    }
  }

  /** The first boundary of what is ahead. */
  function BoundaryAt(p: Progress): nat {
    match p
    case AtBoundary(skip, _, _) => |skip|
    case InContent(rest, _) => |rest| + 4
    case _ => 0
  }

  lemma AheadBoundary(b: Bytes, p: Progress)
    requires ValidProgress(b, p) && (p.AtBoundary? || p.InContent?)
    ensures Find(Ahead(b, p), b) == Some(BoundaryAt(p))
    ensures |Ahead(b, p)| >= BoundaryAt(p) + |b| + 4
    ensures Ahead(b, p)[BoundaryAt(p)..] == FromBoundary(b, p.ps)
  {
    hide Find, FromBoundary, ValidParts;
    BehindBoundary(b, p.ps);
    var x := FromBoundary(b, p.ps)[|b|..];
    match p
    case AtBoundary(skip, _, ps) =>
      FindExtends(skip + b, b, x, |skip|);
      assert skip + b + x == skip + FromBoundary(b, ps);
    case InContent(rest, ps) =>
      FindExtends(rest + CRLF + DASHES + b, b, x, |rest| + 4);
      assert rest + CRLF + DASHES + b + x == rest + CRLF + DASHES + FromBoundary(b, ps);
  }

  /** What the machine's search finds in the part of the stream that has arrived. */
  lemma FindArrived(b: Bytes, p: Progress, io: Bytes, left: Bytes)
    requires ValidProgress(b, p) && (p.AtBoundary? || p.InContent?) && io + left == Ahead(b, p)
    ensures Find(io, b) == if BoundaryAt(p) + |b| <= |io| then Some(BoundaryAt(p)) else None
    ensures left == [] ==> |io| >= BoundaryAt(p) + |b| + 4
    ensures BoundaryAt(p) <= |io| ==> io[BoundaryAt(p)..] + left == FromBoundary(b, p.ps)
  {
    hide Find, FromBoundary, ValidParts;
    AheadBoundary(b, p);
    assert io == (io + left)[..|io|];
    FindInPrefix(io, Ahead(b, p), b, BoundaryAt(p));
    if BoundaryAt(p) <= |io| {
      assert io[BoundaryAt(p)..] + left == (io + left)[BoundaryAt(p)..];
    }
  }

  // ----- one turn -----

  /**
   What a turn from st at p keeps. It looks behind the buffer only where an arrival has cut the
   header lines, and the turn that returns does so if there is such a place; with nothing left to
   arrive it has finished the body.
   */
  ghost predicate Keeps(st: Stream, p: Progress, t: Turn, b: Bytes, q: Progress, left: Bytes, target: Seen) {
    && t.stream.quiet == st.quiet
    && if t.stream.Stopped() then !t.more && CutsAhead(b, p, |st.io|)
    else
      && Stands(t.stream, b, q, left, target) && |t.stream.io| <= |st.io|
      && Shifts(b, p, q, |st.io| - |t.stream.io|, |t.stream.io|)
      && (t.stream.overread <==> st.overread || (!t.more && CutsAhead(b, q, |t.stream.io|)))
      && (!t.more && left == [] ==> q == Done)
  }

  /** The four bytes the machine looks at behind a boundary. */
  lemma Lookahead(io: Bytes, left: Bytes, at: nat, b: Bytes, ps: seq<Part>)
    requires at + |b| + 4 <= |io| && io[at..] + left == FromBoundary(b, ps)
    ensures io[at + |b|..at + |b| + 4] == DASHES + CRLF <==> ps == []
    ensures ps == [] ==> io[at + |b| + 4..] + left == []
  {
    hide FromBoundary;
    BehindBoundary(b, ps);
    var y, w := io[at..], FromBoundary(b, ps);
    assert io[at + |b|..at + |b| + 4] == y[|b|..|b| + 4] == (y + left)[|b|..|b| + 4] == w[|b|..][..4];
    if ps == [] {
      assert |w| == |b| + 4 && |io[at + |b| + 4..]| + |left| == 0;
    }
  }

  lemma WaitForBoundaryKeeps(st: Stream, b: Bytes, p: Progress, left: Bytes, target: Seen) returns (q: Progress)
    requires Stands(st, b, p, left, target) && st.state == WaitingForBoundary
    ensures Keeps(st, p, Step(st, b), b, q, left, target)
  {
    hide Find, FromBoundary, ValidParts, See, Due, Ahead, ValidProgress, Shifts, CutsAhead;
    hide ProcessBoundary, ContinueWaitForChunk, TakeChunk;
    q := p;
    FindArrived(b, p, st.io, left);
    ShiftsNot(b, p, |st.io|);
    CutsBehindBoundary(b, p, |st.io|);
    if |p.skip| + |b| + 4 <= |st.io| {
      Lookahead(st.io, left, |p.skip|, b, p.ps);
      if p.ps == [] {
        q := Closed;
        ClosedFits(b, p);
        ShiftsToClosed(b, p, |p.skip| + |b| + 4, |st.io| - (|p.skip| + |b| + 4));
      }
    }
  }

  lemma CutsBehindBoundary(b: Bytes, p: Progress, n: int)
    requires p.AtBoundary?
    ensures CutsAhead(b, p, n) ==> n >= |p.skip| + |b| + 4
    ensures !CutsAhead(b, Closed, n)
  {
  }

  lemma ClosedFits(b: Bytes, p: Progress)
    requires ValidProgress(b, p) && p.AtBoundary? && p.ps == []
    ensures ValidProgress(b, Closed) && Ahead(b, Closed) == [] && Due(p) == Due(Closed)
  {
    hide Find;
    DuePartsNil();
    assert [PartEnd] + [RequestEnd] == [PartEnd, RequestEnd];
  }

  lemma DuePartsNil()
    ensures DueParts([]) == [RequestEnd]
  {
  }

  /** What the header scan makes of the bytes behind a boundary. */
  lemma HeadersArrived(io: Bytes, left: Bytes, at: nat, b: Bytes, ps: seq<Part>)
    requires ps != [] && ValidPart(b, ps[0])
    requires at + |b| + 4 <= |io| && io[at..] + left == FromBoundary(b, ps)
    ensures var s, r := io[at + |b| + 2..], ScanHeaders(io[at + |b| + 2..], 0, None);
            var used := |Flatten(ps[0].lines)| + 2;
            if used <= |s| then
              && r == HeadersEnd(used, HeaderOf(ps[0].lines))
              && s[used..] + left == ps[0].content + CRLF + DASHES + FromBoundary(b, ps[1..])
            else r == (if Skipped(ps[0].lines, |s|) then Overread else NeedMore) && left != []
  {
    hide FromBoundary, ScanHeaders, Flatten, ValidPart, PartTail, HeaderOf, LastValue, Skipped;
    BehindBoundary(b, ps);
    var part, more := ps[0], FromBoundary(b, ps[1..]);
    var y, s := io[at..], io[at + |b| + 2..];
    var tail := part.content + CRLF + DASHES + more;
    BehindPart(y, left, b, part, more);
    assert y[|b| + 2..] == s;
    ValidPartLines(b, part);
    ScanLines(part.lines, tail, s, left, 0, None);
    HeaderIsLast(part.lines);
    SplitAt(s, left, Flatten(part.lines) + CRLF, tail);
  }

  lemma ProcessBoundaryKeeps(st: Stream, b: Bytes, p: Progress, left: Bytes, target: Seen) returns (q: Progress)
    requires Stands(st, b, p, left, target) && st.state == GotBoundary
    ensures Keeps(st, p, Step(st, b), b, q, left, target)
  {
    hide Find, FromBoundary, ScanHeaders, See, Due, HeaderOf, Ahead, ValidProgress, ValidPart, Shifts, Flatten, Skipped;
    q := p;
    FindArrived(b, p, st.io, left);
    BegunFits(b, p, st.events);
    HeadersArrived(st.io, left, |p.skip|, b, p.ps);
    ShiftsNot(b, p, |st.io|);
    var d := |p.skip| + |b| + 2 + |Flatten(p.ps[0].lines)| + 2;
    if d <= |st.io| {
      q := InContent(p.ps[0].content, p.ps[1..]);
      ShiftsIntoPart(b, p, |st.io| - d);
    }
  }

  lemma BegunFits(b: Bytes, p: Progress, events: seq<Event>)
    requires ValidProgress(b, p) && p.AtBoundary? && p.ps != []
    ensures ValidPart(b, p.ps[0])
    ensures var q := InContent(p.ps[0].content, p.ps[1..]);
            && ValidProgress(b, q)
            && Ahead(b, q) == p.ps[0].content + CRLF + DASHES + FromBoundary(b, p.ps[1..])
            && events + (if !p.first then [PartEnd] else []) + [PartBegin(HeaderOf(p.ps[0].lines))] + Due(q)
                 == events + Due(p)
  {
    hide Find, FromBoundary, DueParts, HeaderOf, ValidPart;
    assert ValidPart(b, p.ps[0]);
    ValidPartLines(b, p.ps[0]);
    DuePartsCons(p.ps);
    Grouped(events, p.first, HeaderOf(p.ps[0].lines), Due(InContent(p.ps[0].content, p.ps[1..])));
  }

  lemma ValidPartLines(b: Bytes, part: Part)
    requires ValidPart(b, part)
    ensures forall i :: 0 <= i < |part.lines| ==> ValidLine(part.lines[i])
    ensures Find(part.content + CRLF + DASHES + b, b) == Some(|part.content| + 4)
  {
  }

  lemma HeaderIsLast(lines: seq<Bytes>)
    ensures LastValue(lines, None) == HeaderOf(lines)
  {
  }

  lemma DuePartsCons(ps: seq<Part>)
    requires ps != []
    ensures DueParts(ps)
         == [PartBegin(HeaderOf(ps[0].lines))] + ([PartData(ps[0].content)] + ([PartEnd] + DueParts(ps[1..])))
  {
  }

  lemma Grouped(events: seq<Event>, first: bool, header: Option<Bytes>, more: seq<Event>)
    ensures var begun := [PartBegin(header)] + more;
            events + (if !first then [PartEnd] else []) + [PartBegin(header)] + more
              == events + (if first then begun else [PartEnd] + begun)
  {
  }

  /** The bytes behind a boundary and its line end, when a part follows. */
  lemma BehindPart(y: Bytes, left: Bytes, b: Bytes, part: Part, more: Bytes)
    requires y + left == b + (PartTail(part) + more) && |y| >= |b| + 2
    ensures y[|b| + 2..] + left == Flatten(part.lines) + CRLF + (part.content + CRLF + DASHES + more)
  {
    hide Flatten;
    var f := Flatten(part.lines);
    assert y[|b| + 2..] + left == (y + left)[|b| + 2..];
    assert PartTail(part) + more == CRLF + (f + CRLF + (part.content + CRLF + DASHES + more));
    assert b + (CRLF + (f + CRLF + (part.content + CRLF + DASHES + more)))
        == (b + CRLF) + (f + CRLF + (part.content + CRLF + DASHES + more));
  }

  lemma WaitForChunkKeeps(st: Stream, b: Bytes, p: Progress, left: Bytes, target: Seen) returns (q: Progress)
    requires Stands(st, b, p, left, target) && st.state == WaitingForChunk
    ensures Keeps(st, p, Step(st, b), b, q, left, target)
  {
    hide Find, FromBoundary, ValidParts, See, DueParts, Shifts;
    q := p;
    FindArrived(b, p, st.io, left);
    ShiftsNot(b, p, |st.io|);
    var k := |p.rest| + 4;
    if k + |b| <= |st.io| && |st.io| >= |b| + 6 {
      q := AtBoundary([], false, p.ps);
      assert [] + b == b && [] + FromBoundary(b, p.ps) == FromBoundary(b, p.ps);
      FindSelf(b);
      ShiftsToBoundary(b, p, false, |st.io| - k);
      assert st.io[..|p.rest|] == p.rest by {
        assert st.io[..|p.rest|] == (st.io + left)[..|p.rest|];
      }
      assert st.events + [PartData(p.rest)] + ([PartEnd] + DueParts(p.ps)) == st.events + Due(p);
    }
  }

  lemma FindSelf(b: Bytes)
    requires b != []
    ensures Find(b, b) == Some(0)
  {
    assert b[0..|b|] == b;
  }

  /** The key step: with no boundary found, the released bytes all precede the delimiter. */
  lemma ReleasedIsContent(b: Bytes, p: Progress, io: Bytes, left: Bytes, n: nat)
    requires ValidProgress(b, p) && p.InContent? && io + left == Ahead(b, p)
    requires Find(io, b) == None && |io| > n + |b| + 4
    ensures n <= |p.rest| && io[..n] == p.rest[..n]
    ensures var q := InContent(p.rest[n..], p.ps);
            ValidProgress(b, q) && io[n..] + left == Ahead(b, q)
  {
    hide Find, FromBoundary, ValidParts;
    FindArrived(b, p, io, left);
    FindDrop(p.rest + CRLF + DASHES + b, b, n, |p.rest| + 4);
    DropFromContent(p.rest, n, b);
    DropFromContent(p.rest, n, FromBoundary(b, p.ps));
    SplitAt(io, left, p.rest[..n], p.rest[n..] + CRLF + DASHES + FromBoundary(b, p.ps));
  }

  lemma TakeChunkKeeps(st: Stream, b: Bytes, p: Progress, left: Bytes, target: Seen) returns (q: Progress)
    requires Stands(st, b, p, left, target) && st.state == GotChunk
    ensures Keeps(st, p, Step(st, b), b, q, left, target)
  {
    hide Find, Ahead, ValidProgress, See, DueParts, Shifts, CutsAhead;
    hide WaitForBoundary, ProcessBoundary, ContinueWaitForChunk;
    var n := st.prevIoLen;
    ReleasedIsContent(b, p, st.io, left, n);
    ShiftsInContent(b, p, n, |st.io| - n);
    NotYetCut(b, p, st.io, left);
    q := InContent(p.rest[n..], p.ps);
    assert p.rest == p.rest[..n] + p.rest[n..];
    SeeReleased(st.events, p.rest[..n], p.rest[n..], [PartEnd] + DueParts(p.ps));
    FullStreamHasBoundary(b, p, st.io, left);
  }

  /** Before the delimiter has arrived no header lines behind it have. */
  lemma NotYetCut(b: Bytes, p: Progress, io: Bytes, left: Bytes)
    requires ValidProgress(b, p) && p.InContent? && io + left == Ahead(b, p) && Find(io, b) == None
    ensures !CutsAhead(b, p, |io|)
  {
    hide Find;
    FindArrived(b, p, io, left);
  }

  lemma FullStreamHasBoundary(b: Bytes, p: Progress, io: Bytes, left: Bytes)
    requires ValidProgress(b, p) && p.InContent? && io + left == Ahead(b, p)
    ensures left == [] ==> Find(io, b).Some?
  {
    hide Find;
    FindArrived(b, p, io, left);
  }

  lemma DropFromContent(rest: Bytes, n: nat, x: Bytes)
    requires n <= |rest|
    ensures (rest + CRLF + DASHES + x)[n..] == rest[n..] + CRLF + DASHES + x
    ensures rest + CRLF + DASHES + x == rest[..n] + (rest[n..] + CRLF + DASHES + x)
  {
  }

  lemma SeeReleased(events: seq<Event>, now: Bytes, later: Bytes, more: seq<Event>)
    ensures See(NOTHING, events + [PartData(now)] + ([PartData(later)] + more))
         == See(NOTHING, events + ([PartData(now + later)] + more))
  {
    hide See;
    assert events + [PartData(now)] + ([PartData(later)] + more) ==
           events + ([PartData(now)] + ([PartData(later)] + more));
    SeeAppend(NOTHING, events, [PartData(now)] + ([PartData(later)] + more));
    SeeAppend(NOTHING, events, [PartData(now + later)] + more);
    SeeDataJoined(See(NOTHING, events), now, later, more);
  }

  lemma StepKeeps(st: Stream, b: Bytes, p: Progress, left: Bytes, target: Seen) returns (q: Progress)
    requires Stands(st, b, p, left, target)
    ensures Keeps(st, p, Step(st, b), b, q, left, target)
  {
    hide Shifts, CutsHeader;
    q := p;
    ShiftsNot(b, p, |st.io|);
    match st.state
    case WaitingForBoundary => q := WaitForBoundaryKeeps(st, b, p, left, target);
    case GotBoundary => q := ProcessBoundaryKeeps(st, b, p, left, target);
    case WaitingForChunk => q := WaitForChunkKeeps(st, b, p, left, target);
    case GotChunk => q := TakeChunkKeeps(st, b, p, left, target);
    case Begin =>
    case Finalize =>
      q := Done;
      ShiftsDone(b, |st.io|);
      assert st.events + [PartEnd, RequestEnd] + [] == st.events + Due(p);
    case Finished =>
  }

  lemma ShiftsDone(b: Bytes, from: nat)
    ensures Shifts(b, Closed, Done, 0, from)
  {
  }

  /** A whole run of the loop looks behind the buffer exactly if what has arrived cuts header lines. */
  lemma {:induction false} ContinueKeeps(st: Stream, b: Bytes, p: Progress, left: Bytes,
      target: Seen) returns (q: Progress)
    requires Stands(st, b, p, left, target)
    ensures var r := Continue(st, b);
            && r.quiet == st.quiet && (r.overread <==> st.overread || CutsAhead(b, p, |st.io|))
            && (!r.Stopped() ==>
                  && Stands(r, b, q, left, target) && |r.io| <= |st.io|
                  && Shifts(b, p, q, |st.io| - |r.io|, |r.io|) && (left == [] ==> q == Done))
    decreases |st.io|, Rank(st.state)
  {
    hide Step, Stands, Shifts, CutsAhead;
    StandsValid(st, b, p, left, target);
    q := StepKeeps(st, b, p, left, target);
    ContinueUnfold(st, b);
    var t := Step(st, b);
    if !t.stream.Stopped() {
      var d := |st.io| - |t.stream.io|;
      ShiftsHere(b, p, q, d, |t.stream.io|, |t.stream.io|);
      if t.more {
        var mid := q;
        q := ContinueKeeps(t.stream, b, mid, left, target);
        var r := Continue(t.stream, b);
        if !r.Stopped() {
          ShiftsOn(b, p, mid, q, d, |t.stream.io| - |r.io|, |t.stream.io|, |r.io|);
        }
      }
    }
  }

  lemma ShiftsHere(b: Bytes, p: Progress, q: Progress, d: nat, from: nat, n: nat)
    requires Shifts(b, p, q, d, from) && n >= from
    ensures CutsAhead(b, q, n) <==> CutsAhead(b, p, n + d)
  {
    hide CutsAhead;
  }

  lemma StandsValid(st: Stream, b: Bytes, p: Progress, left: Bytes, target: Seen)
    requires Stands(st, b, p, left, target)
    ensures Valid(st, b) && !st.Stopped()
  {
  }

  lemma ContinueUnfold(st: Stream, b: Bytes)
    requires Valid(st, b)
    ensures var t := Step(st, b);
            Continue(st, b) == if t.more then Continue(t.stream, b) else t.stream
  {
    hide Step, Rank;
  }

  // ----- whole streams -----

  function Start(quiet: bool): Stream {
    Stream(Begin, [], 0, 0, false, [], quiet)
  }

  /** Where the machine may stand between two arrivals. */
  predicate Resting(st: Stream) {
    st.state == Begin || st.state == WaitingForBoundary || st.state == WaitingForChunk || st.state == Finished
    || st.Stopped()
  }

  /** New bytes: appended, and then the machine runs, unless the request has ended. */
  function Arrive(st: Stream, b: Bytes, data: Bytes): (r: Stream)
    requires Valid(st, b) && Resting(st)
    ensures Valid(r, b) && Resting(r)
  {
    if st.state == Finished || st.Stopped() then st
    else
      var longer := st.(io := st.io + data);
      ContinueRests(longer, b);
      Continue(longer, b)
  }

  function ArriveAll(st: Stream, b: Bytes, arrivals: seq<Bytes>): (r: Stream)
    requires Valid(st, b) && Resting(st)
    decreases |arrivals|
  {
    if arrivals == [] then st else ArriveAll(Arrive(st, b, arrivals[0]), b, arrivals[1..])
  }

  lemma ArriveKeeps(st: Stream, b: Bytes, p: Progress, data: Bytes, left: Bytes, target: Seen) returns (q: Progress)
    requires Stands(st, b, p, data + left, target) && Resting(st)
    ensures var r := Arrive(st, b, data);
            && r.quiet == st.quiet && (r.overread <==> st.overread || CutsAhead(b, p, |st.io| + |data|))
            && (!r.Stopped() ==>
                  && Stands(r, b, q, left, target) && |r.io| <= |st.io| + |data|
                  && Shifts(b, p, q, |st.io| + |data| - |r.io|, |r.io|) && (left == [] ==> q == Done))
  {
    hide Find, Ahead, ValidProgress, See, Due, Continue, Shifts;
    q := p;
    if st.state == Finished {
      AheadDone(b, p);
      ShiftsNot(b, p, |st.io|);
    } else {
      var longer := st.(io := st.io + data);
      assert longer.io + left == st.io + (data + left);
      StandsAfterArrival(st, b, p, data, left, target);
      q := ContinueKeeps(longer, b, p, left, target);
    }
  }

  lemma AheadDone(b: Bytes, p: Progress)
    ensures p == Done ==> Ahead(b, p) == []
  {
  }

  lemma StandsAfterArrival(st: Stream, b: Bytes, p: Progress, data: Bytes, left: Bytes, target: Seen)
    requires Stands(st, b, p, data + left, target) && Resting(st)
    ensures Stands(st.(io := st.io + data), b, p, left, target)
  {
    hide Find, Ahead, ValidProgress, See, Due;
    assert st.io + data + left == st.io + (data + left);
  }

  lemma {:induction false} ContinueRests(st: Stream, b: Bytes)
    requires Valid(st, b)
    ensures Resting(Continue(st, b))
    decreases |st.io|, Rank(st.state)
  {
    hide Continue, Find, ScanHeaders;
    ContinueUnfold(st, b);
    var t := Step(st, b);
    if t.more {
      ContinueRests(t.stream, b);
    }
  }

  /** Some arrival ends among the header lines of a part, n bytes having arrived before all of them. */
  predicate CutsAny(b: Bytes, p: Progress, n: nat, arrivals: seq<Bytes>)
    decreases |arrivals|
  {
    arrivals != [] &&
    (CutsAhead(b, p, n + |arrivals[0]|) || CutsAny(b, p, n + |arrivals[0]|, arrivals[1..]))
  }

  lemma CutsAnyUnfold(b: Bytes, p: Progress, n: nat, arrivals: seq<Bytes>)
    ensures CutsAny(b, p, n, arrivals) <==>
            arrivals != [] && (CutsAhead(b, p, n + |arrivals[0]|) || CutsAny(b, p, n + |arrivals[0]|, arrivals[1..]))
  {
    hide CutsAhead;
  }

  lemma {:induction false} CutsAnyShifts(b: Bytes, p: Progress, q: Progress, d: nat, from: nat, n: nat,
      arrivals: seq<Bytes>)
    requires Shifts(b, p, q, d, from) && n >= from
    ensures CutsAny(b, q, n, arrivals) <==> CutsAny(b, p, n + d, arrivals)
    decreases |arrivals|
  {
    hide CutsAhead, CutsAny, Shifts;
    CutsAnyUnfold(b, q, n, arrivals);
    CutsAnyUnfold(b, p, n + d, arrivals);
    if arrivals != [] {
      var m := n + |arrivals[0]|;
      assert m + d == n + d + |arrivals[0]|;
      ShiftsHere(b, p, q, d, from, m);
      CutsAnyShifts(b, p, q, d, from, m, arrivals[1..]);
    }
  }

  /** In terms of the bytes received so far. */
  lemma {:induction false} CutsAnyIs(b: Bytes, p: Progress, n: nat, arrivals: seq<Bytes>)
    ensures CutsAny(b, p, n, arrivals) <==>
            exists k :: 0 < k <= |arrivals| && CutsAhead(b, p, n + |Flatten(arrivals[..k])|)
    decreases |arrivals|
  {
    hide CutsAhead, CutsAny, Flatten;
    CutsAnyUnfold(b, p, n, arrivals);
    if arrivals != [] {
      var m, rest := n + |arrivals[0]|, arrivals[1..];
      CutsAnyIs(b, p, m, rest);
      forall k | 0 < k <= |arrivals|
        ensures n + |Flatten(arrivals[..k])| == m + |Flatten(rest[..k - 1])|
      {
        FlattenCons(arrivals[..k]);
        assert arrivals[..k][1..] == rest[..k - 1];
      }
      FlattenCons<byte>([]);
      assert rest[..0] == [];
      if CutsAhead(b, p, m) {
        assert n + |Flatten(arrivals[..1])| == m;
      }
      if k :| 0 < k <= |rest| && CutsAhead(b, p, m + |Flatten(rest[..k])|) {
        assert n + |Flatten(arrivals[..k + 1])| == m + |Flatten(rest[..k])|;
      }
    }
  }

  lemma {:induction false} ArriveAllKeeps(st: Stream, b: Bytes, p: Progress, arrivals: seq<Bytes>, target: Seen)
    requires Stands(st, b, p, Flatten(arrivals), target) && Resting(st) && (arrivals == [] ==> p == Done)
    ensures Valid(st, b)
    ensures var r := ArriveAll(st, b, arrivals);
            && r.quiet == st.quiet && (r.overread <==> st.overread || CutsAny(b, p, |st.io|, arrivals))
            && (!r.Stopped() ==> Stands(r, b, Done, [], target))
    decreases |arrivals|
  {
    hide *;
    StandsValid(st, b, p, Flatten(arrivals), target);
    FlattenCons(arrivals);
    ArriveAllUnfold(st, b, arrivals);
    CutsAnyUnfold(b, p, |st.io|, arrivals);
    if arrivals != [] {
      var q := ArriveKeeps(st, b, p, arrivals[0], Flatten(arrivals[1..]), target);
      var r := Arrive(st, b, arrivals[0]);
      FlattenCons(arrivals[1..]);
      StoppedIs(r);
      if r.Stopped() {
        OverreadStays(r, b, arrivals[1..]);
      } else {
        ArriveAllKeeps(r, b, q, arrivals[1..], target);
        CutsAnyShifts(b, p, q, |st.io| + |arrivals[0]| - |r.io|, |r.io|, |r.io|, arrivals[1..]);
      }
    }
  }

  lemma StoppedIs(st: Stream)
    ensures st.Stopped() <==> st.overread && !st.quiet
  {
  }

  lemma ArriveAllUnfold(st: Stream, b: Bytes, arrivals: seq<Bytes>)
    requires Valid(st, b) && Resting(st)
    ensures ArriveAll(st, b, arrivals)
         == if arrivals == [] then st else ArriveAll(Arrive(st, b, arrivals[0]), b, arrivals[1..])
  {
    hide Arrive;
  }

  lemma {:induction false} OverreadStays(st: Stream, b: Bytes, arrivals: seq<Bytes>)
    requires Valid(st, b) && st.Stopped() && Resting(st)
    ensures ArriveAll(st, b, arrivals) == st
    decreases |arrivals|
  {
    if arrivals != [] {
      OverreadStays(st, b, arrivals[1..]);
    }
  }

  /** Some arrival ends among the header lines of a part, behind one that is not a disposition. */
  ghost predicate CutsSomeHeader(b: Bytes, intro: Bytes, ps: seq<Part>, arrivals: seq<Bytes>) {
    exists k :: 0 < k <= |arrivals| && CutsHeader(b, ps, |Flatten(arrivals[..k])| - |intro| - 2)
  }

  /**
   Streaming: however a well-formed body is cut into arrivals, the machine looks behind its buffer
   exactly if an arrival ends behind a header line other than Content-Disposition. If it never does,
   or finds no line there, the request ends, every part has been shown between its begin and its
   end, and the data shown for it is its content.
   */
  lemma StreamsWhole(b: Bytes, intro: Bytes, ps: seq<Part>, arrivals: seq<Bytes>, quiet: bool)
    requires ValidBody(b, intro, ps) && Flatten(arrivals) == WireOf(b, intro, ps)
    ensures var r := ArriveAll(Start(quiet), b, arrivals);
            && (r.overread <==> CutsSomeHeader(b, intro, ps, arrivals))
            && (quiet || !r.overread ==>
                  && r.state == Finished && r.io == []
                  && See(NOTHING, r.events) == Seen(Expected(ps), None, true, true))
  {
    hide Find, FromBoundary, ValidParts, See, DueParts, ArriveAll, Expected, Flatten, CutsHeader, CutsAny;
    var p := AtBoundary(intro + DASHES, true, ps);
    var target := Seen(Expected(ps), None, true, true);
    SeeDueParts(NOTHING, ps);
    assert [] + Expected(ps) == Expected(ps) && [] + DueParts(ps) == DueParts(ps);
    assert [] + WireOf(b, intro, ps) == WireOf(b, intro, ps);
    FlattenCons(arrivals);
    ArriveAllKeeps(Start(quiet), b, p, arrivals, target);
    CutsAnyIs(b, p, 0, arrivals);
    CutsAnyAtStart(b, intro, ps, arrivals);
    var r := ArriveAll(Start(quiet), b, arrivals);
    assert r.events + [] == r.events;
  }

  lemma CutsAnyAtStart(b: Bytes, intro: Bytes, ps: seq<Part>, arrivals: seq<Bytes>)
    ensures var p := AtBoundary(intro + DASHES, true, ps);
            CutsSomeHeader(b, intro, ps, arrivals) <==>
            exists k :: 0 < k <= |arrivals| && CutsAhead(b, p, 0 + |Flatten(arrivals[..k])|)
  {
    hide CutsHeader, Flatten;
    var p := AtBoundary(intro + DASHES, true, ps);
    assert |intro + DASHES| == |intro| + 2;
    assert forall k :: 0 < k <= |arrivals| ==>
      CutsAhead(b, p, 0 + |Flatten(arrivals[..k])|) == CutsHeader(b, ps, |Flatten(arrivals[..k])| - |intro| - 2);
  }

  /** Parts with no other lines than Content-Disposition are never cut in the wrong place. */
  lemma {:induction false} DispositionsNeverCut(b: Bytes, ps: seq<Part>, n: int)
    requires forall i, j :: 0 <= i < |ps| && 0 <= j < |ps[i].lines| ==> IsDisposition(ps[i].lines[j])
    ensures !CutsHeader(b, ps, n)
    decreases |ps|
  {
    hide IsDisposition;
    if ps != [] {
      NothingSkipped(ps[0].lines, n - |b| - 2);
      DispositionsNeverCut(b, ps[1..], n - |b| - 2 - (|Flatten(ps[0].lines)| + 2) - |ps[0].content| - 4);
    }
  }

  lemma {:induction false} NothingSkipped(lines: seq<Bytes>, n: int)
    requires forall i :: 0 <= i < |lines| ==> IsDisposition(lines[i])
    ensures !Skipped(lines, n)
    decreases |lines|
  {
    hide IsDisposition;
    if lines != [] {
      NothingSkipped(lines[1..], n - |lines[0]|);
    }
  }

  /** Nor is a body that arrives in one piece. */
  lemma {:induction false} WholeBodyNeverCut(b: Bytes, ps: seq<Part>)
    ensures !CutsHeader(b, ps, |FromBoundary(b, ps)|)
    decreases |ps|
  {
    hide Flatten, Skipped;
    if ps != [] {
      WholeBodyNeverCut(b, ps[1..]);
      assert |PartTail(ps[0])| == 2 + |Flatten(ps[0].lines)| + 2 + |ps[0].content| + 4;
    }
  }

  /**
   The smallest body for which the machine looks behind its buffer: one header line A, and an
   arrival that ends behind it. If no line is found there the body is delivered all the same.
   */
  lemma CutHeaderLooksBehind(quiet: bool)
    ensures var b, ps := [98], [Part([[65, LF]], [])];
            var wire := WireOf(b, [], ps);
            && ValidBody(b, [], ps) && |wire| == 18
            && ArriveAll(Start(quiet), b, [wire[..7], wire[7..]]).overread
            && (quiet ==> See(NOTHING, ArriveAll(Start(quiet), b, [wire[..7], wire[7..]]).events)
                          == Seen([(None, [])], None, true, true))
            && !ArriveAll(Start(quiet), b, [wire]).overread
  {
    hide ArriveAll, ScanHeaders, IsDisposition;
    var b: Bytes, line: Bytes := [98], [65, LF];
    var ps := [Part([line], [])];
    var wire := WireOf(b, [], ps);
    CutBodyIsValid(b, line, ps);
    var cut := [wire[..7], wire[7..]];
    FlattenTwo(wire[..7], wire[7..]);
    assert wire[..7] + wire[7..] == wire;
    StreamsWhole(b, [], ps, cut, quiet);
    CutBodyExpects(line, ps);
    assert CutsHeader(b, ps, 5);
    assert cut[..1] == [wire[..7]];
    FlattenOne(wire[..7]);
    FlattenOne(wire);
    StreamsWhole(b, [], ps, [wire], quiet);
    WholeBodyNeverCut(b, ps);
    assert [wire][..1] == [wire];
  }

  lemma CutBodyIsValid(b: Bytes, line: Bytes, ps: seq<Part>)
    requires b == [98] && line == [65, LF] && ps == [Part([line], [])]
    ensures ValidBody(b, [], ps) && |WireOf(b, [], ps)| == 18 && |FromBoundary(b, ps)| == 16
    ensures !IsDisposition(line) && Flatten([line]) == line
  {
    hide Find;
    FlattenOne(line);
    FindOneByte(CRLF + DASHES, 98);
    FindOneByte(DASHES, 98);
    assert [] + CRLF + DASHES + b == CRLF + DASHES + [98] && [] + DASHES + b == DASHES + [98];
    assert line[1..] == [LF];
    assert ps[1..] == [];
    assert |FromBoundary(b, [])| == 5;
    assert LineLen(line[1..]) == 1;
    assert LineLen(line) == 2 && line[0] != CRLF[0];
    assert ValidPart(b, ps[0]) by {
      assert ps[0].lines == [line];
    }
    assert |PartTail(ps[0])| == 10;
    assert !IsDisposition(line);
  }

  lemma CutBodyExpects(line: Bytes, ps: seq<Part>)
    requires ps == [Part([line], [])] && !IsDisposition(line)
    ensures Expected(ps) == [(None, [])]
  {
    hide IsDisposition;
    var lines := ps[0].lines;
    assert ps[1..] == [] && lines == [line] && lines[1..] == [];
    assert LastValue(lines, None) == LastValue(lines[1..], None) == None;
  }

  lemma FindOneByte(pre: Bytes, c: byte)
    requires c !in pre
    ensures Find(pre + [c], [c]) == Some(|pre|)
  {
    hide Find;
    var s := pre + [c];
    FindIsFirst(s, [c]);
    assert s[|pre|..|pre| + 1] == [c];
    forall j | 0 <= j < |pre|
      ensures !OccursAt(s, [c], j)
    {
      assert s[j..j + 1][0] == pre[j];
    }
  }

  lemma FlattenOne(piece: Bytes)
    ensures Flatten([piece]) == piece
  {
    assert [piece][1..] == [];
  }

  lemma FlattenTwo(a: Bytes, b: Bytes)
    ensures Flatten([a, b]) == a + b
  {
    FlattenOne(b);
    assert [a, b][1..] == [b];
  }

  // ----- forms: parts with one Content-Disposition line each -----

  const FIELD_NAME: Bytes := Ascii("Content-Disposition: ")

  lemma NameIsDisposition()
    ensures |FIELD_NAME| == |DISPOSITION|
    ensures forall i :: 0 <= i < |FIELD_NAME| ==> Lower(FIELD_NAME[i]) == DISPOSITION[i]
    ensures forall i :: 0 <= i < |DISPOSITION| ==> Lower(DISPOSITION[i]) == DISPOSITION[i]
  {
  }

  /** What a part begins with is what stands behind the name of its line, in any spelling of the name. */
  lemma HeaderIsValue(name: Bytes, value: Bytes)
    requires SameText(name, FIELD_NAME)
    ensures IsDisposition(name + value + CRLF) && DispositionValue(name + value + CRLF) == value
    ensures HeaderOf([name + value + CRLF]) == Some(value)
  {
    hide *;
    NameIsDisposition();
    LineIsDisposition(name, value);
    HeaderOfOne(name + value + CRLF);
  }

  lemma LineIsDisposition(name: Bytes, value: Bytes)
    requires SameText(name, FIELD_NAME)
    ensures IsDisposition(name + value + CRLF) && DispositionValue(name + value + CRLF) == value
  {
    NameIsDisposition();
    hide Lower;
    var line := name + value + CRLF;
    assert forall i :: 0 <= i < |DISPOSITION| ==> line[i] == name[i];
    assert line[|DISPOSITION|..|line| - 2] == value;
  }

  /** Which lines these are: the name in any spelling, and at least two bytes behind it. */
  lemma DispositionLines(line: Bytes)
    ensures IsDisposition(line) <==> |line| >= 23 && SameText(line[..21], FIELD_NAME)
  {
    NameIsDisposition();
    hide Lower;
  }

  lemma HeaderOfOne(line: Bytes)
    requires IsDisposition(line)
    ensures HeaderOf([line]) == Some(DispositionValue(line))
  {
    hide IsDisposition, DispositionValue;
    assert [line][1..] == [];
    assert LastValue([line], None) == LastValue([], Some(DispositionValue(line)));
  }

  /** The part a browser sends for a field with this value and content. */
  function FieldPart(field: (Bytes, Bytes)): Part {
    Part([FIELD_NAME + field.0 + CRLF], field.1)
  }

  function FormParts(fields: seq<(Bytes, Bytes)>): (ps: seq<Part>)
    ensures |ps| == |fields| && forall i :: 0 <= i < |ps| ==> ps[i] == FieldPart(fields[i])
  {
    seq(|fields|, i requires 0 <= i < |fields| => FieldPart(fields[i]))
  }

  function FieldsSeen(fields: seq<(Bytes, Bytes)>): (seen: seq<(Option<Bytes>, Bytes)>)
    ensures |seen| == |fields| && forall i :: 0 <= i < |seen| ==> seen[i] == (Some(fields[i].0), fields[i].1)
  {
    seq(|fields|, i requires 0 <= i < |fields| => (Some(fields[i].0), fields[i].1))
  }

  lemma {:induction false} FormExpects(fields: seq<(Bytes, Bytes)>)
    ensures Expected(FormParts(fields)) == FieldsSeen(fields)
    decreases |fields|
  {
    hide HeaderOf;
    var ps := FormParts(fields);
    if fields != [] {
      HeaderIsValue(FIELD_NAME, fields[0].0);
      FormExpects(fields[1..]);
      assert ps[1..] == FormParts(fields[1..]);
      assert FieldsSeen(fields) == [(Some(fields[0].0), fields[0].1)] + FieldsSeen(fields[1..]);
    }
  }

  /** A form is delivered whole, field by field, however it is cut and whatever stands behind the buffer. */
  lemma FormStreams(b: Bytes, intro: Bytes, fields: seq<(Bytes, Bytes)>, arrivals: seq<Bytes>, quiet: bool)
    requires var ps := FormParts(fields); ValidBody(b, intro, ps) && Flatten(arrivals) == WireOf(b, intro, ps)
    ensures var r := ArriveAll(Start(quiet), b, arrivals);
            && !r.overread && r.state == Finished && r.io == []
            && See(NOTHING, r.events) == Seen(FieldsSeen(fields), None, true, true)
  {
    hide *;
    var ps := FormParts(fields);
    StreamsWhole(b, intro, ps, arrivals, quiet);
    FormExpects(fields);
    FormIsDispositions(fields);
    FormNeverCut(b, intro, ps, arrivals);
  }

  lemma FormIsDispositions(fields: seq<(Bytes, Bytes)>)
    ensures forall i, j :: 0 <= i < |FormParts(fields)| && 0 <= j < |FormParts(fields)[i].lines| ==>
              IsDisposition(FormParts(fields)[i].lines[j])
  {
    hide IsDisposition;
    forall i | 0 <= i < |fields|
      ensures IsDisposition(FIELD_NAME + fields[i].0 + CRLF)
    {
      HeaderIsValue(FIELD_NAME, fields[i].0);
    }
  }

  lemma FormNeverCut(b: Bytes, intro: Bytes, ps: seq<Part>, arrivals: seq<Bytes>)
    requires forall i, j :: 0 <= i < |ps| && 0 <= j < |ps[i].lines| ==> IsDisposition(ps[i].lines[j])
    ensures !CutsSomeHeader(b, intro, ps, arrivals)
  {
    hide IsDisposition, CutsHeader, Flatten;
    forall n: int
      ensures !CutsHeader(b, ps, n)
    {
      DispositionsNeverCut(b, ps, n);
    }
  }

  /** The bytes of a form with one field. */
  lemma FormOnTheWire(b: Bytes, value: Bytes, content: Bytes)
    ensures DASHES == Ascii("--") && CRLF == Ascii("\r\n")
    ensures WireOf(b, [], FormParts([(value, content)]))
         == (DASHES + b + CRLF) + (FIELD_NAME + value + CRLF) + CRLF + (content + CRLF) + (DASHES + b + DASHES + CRLF)
  {
    var ps := FormParts([(value, content)]);
    var line := FIELD_NAME + value + CRLF;
    FlattenOne(line);
    assert ps == [Part([line], content)] && ps[1..] == [];
    assert FromBoundary(b, []) == b + (DASHES + CRLF);
    OneFieldJoined(b, line, content);
  }

  lemma OneFieldJoined(b: Bytes, line: Bytes, content: Bytes)
    ensures [] + DASHES + (b + (CRLF + (line + CRLF + (content + CRLF + DASHES)) + (b + (DASHES + CRLF))))
         == (DASHES + b + CRLF) + line + CRLF + (content + CRLF) + (DASHES + b + DASHES + CRLF)
  {
  }
}
