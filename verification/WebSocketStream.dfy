/**
 Streams of WebSocket messages, whole or in fragments (section 5.4 of RFC 6455), and what one
 delivery does to the buffer of a connection.
 */
module WebSocketStream {
  import opened Bytes
  import opened WebSocketFrame

  // ----- one delivery -----

  const SIZE_AT: nat := 1     // a 4-byte size behind byte 0
  const DATA_AT: nat := 5     // then the data accumulated so far

  /** The bytes of an unsigned on a little-endian host. */
  function SizeBytes(n: u32): (s: Bytes)
    ensures |s| == 4
  {
    [n % 256, n / 256 % 256, n / 0x1_0000 % 256, n / 0x100_0000]
  }

  function SizeOf(s: Bytes): u32
    requires |s| >= 4
  {
    s[0] as int + s[1] as int * 256 + s[2] as int * 0x1_0000 + s[3] as int * 0x100_0000
  }

  lemma SizeRoundTrip(n: u32)
    ensures SizeOf(SizeBytes(n)) == n
  {
    FourDigits(n);
    assert n / 0x100_0000 < 256;
  }

  datatype Message = Message(flags: byte, data: Bytes)

  datatype Delivery = Delivery(ok: bool, rest: Bytes, event: Option<Message>)

  predicate Reassembles(c: Bytes, noDefrag: bool) {
    c != [] && IsFragment(c[0]) && !noDefrag
  }

  /** Where the next frame starts: behind byte 0, the size and the data of a message in progress. */
  function FrameAt(c: Bytes, noDefrag: bool): (at: nat)
    ensures at <= |c| && (at == 0 || at >= DATA_AT)
  {
    if Reassembles(c, noDefrag) && !IsFirstFragment(c[0]) && |c| >= DATA_AT
       && |c| >= DATA_AT + SizeOf(c[SIZE_AT..])
    then DATA_AT + SizeOf(c[SIZE_AT..]) else 0
  }

  /** A continuation frame follows the message in progress that it continues. */
  predicate InOrder(c: Bytes, noDefrag: bool) {
    var at := FrameAt(c, noDefrag);
    Reassembles(c, noDefrag) && Complete(c[at..]) && !IsFirstFragment(c[at]) ==> at > 0
  }

  /**
   Clearing the size field of a first fragment also clears whatever of the bytes t, which start at
   src, lies in front of the data.
   */
  function Stomped(src: nat, t: Bytes): (r: Bytes)
    ensures |r| == |t|
  {
    var room := if src < DATA_AT then DATA_AT - src else 0;
    var k := if room < |t| then room else |t|;
    seq(k, _ => 0) + t[k..]
  }

  /** Nothing is lost exactly when those bytes were zero anyway. */
  lemma StompedExactly(src: nat, t: Bytes)
    ensures Stomped(src, t) == t <==> forall i :: 0 <= i < |t| && src + i < DATA_AT ==> t[i] == 0
  {
    var r := Stomped(src, t);
    assert forall i :: 0 <= i < |t| ==> r[i] == if src + i < DATA_AT then 0 else t[i];
  }

  /** mg_deliver_websocket_data on the whole content of the buffer. */
  function Deliver(c: Bytes, noDefrag: bool): (d: Delivery)
    requires InOrder(c, noDefrag)
    ensures !d.ok ==> d.rest == c && d.event == None
  {
    var at := FrameAt(c, noDefrag);
    var b := c[at..];
    if !Complete(b) then Delivery(false, c, None)
    else
      var flags, payload := b[0], ReadPayload(b);
      var rest := b[ReadLayout(b).headerLen + ReadLayout(b).dataLen..];
      if !Reassembles(c, noDefrag) then Delivery(true, rest, Some(Message(flags, payload)))
      else if IsFirstFragment(flags) then
        var kept := Stomped(at + ReadLayout(b).headerLen, payload + rest);
        Delivery(true, [c[0] - c[0] % 16] + SizeBytes(|payload| % 0x1_0000_0000) + kept, None)
      else
        var data := c[DATA_AT..at] + payload;
        if flags < 0x80 then Delivery(true, Held(c[0], data) + rest, None)
        else
          var tail := data + rest;
          var size := |data| % 0x1_0000_0000;
          Delivery(true, tail[size..], Some(Message(flags, tail[..size])))
  }

  /** How a message in progress is kept: byte 0, the size, the data. */
  function Held(head: byte, data: Bytes): Bytes {
    [head] + SizeBytes(|data| % 0x1_0000_0000) + data
  }

  lemma HeldIs(head: byte, data: Bytes, rest: Bytes)
    ensures [head] + SizeBytes(|data| % 0x1_0000_0000) + (data + rest) == Held(head, data) + rest
  {
    hide SizeBytes;
  }

  lemma HeldFrameAt(head: byte, data: Bytes, b: Bytes)
    requires IsFragment(head) && !IsFirstFragment(head) && |data| < 0x1_0000_0000
    ensures var c := Held(head, data) + b;
            && Reassembles(c, false) && FrameAt(c, false) == DATA_AT + |data|
            && c[FrameAt(c, false)..] == b && c[DATA_AT..FrameAt(c, false)] == data && c[0] == head
  {
    hide SizeBytes, SizeOf;
    var c := Held(head, data) + b;
    SizeRoundTrip(|data|);
    SizeOfPrefix(SizeBytes(|data|), data + b);
    assert c[SIZE_AT..] == SizeBytes(|data|) + (data + b);
  }

  lemma SizeOfPrefix(s: Bytes, t: Bytes)
    requires |s| == 4
    ensures SizeOf(s + t) == SizeOf(s)
  {
  }

  // ----- streams of messages -----

  /**
   What a peer sends: single frames, control frames among them, and messages in fragments. Only the first fragment
   needs a header of five bytes or more, which every masked frame has.
   */
  datatype Sent = Whole(frame: Frame) | Fragmented(first: Frame, rest: seq<Frame>)

  predicate IsMiddle(f: Frame) {
    f.Valid() && f.flags < 0x80 && f.flags % 16 == 0
  }

  predicate IsLast(f: Frame) {
    f.Valid() && f.flags >= 0x80 && f.flags % 16 == 0
  }

  /** Continuation frames, the last of them final. */
  predicate Continues(frames: seq<Frame>) {
    && frames != []
    && IsLast(frames[|frames| - 1])
    && forall i :: 0 <= i < |frames| - 1 ==> IsMiddle(frames[i])
  }

  function PayloadOf(frames: seq<Frame>): Bytes {
    if frames == [] then [] else frames[0].payload + PayloadOf(frames[1..])
  }

  predicate ValidSent(m: Sent) {
    match m
    case Whole(f) => f.Valid() && !IsFragment(f.flags)
    case Fragmented(f, rest) =>
      && f.Valid() && IsFirstFragment(f.flags) && |f.Header()| >= DATA_AT
      && Continues(rest)
      && |f.payload + PayloadOf(rest)| < 0x1_0000_0000
  }

  function WireOfFrames(frames: seq<Frame>): Bytes
    requires forall i :: 0 <= i < |frames| ==> frames[i].Valid()
  {
    if frames == [] then [] else frames[0].Wire() + WireOfFrames(frames[1..])
  }

  function WireOfSent(m: Sent): Bytes
    requires ValidSent(m)
  {
    match m
    case Whole(f) => f.Wire()
    case Fragmented(f, rest) => f.Wire() + WireOfFrames(rest)
  }

  /** The one message the handler is to see. */
  function Received(m: Sent): Message
    requires ValidSent(m)
  {
    match m
    case Whole(f) => Message(f.flags, f.payload)
    case Fragmented(f, rest) => Message(rest[|rest| - 1].flags, f.payload + PayloadOf(rest))
  }

  predicate AllValid(ms: seq<Sent>) {
    forall i :: 0 <= i < |ms| ==> ValidSent(ms[i])
  }

  function WireOf(ms: seq<Sent>): Bytes
    requires AllValid(ms)
  {
    if ms == [] then [] else WireOfSent(ms[0]) + WireOf(ms[1..])
  }

  function ReceivedAll(ms: seq<Sent>): seq<Message>
    requires AllValid(ms)
  {
    if ms == [] then [] else [Received(ms[0])] + ReceivedAll(ms[1..])
  }

  /** Where the receiver stands: between messages, or inside one whose fragments so far carried acc. */
  datatype Progress = Between(ms: seq<Sent>) | Inside(head: byte, acc: Bytes, frames: seq<Frame>, ms: seq<Sent>)

  predicate ValidProgress(p: Progress) {
    && AllValid(p.ms)
    && (p.Inside? ==>
          && IsFragment(p.head) && !IsFirstFragment(p.head) && Continues(p.frames)
          && |p.acc + PayloadOf(p.frames)| < 0x1_0000_0000)
  }

  /** The bytes the receiver keeps for the message in progress. */
  function Kept(p: Progress): Bytes {
    if p.Between? then [] else Held(p.head, p.acc)
  }

  /** The bytes still to be decoded. */
  function Ahead(p: Progress): Bytes
    requires ValidProgress(p)
  {
    if p.Between? then WireOf(p.ms) else WireOfFrames(p.frames) + WireOf(p.ms)
  }

  /** The messages still to be delivered. */
  function Due(p: Progress): seq<Message>
    requires ValidProgress(p)
  {
    if p.Between? then ReceivedAll(p.ms)
    else [Message(p.frames[|p.frames| - 1].flags, p.acc + PayloadOf(p.frames))] + ReceivedAll(p.ms)
  }

  predicate HasNext(p: Progress) {
    p.Inside? || p.ms != []
  }

  /** The frame that comes next. */
  function NextFrame(p: Progress): Frame
    requires ValidProgress(p) && HasNext(p)
  {
    if p.Inside? then p.frames[0] else if p.ms[0].Whole? then p.ms[0].frame else p.ms[0].first
  }

  /** Whether the next frame completes a message, and which. */
  predicate Finishes(p: Progress)
    requires ValidProgress(p) && HasNext(p)
  {
    if p.Between? then p.ms[0].Whole? else |p.frames| == 1
  }

  function NextMessage(p: Progress): Message
    requires ValidProgress(p) && HasNext(p) && Finishes(p)
  {
    Message(NextFrame(p).flags, (if p.Between? then [] else p.acc) + NextFrame(p).payload)
  }

  /** Progress once the next frame has been taken. */
  function Advance(p: Progress): (q: Progress)
    requires ValidProgress(p) && HasNext(p)
  {
    match p
    case Between(ms) =>
      (match ms[0]
       case Whole(f) => Between(ms[1..])
       case Fragmented(f, rest) => Inside(f.flags - f.flags % 16, f.payload, rest, ms[1..]))
    case Inside(head, acc, frames, ms) =>
      if |frames| == 1 then Between(ms) else Inside(head, acc + frames[0].payload, frames[1..], ms)
  }

  // ----- what one delivery does to a well-formed stream -----

  lemma DeliverWhole(f: Frame, rest: Bytes)
    requires f.Valid() && !IsFragment(f.flags)
    ensures var c := f.Wire() + rest;
            InOrder(c, false) && Deliver(c, false) == Delivery(true, rest, Some(Message(f.flags, f.payload)))
  {
    hide ReadLayout, ReadPayload, Complete;
    var c := f.Wire() + rest;
    ReadFrame(f, rest);
    assert c[0] == f.flags;
    assert c[0..] == c;
    assert c[|f.Wire()|..] == rest;
  }

  lemma DeliverFirst(f: Frame, rest: Bytes)
    requires f.Valid() && IsFirstFragment(f.flags) && |f.Header()| >= DATA_AT
    ensures var c := f.Wire() + rest;
            && InOrder(c, false)
            && Deliver(c, false) == Delivery(true, Held(f.flags - f.flags % 16, f.payload) + rest, None)
  {
    hide ReadLayout, ReadPayload, Complete, SizeOf, SizeBytes, Held, Stomped;
    var c := f.Wire() + rest;
    ReadFrame(f, rest);
    assert c[0] == f.flags;
    assert c[0..] == c;
    assert c[|f.Wire()|..] == rest;
    StompedExactly(|f.Header()|, f.payload + rest);
    HeldIs(f.flags - f.flags % 16, f.payload, rest);
  }

  /**
   A first fragment is stored whole, and what follows it survives, exactly when the bytes between
   its header and the end of the size field are zero. With five bytes of header there are none.
   */
  lemma FirstFragmentKept(c: Bytes)
    requires Reassembles(c, false) && IsFirstFragment(c[0]) && Complete(c)
    ensures var l := ReadLayout(c);
            && InOrder(c, false)
            && (Deliver(c, false).rest ==
                Held(c[0] - c[0] % 16, ReadPayload(c)) + c[l.headerLen + l.dataLen..]
                <==> forall i :: l.headerLen <= i < |c| && i < DATA_AT ==> c[i] == 0)
  {
    hide ReadLayout, ReadPayload, Complete, SizeOf, SizeBytes, Held, Stomped;
    var l, head := ReadLayout(c), c[0] - c[0] % 16;
    assert c[0..] == c;
    CompleteHasHeader(c);
    var t := ReadPayload(c) + c[l.headerLen + l.dataLen..];
    HeldIs(head, ReadPayload(c), c[l.headerLen + l.dataLen..]);
    SameFront([head] + SizeBytes(|ReadPayload(c)| % 0x1_0000_0000), Stomped(l.headerLen, t), t);
    StompedExactly(l.headerLen, t);
    if l.headerLen < DATA_AT {
      ShortHeaderIsUnmasked(c);
      ZerosShift(c, l.headerLen);
    }
  }

  lemma SameFront(front: Bytes, s: Bytes, t: Bytes)
    ensures front + s == front + t <==> s == t
  {
    assert (front + s)[|front|..] == s && (front + t)[|front|..] == t;
  }

  lemma ZerosShift(c: Bytes, at: nat)
    requires at <= |c|
    ensures (forall i :: 0 <= i < |c[at..]| && at + i < DATA_AT ==> c[at..][i] == 0)
            <==> forall i :: at <= i < |c| && i < DATA_AT ==> c[i] == 0
  {
    if forall i :: 0 <= i < |c[at..]| && at + i < DATA_AT ==> c[at..][i] == 0 {
      forall i | at <= i < |c| && i < DATA_AT
        ensures c[i] == 0
      {
        assert c[at..][i - at] == 0;
      }
    }
  }

  lemma ShortHeaderIsUnmasked(b: Bytes)
    requires Complete(b)
    ensures ReadLayout(b).headerLen < DATA_AT ==>
              ReadPayload(b) + b[ReadLayout(b).headerLen + ReadLayout(b).dataLen..] == b[ReadLayout(b).headerLen..]
  {
    hide FromBigEndian, Mask;
    CompleteHasHeader(b);
  }

  /** Three letters in an unmasked first fragment: all of them are lost. */
  lemma ShortFirstFragmentIsLost()
    ensures var c: Bytes := [1, 3, 72, 101, 121];
            Reassembles(c, false) && InOrder(c, false) && Complete(c) && ReadPayload(c) == [72, 101, 121]
            && Deliver(c, false) == Delivery(true, Held(0, [0, 0, 0]), None)
  {
    var c: Bytes := [1, 3, 72, 101, 121];
    assert c[0..] == c && c[5..] == [] && c[2..5] == [72, 101, 121];
    assert ReadPayload(c) == [72, 101, 121];
    hide SizeBytes;
    assert Stomped(2, [72, 101, 121] + []) == [0, 0, 0];
    assert [0] + SizeBytes(3) + [0, 0, 0] == Held(0, [0, 0, 0]);
  }

  lemma DeliverNext(head: byte, acc: Bytes, f: Frame, rest: Bytes)
    requires IsFragment(head) && !IsFirstFragment(head)
    requires f.Valid() && f.flags % 16 == 0 && |acc + f.payload| < 0x1_0000_0000
    ensures var c := Held(head, acc) + (f.Wire() + rest);
            && InOrder(c, false)
            && Deliver(c, false) ==
                 if f.flags < 0x80 then Delivery(true, Held(head, acc + f.payload) + rest, None)
                 else Delivery(true, rest, Some(Message(f.flags, acc + f.payload)))
  {
    hide ReadLayout, ReadPayload, Complete, SizeOf, Held, FrameAt;
    var b := f.Wire() + rest;
    HeldFrameAt(head, acc, b);
    ReadFrame(f, rest);
    assert b[0] == f.flags;
    assert b[|f.Wire()|..] == rest;
    var data := acc + f.payload;
    assert (data + rest)[..|data|] == data && (data + rest)[|data|..] == rest;
  }

  lemma WaitBetween(u: Bytes)
    requires !Complete(u)
    requires u == [] || !IsFragment(u[0]) || IsFirstFragment(u[0])
    ensures InOrder(u, false) && !Deliver(u, false).ok
  {
    hide Complete;
    assert u[0..] == u;
  }

  lemma WaitInside(head: byte, acc: Bytes, u: Bytes)
    requires IsFragment(head) && !IsFirstFragment(head) && |acc| < 0x1_0000_0000 && !Complete(u)
    ensures InOrder(Held(head, acc) + u, false) && !Deliver(Held(head, acc) + u, false).ok
  {
    hide Complete, FrameAt, Held;
    HeldFrameAt(head, acc, u);
  }

  // ----- progress -----

  lemma ContinuesTail(frames: seq<Frame>)
    requires Continues(frames)
    ensures frames != [] && frames[0].Valid() && frames[0].flags % 16 == 0
    ensures |frames| == 1 <==> frames[0].flags >= 0x80
    ensures |frames| > 1 ==> Continues(frames[1..])
    ensures forall i :: 0 <= i < |frames| ==> frames[i].Valid()
  {
    if |frames| > 1 {
      assert IsMiddle(frames[0]);
      var t := frames[1..];
      assert t[|t| - 1] == frames[|frames| - 1];
      assert forall i :: 0 <= i < |t| - 1 ==> t[i] == frames[i + 1];
    }
  }

  /** The next frame stands in front of what is ahead, and taking it keeps the progress valid. */
  lemma AdvanceTakesFrame(p: Progress)
    requires ValidProgress(p) && HasNext(p)
    ensures NextFrame(p).Valid() && ValidProgress(Advance(p))
    ensures Ahead(p) == NextFrame(p).Wire() + Ahead(Advance(p))
  {
    hide WireOfFrames, WireOf, Continues, PayloadOf, Frame.Wire, Frame.Valid;
    match p
    case Between(ms) =>
      WireOfCons(ms);
      AdvanceFromBetween(ms);
    case Inside(head, acc, frames, ms) =>
      ContinuesTail(frames);
      WireOfFramesCons(frames);
      PayloadOfCons(frames);
      assert acc + frames[0].payload + PayloadOf(frames[1..]) == acc + PayloadOf(frames);
  }

  lemma AdvanceFromBetween(ms: seq<Sent>)
    requires AllValid(ms) && ms != []
    ensures NextFrame(Between(ms)).Valid() && ValidProgress(Advance(Between(ms)))
    ensures WireOfSent(ms[0]) + WireOf(ms[1..]) == NextFrame(Between(ms)).Wire() + Ahead(Advance(Between(ms)))
  {
    hide WireOfFrames, WireOf, Continues, PayloadOf, Frame.Wire, Frame.Valid, Frame.Header;
    assert ValidSent(ms[0]);
  }

  lemma WireOfCons(ms: seq<Sent>)
    requires AllValid(ms)
    ensures ms == [] ==> WireOf(ms) == []
    ensures ms != [] ==> AllValid(ms[1..]) && WireOf(ms) == WireOfSent(ms[0]) + WireOf(ms[1..])
    ensures ms != [] ==> ReceivedAll(ms) == [Received(ms[0])] + ReceivedAll(ms[1..])
  {
  }

  lemma WireOfFramesCons(frames: seq<Frame>)
    requires forall i :: 0 <= i < |frames| ==> frames[i].Valid()
    ensures frames != [] ==> WireOfFrames(frames) == frames[0].Wire() + WireOfFrames(frames[1..])
    ensures |frames| == 1 ==> WireOfFrames(frames) == frames[0].Wire()
  {
  }

  lemma PayloadOfCons(frames: seq<Frame>)
    requires frames != []
    ensures PayloadOf(frames) == frames[0].payload + PayloadOf(frames[1..])
    ensures |frames| == 1 ==> PayloadOf(frames) == frames[0].payload
  {
  }

  /** A delivery takes off what was due, or leaves it as it was. */
  lemma AdvanceDue(p: Progress)
    requires ValidProgress(p) && HasNext(p) && ValidProgress(Advance(p))
    ensures Due(p) == (if Finishes(p) then [NextMessage(p)] else []) + Due(Advance(p))
  {
    hide WireOfFrames, WireOf, ReceivedAll, PayloadOf, Continues;
    assert [] + Due(Advance(p)) == Due(Advance(p));
    match p
    case Between(ms) =>
      WireOfCons(ms);
      assert [] + NextFrame(p).payload == NextFrame(p).payload;
    case Inside(head, acc, frames, ms) =>
      ContinuesTail(frames);
      PayloadOfCons(frames);
      if |frames| > 1 {
        assert acc + frames[0].payload + PayloadOf(frames[1..]) == acc + PayloadOf(frames);
      }
  }

  /** Delivery on a buffer that holds the next frame whole: one step of progress. */
  lemma DeliverAdvances(p: Progress, rest: Bytes)
    requires ValidProgress(p) && HasNext(p)
    ensures var f, q := NextFrame(p), Advance(p);
            var c := Kept(p) + (f.Wire() + rest);
            && InOrder(c, false)
            && Deliver(c, false) ==
                 Delivery(true, Kept(q) + rest, if Finishes(p) then Some(NextMessage(p)) else None)
  {
    hide Deliver, InOrder, Held, WireOfFrames, WireOf, PayloadOf, Continues;
    AdvanceTakesFrame(p);
    var f := NextFrame(p);
    assert [] + (f.Wire() + rest) == f.Wire() + rest && [] + rest == rest && [] + f.payload == f.payload;
    match p
    case Between(ms) =>
      if ms[0].Whole? {
        DeliverWhole(f, rest);
      } else {
        DeliverFirst(f, rest);
      }
    case Inside(head, acc, frames, ms) =>
      ContinuesTail(frames);
      PayloadOfCons(frames);
      DeliverNext(head, acc, f, rest);
  }

  /** Delivery on a buffer that lacks bytes of the next frame: nothing happens. */
  lemma DeliverWaits(p: Progress, u: Bytes, missing: Bytes)
    requires ValidProgress(p)
    requires if !HasNext(p) then u == [] else u + missing == NextFrame(p).Wire() && missing != []
    ensures InOrder(Kept(p) + u, false) && !Deliver(Kept(p) + u, false).ok
  {
    hide Deliver, InOrder, Held, Complete, WireOfFrames, PayloadOf;
    assert [] + u == u;
    if !HasNext(p) {
      NothingComplete();
      WaitBetween(u);
    } else {
      AdvanceTakesFrame(p);
      IncompleteFrame(NextFrame(p), u, missing);
      if p.Between? {
        assert u != [] ==> u[0] == NextFrame(p).Wire()[0];
        WaitBetween(u);
      } else {
        WaitInside(p.head, p.acc, u);
      }
    }
  }

  lemma NothingComplete()
    ensures !Complete([])
  {
  }

  /** Nothing is ahead exactly when everything has been delivered. */
  lemma NothingAhead(p: Progress)
    requires ValidProgress(p)
    ensures HasNext(p) <==> Ahead(p) != []
    ensures !HasNext(p) ==> p == Between([]) && Due(p) == []
  {
    if HasNext(p) {
      AdvanceTakesFrame(p);
    }
  }

  /** The two frames of section 5.7 of RFC 6455 that hold a whole "Hello". */
  lemma HelloDelivered()
    ensures Deliver([0x81, 0x05, 0x48, 0x65, 0x6c, 0x6c, 0x6f], false)
         == Delivery(true, [], Some(Message(0x81, Ascii("Hello"))))
    ensures Deliver([0x81, 0x85, 0x37, 0xfa, 0x21, 0x3d, 0x7f, 0x9f, 0x4d, 0x51, 0x58], false)
         == Delivery(true, [], Some(Message(0x81, Ascii("Hello"))))
  {
    hide Deliver, InOrder, Frame.Wire;
    HelloFrames();
    var plain := Frame(0x81, Short, None, HELLO);
    var masked := Frame(0x81, Short, Some([0x37, 0xfa, 0x21, 0x3d]), HELLO);
    DeliverWhole(plain, []);
    DeliverWhole(masked, []);
    assert plain.Wire() + [] == plain.Wire() && masked.Wire() + [] == masked.Wire();
  }
}
