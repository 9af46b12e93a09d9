/** The WebSocket connection: fragments are unmasked and reassembled inside its receive buffer. */
module WebSocketConnection {
  import opened Bytes
  import opened MbufModule
  import opened WebSocketFrame
  import opened WebSocketStream

  // ----- the connection -----

  method ReadLayoutAt(io: Mbuf, at: nat) returns (l: Layout)
    requires io.Valid() && at <= io.len
    ensures l == ReadLayout(io.Contents[at..])
  {
    hide FromBigEndian, Mbuf.Valid;
    ghost var b := io.Contents[at..];
    var bufLen := io.len - at;
    l := Layout(0, 0, 0);
    if bufLen >= 2 {
      var len := io.At(at + 1) % 128;
      var maskLen := if io.At(at + 1) >= 128 then 4 else 0;
      l := Layout(0, maskLen, 0);
      if len < 126 && bufLen >= maskLen {
        l := Layout(2 + maskLen, maskLen, len);
      } else if len == 126 && bufLen >= 4 + maskLen {
        var field := io.Slice(at + 2, at + 4);
        assert field == b[2..4];
        l := Layout(4 + maskLen, maskLen, FromBigEndian(field));
      } else if bufLen >= 10 + maskLen {
        var field := io.Slice(at + 2, at + 10);
        assert field == b[2..10];
        l := Layout(10 + maskLen, maskLen, FromBigEndian(field));
      }
    }
  }

  /** The mask loop: the payload is unmasked where it lies, with the key just in front of it. */
  method Unmask(io: Mbuf, src: nat, n: nat)
    requires io.Valid() && 4 <= src && src + n <= io.len
    modifies io`Contents, io.buf
    ensures io.Valid()
    ensures var was := old(io.Contents);
            io.Contents == Overwrite(was, src, Mask(was[src - 4..src], was[src..src + n]))
  {
    hide Mbuf.Valid, Mask, Xor, Overwrite;
    ghost var was := io.Contents;
    ghost var key, data := was[src - 4..src], was[src..src + n];
    ghost var masked := Mask(key, data);
    assert masked[..0] == [];
    OverwriteNothing(was, src);
    for i := 0 to n
      invariant io.Valid() && |io.Contents| == |was|
      invariant io.Contents == Overwrite(was, src, masked[..i])
    {
      MaskStep(was, src, key, data, masked[..i], i);
      MaskAt(key, data, i);
      io.Set(src + i, Xor(io.At(src + i), io.At(src - 4 + i % 4)));
      assert masked[..i] + [masked[i]] == masked[..i + 1];
    }
    assert masked[..n] == masked;
  }

  lemma MaskAt(key: Bytes, data: Bytes, i: nat)
    requires |key| == 4 && i < |data|
    ensures Mask(key, data)[i] == Xor(data[i], key[i % 4])
  {
  }

  lemma MaskStep(was: Bytes, src: nat, key: Bytes, data: Bytes, done: Bytes, i: nat)
    requires 4 <= src && src + |data| <= |was| && i < |data| && |done| == i
    requires key == was[src - 4..src] && data == was[src..src + |data|]
    ensures var cur := Overwrite(was, src, done);
            && cur[src + i] == data[i] && cur[src - 4 + i % 4] == key[i % 4]
            && forall x :: cur[src + i := x] == Overwrite(was, src, done + [x])
  {
  }

  lemma FirstInPlace(was: Bytes, room: Bytes, src: nat, head: byte, zero: Bytes, size: Bytes)
    requires 0 < src <= |was| && |was| + |room| >= DATA_AT + (|was| - src)
    requires |zero| == |size| == 4 && forall i :: 0 <= i < 4 ==> zero[i] == 0
    ensures var cleared := Overwrite<byte>((was + room)[0 := head], SIZE_AT, zero);
            var moved := Overwrite<byte>(cleared, DATA_AT, cleared[src..src + (|was| - src)]);
            Overwrite<byte>(moved, SIZE_AT, size)[..DATA_AT + |was| - src] == [head] + size + Stomped(src, was[src..])
  {
    var n := |was| - src;
    var all: Bytes := (was + room)[0 := head];
    ClearedIsStomped(was, room, src, head, zero);
    var cleared: Bytes := Overwrite(all, SIZE_AT, zero);
    assert cleared[0] == head;
    hide Overwrite, Stomped;
    var kept: Bytes := Stomped(src, was[src..]);
    var moved: Bytes := Overwrite(cleared, DATA_AT, kept);
    OverwriteEnds(cleared, DATA_AT, kept, |cleared|);
    assert moved[..DATA_AT + n] == cleared[..DATA_AT] + kept;
    assert moved[0] == moved[..DATA_AT + n][0] == cleared[0];
    assert moved[DATA_AT..DATA_AT + n] == moved[..DATA_AT + n][DATA_AT..] == kept;
    OverwriteFront(moved, head, size, kept);
  }

  lemma ClearedIsStomped(was: Bytes, room: Bytes, src: nat, head: byte, zero: Bytes)
    requires 0 < src <= |was| && |was| + |room| >= DATA_AT + (|was| - src)
    requires |zero| == 4 && forall i :: 0 <= i < 4 ==> zero[i] == 0
    ensures Overwrite((was + room)[0 := head], SIZE_AT, zero)[src..src + (|was| - src)] == Stomped(src, was[src..])
  {
    var all: Bytes := (was + room)[0 := head];
    var cleared: Bytes := Overwrite(all, SIZE_AT, zero);
    var x, y := cleared[src..src + (|was| - src)], Stomped(src, was[src..]);
    forall i | 0 <= i < |was| - src
      ensures x[i] == y[i]
    {
      assert cleared[src + i] == if src + i < DATA_AT then 0 else was[src + i];
    }
    assert x == y;
  }

  lemma OverwriteFront(moved: Bytes, head: byte, size: Bytes, tail: Bytes)
    requires |size| == 4 && |moved| >= DATA_AT + |tail|
    requires moved[0] == head && moved[DATA_AT..DATA_AT + |tail|] == tail
    ensures Overwrite(moved, SIZE_AT, size)[..DATA_AT + |tail|] == [head] + size + tail
  {
    var r := Overwrite(moved, SIZE_AT, size);
    assert r[..DATA_AT + |tail|] == r[..1] + r[1..5] + r[5..DATA_AT + |tail|];
  }

  lemma NextInPlace(was: Bytes, at: nat, src: nat, moved: Bytes, size: Bytes)
    requires DATA_AT <= at <= src <= |was|
    requires moved == Overwrite(was, at, was[src..])
    ensures moved[SIZE_AT..DATA_AT] == was[SIZE_AT..DATA_AT]
    ensures |size| == 4 ==>
              Overwrite(moved, SIZE_AT, size)[..at + |was| - src] == [was[0]] + size + was[DATA_AT..at] + was[src..]
  {
    if |size| == 4 {
      var tail := was[DATA_AT..at] + was[src..];
      assert moved[DATA_AT..DATA_AT + |tail|] == tail;
      hide Overwrite;
      OverwriteFront(moved, was[0], size, tail);
    }
  }

  class WsConnection {
    const recv: Mbuf
    const noDefrag: bool            // MG_F_WEBSOCKET_NO_DEFRAG
    var events: seq<Message>        // what the handler has been shown

    constructor (noDefrag: bool)
      ensures recv.Valid() && fresh(recv) && fresh(recv.buf) && recv.Contents == [] && events == []
      ensures this.noDefrag == noDefrag
    {
      recv := new Mbuf(0);
      this.noDefrag := noDefrag;
      events := [];
    }

    /**
     A first fragment: byte 0 loses its opcode, the size field is cleared and the payload and all
     that follows it are moved behind it, down or, for a short header, up.
     */
    method TakeFirst(src: nat, n: nat)
      requires recv.Valid() && 0 < src && src + n <= recv.len
      modifies recv, recv.buf
      ensures recv.Valid() && (recv.buf == old(recv.buf) || fresh(recv.buf))
      ensures var was := old(recv.Contents);
              recv.Contents == [was[0] - was[0] % 16] + SizeBytes(n % 0x1_0000_0000) + Stomped(src, was[src..])
    {
      hide Mbuf.Valid, SizeBytes, Overwrite, Stomped;
      ghost var was: Bytes := recv.Contents;
      var tail := recv.len - src;
      MakeRoom(src);
      ghost var room: Bytes := recv.Contents[|was|..];
      assert recv.Contents == was + room;
      var head: byte := recv.At(0) - recv.At(0) % 16;
      assert head == was[0] - was[0] % 16 && tail == |was| - src;
      recv.Set(0, head);
      ghost var marked: Bytes := recv.Contents;
      assert marked == (was + room)[0 := head];
      NoBytes();
      ghost var zero: Bytes, size: Bytes := SizeBytes(0), SizeBytes(n % 0x1_0000_0000);
      recv.Write(SIZE_AT, SizeBytes(0));
      ghost var cleared: Bytes := recv.Contents;
      assert cleared == Overwrite<byte>(marked, SIZE_AT, zero);
      recv.Move(DATA_AT, src, tail);
      ghost var moved: Bytes := recv.Contents;
      assert moved == Overwrite(cleared, DATA_AT, cleared[src..src + tail]);
      recv.Write(SIZE_AT, SizeBytes(n % 0x1_0000_0000));
      assert recv.Contents == Overwrite(moved, SIZE_AT, size);
      recv.Truncate(DATA_AT + tail);
      FirstInPlace(was, room, src, head, zero, size);
      assert DATA_AT + tail == DATA_AT + |was| - src;
    }

    /** The mbuf_resize in front of it; a short header needs the new bytes. */
    method MakeRoom(src: nat)
      requires recv.Valid() && 0 < src <= recv.len
      modifies recv, recv.buf
      ensures recv.Valid() && (recv.buf == old(recv.buf) || fresh(recv.buf))
      ensures |recv.Contents| >= |old(recv.Contents)| && |recv.Contents| >= DATA_AT + (|old(recv.Contents)| - src)
      ensures recv.Contents[..|old(recv.Contents)|] == old(recv.Contents)
    {
      ghost var was := recv.Contents;
      recv.Resize(recv.buf.Length + 4);
      assert was[..|was|] == was;
      if src < DATA_AT {
        recv.Extend(DATA_AT - src);
      }
    }

    /** A later fragment: its payload, with all that follows, is moved down behind the data at `at`. */
    method TakeNext(at: nat, src: nat, n: nat)
      requires recv.Valid() && DATA_AT <= at <= src && src + n <= recv.len
      modifies recv`len, recv`Contents, recv.buf
      ensures recv.Valid()
      ensures var was := old(recv.Contents);
              var size := (SizeOf(was[SIZE_AT..]) + n) % 0x1_0000_0000;
              recv.Contents == [was[0]] + SizeBytes(size) + was[DATA_AT..at] + was[src..]
    {
      hide Mbuf.Valid, SizeBytes, SizeOf;
      ghost var was := recv.Contents;
      recv.Move(at, src, recv.len - src);
      NextInPlace(was, at, src, recv.Contents, []);
      var field := recv.Slice(SIZE_AT, DATA_AT);
      assert field + was[DATA_AT..] == was[SIZE_AT..];
      SizeOfPrefix(field, was[DATA_AT..]);
      ghost var moved := recv.Contents;
      var size := SizeBytes((SizeOf(field) + n) % 0x1_0000_0000);
      recv.Write(SIZE_AT, size);
      recv.Truncate(recv.len - (src - at));
      NextInPlace(was, at, src, moved, size);
    }

    /** "On last fragmented frame": the handler is called and the message leaves the buffer. */
    method Finish(flags: byte)
      requires recv.Valid() && DATA_AT <= recv.len
      requires DATA_AT + SizeOf(recv.Contents[SIZE_AT..]) <= recv.len
      modifies this`events, recv`len, recv`Contents, recv.buf
      ensures recv.Valid()
      ensures var was := old(recv.Contents);
              var size := SizeOf(was[SIZE_AT..]);
              && recv.Contents == was[DATA_AT..][size..]
              && events == old(events) + [Message(flags, was[DATA_AT..][..size])]
    {
      hide Mbuf.Valid, SizeOf;
      ghost var was := recv.Contents;
      var field := recv.Slice(SIZE_AT, DATA_AT);
      assert field + was[DATA_AT..] == was[SIZE_AT..];
      SizeOfPrefix(field, was[DATA_AT..]);
      var size := SizeOf(field);
      var data := recv.Slice(DATA_AT, DATA_AT + size);
      assert data == was[DATA_AT..][..size];
      events := events + [Message(flags, data)];
      recv.Remove(DATA_AT + size);
      assert was[DATA_AT + size..] == was[DATA_AT..][size..];
    }

    /** Where the next frame starts: the opening of mg_deliver_websocket_data. */
    method FindFrame() returns (reassembles: bool, at: nat)
      requires recv.Valid()
      ensures reassembles == Reassembles(recv.Contents, noDefrag) && at == FrameAt(recv.Contents, noDefrag)
    {
      hide Mbuf.Valid, SizeOf;
      reassembles := recv.len > 0 && IsFragment(recv.At(0)) && !noDefrag;
      at := 0;
      if reassembles && !IsFirstFragment(recv.At(0)) && recv.len >= DATA_AT {
        var field := recv.Slice(SIZE_AT, DATA_AT);
        assert field + recv.Contents[DATA_AT..] == recv.Contents[SIZE_AT..];
        SizeOfPrefix(field, recv.Contents[DATA_AT..]);
        if recv.len >= DATA_AT + SizeOf(field) {
          at := DATA_AT + SizeOf(field);
        }
      }
    }

    /** mg_deliver_websocket_data once the frame between src and the bytes behind it is unmasked. */
    method TakeFrame(reassembles: bool, at: nat, src: nat, n: nat, flags: byte,
                     ghost c: Bytes, ghost payload: Bytes, ghost rest: Bytes)
      requires at + 2 <= src <= |c| && |payload| == n && flags == c[at]
      requires recv.Valid() && recv.Contents == c[..src] + payload + rest
      requires InOrder(c, noDefrag) && Complete(c[at..])
      requires reassembles == Reassembles(c, noDefrag) && at == FrameAt(c, noDefrag)
      requires ReadLayout(c[at..]) == Layout(src - at, ReadLayout(c[at..]).maskLen, n)
      modifies this`events, recv, recv.buf
      ensures recv.Valid() && (recv.buf == old(recv.buf) || fresh(recv.buf))
      ensures var d := Taken(c, noDefrag, payload, rest);
              && recv.Contents == d.rest
              && events == old(events) + (if d.event.Some? then [d.event.value] else [])
    {
      hide Mbuf.Valid, SizeOf, SizeBytes, ReadLayout, FrameAt, Complete, InOrder;
      ghost var w := recv.Contents;
      InOrderCases(c, noDefrag);
      assert w[src..] == payload + rest;
      if reassembles {
        if IsFirstFragment(flags) {
          TakeFirst(src, n);
          assert w[0] == c[0];
        } else {
          ghost var acc := c[DATA_AT..at];
          assert w[0] == c[0] && w[DATA_AT..at] == acc;
          SizeInFront(c, w);
          TakeNext(at, src, n);
          HeldMore(c[0], acc, payload, rest);
          if flags >= 0x80 {
            HeldFinished(c[0], acc + payload, rest);
            Finish(flags);
          }
        }
      } else {
        var data := recv.Slice(src, src + n);
        assert data == payload;
        events := events + [Message(flags, data)];
        recv.Remove(src + n);
        assert w[src + n..] == rest;
      }
    }

    /** The payload of the frame at at, unmasked where it lies. */
    method UnmaskFrame(at: nat, l: Layout, ghost c: Bytes)
      requires recv.Valid() && recv.Contents == c && at <= |c| && Complete(c[at..]) && l == ReadLayout(c[at..])
      requires at + l.headerLen + l.dataLen <= |c|
      modifies recv`Contents, recv.buf
      ensures recv.Valid() && recv.len == |c|
      ensures recv.Contents == c[..at + l.headerLen] + ReadPayload(c[at..]) + c[at + l.headerLen + l.dataLen..]
    {
      hide Mbuf.Valid, Mask, ReadLayout, ReadPayload;
      CompleteHasHeader(c[at..]);
      MaskLens(c[at..]);
      if l.maskLen > 0 {
        Unmask(recv, at + l.headerLen, l.dataLen);
      }
      UnmaskedContents(c, at, recv.Contents);
    }

    /** mg_deliver_websocket_data */
    method DeliverData() returns (ok: bool)
      requires recv.Valid() && InOrder(recv.Contents, noDefrag)
      modifies this`events, recv, recv.buf
      ensures recv.Valid() && (recv.buf == old(recv.buf) || fresh(recv.buf))
      ensures ok == Deliver(old(recv.Contents), noDefrag).ok
      ensures recv.Contents == Deliver(old(recv.Contents), noDefrag).rest
      ensures var d := Deliver(old(recv.Contents), noDefrag);
              events == old(events) + (if d.event.Some? then [d.event.value] else [])
    {
      hide Mbuf.Valid, Mask, ReadLayout, ReadPayload, FrameAt, InOrder, Deliver, Taken;
      ghost var c := recv.Contents;
      var reassembles, at := FindFrame();
      var l := ReadLayoutAt(recv, at);
      var frameLen := l.headerLen + l.dataLen;
      ok := 0 < frameLen <= recv.len - at;
      DeliverIsTaken(c, noDefrag);
      if ok {
        CompleteHasHeader(c[at..]);
        var flags, src := recv.At(at), at + l.headerLen;
        UnmaskFrame(at, l, c);
        TakeFrame(reassembles, at, src, l.dataLen, flags, c, ReadPayload(c[at..]), c[src + l.dataLen..]);
      }
    }

    /** New bytes arrive, and mg_ws_handler delivers until nothing more can be delivered. */
    method Receive(data: Bytes, ghost p: Progress, ghost left: Bytes) returns (ghost q: Progress)
      requires recv.Valid() && !noDefrag && Stands(recv.Contents, p, data + left)
      modifies this`events, recv, recv.buf
      ensures recv.Valid() && (recv.buf == old(recv.buf) || fresh(recv.buf))
      ensures ValidProgress(q) && Stands(recv.Contents, q, left)
      ensures events + Due(q) == old(events) + Due(p)
      ensures InOrder(recv.Contents, noDefrag) && !Deliver(recv.Contents, noDefrag).ok
      ensures left == [] ==> !HasNext(q)
    {
      hide Mbuf.Valid, Deliver, InOrder, Ahead, Due, Kept, Advance;
      StandsMore(recv.Contents, p, data, left);
      recv.Append(data);
      q := p;
      var ok := true;
      while ok
        invariant recv.Valid() && (recv.buf == old(recv.buf) || fresh(recv.buf))
        invariant Stands(recv.Contents, q, left) && events + Due(q) == old(events) + Due(p)
        invariant !ok ==> InOrder(recv.Contents, noDefrag) && !Deliver(recv.Contents, noDefrag).ok
        invariant !ok ==> left == [] ==> !HasNext(q)
        decreases |Ahead(q)|, ok
      {
        LoopStep(recv.Contents, q, left);
        ghost var before := events;
        ok := DeliverData();
        if ok {
          ghost var next := Advance(q);
          assert events + Due(next) == before + Due(q);
          q := next;
        }
      }
    }

    /**
     However the bytes of a series of messages are cut into arrivals, the handler sees each
     message once, whole and in order, and nothing is left in the buffer.
     */
    method ReceiveAll(arrivals: seq<Bytes>, ghost ms: seq<Sent>)
      requires recv.Valid() && !noDefrag && recv.Contents == [] && events == []
      requires AllValid(ms) && Flatten(arrivals) == WireOf(ms)
      modifies this`events, recv, recv.buf
      ensures recv.Valid() && events == ReceivedAll(ms) && recv.Contents == []
    {
      hide *;
      ghost var p := Between(ms);
      StandsStart(ms);
      var k := 0;
      assert arrivals[0..] == arrivals;
      while k < |arrivals|
        invariant k <= |arrivals| && recv.Valid() && (recv.buf == old(recv.buf) || fresh(recv.buf))
        invariant ValidProgress(p) && Stands(recv.Contents, p, Flatten(arrivals[k..]))
        invariant events + Due(p) == ReceivedAll(ms)
        invariant if k == 0 then recv.Contents == [] else Flatten(arrivals[k..]) == [] ==> !HasNext(p)
      {
        FlattenCons(arrivals[k..]);
        assert arrivals[k..][1..] == arrivals[k + 1..];
        p := Receive(arrivals[k], p, Flatten(arrivals[k + 1..]));
        k := k + 1;
      }
      assert arrivals[k..] == [];
      FlattenCons<byte>([]);
      StandsEnd(recv.Contents, p);
    }
  }

  /** The buffer holds what is kept for the message in progress and part of what is ahead; left is the rest. */
  ghost predicate Stands(c: Bytes, p: Progress, left: Bytes) {
    && ValidProgress(p)
    && |Kept(p)| <= |c| && c[..|Kept(p)|] == Kept(p)
    && c[|Kept(p)|..] + left == Ahead(p)
  }

  lemma StandsMore(c: Bytes, p: Progress, data: Bytes, left: Bytes)
    requires Stands(c, p, data + left)
    ensures Stands(c + data, p, left)
  {
    hide Kept, Ahead;
    var n := |Kept(p)|;
    assert (c + data)[..n] == c[..n] && (c + data)[n..] + left == c[n..] + (data + left);
  }

  lemma StandsStart(ms: seq<Sent>)
    requires AllValid(ms)
    ensures ValidProgress(Between(ms)) && Stands([], Between(ms), WireOf(ms)) && Due(Between(ms)) == ReceivedAll(ms)
  {
    assert [] + WireOf(ms) == WireOf(ms);
  }

  lemma StandsEnd(c: Bytes, p: Progress)
    requires Stands(c, p, [])
    ensures !HasNext(p) ==> c == [] && Due(p) == []
    ensures HasNext(p) ==> c != []
  {
    hide Kept, Ahead;
    NothingAhead(p);
    KeptNothing(p);
  }

  lemma KeptNothing(p: Progress)
    ensures p.Between? ==> Kept(p) == []
  {
  }

  /** One turn of the handler's loop on a well-formed stream. */
  lemma LoopStep(c: Bytes, p: Progress, left: Bytes)
    requires Stands(c, p, left)
    ensures InOrder(c, false)
    ensures var d := Deliver(c, false);
            if d.ok then
              && HasNext(p) && ValidProgress(Advance(p)) && Stands(d.rest, Advance(p), left)
              && Due(p) == (if d.event.Some? then [d.event.value] else []) + Due(Advance(p))
              && |Ahead(Advance(p))| < |Ahead(p)|
            else left == [] ==> !HasNext(p)
  {
    hide Deliver, InOrder, Kept, Ahead, Due, Advance, NextFrame, Frame.Wire, NextMessage, Finishes;
    var u := c[|Kept(p)|..];
    assert c == Kept(p) + u;
    NothingAhead(p);
    if HasNext(p) {
      AdvanceTakesFrame(p);
      var w, ahead := NextFrame(p).Wire(), Ahead(Advance(p));
      WireNotEmpty(NextFrame(p));
      assert u + left == w + ahead;
      if |u| >= |w| {
        var rest := u[|w|..];
        assert w == (u + left)[..|w|] == u[..|w|];
        assert u == w + rest;
        assert rest + left == (u + left)[|w|..] == ahead;
        DeliverAdvances(p, rest);
        AdvanceDue(p);
        StandsAt(Advance(p), rest, left);
      } else {
        var missing := w[|u|..];
        assert u == (w + ahead)[..|u|] == w[..|u|];
        DeliverWaits(p, u, missing);
      }
    } else {
      DeliverWaits(p, u, []);
    }
  }

  lemma StandsAt(p: Progress, u: Bytes, left: Bytes)
    requires ValidProgress(p) && u + left == Ahead(p)
    ensures Stands(Kept(p) + u, p, left)
  {
    hide Kept, Ahead;
    var c, n := Kept(p) + u, |Kept(p)|;
    assert c[..n] == Kept(p) && c[n..] == u;
  }

  lemma WireNotEmpty(f: Frame)
    requires f.Valid()
    ensures f.Wire() != []
  {
  }

  /** Deliver, with the payload and the bytes behind the frame already told apart. */
  function Taken(c: Bytes, noDefrag: bool, payload: Bytes, rest: Bytes): (d: Delivery)
    requires FrameAt(c, noDefrag) < |c|
    ensures d.ok
  {
    var at := FrameAt(c, noDefrag);
    if !Reassembles(c, noDefrag) then Delivery(true, rest, Some(Message(c[at], payload)))
    else if IsFirstFragment(c[at]) then
      var kept := Stomped(at + ReadLayout(c[at..]).headerLen, payload + rest);
      Delivery(true, [c[0] - c[0] % 16] + SizeBytes(|payload| % 0x1_0000_0000) + kept, None)
    else if at < DATA_AT then Delivery(true, rest, None)
    else
      var data := c[DATA_AT..at] + payload;
      if c[at] < 0x80 then Delivery(true, Held(c[0], data) + rest, None)
      else
        var tail := data + rest;
        var size := |data| % 0x1_0000_0000;
        Delivery(true, tail[size..], Some(Message(c[at], tail[..size])))
  }

  lemma DeliverIsTaken(c: Bytes, noDefrag: bool)
    requires InOrder(c, noDefrag)
    ensures var at := FrameAt(c, noDefrag);
            var l := ReadLayout(c[at..]);
            var end := at + l.headerLen + l.dataLen;
            Deliver(c, noDefrag) ==
              if Complete(c[at..]) then Taken(c, noDefrag, ReadPayload(c[at..]), c[end..])
              else Delivery(false, c, None)
  {
    hide ReadLayout, ReadPayload, FrameAt, Held, Stomped, SizeBytes;
    var at := FrameAt(c, noDefrag);
    var l := ReadLayout(c[at..]);
    if Complete(c[at..]) {
      assert c[at..][l.headerLen + l.dataLen..] == c[at + l.headerLen + l.dataLen..];
    }
  }

  lemma InOrderCases(c: Bytes, noDefrag: bool)
    ensures var at := FrameAt(c, noDefrag);
            InOrder(c, noDefrag) && Reassembles(c, noDefrag) && Complete(c[at..]) ==>
              (!IsFirstFragment(c[at]) ==> at == DATA_AT + SizeOf(c[SIZE_AT..]))
    ensures !Reassembles(c, noDefrag) ==> FrameAt(c, noDefrag) == 0
  {
    hide ReadLayout, SizeOf, Complete;
  }

  lemma SizeInFront(c: Bytes, w: Bytes)
    requires |c| >= DATA_AT && |w| >= DATA_AT && c[..DATA_AT] == w[..DATA_AT]
    ensures SizeOf(c[SIZE_AT..]) == SizeOf(w[SIZE_AT..])
  {
    assert forall i :: 1 <= i < 5 ==> c[i] == c[..DATA_AT][i] && w[i] == w[..DATA_AT][i];
  }

  lemma HeldMore(head: byte, acc: Bytes, payload: Bytes, rest: Bytes)
    ensures [head] + SizeBytes((|acc| + |payload|) % 0x1_0000_0000) + acc + (payload + rest)
         == Held(head, acc + payload) + rest
  {
    hide SizeBytes;
  }

  lemma HeldFinished(head: byte, data: Bytes, rest: Bytes)
    ensures var w := Held(head, data) + rest;
            && w[DATA_AT..] == data + rest
            && SizeOf(w[SIZE_AT..]) == |data| % 0x1_0000_0000
            && DATA_AT + SizeOf(w[SIZE_AT..]) <= |w|
  {
    hide SizeBytes, SizeOf;
    var w, size := Held(head, data) + rest, |data| % 0x1_0000_0000;
    SizeRoundTrip(size);
    SizeOfPrefix(SizeBytes(size), data + rest);
    assert w[SIZE_AT..] == SizeBytes(size) + (data + rest);
  }

  /** The buffer once the payload has been unmasked: as before, but for the payload. */
  lemma UnmaskedContents(c: Bytes, at: nat, now: Bytes)
    requires at <= |c| && Complete(c[at..])
    requires var l := ReadLayout(c[at..]);
             var src := at + l.headerLen;
             && src >= 2 + l.maskLen && src + l.dataLen <= |c|
             && now == if l.maskLen > 0 then Overwrite(c, src, Mask(c[src - 4..src], c[src..src + l.dataLen])) else c
    ensures var l := ReadLayout(c[at..]);
            var src := at + l.headerLen;
            now == c[..src] + ReadPayload(c[at..]) + c[src + l.dataLen..]
  {
    hide ReadLayout, Mask;
    var l := ReadLayout(c[at..]);
    var src := at + l.headerLen;
    CompleteHasHeader(c[at..]);
    MaskLens(c[at..]);
    assert c[at..][l.headerLen..l.headerLen + l.dataLen] == c[src..src + l.dataLen];
    if l.maskLen > 0 {
      assert c[at..][l.headerLen - 4..l.headerLen] == c[src - 4..src];
    }
  }

  lemma NoBytes()
    ensures SizeBytes(0) == [0, 0, 0, 0]
  {
  }

  lemma MaskLens(b: Bytes)
    ensures ReadLayout(b).maskLen == 0 || ReadLayout(b).maskLen == 4
  {
    hide FromBigEndian;
  }
}
