/** MQTT packets as mongoose writes and reads them: the remaining length of section 2.2.3 of
    MQTT 3.1.1, PUBLISH and SUBSCRIBE. */
module Mqtt {

  import opened Bytes
  import opened MbufModule

  const CONNACK := 2
  const PUBLISH := 3
  const PUBACK := 4
  const SUBSCRIBE := 8
  const SUBACK := 9

  // The remaining length.

  /** Seven bits a byte, least significant first, with the high bit on all bytes but the last. */
  function RemainingLength(n: nat): (r: Bytes)
    ensures r != []
  {
    if n < 128 then [n] else [n % 128 + 128] + RemainingLength(n / 128)
  }

  function Power128(k: nat): (p: nat)
    ensures p > 0
  {
    if k == 0 then 1 else 128 * Power128(k - 1)
  }

  /** A number below 128^k takes at most k bytes. */
  lemma {:induction false} RemainingLengthSize(n: nat, k: nat)
    requires k > 0 && n < Power128(k)
    ensures |RemainingLength(n)| <= k
  {
    if n >= 128 {
      PowerStep(n, k);
      RemainingLengthSize(n / 128, k - 1);
    }
  }

  /** And one that is not needs more: from 128^8 on they do not fit behind the first byte of the
      writer's nine-byte buffer. */
  lemma {:induction false} RemainingLengthNeeds(n: nat, k: nat)
    requires n >= Power128(k)
    ensures |RemainingLength(n)| > k
  {
    if k > 0 {
      assert n / 128 >= Power128(k - 1);
      RemainingLengthNeeds(n / 128, k - 1);
    }
  }

  /** The bytes from i on are a remaining length: the position of its last byte. */
  predicate Terminated(s: Bytes, i: nat)
    decreases |s| - i
  {
    i < |s| && (s[i] < 128 || Terminated(s, i + 1))
  }

  /** The number that starts at i, and the position behind it. */
  function Decoded(s: Bytes, i: nat): (r: (nat, nat))
    requires Terminated(s, i)
    ensures i < r.1 <= |s|
    decreases |s| - i
  {
    if s[i] < 128 then (s[i], i + 1)
    else
      var rest := Decoded(s, i + 1);
      (s[i] - 128 + 128 * rest.0, rest.1)
  }

  /** Reading the remaining length back, wherever it stands. */
  lemma {:induction false} RemainingLengthRoundTrip(pre: Bytes, n: nat, post: Bytes)
    ensures var s := pre + RemainingLength(n) + post;
            Terminated(s, |pre|) && Decoded(s, |pre|) == (n, |pre| + |RemainingLength(n)|)
    decreases n
  {
    var r := RemainingLength(n);
    var s := pre + r + post;
    assert s[|pre|] == r[0];
    if n >= 128 {
      RemainingLengthRoundTrip(pre + [n % 128 + 128], n / 128, post);
      assert (pre + [n % 128 + 128]) + RemainingLength(n / 128) + post == s;
    }
  }

  // Packets.

  function BigEndian16(n: nat): (r: Bytes)
    ensures |r| == 2
  {
    [n / 256 % 256, n % 256]
  }

  /** The fixed header in front of a body of len bytes. */
  function Header(cmd: nat, flags: nat, len: nat): Bytes
    requires cmd < 16 && flags < 16
  {
    [cmd * 16 + flags] + RemainingLength(len)
  }

  function Packet(cmd: nat, flags: nat, body: Bytes): Bytes
    requires cmd < 16 && flags < 16
  {
    Header(cmd, flags, |body|) + body
  }

  function QosOf(flags: nat): nat { flags / 2 % 4 }

  function PublishBody(topic: Bytes, messageId: nat, flags: nat, data: Bytes): Bytes {
    BigEndian16(|topic|) + topic + (if QosOf(flags) > 0 then BigEndian16(messageId) else []) + data
  }

  datatype Topic = Topic(name: Bytes, qos: byte)

  function TopicBytes(t: Topic): (r: Bytes)
    ensures |r| == |t.name| + 3
  {
    BigEndian16(|t.name|) + t.name + [t.qos]
  }

  function TopicsBytes(topics: seq<Topic>): Bytes {
    if topics == [] then [] else TopicBytes(topics[0]) + TopicsBytes(topics[1..])
  }

  function SubscribeBody(topics: seq<Topic>, messageId: nat): Bytes {
    BigEndian16(messageId) + TopicsBytes(topics)
  }

  // Writing.

  /** mg_mqtt_prepend_header: the header goes in front of the last len bytes, and everything
      before them stays as it is. */
  method PrependHeader(io: Mbuf, cmd: nat, flags: nat, len: nat)
    requires io.Valid() && len <= io.len && cmd < 16 && flags < 16 && len < Power128(8)
    modifies io, io.buf
    ensures io.Valid() && (io.buf == old(io.buf) || fresh(io.buf))
    ensures var off := |old(io.Contents)| - len;
            io.Contents == old(io.Contents)[..off] + Header(cmd, flags, len) + old(io.Contents)[off..]
  {
    hide Mbuf.Valid;
    var off := io.len - len;
    var buf := new byte[9];
    buf[0] := cmd * 16 + flags;
    var vlen := VariableLength(buf, len);
    assert buf[..vlen] == Header(cmd, flags, len);
    InUse(io);
    io.Insert(off, buf[..vlen]);
  }

  lemma InUse(io: Mbuf)
    requires io.Valid()
    ensures io.len == |io.Contents|
  {
  }

  /** The loop that encodes the remaining length behind the first byte of buf. */
  method VariableLength(buf: array<byte>, len: nat) returns (vlen: nat)
    requires buf.Length == 9 && len < Power128(8)
    modifies buf
    ensures vlen <= 9 && buf[..][..vlen] == [old(buf[0])] + RemainingLength(len)
  {
    hide Power128, RemainingLength;
    var n: nat := len;
    vlen := 1;
    ghost var k: nat := 8;
    ghost var first := buf[0];
    var more := true;
    while more
      invariant 1 <= vlen <= 9 && k == 9 - vlen
      invariant more ==> k > 0 && n < Power128(k)
      invariant [first] + RemainingLength(len) == buf[..][..vlen] + (if more then RemainingLength(n) else [])
      decreases if more then k + 1 else 0
    {
      PowerStep(n, k);
      FirstDigit(n);
      PutDigit(buf, vlen, n, [first] + RemainingLength(len));
      n := n / 0x80;
      more := n > 0;
      vlen := vlen + 1;
      k := k - 1;
    }
  }

  function Digit(n: nat): byte { if n / 0x80 > 0 then n % 0x80 + 0x80 else n % 0x80 }

  /** One digit moves from what is still to be written to what has been written. */
  method PutDigit(buf: array<byte>, vlen: nat, n: nat, ghost all: Bytes)
    requires vlen < buf.Length && all == buf[..][..vlen] + RemainingLength(n)
    modifies buf
    ensures all == buf[..][..vlen + 1] + (if n / 0x80 > 0 then RemainingLength(n / 0x80) else [])
  {
    hide RemainingLength, Digit;
    ghost var before := buf[..][..vlen];
    FirstDigit(n);
    buf[vlen] := Digit(n);
    assert buf[..][..vlen + 1] == before + [Digit(n)];
  }

  lemma FirstDigit(n: nat)
    ensures RemainingLength(n) == [Digit(n)] + (if n / 0x80 > 0 then RemainingLength(n / 0x80) else [])
  {
  }

  lemma PowerStep(n: nat, k: nat)
    requires k > 0 && n < Power128(k)
    ensures n / 128 < Power128(k - 1) && (n / 128 > 0 ==> k > 1)
  {
    assert k == 1 ==> Power128(k) == 128 * Power128(0);
  }

  /** mg_mqtt_publish */
  method Publish(io: Mbuf, topic: Bytes, messageId: nat, flags: nat, data: Bytes)
    requires io.Valid() && flags < 16 && |topic| + |data| + 4 < Power128(8)
    modifies io, io.buf
    ensures io.Valid() && (io.buf == old(io.buf) || fresh(io.buf))
    ensures io.Contents == old(io.Contents) + Packet(PUBLISH, flags, PublishBody(topic, messageId, flags, data))
  {
    hide Mbuf.Valid, Power128, Header, BigEndian16;
    ghost var was := io.Contents;
    var oldLen := io.len;
    InUse(io);
    io.Append(BigEndian16(|topic|));
    io.Append(topic);
    if QosOf(flags) > 0 {
      io.Append(BigEndian16(messageId));
    }
    io.Append(data);
    ghost var body := PublishBody(topic, messageId, flags, data);
    BehindOld(was, BigEndian16(|topic|), topic, if QosOf(flags) > 0 then BigEndian16(messageId) else [], data);
    InUse(io);
    PrependHeader(io, PUBLISH, flags, io.len - oldLen);
    Behind(was, Header(PUBLISH, flags, |body|), body);
  }

  lemma BehindOld(was: Bytes, a: Bytes, b: Bytes, c: Bytes, d: Bytes)
    ensures was + a + b + c + d == was + (a + b + c + d)
    ensures c == [] ==> was + a + b + d == was + (a + b + c + d)
  {
    RegroupFive(was, a, b, c, d);
    if c == [] {
      assert was + a + b + c == was + a + b;
    }
  }

  lemma Behind(was: Bytes, header: Bytes, body: Bytes)
    ensures (was + body)[..|was|] + header + (was + body)[|was|..] == was + (header + body)
  {
    assert (was + body)[..|was|] == was && (was + body)[|was|..] == body;
  }

  /** mg_mqtt_subscribe */
  method Subscribe(io: Mbuf, topics: seq<Topic>, messageId: nat)
    requires io.Valid() && |SubscribeBody(topics, messageId)| < Power128(8)
    modifies io, io.buf
    ensures io.Valid() && (io.buf == old(io.buf) || fresh(io.buf))
    ensures io.Contents == old(io.Contents) + Packet(SUBSCRIBE, 2, SubscribeBody(topics, messageId))
  {
    hide Mbuf.Valid, Power128, Header, BigEndian16, TopicsBytes;
    ghost var was := io.Contents;
    var oldLen := io.len;
    InUse(io);
    io.Append(BigEndian16(messageId));
    TopicsNone();
    assert topics[..0] == [];
    for i := 0 to |topics|
      invariant io.Valid() && (io.buf == old(io.buf) || fresh(io.buf))
      invariant io.Contents == was + (BigEndian16(messageId) + TopicsBytes(topics[..i]))
    {
      io.Append(BigEndian16(|topics[i].name|));
      io.Append(topics[i].name);
      io.Append([topics[i].qos]);
      TopicsSnoc(topics[..i], topics[i]);
      assert topics[..i] + [topics[i]] == topics[..i + 1];
    }
    assert topics[..|topics|] == topics;
    ghost var body := SubscribeBody(topics, messageId);
    InUse(io);
    PrependHeader(io, SUBSCRIBE, 2, io.len - oldLen);
    Behind(was, Header(SUBSCRIBE, 2, |body|), body);
  }

  lemma TopicsNone()
    ensures TopicsBytes([]) == []
  {
  }

  lemma {:induction false} TopicsSnoc(topics: seq<Topic>, t: Topic)
    ensures TopicsBytes(topics + [t]) == TopicsBytes(topics) + TopicBytes(t)
  {
    if topics == [] {
      assert [] + [t] == [t];
      assert TopicsBytes([t][1..]) == [];
    } else {
      TopicsSnoc(topics[1..], t);
      assert (topics + [t])[1..] == topics[1..] + [t];
    }
  }

  // Reading.

  datatype Message = Message(cmd: nat, qos: nat, messageId: nat, topic: Bytes, payload: Bytes, connackCode: nat)

  function U16(s: Bytes, p: nat): nat
    requires p + 2 <= |s|
  {
    s[p] as int * 256 + s[p + 1] as int
  }

  /** The field reads of parse_mqtt stay inside the packet, which it does not check itself. */
  predicate FieldsInside(s: Bytes, p: nat, end: nat, cmd: nat, qos: nat) {
    if cmd == CONNACK then p + 2 <= |s|
    else if cmd == PUBLISH then
      var q := if qos > 0 then p + 2 else p;
      q + 2 <= |s| && q + 2 + U16(s, q) <= end <= |s|
    else if cmd == SUBSCRIBE then p + 2 <= end <= |s|
    else if PUBACK <= cmd <= SUBACK then p + 2 <= |s|
    else true
  }

  function Fields(s: Bytes, p: nat, end: nat, cmd: nat, qos: nat): Message
    requires FieldsInside(s, p, end, cmd, qos)
  {
    if cmd == CONNACK then Message(cmd, qos, 0, [], [], s[p + 1])
    else if cmd == PUBLISH then
      var q := if qos > 0 then p + 2 else p;
      var t := q + 2 + U16(s, q);
      Message(cmd, qos, if qos > 0 then U16(s, p) else 0, s[q + 2..t], s[t..end], 0)
    else if cmd == SUBSCRIBE then Message(cmd, qos, U16(s, p), [], s[p + 2..end], 0)
    else if PUBACK <= cmd <= SUBACK then Message(cmd, qos, U16(s, p), [], [], 0)
    else Message(cmd, qos, 0, [], [], 0)
  }

  /** Where the packet ends according to its remaining length. */
  function EndOf(s: Bytes): nat
    requires Terminated(s, 1)
  {
    Decoded(s, 1).1 + Decoded(s, 1).0
  }

  /** What parse_mqtt takes for granted: the remaining length ends within four bytes, and a
      packet it accepts holds its fields. The fields of CONNECT are not part of this model. */
  predicate Readable(s: Bytes) {
    |s| >= 2 ==>
      && Terminated(s, 1) && Decoded(s, 1).1 <= 5 && s[0] / 16 != 1
      && (EndOf(s) <= |s| + 1 ==> FieldsInside(s, Decoded(s, 1).1, EndOf(s), s[0] / 16, QosOf(s[0])))
  }

  function Parsed(s: Bytes): Option<(nat, Message)>
    requires Readable(s)
  {
    if |s| < 2 || EndOf(s) > |s| + 1 then None
    else Some((EndOf(s), Fields(s, Decoded(s, 1).1, EndOf(s), s[0] / 16, QosOf(s[0]))))
  }

  /** The loop that decodes the remaining length. */
  method ReadRemainingLength(s: Bytes) returns (len: nat, p: nat)
    requires Terminated(s, 1) && Decoded(s, 1).1 <= 5
    ensures (len, p) == Decoded(s, 1)
  {
    len, p := 0, 1;
    var more := true;
    ghost var k := 0;
    while more
      invariant 1 <= p <= |s| && k == p - 1
      invariant if more then Terminated(s, p) && Decoded(s, p).1 == Decoded(s, 1).1
                             && len + Power128(k) * Decoded(s, p).0 == Decoded(s, 1).0
                else (len, p) == Decoded(s, 1)
      decreases if more then |s| - p + 1 else 0
    {
      DigitAdds(len, Power128(k), s, p);
      len := len + s[p] % 128 * Power128(p - 1);
      more := s[p] >= 128 && p + 1 <= |s|;
      p := p + 1;
      k := k + 1;
    }
  }

  lemma DigitAdds(len: nat, power: nat, s: Bytes, p: nat)
    requires Terminated(s, p)
    ensures s[p] < 128 ==> len + power * Decoded(s, p).0 == len + s[p] % 128 * power
    ensures s[p] >= 128 ==>
              len + power * Decoded(s, p).0 == len + s[p] % 128 * power + 128 * power * Decoded(s, p + 1).0
  {
    if s[p] >= 128 {
      var rest := Decoded(s, p + 1).0;
      assert Decoded(s, p).0 == s[p] % 128 + 128 * rest;
      Distributes(power, s[p] % 128, rest);
    }
  }

  lemma Distributes(power: nat, x: nat, y: nat)
    ensures power * (x + 128 * y) == x * power + 128 * power * y
  {
  }

  /** parse_mqtt */
  method ParseMqtt(io: Mbuf) returns (r: int, mm: Message)
    requires io.Valid() && Readable(io.Contents)
    ensures match Parsed(io.Contents)
            case None => r == -1
            case Some(result) => (r, mm) == result
  {
    hide Decoded, Power128;
    mm := Message(0, 0, 0, [], [], 0);
    if io.len < 2 {
      return -1, mm;
    }
    var s := io.Slice(0, io.len);
    assert s == io.Contents;
    var header := s[0];
    var cmd := header / 16;
    var len, p := ReadRemainingLength(s);
    var end := p + len;
    if end > |s| + 1 {
      return -1, mm;
    }
    mm := mm.(cmd := cmd, qos := QosOf(header));
    if cmd == CONNACK {
      mm := mm.(connackCode := s[p + 1]);
    } else if cmd == PUBLISH {
      if QosOf(header) > 0 {
        mm := mm.(messageId := U16(s, p));
        p := p + 2;
      }
      var next := p + 2 + U16(s, p);
      mm := mm.(topic := s[p + 2..next], payload := s[next..end]);
    } else if cmd == SUBSCRIBE {
      mm := mm.(messageId := U16(s, p), payload := s[p + 2..end]);
    } else if PUBACK <= cmd <= SUBACK {
      mm := mm.(messageId := U16(s, p));
    }
    return end, mm;
  }

  // Round trips.

  /** A packet of at most 2^28 - 1 bytes behind the header is found again, whatever follows it. */
  lemma PacketFound(cmd: nat, flags: nat, body: Bytes, rest: Bytes)
    requires cmd < 16 && flags < 16 && |body| < 0x1000_0000
    ensures var s, p := Packet(cmd, flags, body) + rest, |Header(cmd, flags, |body|)|;
            && Terminated(s, 1) && Decoded(s, 1) == (|body|, p) && p <= 5
            && s[0] / 16 == cmd && QosOf(s[0]) == QosOf(flags)
            && EndOf(s) == |Packet(cmd, flags, body)| && |s| >= 2
            && s == Header(cmd, flags, |body|) + body + rest
  {
    hide RemainingLength, Decoded, Terminated;
    var first: byte := cmd * 16 + flags;
    var s := Packet(cmd, flags, body) + rest;
    RemainingLengthRoundTrip([first], |body|, body + rest);
    assert [first] + RemainingLength(|body|) + (body + rest) == s;
    assert Power128(4) == 0x1000_0000;
    RemainingLengthSize(|body|, 4);
  }

  /** A PUBACK without its last byte is accepted, and ends one byte behind what has arrived. */
  lemma LastByteMayBeMissing()
    ensures var s: Bytes := [0x40, 3, 0, 1];
            Readable(s) && EndOf(s) == |s| + 1 && Parsed(s).Some? && Parsed(s).value.0 == |s| + 1
  {
  }

  lemma U16IsBigEndian(pre: Bytes, n: nat, post: Bytes)
    requires n < 65536
    ensures U16(pre + BigEndian16(n) + post, |pre|) == n
  {
    var s := pre + BigEndian16(n) + post;
    assert s[|pre|] == n / 256 % 256 && s[|pre| + 1] == n % 256;
  }

  /** A PUBLISH with QoS 0 is read back as it was written. */
  lemma PublishRoundTrip(topic: Bytes, messageId: nat, flags: nat, data: Bytes, rest: Bytes)
    requires flags < 16 && QosOf(flags) == 0 && |topic| < 65536 && |topic| + |data| + 2 < 0x1000_0000
    ensures var packet := Packet(PUBLISH, flags, PublishBody(topic, messageId, flags, data));
            && Readable(packet + rest)
            && Parsed(packet + rest) == Some((|packet|, Message(PUBLISH, 0, 0, topic, data, 0)))
  {
    hide Decoded, Terminated, Header, BigEndian16, U16;
    var body := PublishBody(topic, messageId, flags, data);
    var h := Header(PUBLISH, flags, |body|);
    var s := Packet(PUBLISH, flags, body) + rest;
    PacketFound(PUBLISH, flags, body, rest);
    assert s == h + BigEndian16(|topic|) + (topic + data + rest);
    U16IsBigEndian(h, |topic|, topic + data + rest);
    var t := |h| + 2 + |topic|;
    assert s[|h| + 2..t] == topic && s[t..t + |data|] == data;
  }

  // With a higher QoS the writer puts the topic first and the message identifier behind it, and
  // the reader expects them the other way round.

  /** The bytes in which the reader looks for the length of the topic and the topic. */
  function TopicAndId(topic: Bytes, messageId: nat): (r: Bytes)
    ensures |r| == |topic| + 2
  {
    topic + BigEndian16(messageId)
  }

  /** What the reader makes of a PUBLISH with a higher QoS. */
  lemma QosPublishRead(topic: Bytes, messageId: nat, flags: nat, data: Bytes, rest: Bytes)
    requires flags < 16 && QosOf(flags) > 0 && |topic| < 65536 && |topic| + |data| + 4 < 0x1000_0000
    ensures var packet := Packet(PUBLISH, flags, PublishBody(topic, messageId, flags, data));
            var u := TopicAndId(topic, messageId);
            var len := U16(u, 0);
            && (Readable(packet + rest) <==> len <= |topic| + |data|)
            && (Readable(packet + rest) ==>
                  var m := Message(PUBLISH, QosOf(flags), |topic|, (u + data)[2..2 + len], (u + data)[2 + len..], 0);
                  Parsed(packet + rest) == Some((|packet|, m)))
  {
    hide Decoded, Terminated, Header, BigEndian16, U16, TopicAndId, FieldsInside, Fields;
    var body := PublishBody(topic, messageId, flags, data);
    var packet, u := Packet(PUBLISH, flags, body), TopicAndId(topic, messageId);
    var h, s := Header(PUBLISH, flags, |body|), packet + rest;
    PacketFound(PUBLISH, flags, body, rest);
    QosLayout(h, topic, messageId, flags, data, rest);
    QosFields(h + BigEndian16(|topic|), u + data, rest, |topic|, QosOf(flags));
  }

  lemma QosLayout(h: Bytes, topic: Bytes, messageId: nat, flags: nat, data: Bytes, rest: Bytes)
    requires QosOf(flags) > 0 && |topic| < 65536
    ensures var body, u := PublishBody(topic, messageId, flags, data), TopicAndId(topic, messageId);
            var s := h + body + rest;
            && |body| == 2 + |u| + |data|
            && s == (h + BigEndian16(|topic|)) + (u + data) + rest
            && U16(s, |h|) == |topic| && U16(u + data, 0) == U16(u, 0)
  {
    hide BigEndian16, U16;
    var body, u := PublishBody(topic, messageId, flags, data), TopicAndId(topic, messageId);
    var s := h + body + rest;
    assert body == BigEndian16(|topic|) + (u + data);
    assert s == h + BigEndian16(|topic|) + (u + data + rest);
    U16IsBigEndian(h, |topic|, u + data + rest);
    U16Local(u + data, 0, u, 0);
  }

  /** The fields read when the identifier stands in front of the rest of the body. */
  lemma QosFields(pre: Bytes, all: Bytes, rest: Bytes, id: nat, qos: nat)
    requires |pre| >= 2 && |all| >= 2 && qos > 0 && U16(pre + all + rest, |pre| - 2) == id
    ensures var s, p, end, len := pre + all + rest, |pre| - 2, |pre| + |all|, U16(all, 0);
            && (FieldsInside(s, p, end, PUBLISH, qos) <==> 2 + len <= |all|)
            && (2 + len <= |all| ==>
                  Fields(s, p, end, PUBLISH, qos) == Message(PUBLISH, qos, id, all[2..2 + len], all[2 + len..], 0))
  {
    hide U16;
    var s, len := pre + all + rest, U16(all, 0);
    U16Local(s, |pre|, all, 0);
    if 2 + len <= |all| {
      Within(pre, all, rest, 2, 2 + len);
      Within(pre, all, rest, 2 + len, |all|);
    }
  }

  lemma Within(pre: Bytes, all: Bytes, rest: Bytes, i: nat, j: nat)
    requires i <= j <= |all|
    ensures (pre + all + rest)[|pre| + i..|pre| + j] == all[i..j]
  {
  }

  lemma U16Local(s: Bytes, p: nat, t: Bytes, q: nat)
    requires p + 2 <= |s| && q + 2 <= |t| && s[p] == t[q] && s[p + 1] == t[q + 1]
    ensures U16(s, p) == U16(t, q)
  {
  }

  lemma U16Decides(s: Bytes, n: nat)
    requires |s| >= 2 && n < 65536
    ensures U16(s, 0) == n <==> s[..2] == BigEndian16(n)
  {
    var x := [] + BigEndian16(n) + s[2..];
    U16IsBigEndian([], n, s[2..]);
    assert s[..2] == [s[0], s[1]] && s == s[..2] + s[2..];
    if s[..2] == BigEndian16(n) {
      assert s == x;
    }
  }

  /**
   Exactly when a PUBLISH with a higher QoS is read as it was written: the identifier has to be
   the length of the topic, and the topic has to go on repeating these two bytes.
   */
  lemma QosPublishExactly(topic: Bytes, messageId: nat, flags: nat, data: Bytes, rest: Bytes)
    requires flags < 16 && QosOf(flags) > 0 && |topic| < 65536 && messageId < 65536
    requires |topic| + |data| + 4 < 0x1000_0000
    ensures var packet := Packet(PUBLISH, flags, PublishBody(topic, messageId, flags, data));
            Readable(packet + rest) && Parsed(packet + rest) ==
              Some((|packet|, Message(PUBLISH, QosOf(flags), messageId, topic, data, 0)))
            <==> messageId == |topic| && BigEndian16(|topic|) + topic == topic + BigEndian16(messageId)
  {
    hide Readable, Parsed, U16, BigEndian16;
    var u := TopicAndId(topic, messageId);
    QosPublishRead(topic, messageId, flags, data, rest);
    U16Decides(u, |topic|);
    assert u == u[..2] + u[2..];
    assert (u + data)[2..2 + |topic|] == u[2..] && (u + data)[2 + |topic|..] == data;
    if u == BigEndian16(|topic|) + topic {
      assert u[..2] == BigEndian16(|topic|) && u[2..] == topic;
    }
  }

  /** So with enough data behind it every identifier but one is misread. */
  lemma QosPublishMisread(topic: Bytes, messageId: nat, flags: nat, data: Bytes, rest: Bytes)
    requires flags < 16 && QosOf(flags) > 0 && |topic| < 65536 && messageId != |topic|
    requires 65535 <= |topic| + |data| && |topic| + |data| + 4 < 0x1000_0000
    ensures var s := Packet(PUBLISH, flags, PublishBody(topic, messageId, flags, data)) + rest;
            Readable(s) && Parsed(s).Some? && Parsed(s).value.1.messageId != messageId
  {
    hide Readable, Parsed;
    QosPublishRead(topic, messageId, flags, data, rest);
  }

  /** A short packet that is accepted and misread: identifier 7 comes back as 2, and the topic changes. */
  lemma QosPublishLost(flags: nat)
    requires flags < 16 && QosOf(flags) > 0
    ensures var topic, data: Bytes := [1, 1], seq(300, _ => 65);
            var packet := Packet(PUBLISH, flags, PublishBody(topic, 7, flags, data));
            && Readable(packet)
            && Parsed(packet).Some? && Parsed(packet).value.1.messageId == 2
            && |Parsed(packet).value.1.topic| == 257
  {
    hide Readable, Parsed;
    var topic, data: Bytes := [1, 1], seq(300, _ => 65);
    var packet := Packet(PUBLISH, flags, PublishBody(topic, 7, flags, data));
    QosPublishRead(topic, 7, flags, data, []);
    assert packet + [] == packet;
    assert U16(TopicAndId(topic, 7), 0) == 257;
  }

  /** One that is read as it was written: 514 bytes of value 2 under the identifier 514. */
  lemma QosPublishKept(flags: nat, data: Bytes)
    requires flags < 16 && QosOf(flags) > 0 && |data| < 1000
    ensures var topic: Bytes := seq(514, _ => 2);
            var packet := Packet(PUBLISH, flags, PublishBody(topic, 514, flags, data));
            && Readable(packet)
            && Parsed(packet) == Some((|packet|, Message(PUBLISH, QosOf(flags), 514, topic, data, 0)))
  {
    hide Readable, Parsed;
    var topic: Bytes := seq(514, _ => 2);
    var packet := Packet(PUBLISH, flags, PublishBody(topic, 514, flags, data));
    QosPublishExactly(topic, 514, flags, data, []);
    assert packet + [] == packet;
    assert BigEndian16(514) == [2, 2];
  }

  lemma SubscribeRoundTrip(topics: seq<Topic>, messageId: nat, rest: Bytes)
    requires messageId < 65536 && |SubscribeBody(topics, messageId)| < 0x1000_0000
    ensures var packet := Packet(SUBSCRIBE, 2, SubscribeBody(topics, messageId));
            && Readable(packet + rest)
            && Parsed(packet + rest) == Some((|packet|, Message(SUBSCRIBE, 1, messageId, [], TopicsBytes(topics), 0)))
  {
    hide Decoded, Terminated, Header, BigEndian16, U16, TopicsBytes;
    var body := SubscribeBody(topics, messageId);
    var h := Header(SUBSCRIBE, 2, |body|);
    var s := Packet(SUBSCRIBE, 2, body) + rest;
    PacketFound(SUBSCRIBE, 2, body, rest);
    assert s == h + BigEndian16(messageId) + (TopicsBytes(topics) + rest);
    U16IsBigEndian(h, messageId, TopicsBytes(topics) + rest);
    assert s[|h| + 2..|h| + |body|] == TopicsBytes(topics);
  }

  // The topics of a SUBSCRIBE.

  /** The topic at pos lies inside the payload, which the iterator does not check itself. */
  predicate TopicInside(payload: Bytes, pos: nat) {
    pos + 2 <= |payload| && pos + 3 + U16(payload, pos) <= |payload|
  }

  /** mg_mqtt_next_subscribe_topic */
  method NextSubscribeTopic(payload: Bytes, pos: nat) returns (next: int, topic: Topic)
    requires pos < |payload| ==> TopicInside(payload, pos)
    ensures next == -1 <==> pos >= |payload|
    ensures pos < |payload| ==>
              var len := U16(payload, pos);
              next == pos + 3 + len && topic == Topic(payload[pos + 2..pos + 2 + len], payload[pos + 2 + len])
  {
    if pos >= |payload| {
      return -1, Topic([], 0);
    }
    var len := U16(payload, pos);
    topic := Topic(payload[pos + 2..pos + 2 + len], payload[pos + 2 + len]);
    next := pos + 2 + len + 1;
  }

  lemma TopicAt(pre: Bytes, t: Topic, post: Bytes)
    requires |t.name| < 65536
    ensures var s, pos := pre + TopicBytes(t) + post, |pre|;
            && TopicInside(s, pos) && U16(s, pos) == |t.name|
            && s[pos + 2..pos + 2 + |t.name|] == t.name && s[pos + 2 + |t.name|] == t.qos
  {
    hide U16, BigEndian16;
    var s := pre + TopicBytes(t) + post;
    assert s == pre + BigEndian16(|t.name|) + (t.name + [t.qos] + post);
    U16IsBigEndian(pre, |t.name|, t.name + [t.qos] + post);
  }

  lemma TopicsSplit(topics: seq<Topic>, i: nat)
    requires i < |topics|
    ensures TopicsBytes(topics) == TopicsBytes(topics[..i]) + TopicBytes(topics[i]) + TopicsBytes(topics[i + 1..])
    decreases i
  {
    hide TopicBytes;
    if i == 0 {
      assert topics[..0] == [];
      assert TopicsBytes(topics) == [] + TopicBytes(topics[0]) + TopicsBytes(topics[1..]);
    } else {
      TopicsSplit(topics[1..], i - 1);
      assert topics[1..][..i - 1] == topics[..i][1..] && topics[1..][i - 1] == topics[i]
          && topics[1..][i..] == topics[i + 1..];
    }
  }

  /** Iterating over a written SUBSCRIBE gives back exactly the topics, then -1. */
  method AllTopics(payload: Bytes, ghost topics: seq<Topic>) returns (found: seq<Topic>)
    requires payload == TopicsBytes(topics) && forall i :: 0 <= i < |topics| ==> |topics[i].name| < 65536
    ensures found == topics
  {
    hide TopicsBytes, U16;
    found := [];
    TopicsNone();
    assert topics[..0] == [];
    assert topics[..|topics|] == topics;
    var pos: nat := 0;
    var more := true;
    while more
      invariant |found| <= |topics| && found == topics[..|found|] && pos == |TopicsBytes(found)|
      invariant !more ==> |found| == |topics|
      decreases |topics| - |found| + if more then 1 else 0
    {
      ghost var i := |found|;
      if i < |topics| {
        TopicsSplit(topics, i);
        TopicAt(TopicsBytes(found), topics[i], TopicsBytes(topics[i + 1..]));
        TopicsSnoc(found, topics[i]);
      }
      var next, topic := NextSubscribeTopic(payload, pos);
      if next == -1 {
        more := false;
      } else {
        found := found + [topic];
        pos := next;
      }
    }
  }

  // Packets of the standard.

  /** Table 2.4 of MQTT 3.1.1 and the number it uses as its example. */
  lemma LengthTable()
    ensures RemainingLength(0) == [0] && RemainingLength(127) == [0x7F] && RemainingLength(128) == [0x80, 0x01]
    ensures RemainingLength(321) == [193, 2] && RemainingLength(16383) == [0xFF, 0x7F]
    ensures RemainingLength(16384) == [0x80, 0x80, 0x01] && RemainingLength(2097152) == [0x80, 0x80, 0x80, 0x01]
  {
    assert RemainingLength(16384 / 128) == [0x80, 0x01];
    assert RemainingLength(2097152 / 128) == [0x80, 0x80, 0x01];
  }

  /** The variable header of section 3.3.2.3: topic "a/b" and identifier 10, in a PUBLISH with QoS 1. */
  lemma PublishExample()
    ensures Packet(PUBLISH, 2, PublishBody(Ascii("a/b"), 10, 2, []))
         == [0x32, 0x07, 0x00, 0x03, 0x61, 0x2F, 0x62, 0x00, 0x0A]
    ensures U16([0x00, 0x0A], 0) == 10 && U16([0x01, 0x00], 0) == 256
  {
  }

  /** The payload of section 3.8.3: topics "a/b" with QoS 1 and "c/d" with QoS 2, under identifier 10. */
  lemma SubscribeExample()
    ensures var body := SubscribeBody([Topic(Ascii("a/b"), 1), Topic(Ascii("c/d"), 2)], 10);
            && body == [0, 10] + [0, 3, 0x61, 0x2F, 0x62, 1] + [0, 3, 0x63, 0x2F, 0x64, 2]
            && Packet(SUBSCRIBE, 2, body) == [0x82, 14] + body
  {
    var second := Topic(Ascii("c/d"), 2);
    assert TopicsBytes([second]) == TopicBytes(second) + [] by {
      assert [second][1..] == [];
    }
    assert [Topic(Ascii("a/b"), 1), second][1..] == [second];
  }

  /** As they are read: CONNACK with code 5, PUBACK and SUBACK, and three packets without fields here. */
  lemma AcknowledgementExamples()
    ensures Readable([0x20, 2, 0, 5]) && Parsed([0x20, 2, 0, 5]) == Some((4, Message(2, 0, 0, [], [], 5)))
    ensures Readable([0x40, 2, 0, 7]) && Parsed([0x40, 2, 0, 7]) == Some((4, Message(4, 0, 7, [], [], 0)))
    ensures Readable([0x90, 3, 0, 7, 1]) && Parsed([0x90, 3, 0, 7, 1]) == Some((5, Message(9, 0, 7, [], [], 0)))
    ensures Readable([0xA2, 2, 0, 7]) && Parsed([0xA2, 2, 0, 7]) == Some((4, Message(10, 1, 0, [], [], 0)))
    ensures Readable([0xB0, 2, 0, 7]) && Parsed([0xB0, 2, 0, 7]) == Some((4, Message(11, 0, 0, [], [], 0)))
    ensures Readable([0xD0, 0]) && Parsed([0xD0, 0]) == Some((2, Message(13, 0, 0, [], [], 0)))
  {
  }
}
