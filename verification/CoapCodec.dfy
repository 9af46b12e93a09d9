/** CoAP messages on the wire (section 3 of RFC 7252): composing and parsing. */
module CoapCodec {
  import opened Bytes
  import opened CoapOptions

  type u16 = x: int | 0 <= x < 0x1_0000

  const MARKER: byte := 0xFF
  const MAX_OPT: nat := 0xFFFF + 269

  datatype Msg = Msg(
    msgType: byte, codeClass: byte, codeDetail: byte, msgId: u16,
    token: Bytes, options: seq<Opt>, payload: Bytes
  )

  /** The bits of mg_coap_message::flags and of compose's result. */
  datatype Flag =
    | TypeField | ClassField | DetailField | IdField | TokenField | OptionsField | PayloadField
    | FormatError | Ignore | NotEnoughData

  // ----- composing -----

  /** coap_get_ext_opt_size */
  function ExtSize(v: nat): nat {
    if 13 <= v <= 0xFF + 13 then 1 else if 0xFF + 13 < v <= MAX_OPT then 2 else 0
  }

  /** The four-bit half of coap_split_opt. */
  function Base(v: nat): (b: nat)
    ensures b <= 14
  {
    if v < 13 then v else if v <= 0xFF + 13 then 13 else if v <= MAX_OPT then 14 else 0
  }

  /** The extended half of coap_split_opt, as coap_add_opt_info writes it. */
  function Ext(v: nat): (e: Bytes)
    ensures |e| == ExtSize(v)
  {
    if 13 <= v <= 0xFF + 13 then [v - 13]
    else if 0xFF + 13 < v <= MAX_OPT then [(v - 269) / 256, (v - 269) % 256]
    else []
  }

  /** opt->number - prev_opt_number in 32-bit arithmetic. */
  function Delta(prev: u32, number: u32): nat {
    (number - prev) % 0x1_0000_0000
  }

  function EncodeOption(delta: nat, value: Bytes): (r: Bytes)
    ensures r != [] && r[0] != MARKER
  {
    [Base(delta) * 16 + Base(|value|)] + Ext(delta) + Ext(|value|) + value
  }

  function EncodeOptions(prev: u32, opts: seq<Opt>): Bytes
    decreases |opts|
  {
    if opts == [] then []
    else EncodeOption(Delta(prev, opts[0].number), opts[0].value) + EncodeOptions(opts[0].number, opts[1..])
  }

  function EncodeHeader(m: Msg): (h: Bytes)
    ensures |h| == 4
    requires m.msgType <= 3 && |m.token| <= 8 && m.codeClass <= 7 && m.codeDetail <= 31
  {
    [64 + m.msgType * 16 + |m.token|, m.codeClass * 32 + m.codeDetail, m.msgId / 256, m.msgId % 256]
  }

  function EncodePayload(payload: Bytes): Bytes {
    if payload == [] then [] else [MARKER] + payload
  }

  /** The options loop of coap_calculate_packet_size: the bytes needed, or None on an error. */
  function OptionsSize(prev: u32, opts: seq<Opt>): Option<nat>
    decreases |opts|
  {
    if opts == [] then Some(0)
    else
      var o := opts[0];
      var delta := Delta(prev, o.number);
      if (|opts| > 1 && o.number > opts[1].number) || |o.value| > MAX_OPT || delta > MAX_OPT then None
      else
        match OptionsSize(o.number, opts[1..])
        case None => None
        case Some(n) => Some(1 + ExtSize(delta) + ExtSize(|o.value|) + |o.value| + n)
  }

  datatype Check = Size(n: nat) | Bad(field: Flag)

  /** coap_calculate_packet_size */
  function PacketSize(m: Msg): Check {
    if m.msgType > 3 then Bad(TypeField)
    else if |m.token| > 8 then Bad(TokenField)
    else if m.codeClass > 7 then Bad(ClassField)
    else if m.codeDetail > 31 then Bad(DetailField)
    else
      match OptionsSize(0, m.options)
      case None => Bad(OptionsField)
      case Some(n) => Size(4 + |m.token| + (if m.payload == [] then 0 else |m.payload| + 1) + n)
  }

  predicate Accepted(m: Msg) {
    PacketSize(m).Size?
  }

  function Encode(m: Msg): Bytes
    requires Accepted(m)
  {
    EncodeHeader(m) + m.token + EncodeOptions(0, m.options) + EncodePayload(m.payload)
  }

  /** The precomputed size is the size of what is written. */
  lemma {:induction false} OptionsSizeIsExact(prev: u32, opts: seq<Opt>)
    requires OptionsSize(prev, opts).Some?
    ensures |EncodeOptions(prev, opts)| == OptionsSize(prev, opts).value
    decreases |opts|
  {
    if opts != [] {
      OptionsSizeIsExact(opts[0].number, opts[1..]);
    }
  }

  lemma PacketSizeIsExact(m: Msg)
    requires Accepted(m)
    ensures |Encode(m)| == PacketSize(m).n
  {
    OptionsSizeIsExact(0, m.options);
  }

  // ----- parsing -----

  datatype ExtResult = ExtResult(value: nat, used: nat, wraps: bool)

  /** coap_get_ext_opt; wraps tells that the uint16_t could not hold the value. */
  function ParseExt(nibble: nat, s: Bytes): (r: Option<ExtResult>)
    requires nibble < 15
    ensures r.Some? ==> r.value.used <= |s| && r.value.value < 0x1_0000
  {
    if nibble == 13 then
      if s == [] then None else Some(ExtResult(s[0] as int + 13, 1, false))
    else if nibble == 14 then
      if |s| < 2 then None
      else
        var v := s[0] as int * 256 + s[1] as int + 269;
        Some(ExtResult(v % 0x1_0000, 2, v >= 0x1_0000))
    else Some(ExtResult(nibble, 0, false))
  }

  datatype OptionStep = Reserved | TooShort | Got(number: u16, value: Bytes, used: nat, wraps: bool)

  /** One turn of the loop of coap_get_options. */
  function ParseOption(prev: u16, s: Bytes): (r: OptionStep)
    requires s != []
    ensures r.Got? ==> 0 < r.used <= |s| && |r.value| < 0x1_0000
  {
    var delta, length := s[0] / 16, s[0] % 16;
    if delta == 15 || length == 15 then Reserved
    else
      match ParseExt(delta, s[1..])
      case None => TooShort
      case Some(d) =>
        match ParseExt(length, s[1 + d.used..])
        case None => TooShort
        case Some(l) =>
          var at := 1 + d.used + l.used;
          var number := d.value + prev;
          if at + l.value > |s| then TooShort
          else Got(number % 0x1_0000, s[at..at + l.value], at + l.value, d.wraps || l.wraps || number >= 0x1_0000)
  }

  datatype OptionsResult = Options(options: seq<Opt>, rest: Bytes) | OptionsError(flag: Flag)

  predicate AtEnd(s: Bytes) {
    s == [] || s[0] == MARKER
  }

  /** The loop of coap_get_options: options are added to the message as they are read. */
  function ParseOptions(prev: u16, acc: seq<Opt>, s: Bytes): OptionsResult
    decreases |s|
  {
    if AtEnd(s) then Options(acc, s)
    else
      match ParseOption(prev, s)
      case Reserved => OptionsError(FormatError)
      case TooShort => OptionsError(NotEnoughData)
      case Got(number, value, used, _) => ParseOptions(number, Insert(acc, Opt(number, value)), s[used..])
  }

  datatype ParseResult = Failed(flags: set<Flag>) | Parsed(flags: set<Flag>, msg: Msg)

  const HEADER_FLAGS: set<Flag> := {TypeField, ClassField, DetailField, IdField}

  /** The bytes behind the header and the token. */
  function Body(s: Bytes): Bytes {
    if |s| >= 4 && 4 + s[0] % 16 <= |s| then s[4 + s[0] % 16..] else []
  }

  /** coap_parse_header and coap_get_token */
  function ReadHeader(s: Bytes): (r: ParseResult)
    ensures r.Parsed? ==> |s| >= 4 && 4 + s[0] % 16 <= |s| && r.msg.options == [] && r.msg.payload == []
  {
    if |s| < 4 then Failed({NotEnoughData})
    else if s[0] / 64 != 1 then Failed({Ignore})
    else if s[0] % 16 > 8 then Failed({TypeField, FormatError})
    else
      var at := 4 + s[0] % 16;
      if at > |s| then Failed(HEADER_FLAGS + {NotEnoughData})
      else
        Parsed(HEADER_FLAGS + (if at > 4 then {TokenField} else {}),
               Msg(s[0] / 16 % 4, s[1] / 32, s[1] % 32, s[2] as int * 256 + s[3] as int, s[4..at], [], []))
  }

  /** The header read in the order of the tests. */
  lemma HeaderCases(s: Bytes)
    ensures |s| < 4 ==> ReadHeader(s) == Failed({NotEnoughData})
    ensures |s| >= 4 && s[0] / 64 != 1 ==> ReadHeader(s) == Failed({Ignore})
    ensures |s| >= 4 && s[0] / 64 == 1 && s[0] % 16 > 8 ==> ReadHeader(s) == Failed({TypeField, FormatError})
    ensures |s| >= 4 && s[0] / 64 == 1 && s[0] % 16 <= 8 ==>
              var at: nat := 4 + s[0] % 16;
              if at > |s| then ReadHeader(s) == Failed(HEADER_FLAGS + {NotEnoughData})
              else
                && ReadHeader(s) ==
                   Parsed(HEADER_FLAGS + (if at > 4 then {TokenField} else {}),
                          Msg(s[0] / 16 % 4, s[1] / 32, s[1] % 32, s[2] as int * 256 + s[3] as int, s[4..at], [], []))
                && Body(s) == s[at..]
  {
  }

  /** mg_coap_parse */
  function Parse(s: Bytes): ParseResult {
    var r := ReadHeader(s);
    if r.Failed? || Body(s) == [] then r else ParseBody(r.flags, r.msg, Body(s))
  }

  function ParseBody(flags: set<Flag>, m: Msg, s: Bytes): ParseResult {
    match ParseOptions(0, [], s)
    case OptionsError(flag) => Failed(flags + {flag})
    case Options(options, rest) =>
      if |rest| <= 1 then Parsed(flags + {OptionsField}, m.(options := options))
      else Parsed(flags + {OptionsField} + {PayloadField}, m.(options := options, payload := rest[1..]))
  }

  // ----- one option, there and back -----

  /** The three encodings of a value are disjoint, so each value has exactly one. */
  lemma ExtRoundTrip(v: nat, rest: Bytes)
    requires v < 0x1_0000
    ensures ParseExt(Base(v), Ext(v) + rest) == Some(ExtResult(v, |Ext(v)|, false))
  {
    var s := Ext(v) + rest;
    if 269 <= v {
      assert s[0] == (v - 269) / 256 && s[1] == (v - 269) % 256;
    }
  }

  lemma ExtCanonical(nibble: nat, s: Bytes)
    requires nibble < 15 && ParseExt(nibble, s).Some? && !ParseExt(nibble, s).value.wraps
    ensures var r := ParseExt(nibble, s).value;
            Base(r.value) == nibble && Ext(r.value) == s[..r.used]
  {
    if nibble == 14 {
      var v := s[0] as int * 256 + s[1] as int;
      assert v / 256 == s[0] && v % 256 == s[1];
    }
  }

  lemma OptionRoundTrip(prev: u16, number: u16, value: Bytes, rest: Bytes)
    requires prev <= number && |value| < 0x1_0000
    ensures var e := EncodeOption(number - prev, value);
            ParseOption(prev, e + rest) == Got(number, value, |e|, false)
  {
    hide Base, Ext, ParseExt;
    var delta := number - prev;
    var e := EncodeOption(delta, value);
    var s := e + rest;
    assert s[0] == Base(delta) * 16 + Base(|value|);
    assert s[1..] == Ext(delta) + (Ext(|value|) + value + rest);
    ExtRoundTrip(delta, Ext(|value|) + value + rest);
    assert s[1 + |Ext(delta)|..] == Ext(|value|) + (value + rest);
    ExtRoundTrip(|value|, value + rest);
    var at := 1 + |Ext(delta)| + |Ext(|value|)|;
    assert s[at..at + |value|] == value;
  }

  lemma OptionCanonical(prev: u16, s: Bytes)
    requires s != [] && ParseOption(prev, s).Got? && !ParseOption(prev, s).wraps
    ensures var r := ParseOption(prev, s);
            prev <= r.number && EncodeOption(r.number - prev, r.value) == s[..r.used]
  {
    hide Base, Ext, ParseExt;
    var d := ParseExt(s[0] / 16, s[1..]).value;
    var l := ParseExt(s[0] % 16, s[1 + d.used..]).value;
    ExtCanonical(s[0] / 16, s[1..]);
    ExtCanonical(s[0] % 16, s[1 + d.used..]);
    var at := 1 + d.used + l.used;
    HeadInThree(s, d.used, l.used);
    assert s[..at + l.value] == s[..at] + s[at..at + l.value];
  }

  lemma HeadInThree(s: Bytes, x: nat, y: nat)
    requires 1 + x + y <= |s|
    ensures s[..1 + x + y] == [s[0]] + s[1..][..x] + s[1 + x..][..y]
  {
    assert s[1..][..x] == s[1..1 + x] && s[1 + x..][..y] == s[1 + x..1 + x + y];
    assert s[..1 + x + y] == s[..1 + x] + s[1 + x..1 + x + y];
    assert s[..1 + x] == [s[0]] + s[1..1 + x];
  }

  // ----- the option list, there and back -----

  predicate Small(opts: seq<Opt>) {
    forall i :: 0 <= i < |opts| ==> opts[i].number < 0x1_0000 && |opts[i].value| < 0x1_0000
  }

  /** Numbers ascend from prev on. */
  predicate Ascending(prev: nat, opts: seq<Opt>) {
    Sorted(opts) && (opts != [] ==> prev <= opts[0].number)
  }

  lemma AscendingCons(prev: nat, o: Opt, more: seq<Opt>)
    ensures Ascending(prev, [o] + more) <==> prev <= o.number && Ascending(o.number, more)
    ensures Small([o] + more) <==> o.number < 0x1_0000 && |o.value| < 0x1_0000 && Small(more)
  {
    var opts := [o] + more;
    assert forall i :: 0 <= i < |more| ==> opts[i + 1] == more[i];
  }

  lemma EncodeOptionsCons(prev: u32, o: Opt, more: seq<Opt>)
    ensures EncodeOptions(prev, [o] + more)
         == EncodeOption(Delta(prev, o.number), o.value) + EncodeOptions(o.number, more)
  {
    hide EncodeOption;
    assert ([o] + more)[1..] == more;
  }

  /** A list already in order is never rearranged by the option list. */
  lemma InsertAtEnd(acc: seq<Opt>, o: Opt)
    requires acc == [] || acc[|acc| - 1].number <= o.number
    ensures Insert(acc, o) == acc + [o]
  {
    assert acc[|acc|..] == [];
  }

  /** Every 16-bit value met on the way was exact. */
  predicate OptionsExact(prev: u16, s: Bytes)
    decreases |s|
  {
    AtEnd(s) ||
    match ParseOption(prev, s)
    case Got(number, value, used, wraps) => !wraps && OptionsExact(number, s[used..])
    case _ => true
  }

  lemma ParseOptionsEncoded(prev: u16, o: Opt, acc: seq<Opt>, s: Bytes)
    requires prev <= o.number < 0x1_0000 && |o.value| < 0x1_0000
    ensures var e := EncodeOption(Delta(prev, o.number), o.value);
            && ParseOptions(prev, acc, e + s) == ParseOptions(o.number, Insert(acc, o), s)
            && OptionsExact(prev, e + s) == OptionsExact(o.number, s)
  {
    hide EncodeOption, ParseOption, Insert;
    var e := EncodeOption(Delta(prev, o.number), o.value);
    OptionRoundTrip(prev, o.number, o.value, s);
    assert (e + s)[|e|..] == s && (e + s)[0] == e[0];
  }

  lemma {:induction false} OptionsRoundTrip(prev: u16, opts: seq<Opt>, acc: seq<Opt>, rest: Bytes)
    requires Ascending(prev, opts) && Small(opts) && AtEnd(rest)
    requires acc == [] || acc[|acc| - 1].number <= prev
    ensures ParseOptions(prev, acc, EncodeOptions(prev, opts) + rest) == Options(acc + opts, rest)
    ensures OptionsExact(prev, EncodeOptions(prev, opts) + rest)
    decreases |opts|
  {
    hide EncodeOption, ParseOption, Insert, Ascending, Small;
    if opts == [] {
      assert EncodeOptions(prev, opts) + rest == rest && acc + opts == acc;
    } else {
      hide EncodeOptions, ParseOptions, OptionsExact;
      var o, more := opts[0], opts[1..];
      var e, tail := EncodeOption(Delta(prev, o.number), o.value), EncodeOptions(o.number, more) + rest;
      assert opts == [o] + more;
      AscendingCons(prev, o, more);
      EncodeOptionsCons(prev, o, more);
      assert EncodeOptions(prev, opts) + rest == e + tail;
      ParseOptionsEncoded(prev, o, acc, tail);
      InsertAtEnd(acc, o);
      OptionsRoundTrip(o.number, more, acc + [o], rest);
      assert acc + [o] + opts[1..] == acc + opts;
    }
  }

  lemma {:induction false} OptionsSizeMeansAscending(prev: u32, opts: seq<Opt>)
    requires OptionsSize(prev, opts).Some?
    ensures Sorted(opts)
    decreases |opts|
  {
    if |opts| > 1 {
      OptionsSizeMeansAscending(opts[0].number, opts[1..]);
      forall i, j | 0 <= i < j < |opts|
        ensures opts[i].number <= opts[j].number
      {
        assert opts[1].number <= opts[1..][j - 1].number;
        if i > 0 {
          assert opts[1..][i - 1].number <= opts[1..][j - 1].number;
        }
      }
    }
  }

  lemma {:induction false} OptionsSizeOfSmall(prev: u16, opts: seq<Opt>)
    requires Ascending(prev, opts) && Small(opts)
    ensures OptionsSize(prev, opts).Some?
    decreases |opts|
  {
    if opts != [] {
      OptionsSizeOfSmall(opts[0].number, opts[1..]);
    }
  }

  /** Whatever is parsed, numbers and lengths are 16-bit values. */
  lemma {:induction false} ParsedOptionsSmall(prev: u16, acc: seq<Opt>, s: Bytes)
    requires Small(acc)
    ensures ParseOptions(prev, acc, s).Options? ==> Small(ParseOptions(prev, acc, s).options)
    decreases |s|
  {
    hide ParseOption, Place;
    if !AtEnd(s) && ParseOption(prev, s).Got? {
      var r := ParseOption(prev, s);
      ParsedOptionsSmall(r.number, Insert(acc, Opt(r.number, r.value)), s[r.used..]);
    }
  }

  lemma ParseOptionsGot(prev: u16, acc: seq<Opt>, s: Bytes)
    requires !AtEnd(s) && OptionsExact(prev, s) && ParseOptions(prev, acc, s).Options?
    ensures var r := ParseOption(prev, s);
            && r.Got? && !r.wraps && OptionsExact(r.number, s[r.used..])
            && ParseOptions(prev, acc, s) == ParseOptions(r.number, Insert(acc, Opt(r.number, r.value)), s[r.used..])
  {
    hide ParseOption, Insert;
  }

  lemma CanonicalEnd(prev: u16, acc: seq<Opt>, s: Bytes)
    requires AtEnd(s)
    ensures ParseOptions(prev, acc, s) == Options(acc + [], s)
    ensures Ascending(prev, []) && Small([]) && s == EncodeOptions(prev, []) + s
  {
    hide ParseOption, EncodeOption;
  }

  lemma CanonicalStep(prev: u16, acc: seq<Opt>, s: Bytes, more: seq<Opt>, rest: Bytes)
    requires s != [] && ParseOption(prev, s).Got? && !ParseOption(prev, s).wraps
    requires var r := ParseOption(prev, s);
             Ascending(r.number, more) && Small(more) && s[r.used..] == EncodeOptions(r.number, more) + rest
    ensures var o := Opt(ParseOption(prev, s).number, ParseOption(prev, s).value);
            && Ascending(prev, [o] + more) && Small([o] + more)
            && s == EncodeOptions(prev, [o] + more) + rest
  {
    hide ParseOption, EncodeOption, EncodeOptions, Ascending, Small;
    var r := ParseOption(prev, s);
    var o := Opt(r.number, r.value);
    OptionCanonical(prev, s);
    AscendingCons(prev, o, more);
    EncodeOptionsCons(prev, o, more);
    assert s == s[..r.used] + s[r.used..];
  }

  /** Exactly parsed options re-encode to the bytes they were read from. */
  lemma {:induction false} OptionsCanonical(prev: u16, acc: seq<Opt>, s: Bytes) returns (opts: seq<Opt>)
    requires OptionsExact(prev, s) && ParseOptions(prev, acc, s).Options?
    requires acc == [] || acc[|acc| - 1].number <= prev
    ensures ParseOptions(prev, acc, s).options == acc + opts
    ensures Ascending(prev, opts) && Small(opts)
    ensures s == EncodeOptions(prev, opts) + ParseOptions(prev, acc, s).rest
    decreases |s|
  {
    hide ParseOption, EncodeOption, Insert, EncodeOptions, Ascending, Small, ParseOptions, OptionsExact;
    if AtEnd(s) {
      opts := [];
      CanonicalEnd(prev, acc, s);
    } else {
      ParseOptionsGot(prev, acc, s);
      var r := ParseOption(prev, s);
      var o := Opt(r.number, r.value);
      OptionCanonical(prev, s);
      InsertAtEnd(acc, o);
      var more := OptionsCanonical(r.number, acc + [o], s[r.used..]);
      CanonicalStep(prev, acc, s, more, ParseOptions(prev, acc, s).rest);
      opts := [o] + more;
      assert acc + [o] + more == acc + opts;
    }
  }

  lemma ParsedRestAtEnd(prev: u16, acc: seq<Opt>, s: Bytes)
    requires ParseOptions(prev, acc, s).Options?
    ensures AtEnd(ParseOptions(prev, acc, s).rest)
    decreases |s|
  {
    hide ParseOption, Insert;
    if !AtEnd(s) {
      var r := ParseOption(prev, s);
      ParsedRestAtEnd(r.number, Insert(acc, Opt(r.number, r.value)), s[r.used..]);
    }
  }

  // ----- whole messages -----

  function ExpectedFlags(m: Msg): set<Flag> {
    HEADER_FLAGS
    + (if m.token == [] then {} else {TokenField})
    + (if m.options == [] && m.payload == [] then {} else {OptionsField})
    + (if m.payload == [] then {} else {PayloadField})
  }

  lemma HeaderBits(m: Msg)
    requires m.msgType <= 3 && |m.token| <= 8 && m.codeClass <= 7 && m.codeDetail <= 31
    ensures var h := EncodeHeader(m);
            && h[0] / 64 == 1 && h[0] / 16 % 4 == m.msgType && h[0] % 16 == |m.token|
            && h[1] / 32 == m.codeClass && h[1] % 32 == m.codeDetail
            && h[2] as int * 256 + h[3] as int == m.msgId
  {
  }

  /** The header and token of a packet, and what follows them. */
  lemma ReadComposedHeader(m: Msg, body: Bytes)
    requires m.msgType <= 3 && |m.token| <= 8 && m.codeClass <= 7 && m.codeDetail <= 31
    ensures var s := EncodeHeader(m) + m.token + body;
            && ReadHeader(s) == Parsed(HEADER_FLAGS + (if m.token == [] then {} else {TokenField}),
                                       m.(options := [], payload := []))
            && Body(s) == body
  {
    HeaderBits(m);
    hide EncodeHeader;
    var s := EncodeHeader(m) + m.token + body;
    assert s[0] == EncodeHeader(m)[0] && s[1] == EncodeHeader(m)[1];
    assert s[2] == EncodeHeader(m)[2] && s[3] == EncodeHeader(m)[3];
    assert s[4..4 + |m.token|] == m.token && s[4 + |m.token|..] == body;
  }

  /** With 16-bit option numbers and lengths, parsing what was composed gives the message back. */
  lemma SmallRoundTrip(m: Msg)
    requires Accepted(m) && Small(m.options)
    ensures Parse(Encode(m)) == Parsed(ExpectedFlags(m), m)
  {
    hide EncodeOptions, OptionsSize, ParseOptions, EncodeHeader, ReadHeader, Body, Sorted, Small;
    OptionsSizeMeansAscending(0, m.options);
    var rest := EncodePayload(m.payload);
    var body := EncodeOptions(0, m.options) + rest;
    assert Encode(m) == EncodeHeader(m) + m.token + body;
    ReadComposedHeader(m, body);
    OptionsRoundTrip(0, m.options, [], rest);
    assert [] + m.options == m.options;
    EncodeOptionsEmpty(0, m.options);
    assert m.payload != [] ==> rest[1..] == m.payload;
  }

  lemma EncodeOptionsEmpty(prev: u32, opts: seq<Opt>)
    ensures EncodeOptions(prev, opts) == [] <==> opts == []
  {
  }

  /**
   The round trip, and exactly when it holds: a number or a length that does not fit 16 bits
   is accepted by compose but cannot come back from parse.
   */
  lemma RoundTrip(m: Msg)
    requires Accepted(m)
    ensures Parse(Encode(m)) == Parsed(ExpectedFlags(m), m) <==> Small(m.options)
  {
    hide Encode, ParseOptions, Small;
    if Small(m.options) {
      SmallRoundTrip(m);
    }
    ParsedSmall(Encode(m));
  }

  /** The numbers that are lost: one option whose delta fits the extension but whose number does
      not fit 16 bits is composed, and comes back 65536 lower. */
  lemma WideNumberWraps(number: u32, id: u16)
    requires 0x1_0000 <= number <= MAX_OPT
    ensures var m := Msg(0, 0, 1, id, [], [Opt(number, [])], []);
            && Accepted(m)
            && Parse(Encode(m)) == Parsed(ExpectedFlags(m), m.(options := [Opt(number - 0x1_0000, [])]))
  {
    hide EncodeHeader, ReadHeader, ParseOptions;
    var m := Msg(0, 0, 1, id, [], [Opt(number, [])], []);
    var e := EncodeOption(number, []);
    WideOption(number);
    assert OptionsSize(0, m.options) == Some(3);
    assert Encode(m) == EncodeHeader(m) + m.token + e;
    ReadComposedHeader(m, e);
  }

  lemma WideOption(number: u32)
    requires 0x1_0000 <= number <= MAX_OPT
    ensures var options := [Opt(number, [])];
            var e := EncodeOption(number, []);
            && OptionsSize(0, options) == Some(3) && EncodeOptions(0, options) == e != []
            && ParseOptions(0, [], e) == Options([Opt(number - 0x1_0000, [])], [])
  {
    var options, o := [Opt(number, [])], Opt(number - 0x1_0000, []);
    var e := EncodeOption(number, []);
    assert options[1..] == [] && Delta(0, number) == number;
    var hi, lo := (number - 269) / 256, (number - 269) % 256;
    assert e == [14 * 16, hi, lo] && hi * 256 + lo == number - 269;
    assert ParseExt(14, e[1..]) == Some(ExtResult(number - 0x1_0000, 2, true));
    assert ParseOption(0, e) == Got(number - 0x1_0000, [], 3, true);
    assert Insert([], o) == [o];
    assert ParseOptions(o.number, [o], []) == Options([o], []);
  }

  lemma ParsedSmall(s: Bytes)
    ensures Parse(s).Parsed? ==> Small(Parse(s).msg.options)
  {
    hide ParseOptions;
    if |s| >= 4 && 4 + s[0] % 16 <= |s| {
      ParsedOptionsSmall(0, [], s[4 + s[0] % 16..]);
    }
  }

  /** A payload marker with no payload behind it, which the parser tolerates. */
  predicate BareMarker(s: Bytes) {
    ParseOptions(0, [], Body(s)).Options? && ParseOptions(0, [], Body(s)).rest == [MARKER]
  }

  lemma HeaderCanonical(s: Bytes)
    requires Parse(s).Parsed?
    ensures var m := Parse(s).msg;
            && m.msgType <= 3 && |m.token| <= 8 && m.codeClass <= 7 && m.codeDetail <= 31
            && s == EncodeHeader(m) + m.token + Body(s)
  {
    hide ParseOptions;
    var m := Parse(s).msg;
    var at := 4 + s[0] % 16;
    assert s[..4] == EncodeHeader(m) && m.token == s[4..at];
    assert s == s[..4] + s[4..at] + s[at..];
  }

  lemma BodyParsed(s: Bytes)
    requires Parse(s).Parsed?
    ensures var m, r := Parse(s).msg, ParseOptions(0, [], Body(s));
            r.Options? && m.options == r.options && m.payload == (if |r.rest| <= 1 then [] else r.rest[1..])
  {
    hide ParseOption;
  }

  /** An exactly parsed packet without a bare marker recomposes to the identical bytes. */
  lemma ExactIsCanonical(s: Bytes)
    requires Parse(s).Parsed? && OptionsExact(0, Body(s)) && !BareMarker(s)
    ensures Accepted(Parse(s).msg) && Encode(Parse(s).msg) == s
  {
    hide Parse, ParseOptions, EncodeOptions, EncodeHeader, OptionsSize, OptionsExact, Ascending, Small, Body;
    var m, r := Parse(s).msg, ParseOptions(0, [], Body(s));
    HeaderCanonical(s);
    BodyParsed(s);
    ParsedRestAtEnd(0, [], Body(s));
    var opts := OptionsCanonical(0, [], Body(s));
    assert [] + opts == opts;
    OptionsSizeOfSmall(0, opts);
    assert r.rest == EncodePayload(m.payload) by {
      if r.rest != [] {
        assert r.rest == [MARKER] + r.rest[1..];
      }
    }
    assert Encode(m) == EncodeHeader(m) + m.token + (EncodeOptions(0, opts) + r.rest);
  }

  lemma ComposedIsExact(m: Msg)
    requires Accepted(m) && Small(m.options)
    ensures OptionsExact(0, Body(Encode(m))) && !BareMarker(Encode(m))
  {
    hide ParseOptions, EncodeOptions, EncodeHeader, OptionsSize, OptionsExact, Sorted, Small, Body;
    OptionsSizeMeansAscending(0, m.options);
    var rest := EncodePayload(m.payload);
    var body := EncodeOptions(0, m.options) + rest;
    assert Encode(m) == EncodeHeader(m) + m.token + body;
    ReadComposedHeader(m, body);
    OptionsRoundTrip(0, m.options, [], rest);
  }

  /**
   Canonical form: among the packets that parse without an error flag, exactly those whose
   16-bit option arithmetic was exact and that do not end in a bare payload marker recompose to
   the bytes they came from.
   */
  lemma CanonicalForm(s: Bytes)
    requires Parse(s).Parsed?
    ensures (Accepted(Parse(s).msg) && Encode(Parse(s).msg) == s) <==> (OptionsExact(0, Body(s)) && !BareMarker(s))
  {
    hide Parse, Encode, Accepted, OptionsExact, BareMarker, Small;
    var m := Parse(s).msg;
    ParsedSmall(s);
    if Accepted(m) && Encode(m) == s {
      ComposedIsExact(m);
    }
    if OptionsExact(0, Body(s)) && !BareMarker(s) {
      ExactIsCanonical(s);
    }
  }

  // ----- examples of appendix A of RFC 7252 -----

  /** Figure 16: a confirmable GET of /temperature, whose Uri-Path option has number 11. */
  lemma RequestExample()
    ensures var m := Msg(0, 0, 1, 0x7d34, [], [Opt(11, Ascii("temperature"))], []);
            Accepted(m) && Encode(m) == [0x40, 0x01, 0x7d, 0x34, 0xbb] + Ascii("temperature")
  {
    var m := Msg(0, 0, 1, 0x7d34, [], [Opt(11, Ascii("temperature"))], []);
    assert m.options[1..] == [];
    assert OptionsSize(0, m.options) == Some(12);
    assert EncodeOptions(0, m.options) == [0xbb] + Ascii("temperature");
  }

  /** Its piggybacked response 2.05 with the payload "22.3 C". */
  lemma ResponseExample()
    ensures var m := Msg(2, 2, 5, 0x7d34, [], [], Ascii("22.3 C"));
            Accepted(m) && Encode(m) == [0x60, 0x45, 0x7d, 0x34, 0xff] + Ascii("22.3 C")
  {
  }

  /** The extended deltas and lengths of section 3.1, at the ends of their ranges. */
  lemma ExtendedExamples()
    ensures Base(12) == 12 && Ext(12) == [] && Base(13) == 13 && Ext(13) == [0] && Ext(268) == [255]
    ensures Base(269) == 14 && Ext(269) == [0, 0] && Ext(65804) == [255, 255] && Ext(65805) == []
  {
  }
}
