/** The CoAP message object: mg_coap_compose writes it to a buffer, mg_coap_parse reads it. */
module CoapMessage {
  import opened Bytes
  import opened MbufModule
  import opened CoapOptions
  import opened CoapCodec

  // ----- writing through a pointer into the buffer -----

  /** memcpy(ptr, data), ptr += |data| */
  method Put(io: Mbuf, ptr: nat, data: Bytes) returns (next: nat)
    requires io.Valid() && ptr + |data| <= io.len
    modifies io`Contents, io.buf
    ensures io.Valid() && next == ptr + |data| && |io.Contents| == |old(io.Contents)|
    ensures io.Contents[..next] == old(io.Contents)[..ptr] + data
    ensures forall k :: next <= k < io.len ==> io.Contents[k] == old(io.Contents)[k]
  {
    hide Mbuf.Valid;
    io.Write(ptr, data);
    OverwriteEnds(old(io.Contents), ptr, data, ptr + |data|);
    next := ptr + |data|;
  }

  /** coap_add_uint16 */
  method PutUint16(io: Mbuf, ptr: nat, value: u16) returns (next: nat)
    requires io.Valid() && ptr + 2 <= io.len
    modifies io`Contents, io.buf
    ensures io.Valid() && next == ptr + 2 && |io.Contents| == |old(io.Contents)|
    ensures io.Contents[..next] == old(io.Contents)[..ptr] + [value / 256, value % 256]
    ensures forall k :: next <= k < io.len ==> io.Contents[k] == old(io.Contents)[k]
  {
    hide Mbuf.Valid;
    next := Put(io, ptr, [value / 256]);
    next := Put(io, next, [value % 256]);
  }

  /** coap_split_opt */
  method SplitOption(value: nat) returns (base: byte, ext: u16, size: nat)
    requires value <= MAX_OPT
    ensures base == Base(value) && size == ExtSize(value)
    ensures size == 1 ==> ext < 256 && Ext(value) == [ext]
    ensures size == 2 ==> Ext(value) == [ext / 256, ext % 256]
  {
    base, ext, size := 0, 0, 0;
    if value < 13 {
      base := value;
    } else if value <= 0xFF + 13 {
      base, ext, size := 13, value - 13, 1;
    } else {
      base, ext, size := 14, value - 269, 2;
    }
  }

  /** coap_add_opt_info */
  method PutOptionInfo(io: Mbuf, ptr: nat, ghost value: nat, ext: u16, size: nat) returns (next: nat)
    requires io.Valid() && size == ExtSize(value) && ptr + size <= io.len
    requires size == 1 ==> ext < 256 && Ext(value) == [ext]
    requires size == 2 ==> Ext(value) == [ext / 256, ext % 256]
    modifies io`Contents, io.buf
    ensures io.Valid() && next == ptr + size && |io.Contents| == |old(io.Contents)|
    ensures io.Contents[..next] == old(io.Contents)[..ptr] + Ext(value)
    ensures forall k :: next <= k < io.len ==> io.Contents[k] == old(io.Contents)[k]
  {
    hide Mbuf.Valid;
    next := ptr;
    if size == 1 {
      next := Put(io, ptr, [ext]);
    } else if size == 2 {
      next := PutUint16(io, ptr, ext);
    } else {
      assert Ext(value) == [];
    }
  }

  /** One turn of the options loop of mg_coap_compose. */
  method PutOption(io: Mbuf, ptr: nat, delta: nat, value: Bytes) returns (next: nat)
    requires io.Valid() && delta <= MAX_OPT && |value| <= MAX_OPT
    requires ptr + |EncodeOption(delta, value)| <= io.len
    modifies io`Contents, io.buf
    ensures io.Valid() && |io.Contents| == |old(io.Contents)|
    ensures next == ptr + |EncodeOption(delta, value)|
    ensures io.Contents[..next] == old(io.Contents)[..ptr] + EncodeOption(delta, value)
    ensures forall k :: next <= k < io.len ==> io.Contents[k] == old(io.Contents)[k]
  {
    hide Base, Ext, ExtSize, Mbuf.Valid;
    var deltaBase, deltaExt, deltaSize := SplitOption(delta);
    var lengthBase, lengthExt, lengthSize := SplitOption(|value|);
    next := Put(io, ptr, [deltaBase * 16 + lengthBase]);
    next := PutOptionInfo(io, next, delta, deltaExt, deltaSize);
    next := PutOptionInfo(io, next, |value|, lengthExt, lengthSize);
    if |value| != 0 {
      next := Put(io, next, value);
    }
    RegroupFive(old(io.Contents)[..ptr], [deltaBase * 16 + lengthBase], Ext(delta), Ext(|value|), value);
  }

  function Plus(n: nat, more: Option<nat>): Option<nat> {
    match more case None => None case Some(k) => Some(n + k)
  }

  lemma OptionsSizeStep(prev: u32, opts: seq<Opt>)
    requires opts != []
    ensures var o, delta := opts[0], Delta(prev, opts[0].number);
            OptionsSize(prev, opts) ==
              if (|opts| > 1 && o.number > opts[1].number) || |o.value| > MAX_OPT || delta > MAX_OPT then None
              else Plus(1 + ExtSize(delta) + ExtSize(|o.value|) + |o.value|, OptionsSize(o.number, opts[1..]))
  {
  }

  lemma OptionsTail(nodes: seq<OptionNode>, i: nat)
    requires i < |nodes|
    ensures OptionsOf(nodes)[i..] == [Opt(nodes[i].number, nodes[i].value)] + OptionsOf(nodes)[i + 1..]
  {
    OptionsOfAt(nodes, i);
  }

  class Message {
    var flags: set<Flag>
    var msgType: byte
    var codeClass: byte
    var codeDetail: byte
    var msgId: u16
    var token: Bytes
    const options: OptionList
    var payload: Bytes

    ghost function Abs(): Msg
      reads this, options
    {
      Msg(msgType, codeClass, codeDetail, msgId, token, options.Options(), payload)
    }

    /** memset(cm, 0, sizeof(*cm)) */
    constructor ()
      ensures options.Valid() && fresh(options) && options.Nodes == []
      ensures flags == {} && Abs() == Msg(0, 0, 0, 0, [], [], [])
    {
      flags, msgType, codeClass, codeDetail, msgId := {}, 0, 0, 0, 0;
      token, payload := [], [];
      options := new OptionList();
    }

    /** The options loop of coap_calculate_packet_size. */
    method CalculateOptionsSize() returns (size: Option<nat>)
      requires options.Valid()
      ensures size == OptionsSize(0, options.Options())
    {
      hide OptionsSize, OptionsOf;
      ghost var all := options.Options();
      var opt := options.head;
      var len: nat, prev: u32 := 0, 0;
      ghost var i := 0;
      assert all[0..] == all;
      while opt != null
        invariant i <= |options.Nodes| == |all|
        invariant opt == if i < |options.Nodes| then options.Nodes[i] else null
        invariant OptionsSize(0, all) == Plus(len, OptionsSize(prev, all[i..]))
        decreases |all| - i
      {
        OptionsTail(options.Nodes, i);
        if opt.next != null {
          OptionsTail(options.Nodes, i + 1);
        }
        OptionsSizeStep(prev, all[i..]);
        assert all[i..][1..] == all[i + 1..];
        var delta := Delta(prev, opt.number);
        len := len + 1 + ExtSize(delta) + ExtSize(|opt.value|);
        if (opt.next != null && opt.number > opt.next.number) || |opt.value| > MAX_OPT || delta > MAX_OPT {
          return None;
        }
        len := len + |opt.value|;
        prev := opt.number;
        opt := opt.next;
        i := i + 1;
      }
      assert all[i..] == [];
      OptionsSizeNone(prev);
      return Some(len);
    }

    /** coap_calculate_packet_size */
    method CalculatePacketSize() returns (check: Check)
      requires options.Valid()
      ensures check == PacketSize(Abs())
    {
      hide OptionsSize;
      if msgType > 3 {
        return Bad(TypeField);
      }
      if |token| > 8 {
        return Bad(TokenField);
      }
      if codeClass > 7 {
        return Bad(ClassField);
      }
      if codeDetail > 31 {
        return Bad(DetailField);
      }
      var len := 4 + |token|;
      if |payload| != 0 {
        len := len + |payload| + 1;
      }
      var size := CalculateOptionsSize();
      match size {
        case None => check := Bad(OptionsField);
        case Some(n) => check := Size(len + n);
      }
    }

    /** The options loop of mg_coap_compose. */
    method PutOptions(io: Mbuf, start: nat) returns (ptr: nat)
      requires options.Valid() && OptionsSize(0, options.Options()).Some?
      requires io.Valid() && start + |EncodeOptions(0, options.Options())| <= io.len
      modifies io`Contents, io.buf
      ensures io.Valid() && |io.Contents| == |old(io.Contents)|
      ensures ptr == start + |EncodeOptions(0, options.Options())|
      ensures io.Contents[..ptr] == old(io.Contents)[..start] + EncodeOptions(0, options.Options())
    {
      hide OptionsSize, OptionsOf, EncodeOption, EncodeOptions, Mbuf.Valid;
      ghost var all := options.Options();
      ghost var written := old(io.Contents)[..start] + EncodeOptions(0, all);
      var opt := options.head;
      var prev: u32 := 0;
      ghost var i := 0;
      ptr := start;
      assert all[0..] == all;
      while opt != null
        invariant io.Valid() && |io.Contents| == |old(io.Contents)|
        invariant i <= |options.Nodes| == |all|
        invariant opt == if i < |options.Nodes| then options.Nodes[i] else null
        invariant OptionsSize(prev, all[i..]).Some?
        invariant ptr + |EncodeOptions(prev, all[i..])| == |written| <= |io.Contents|
        invariant io.Contents[..ptr] + EncodeOptions(prev, all[i..]) == written
        decreases |all| - i
      {
        OptionsTail(options.Nodes, i);
        OptionsSizeStep(prev, all[i..]);
        assert all[i..][1..] == all[i + 1..];
        EncodeOptionsCons(prev, all[i], all[i + 1..]);
        assert [all[i]] + all[i + 1..] == all[i..];
        ghost var before := io.Contents[..ptr];
        ptr := PutOption(io, ptr, Delta(prev, opt.number), opt.value);
        Regroup(before, EncodeOption(Delta(prev, opt.number), opt.value), EncodeOptions(opt.number, all[i + 1..]));
        prev := opt.number;
        opt := opt.next;
        i := i + 1;
      }
      assert all[i..] == [];
      OptionsSizeNone(prev);
      assert written == io.Contents[..ptr] + [] == io.Contents[..ptr];
    }

    /** The fixed header and the token. */
    method PutHeader(io: Mbuf, start: nat) returns (ptr: nat)
      requires msgType <= 3 && |token| <= 8 && codeClass <= 7 && codeDetail <= 31
      requires io.Valid() && start + 4 + |token| <= io.len
      modifies io`Contents, io.buf
      ensures io.Valid() && |io.Contents| == |old(io.Contents)| && ptr == start + 4 + |token|
      ensures io.Contents[..ptr] == old(io.Contents)[..start] + (EncodeHeader(Abs()) + token)
    {
      hide OptionsOf, Mbuf.Valid;
      ptr := Put(io, start, [64 + msgType * 16 + |token|]);
      ptr := Put(io, ptr, [codeClass * 32 + codeDetail]);
      ptr := PutUint16(io, ptr, msgId);
      assert io.Contents[..ptr] == old(io.Contents)[..start] + EncodeHeader(Abs());
      if |token| != 0 {
        ptr := Put(io, ptr, token);
      }
    }

    method PutPayload(io: Mbuf, start: nat) returns (ptr: nat)
      requires io.Valid() && start + |EncodePayload(payload)| <= io.len
      modifies io`Contents, io.buf
      ensures io.Valid() && |io.Contents| == |old(io.Contents)| && ptr == start + |EncodePayload(payload)|
      ensures io.Contents[..ptr] == old(io.Contents)[..start] + EncodePayload(payload)
    {
      hide Mbuf.Valid;
      ptr := start;
      if |payload| != 0 {
        ptr := Put(io, ptr, [MARKER]);
        ptr := Put(io, ptr, payload);
      }
    }

    /** Everything mg_coap_compose writes, into room already made for it. */
    method PutPacket(io: Mbuf, start: nat) returns (ptr: nat)
      requires options.Valid() && Accepted(Abs())
      requires io.Valid() && start + |Encode(Abs())| <= io.len
      modifies io`Contents, io.buf
      ensures io.Valid() && |io.Contents| == |old(io.Contents)| && ptr == start + |Encode(Abs())|
      ensures io.Contents[..ptr] == old(io.Contents)[..start] + Encode(Abs())
    {
      hide OptionsSize, EncodeOptions, EncodePayload, OptionsOf, Mbuf.Valid;
      ghost var before, m := old(io.Contents)[..start], Abs();
      ptr := PutHeader(io, start);
      ptr := PutOptions(io, ptr);
      ptr := PutPayload(io, ptr);
      RegroupFour(before, EncodeHeader(m) + token, EncodeOptions(0, m.options), EncodePayload(payload));
    }

    /** mg_coap_compose: on success the packet is appended, on an error the buffer is left alone. */
    method Compose(io: Mbuf) returns (error: Option<Flag>)
      requires options.Valid() && io.Valid()
      modifies io, io.buf
      ensures io.Valid()
      ensures !Accepted(Abs()) ==> error == Some(PacketSize(Abs()).field) && io.Contents == old(io.Contents)
      ensures Accepted(Abs()) ==>
                && error == None
                && io.Contents == old(io.Contents) + Encode(Abs())
                && |io.Contents| == |old(io.Contents)| + PacketSize(Abs()).n
    {
      hide PacketSize, Encode, Mbuf.Valid;
      var check := CalculatePacketSize();
      if check.Bad? {
        return Some(check.field);
      }
      PacketSizeIsExact(Abs());
      ghost var was := io.Contents;
      var prevLen := io.len;
      ghost var gap := io.OpenGap(prevLen, check.n);
      assert io.Contents[..prevLen] == was && |io.Contents| == prevLen + check.n;
      var ptr := PutPacket(io, prevLen);
      assert io.Contents[..ptr] == io.Contents;
      return None;
    }

    /**
     One turn of the loop of coap_get_options: the option is added before its value is known to
     be complete, and the parse stops if it is not.
     */
    method TakeOption(io: Mbuf, ptr: nat, prev: u16) returns (error: Option<Flag>, next: nat, number: u16)
      requires options.Valid() && io.Valid() && ptr < io.len
      modifies options, options.Nodes
      ensures options.Valid() && fresh(set n | n in options.Nodes && n !in old(options.Nodes))
      ensures var r := ParseOption(prev, io.Contents[ptr..]);
              && (r.Reserved? ==> error == Some(FormatError))
              && (r.TooShort? ==> error == Some(NotEnoughData))
              && (r.Got? ==>
                    && error == None && number == r.number && next == ptr + r.used
                    && options.Options() == Insert(old(options.Options()), Opt(r.number, r.value)))
    {
      hide Insert, OptionsOf, ParseExt, Mbuf.Valid;
      ghost var s := io.Contents[ptr..];
      number := prev;
      var delta, length := io.At(ptr) / 16, io.At(ptr) % 16;
      if delta == 15 || length == 15 {
        return Some(FormatError), ptr, prev;
      }
      next := ptr + 1;
      assert s[1..] == io.Contents[next..];
      var d := ParseExtAt(io, next, delta);
      if d == None {
        return Some(NotEnoughData), ptr, prev;
      }
      assert s[1 + d.value.used..] == io.Contents[next + d.value.used..];
      next := next + d.value.used;
      var l := ParseExtAt(io, next, length);
      if l == None {
        return Some(NotEnoughData), ptr, prev;
      }
      next := next + l.value.used;
      number := (d.value.value + prev) % 0x1_0000;
      var end := next + l.value.value;
      var value := io.Slice(next, if end <= io.len then end else io.len);
      var option := options.Add(number, value);
      if end > io.len {
        return Some(NotEnoughData), ptr, prev;
      }
      assert value == s[next - ptr..end - ptr];
      return None, end, number;
    }

    /** coap_get_options, from the first option on. */
    method TakeOptions(io: Mbuf, start: nat) returns (error: Option<Flag>, ptr: nat)
      requires options.Valid() && options.Nodes == [] && io.Valid() && start <= io.len
      modifies options
      ensures options.Valid() && start <= ptr <= io.len
      ensures var r := ParseOptions(0, [], io.Contents[start..]);
              if r.OptionsError? then error == Some(r.flag) && options.Options() == []
              else error == None && options.Options() == r.options && io.Contents[ptr..] == r.rest
    {
      hide Insert, OptionsOf, ParseOption, ParseOptions, Mbuf.Valid;
      ghost var result := ParseOptions(0, [], io.Contents[start..]);
      ptr := start;
      var prev: u16 := 0;
      OptionsOfNone();
      while ptr < io.len && io.At(ptr) != MARKER
        invariant options.Valid() && fresh(options.Nodes) && start <= ptr <= io.len
        invariant ParseOptions(prev, options.Options(), io.Contents[ptr..]) == result
        decreases io.len - ptr
      {
        ghost var s := io.Contents[ptr..];
        ParseOptionsUnfold(prev, options.Options(), s);
        var next, number;
        error, next, number := TakeOption(io, ptr, prev);
        if error.Some? {
          options.Free();
          OptionsOfNone();
          return;
        }
        assert s[next - ptr..] == io.Contents[next..];
        ptr, prev := next, number;
      }
      ParseOptionsUnfold(prev, options.Options(), io.Contents[ptr..]);
      error := None;
    }

    /** coap_parse_header and coap_get_token, on a message just cleared. */
    method TakeHeader(io: Mbuf) returns (ok: bool, ptr: nat)
      requires flags == {} && Abs() == Msg(0, 0, 0, 0, [], [], []) && io.Valid()
      modifies this
      ensures var r := ReadHeader(io.Contents);
              && flags == r.flags && (ok <==> r.Parsed?)
              && (ok ==> Abs() == r.msg && ptr <= io.len && io.Contents[ptr..] == Body(io.Contents))
    {
      hide OptionsOf, Mbuf.Valid, ReadHeader, Body;
      HeaderCases(io.Contents);
      ptr := 0;
      if io.len < 4 {
        flags := {NotEnoughData};
        return false, 0;
      }
      if io.At(0) / 64 != 1 {
        flags := {Ignore};
        return false, 0;
      }
      msgType := io.At(0) / 16 % 4;
      flags := {TypeField};
      var tokenLen: nat := io.At(0) % 16;
      if tokenLen > 8 {
        flags := flags + {FormatError};
        return false, 0;
      }
      codeClass, codeDetail := io.At(1) / 32, io.At(1) % 32;
      msgId := io.At(2) as int * 256 + io.At(3) as int;
      flags := flags + {ClassField, DetailField, IdField};
      assert flags == HEADER_FLAGS;
      ptr := 4 + tokenLen;
      if ptr > io.len {
        flags := flags + {NotEnoughData};
        return false, 0;
      }
      token := io.Slice(4, ptr);
      if tokenLen != 0 {
        flags := flags + {TokenField};
      }
      return true, ptr;
    }

    /** mg_coap_parse */
    method Parse(io: Mbuf)
      requires options.Valid() && options.Nodes == [] && flags == {}
      requires Abs() == Msg(0, 0, 0, 0, [], [], []) && io.Valid()
      modifies this, options
      ensures var r := CoapCodec.Parse(io.Contents);
              && options.Valid() && flags == r.flags
              && if r.Failed? then options.Options() == [] else Abs() == r.msg
    {
      hide OptionsOf, ParseOptions, ReadHeader, Body, Mbuf.Valid;
      OptionsOfNone();
      var ok, ptr := TakeHeader(io);
      assert io.Contents[io.len..] == [];
      if !ok || ptr == io.len {
        return;
      }
      var error, rest := TakeOptions(io, ptr);
      if error.Some? {
        flags := flags + {error.value};
        return;
      }
      flags := flags + {OptionsField};
      if rest < io.len {
        payload := io.Slice(rest + 1, io.len);
        assert payload == io.Contents[rest..][1..];
        if |payload| != 0 {
          flags := flags + {PayloadField};
        }
      }
    }
  }

  lemma OptionsOfNone()
    ensures OptionsOf([]) == []
  {
  }

  lemma ParseOptionsUnfold(prev: u16, acc: seq<Opt>, s: Bytes)
    ensures ParseOptions(prev, acc, s) ==
              if AtEnd(s) then Options(acc, s)
              else
                var r := ParseOption(prev, s);
                if r.Reserved? then OptionsError(FormatError)
                else if r.TooShort? then OptionsError(NotEnoughData)
                else ParseOptions(r.number, Insert(acc, Opt(r.number, r.value)), s[r.used..])
  {
    hide ParseOption, Insert;
  }

  /** coap_get_ext_opt */
  method ParseExtAt(io: Mbuf, ptr: nat, nibble: nat) returns (r: Option<ExtResult>)
    requires io.Valid() && ptr <= io.len && nibble < 15
    ensures r == ParseExt(nibble, io.Contents[ptr..])
  {
    hide Mbuf.Valid;
    r := Some(ExtResult(nibble, 0, false));
    if nibble == 13 {
      if ptr < io.len {
        r := Some(ExtResult(io.At(ptr) as int + 13, 1, false));
      } else {
        r := None;
      }
    } else if nibble == 14 {
      if ptr + 1 < io.len {
        var v := io.At(ptr) as int * 256 + io.At(ptr + 1) as int + 269;
        r := Some(ExtResult(v % 0x1_0000, 2, v >= 0x1_0000));
      } else {
        r := None;
      }
    }
  }

  lemma OptionsSizeNone(prev: u32)
    ensures OptionsSize(prev, []) == Some(0) && EncodeOptions(prev, []) == []
  {
  }
}
