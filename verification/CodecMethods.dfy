/** The codec as the source runs it: a cursor that advances, buffers that grow, TLV records added one by one. */
module CodecMethods {
  import opened Wrappers
  import opened Bytes
  import opened Wire
  import opened Cursors
  import opened Fields
  import opened Messages
  import Codec
  import Tlv
  import opened TlvStreams

  // ----- Fixed fields -----

  method WriteFieldsTo(out: Buffer, fs: seq<Field>, vs: seq<Value>)
    requires |fs| == |vs|
    modifies out
    ensures out.bytes == old(out.bytes) + WriteFields(fs, vs)
  {
    var i := 0;
    while i < |fs|
      invariant i <= |fs|
      invariant out.bytes + WriteFields(fs[i..], vs[i..]) == old(out.bytes) + WriteFields(fs, vs)
    {
      ghost var before := out.bytes;
      match vs[i] {
        case Num(n) => out.WriteUint(n, if fs[i].Uint? then fs[i].width else 0);
        case Raw(bs) => if fs[i].Var? { out.WriteVec(bs); } else { out.Extend(bs); }
      }
      assert fs[i..][1..] == fs[i + 1..] && vs[i..][1..] == vs[i + 1..];
      ConcatAssociates(before, WriteField(fs[i], vs[i]), WriteFields(fs[i + 1..], vs[i + 1..]));
      i := i + 1;
    }
    assert out.bytes + [] == out.bytes;
  }

  method ReadFieldFrom(rules: Rules, cursor: Cursor, f: Field) returns (r: Result<Value, BoltError>)
    modifies cursor
    ensures Advanced(ReadField(rules, f, old(cursor.rest)), r, cursor.rest)
  {
    match f {
      case Uint(w) =>
        var n := cursor.ReadUint(w);
        if n.Err? { return Err(n.error); }
        r := Ok(Num(n.value));
      case Var =>
        var bs := cursor.ReadVec();
        if bs.Err? { return Err(bs.error); }
        r := Ok(Raw(bs.value));
      case Fixed(n) =>
        var bs := cursor.ReadBytes(n);
        if bs.Err? { return Err(bs.error); }
        r := Ok(Raw(bs.value));
      case Key =>
        var bs := cursor.ReadBytes(33);
        if bs.Err? { return Err(bs.error); }
        if !rules.validKey(bs.value) { return Err(InvalidPublicKey(bs.value)); }
        r := Ok(Raw(bs.value));
      case Signature =>
        var bs := cursor.ReadBytes(64);
        if bs.Err? { return Err(bs.error); }
        if !rules.validSignature(bs.value) { return Err(InvalidSignature(bs.value)); }
        r := Ok(Raw(bs.value));
    }
  }

  method ReadFieldsFrom(rules: Rules, cursor: Cursor, fs: seq<Field>) returns (r: Result<seq<Value>, BoltError>)
    modifies cursor
    ensures Advanced(ReadFields(rules, fs, old(cursor.rest)), r, cursor.rest)
    decreases |fs|
  {
    if fs == [] {
      return Ok([]);
    }
    var v := ReadFieldFrom(rules, cursor, fs[0]);
    if v.Err? { return Err(v.error); }
    var vs := ReadFieldsFrom(rules, cursor, fs[1..]);
    if vs.Err? { return Err(vs.error); }
    r := Ok([v.value] + vs.value);
  }

  // ----- TLV extensions -----

  method AddOptional(stream: TlvStream, t: nat, v: Option<Blob>)
    requires stream.Valid()
    requires forall i :: 0 <= i < |stream.records| ==> stream.records[i].tlvType < t
    modifies stream
    ensures stream.Valid() && stream.records == old(stream.records) + OptionalRecord(t, v)
  {
    if v.Some? {
      InsertLast(stream.records, Tlv.Record(t, v.value));
      stream.Add(t, v.value);
    }
  }

  lemma InsertLast(rs: seq<Tlv.Record>, r: Tlv.Record)
    requires forall i :: 0 <= i < |rs| ==> rs[i].tlvType < r.tlvType
    ensures Tlv.Insert(rs, r) == rs + [r]
  {
    Tlv.InsertAt(rs, r, |rs|);
    assert rs[..|rs|] + [r] + rs[|rs|..] == rs + [r];
  }

  method ConcatNetworks(networks: seq<Blob>) returns (value: Blob)
    ensures value == Concat(networks)
  {
    var out := new Buffer();
    var i := 0;
    while i < |networks|
      invariant i <= |networks| && fresh(out)
      invariant out.bytes + Concat(networks[i..]) == Concat(networks)
    {
      assert networks[i..][1..] == networks[i + 1..];
      ConcatAssociates(out.bytes, networks[i], Concat(networks[i + 1..]));
      out.Extend(networks[i]);
      i := i + 1;
    }
    assert out.bytes + [] == out.bytes;
    value := out.bytes;
  }

  method AddTwo(stream: TlvStream, a: nat, x: Option<Blob>, b: nat, y: Option<Blob>)
    requires stream.Valid() && stream.records == [] && a < b
    modifies stream
    ensures stream.Valid() && stream.records == TwoRecords(a, x, b, y)
  {
    AddOptional(stream, a, x);
    AddOptional(stream, b, y);
  }

  /** Builds the TLV stream of a message, adding each extension that is present. */
  method ExtensionOf(m: Message) returns (stream: TlvStream)
    requires m.QueryChannelRange? && m.queryOption.Some? ==> m.queryOption.value < U64_LIMIT
    ensures fresh(stream) && stream.Valid() && stream.records == Tail(m)
  {
    stream := new TlvStream();
    if m.Init? {
      var value := None;
      if m.networks.Some? {
        var bytes := ConcatNetworks(m.networks.value);
        value := Some(bytes);
      }
      AddTwo(stream, TLV_NETWORKS, value, TLV_REMOTE_ADDR, m.remoteAddr);
    } else if m.OpenChannel? {
      AddTwo(stream, TLV_UPFRONT_SHUTDOWN_SCRIPT, m.upfrontShutdownScript, TLV_CHANNEL_TYPE, m.channelType);
    } else if m.QueryChannelRange? {
      if m.queryOption.Some? {
        var value := new Buffer();
        value.WriteBigSize(m.queryOption.value);
        assert value.bytes == BigSizeBytes(m.queryOption.value);
        AddOptional(stream, TLV_QUERY_OPTION, Some(value.bytes));
        assert stream.records == OptionalRecord(TLV_QUERY_OPTION, QueryOptionValue(m.queryOption));
      }
    } else if m.ReplyChannelRange? {
      AddTwo(stream, TLV_TIMESTAMPS, m.timestamps, TLV_CHECKSUMS, m.checksums);
    }
  }

  // ----- Messages -----

  method EncodeBodyTo(out: Buffer, ghost rules: Rules, m: Message)
    requires Typed(rules, m)
    modifies out
    ensures out.bytes == old(out.bytes) + EncodeBody(m)
  {
    if m.Unknown? {
      out.Extend(m.payload);
    } else {
      var fs, vs := Layout(MsgType(m)), Head(m);
      WriteFieldsTo(out, fs, vs);
      Codec.TailIsCanonical(rules, m);
      var stream := ExtensionOf(m);
      var tlvs := stream.Encode();
      out.Extend(tlvs);
      ConcatAssociates(old(out.bytes), WriteFields(fs, vs), tlvs);
    }
  }

  method EncodeMessage(ghost rules: Rules, m: Message) returns (wire: Blob)
    requires Typed(rules, m)
    ensures wire == Encode(m)
  {
    hide Typed, EncodeBody, MsgType, ToBe;
    var out := new Buffer();
    out.WriteUint(MsgType(m), 2);
    EncodeBodyTo(out, rules, m);
    wire := out.bytes;
  }

  method DecodeMessage(rules: Rules, data: Blob) returns (r: Result<Message, BoltError>)
    ensures r == Decode(rules, data)
  {
    var cursor := new Cursor(data);
    var msgType := cursor.ReadUint(2);
    if msgType.Err? {
      return Err(msgType.error);
    }
    if !HasCodec(msgType.value) {
      if msgType.value % 2 == 0 {
        return Err(UnknownEvenType(msgType.value));
      }
      return Ok(Unknown(msgType.value, cursor.rest));
    }
    var fields := ReadFieldsFrom(rules, cursor, Layout(msgType.value));
    if fields.Err? {
      return Err(fields.error);
    }
    var records := [];
    if HasTlvs(msgType.value) {
      var stream := TlvStream.DecodeWithKnown(cursor.rest, KnownEven(msgType.value));
      if stream.Err? {
        return Err(stream.error);
      }
      records := stream.value.records;
    }
    r := Build(msgType.value, fields.value, records);
  }

  /** An arbitrary type and payload, as an unknown message would be written. */
  method RawMessage(msgType: nat, payload: Blob) returns (wire: Blob)
    ensures wire == Encode(Unknown(msgType, payload))
  {
    var out := new Buffer();
    out.WriteUint(msgType, 2);
    out.Extend(payload);
    wire := out.bytes;
  }
}
