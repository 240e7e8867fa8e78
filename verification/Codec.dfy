/** Round trip and normalisation of whole messages. */
module Codec {
  import opened Wrappers
  import opened Bytes
  import opened Wire
  import opened Fields
  import opened Messages
  import Tlv

  // ----- TLV extensions -----

  lemma OneRecordReadsBack(t: nat, v: Option<Blob>, knownEven: seq<nat>)
    requires t < U64_LIMIT && TlvValueFits(v) && Tlv.Understood(t, knownEven)
    ensures Tlv.Canonical(OptionalRecord(t, v), knownEven)
    ensures Tlv.Lookup(OptionalRecord(t, v), t) == v
  {
    if v.Some? {
      assert OptionalRecord(t, v)[0] == Tlv.Record(t, v.value);
    }
  }

  lemma TwoRecordsReadBack(a: nat, x: Option<Blob>, b: nat, y: Option<Blob>, knownEven: seq<nat>)
    requires a < b < U64_LIMIT && TlvValueFits(x) && TlvValueFits(y)
    requires Tlv.Understood(a, knownEven) && Tlv.Understood(b, knownEven)
    ensures Tlv.Canonical(TwoRecords(a, x, b, y), knownEven)
    ensures Tlv.Lookup(TwoRecords(a, x, b, y), a) == x && Tlv.Lookup(TwoRecords(a, x, b, y), b) == y
  {
    OneRecordReadsBack(b, y, knownEven);
    if x.None? {
      assert TwoRecords(a, x, b, y) == OptionalRecord(b, y);
      assert Tlv.Lookup(OptionalRecord(b, y), a) == None;
    } else {
      assert TwoRecords(a, x, b, y)[0] == Tlv.Record(a, x.value);
      assert TwoRecords(a, x, b, y)[1..] == OptionalRecord(b, y);
    }
  }

  lemma TailIsCanonical(rules: Rules, m: Message)
    requires Typed(rules, m) && !m.Unknown?
    ensures Tlv.Canonical(Tail(m), KnownEven(MsgType(m)))
    ensures !HasTlvs(MsgType(m)) ==> Tail(m) == []
  {
    if m.Init? {
      TwoRecordsReadBack(TLV_NETWORKS, NetworksValue(m.networks), TLV_REMOTE_ADDR, m.remoteAddr, []);
    } else if m.OpenChannel? {
      TwoRecordsReadBack(TLV_UPFRONT_SHUTDOWN_SCRIPT, m.upfrontShutdownScript, TLV_CHANNEL_TYPE, m.channelType,
                         [TLV_UPFRONT_SHUTDOWN_SCRIPT]);
    } else if m.QueryChannelRange? {
      OneRecordReadsBack(TLV_QUERY_OPTION, QueryOptionValue(m.queryOption), []);
    } else if m.ReplyChannelRange? {
      TwoRecordsReadBack(TLV_TIMESTAMPS, m.timestamps, TLV_CHECKSUMS, m.checksums, []);
    }
  }

  lemma NetworksReadBack(networks: Option<seq<Blob>>)
    requires networks.Some? ==> AllOfSize(networks.value, CHAIN_HASH_SIZE)
    ensures NetworksFrom(NetworksValue(networks)) == Ok(networks)
  {
    if networks.Some? {
      ChunksOfConcat(CHAIN_HASH_SIZE, networks.value, []);
      assert Concat(networks.value) + [] == Concat(networks.value);
    }
  }

  lemma QueryOptionReadsBack(flags: Option<nat>)
    requires flags.Some? ==> flags.value < U64_LIMIT
    ensures QueryOptionFrom(QueryOptionValue(flags)) == Ok(flags)
  {
    if flags.Some? {
      BigSizeRoundTrip(flags.value, []);
      assert BigSizeBytes(flags.value) + [] == BigSizeBytes(flags.value);
    }
  }

  // ----- From a message to its parts and back -----

  lemma BuildOfParts(rules: Rules, m: Message)
    requires Typed(rules, m) && !m.Unknown?
    ensures Build(MsgType(m), Head(m), Tail(m)) == Ok(m)
  {
    if m.Init? {
      TwoRecordsReadBack(TLV_NETWORKS, NetworksValue(m.networks), TLV_REMOTE_ADDR, m.remoteAddr, []);
      NetworksReadBack(m.networks);
    } else if m.OpenChannel? {
      TwoRecordsReadBack(TLV_UPFRONT_SHUTDOWN_SCRIPT, m.upfrontShutdownScript, TLV_CHANNEL_TYPE, m.channelType,
                         [TLV_UPFRONT_SHUTDOWN_SCRIPT]);
    } else if m.QueryChannelRange? {
      OneRecordReadsBack(TLV_QUERY_OPTION, QueryOptionValue(m.queryOption), []);
      QueryOptionReadsBack(m.queryOption);
    } else if m.ReplyChannelRange? {
      TwoRecordsReadBack(TLV_TIMESTAMPS, m.timestamps, TLV_CHECKSUMS, m.checksums, []);
    }
  }

  /** A value that fits its field is what the field's accessor says it is. */
  predicate Shaped(fs: seq<Field>, vs: seq<Value>) {
    |fs| == |vs| && forall i :: 0 <= i < |vs| ==> vs[i] == if fs[i].Uint? then Num(N(vs[i])) else Raw(B(vs[i]))
  }

  ghost predicate PartsKept(t: nat, vs: seq<Value>, rs: seq<Tlv.Record>)
    requires HasCodec(t) && |vs| == |Layout(t)|
  {
    match Build(t, vs, rs)
    case Err(_) => true
    case Ok(m) => !m.Unknown? && MsgType(m) == t && Head(m) == vs
  }

  lemma OpenChannelParts(vs: seq<Value>, rs: seq<Tlv.Record>)
    requires Shaped(Layout(OPEN_CHANNEL), vs)
    ensures PartsKept(OPEN_CHANNEL, vs, rs)
  {
    assert Head(Build(OPEN_CHANNEL, vs, rs).value) == vs;
  }

  lemma ChannelAnnouncementParts(vs: seq<Value>, rs: seq<Tlv.Record>)
    requires Shaped(Layout(CHANNEL_ANNOUNCEMENT), vs)
    ensures PartsKept(CHANNEL_ANNOUNCEMENT, vs, rs)
  {
    assert Head(Build(CHANNEL_ANNOUNCEMENT, vs, rs).value) == vs;
  }

  lemma NodeAnnouncementParts(vs: seq<Value>, rs: seq<Tlv.Record>)
    requires Shaped(Layout(NODE_ANNOUNCEMENT), vs)
    ensures PartsKept(NODE_ANNOUNCEMENT, vs, rs)
  {
    assert Head(Build(NODE_ANNOUNCEMENT, vs, rs).value) == vs;
  }

  lemma ChannelUpdateParts(vs: seq<Value>, rs: seq<Tlv.Record>)
    requires Shaped(Layout(CHANNEL_UPDATE), vs)
    ensures PartsKept(CHANNEL_UPDATE, vs, rs)
  {
    assert Head(Build(CHANNEL_UPDATE, vs, rs).value) == vs;
  }

  lemma SmallMessageParts(t: nat, vs: seq<Value>, rs: seq<Tlv.Record>)
    requires t in {WARNING, INIT, ERROR, PING, PONG, FUNDING_CREATED, QUERY_CHANNEL_RANGE, REPLY_CHANNEL_RANGE}
    requires Shaped(Layout(t), vs)
    ensures PartsKept(t, vs, rs)
  {
    if Build(t, vs, rs).Ok? {
      assert Head(Build(t, vs, rs).value) == vs;
    }
  }

  lemma PartsOfBuild(rules: Rules, t: nat, vs: seq<Value>, rs: seq<Tlv.Record>)
    requires HasCodec(t) && AllFit(rules, Layout(t), vs)
    ensures PartsKept(t, vs, rs)
  {
    assert Shaped(Layout(t), vs) by {
      forall i | 0 <= i < |vs| ensures vs[i] == if Layout(t)[i].Uint? then Num(N(vs[i])) else Raw(B(vs[i])) {
        assert Fits(rules, Layout(t)[i], vs[i]);
      }
    }
    if t == OPEN_CHANNEL { OpenChannelParts(vs, rs); }
    else if t == CHANNEL_ANNOUNCEMENT { ChannelAnnouncementParts(vs, rs); }
    else if t == NODE_ANNOUNCEMENT { NodeAnnouncementParts(vs, rs); }
    else if t == CHANNEL_UPDATE { ChannelUpdateParts(vs, rs); }
    else { SmallMessageParts(t, vs, rs); }
  }

  // ----- What decoding keeps -----

  lemma {:induction false} LookupFits(rs: seq<Tlv.Record>, t: nat, knownEven: seq<nat>)
    requires Tlv.Canonical(rs, knownEven)
    ensures TlvValueFits(Tlv.Lookup(rs, t))
  {
    if rs != [] {
      LookupFits(rs[1..], t, knownEven);
      assert Tlv.Fits(rs[0]);
    }
  }

  function RecordSize(t: nat, v: Option<Blob>): nat {
    match v case None => 0 case Some(bs) => BigSizeLen(t) + BigSizeLen(|bs|) + |bs|
  }

  lemma TwoRecordsSize(a: nat, x: Option<Blob>, b: nat, y: Option<Blob>)
    ensures |Tlv.Encode(OptionalRecord(a, x))| == RecordSize(a, x)
    ensures |Tlv.Encode(TwoRecords(a, x, b, y))| == RecordSize(a, x) + RecordSize(b, y)
  {
    Tlv.EncodeConcat(OptionalRecord(a, x), OptionalRecord(b, y));
    OneRecordSize(a, x);
    OneRecordSize(b, y);
  }

  lemma OneRecordSize(t: nat, v: Option<Blob>)
    ensures |Tlv.Encode(OptionalRecord(t, v))| == RecordSize(t, v)
  {
    if v.Some? {
      assert OptionalRecord(t, v)[1..] == [];
    }
  }

  lemma AbsentAfter(rs: seq<Tlv.Record>, t: nat)
    requires Tlv.Sorted(rs) && rs != [] && t <= rs[0].tlvType
    ensures Tlv.Lookup(rs[1..], t) == None
  {
    Tlv.LookupFinds(rs[1..], t);
    assert forall i :: 0 <= i < |rs[1..]| ==> rs[1..][i] == rs[i + 1];
  }

  lemma {:induction false} KeptSize(rs: seq<Tlv.Record>, a: nat, b: nat)
    requires Tlv.Sorted(rs) && a < b
    ensures RecordSize(a, Tlv.Lookup(rs, a)) + RecordSize(b, Tlv.Lookup(rs, b)) <= |Tlv.Encode(rs)|
  {
    if rs != [] {
      KeptSize(rs[1..], a, b);
      if rs[0].tlvType == a { AbsentAfter(rs, a); }
      if rs[0].tlvType == b { AbsentAfter(rs, b); AbsentAfter(rs, a); }
    }
  }

  lemma EmptyEncoding(rs: seq<Tlv.Record>)
    requires |Tlv.Encode(rs)| == 0
    ensures rs == []
  {
  }

  lemma {:induction false} KeptExactly(rs: seq<Tlv.Record>, a: nat, b: nat)
    requires Tlv.Sorted(rs) && a < b
    requires RecordSize(a, Tlv.Lookup(rs, a)) + RecordSize(b, Tlv.Lookup(rs, b)) == |Tlv.Encode(rs)|
    ensures rs == TwoRecords(a, Tlv.Lookup(rs, a), b, Tlv.Lookup(rs, b))
  {
    if rs != [] {
      var r, tail := rs[0], rs[1..];
      assert rs == [r] + tail;
      if r.tlvType == a {
        AbsentAfter(rs, a);
        KeptExactly(tail, a, b);
      } else if r.tlvType == b {
        AbsentAfter(rs, a);
        EmptyEncoding(tail);
      } else {
        KeptSize(tail, a, b);
      }
    }
  }

  /** The records a message keeps are no longer than the stream they were found in, and equal to it if as long. */
  lemma KeptRecords(rs: seq<Tlv.Record>, a: nat, b: nat)
    requires Tlv.Sorted(rs) && a < b
    ensures var x, y := Tlv.Lookup(rs, a), Tlv.Lookup(rs, b);
            && RecordSize(a, x) + RecordSize(b, y) <= |Tlv.Encode(rs)|
            && (RecordSize(a, x) + RecordSize(b, y) == |Tlv.Encode(rs)| ==> rs == TwoRecords(a, x, b, y))
  {
    KeptSize(rs, a, b);
    if RecordSize(a, Tlv.Lookup(rs, a)) + RecordSize(b, Tlv.Lookup(rs, b)) == |Tlv.Encode(rs)| {
      KeptExactly(rs, a, b);
    }
  }

  lemma NetworksCanonical(v: Option<Blob>)
    requires NetworksFrom(v).Ok?
    ensures var networks := NetworksFrom(v).value;
            NetworksValue(networks) == v && (networks.Some? ==> AllOfSize(networks.value, CHAIN_HASH_SIZE))
  {
    if v.Some? {
      ConcatOfChunks(CHAIN_HASH_SIZE, v.value);
      assert Concat(Chunks(CHAIN_HASH_SIZE, v.value)) + [] == Concat(Chunks(CHAIN_HASH_SIZE, v.value));
    }
  }

  /** The flags are kept; bytes after them in the value are not. */
  lemma QueryOptionCanonical(v: Option<Blob>)
    requires QueryOptionFrom(v).Ok?
    ensures var flags := QueryOptionFrom(v).value;
            && (flags.Some? <==> v.Some?)
            && (flags.Some? ==> flags.value < U64_LIMIT && BigSizeBytes(flags.value) <= v.value)
  {
    if v.Some? {
      BigSizeCanonical(v.value);
    }
  }

  /** A message's records are no longer than those it was built from, and the same if as long. */
  ghost predicate TailKept(m: Message, rs: seq<Tlv.Record>) {
    && |Tlv.Encode(Tail(m))| <= |Tlv.Encode(rs)|
    && (|Tlv.Encode(Tail(m))| == |Tlv.Encode(rs)| ==> Tail(m) == rs)
  }

  lemma QueryTailKept(rs: seq<Tlv.Record>, flags: Option<nat>)
    requires Tlv.Sorted(rs) && QueryOptionFrom(Tlv.Lookup(rs, TLV_QUERY_OPTION)) == Ok(flags)
    ensures var tail := OptionalRecord(TLV_QUERY_OPTION, QueryOptionValue(flags));
            && |Tlv.Encode(tail)| <= |Tlv.Encode(rs)|
            && (|Tlv.Encode(tail)| == |Tlv.Encode(rs)| ==> tail == rs)
  {
    var v := Tlv.Lookup(rs, TLV_QUERY_OPTION);
    QueryOptionCanonical(v);
    KeptRecords(rs, TLV_QUERY_OPTION, 3);
    OneRecordSize(TLV_QUERY_OPTION, QueryOptionValue(flags));
    if flags.Some? {
      var kept := BigSizeBytes(flags.value);
      assert BigSizeLen(|kept|) <= BigSizeLen(|v.value|);
      if |kept| == |v.value| {
        assert kept == v.value;
      }
    }
    assert TwoRecords(TLV_QUERY_OPTION, v, 3, None) == OptionalRecord(TLV_QUERY_OPTION, v);
  }

  lemma TwoTailKept(rs: seq<Tlv.Record>, a: nat, b: nat)
    requires Tlv.Sorted(rs) && a < b
    ensures var tail := TwoRecords(a, Tlv.Lookup(rs, a), b, Tlv.Lookup(rs, b));
            && |Tlv.Encode(tail)| <= |Tlv.Encode(rs)|
            && (|Tlv.Encode(tail)| == |Tlv.Encode(rs)| ==> tail == rs)
  {
    KeptRecords(rs, a, b);
    TwoRecordsSize(a, Tlv.Lookup(rs, a), b, Tlv.Lookup(rs, b));
  }

  lemma InitKeepsTail(vs: seq<Value>, rs: seq<Tlv.Record>)
    requires |vs| == 2 && Build(INIT, vs, rs).Ok? && Tlv.Sorted(rs)
    ensures TailKept(Build(INIT, vs, rs).value, rs)
  {
    NetworksCanonical(Tlv.Lookup(rs, TLV_NETWORKS));
    TwoTailKept(rs, TLV_NETWORKS, TLV_REMOTE_ADDR);
  }

  lemma OpenChannelKeepsTail(vs: seq<Value>, rs: seq<Tlv.Record>)
    requires |vs| == 18 && Tlv.Sorted(rs)
    ensures TailKept(Build(OPEN_CHANNEL, vs, rs).value, rs)
  {
    TwoTailKept(rs, TLV_UPFRONT_SHUTDOWN_SCRIPT, TLV_CHANNEL_TYPE);
  }

  lemma QueryKeepsTail(vs: seq<Value>, rs: seq<Tlv.Record>)
    requires |vs| == 3 && Build(QUERY_CHANNEL_RANGE, vs, rs).Ok? && Tlv.Sorted(rs)
    ensures TailKept(Build(QUERY_CHANNEL_RANGE, vs, rs).value, rs)
  {
    QueryTailKept(rs, Build(QUERY_CHANNEL_RANGE, vs, rs).value.queryOption);
  }

  lemma ReplyKeepsTail(vs: seq<Value>, rs: seq<Tlv.Record>)
    requires |vs| == 5 && Tlv.Sorted(rs)
    ensures TailKept(Build(REPLY_CHANNEL_RANGE, vs, rs).value, rs)
  {
    TwoTailKept(rs, TLV_TIMESTAMPS, TLV_CHECKSUMS);
  }

  lemma BuildKeepsTail(t: nat, vs: seq<Value>, rs: seq<Tlv.Record>)
    requires HasCodec(t) && |vs| == |Layout(t)| && Build(t, vs, rs).Ok?
    requires Tlv.Canonical(rs, KnownEven(t)) && (!HasTlvs(t) ==> rs == [])
    ensures TailKept(Build(t, vs, rs).value, rs)
  {
    if t == INIT { InitKeepsTail(vs, rs); }
    else if t == OPEN_CHANNEL { OpenChannelKeepsTail(vs, rs); }
    else if t == QUERY_CHANNEL_RANGE { QueryKeepsTail(vs, rs); }
    else if t == REPLY_CHANNEL_RANGE { ReplyKeepsTail(vs, rs); }
    else { assert Tail(Build(t, vs, rs).value) == []; }
  }

  lemma BuildIsWellFormed(rules: Rules, t: nat, vs: seq<Value>, rs: seq<Tlv.Record>)
    requires HasCodec(t) && AllFit(rules, Layout(t), vs) && Build(t, vs, rs).Ok?
    requires Tlv.Canonical(rs, KnownEven(t))
    ensures WellFormed(rules, Build(t, vs, rs).value)
  {
    var m := Build(t, vs, rs).value;
    PartsOfBuild(rules, t, vs, rs);
    assert AllHaveType(rules, Layout(t), vs);
    if t == INIT {
      LookupFits(rs, TLV_NETWORKS, KnownEven(t));
      LookupFits(rs, TLV_REMOTE_ADDR, KnownEven(t));
      NetworksCanonical(Tlv.Lookup(rs, TLV_NETWORKS));
    } else if t == OPEN_CHANNEL {
      LookupFits(rs, TLV_UPFRONT_SHUTDOWN_SCRIPT, KnownEven(t));
      LookupFits(rs, TLV_CHANNEL_TYPE, KnownEven(t));
    } else if t == QUERY_CHANNEL_RANGE {
      QueryOptionCanonical(Tlv.Lookup(rs, TLV_QUERY_OPTION));
    } else if t == REPLY_CHANNEL_RANGE {
      LookupFits(rs, TLV_TIMESTAMPS, KnownEven(t));
      LookupFits(rs, TLV_CHECKSUMS, KnownEven(t));
    }
  }

  // ----- Main results -----

  lemma BodyRoundTrip(rules: Rules, m: Message)
    requires WellFormed(rules, m) && !m.Unknown?
    ensures DecodeBody(rules, MsgType(m), EncodeBody(m)) == Ok(m)
  {
    var t, rs := MsgType(m), Tail(m);
    FieldsRoundTrip(rules, Layout(t), Head(m), Tlv.Encode(rs));
    TailIsCanonical(rules, m);
    Tlv.DecodeIffEncoded(Tlv.Encode(rs), rs, KnownEven(t));
    BuildOfParts(rules, m);
  }

  lemma RoundTrip(rules: Rules, m: Message)
    requires WellFormed(rules, m)
    ensures Decode(rules, Encode(m)) == Ok(m)
  {
    WidthLimits();
    UintRoundTrip(2, MsgType(m), EncodeBody(m));
    if !m.Unknown? {
      BodyRoundTrip(rules, m);
    }
  }

  /** Whatever a body decodes to is well-formed, no longer re-encoded, and unchanged if as long. */
  lemma DecodedBody(rules: Rules, t: nat, body: Blob)
    requires HasCodec(t) && DecodeBody(rules, t, body).Ok?
    ensures var m := DecodeBody(rules, t, body).value;
            && WellFormed(rules, m) && !m.Unknown? && MsgType(m) == t
            && |EncodeBody(m)| <= |body|
            && (|EncodeBody(m)| == |body| ==> EncodeBody(m) == body)
  {
    FieldsCanonical(rules, Layout(t), body);
    var (vs, rest) := ReadFields(rules, Layout(t), body).value;
    var rs := if HasTlvs(t) then Tlv.Decode(rest, KnownEven(t)).value else [];
    if HasTlvs(t) {
      Tlv.DecodeIffEncoded(rest, rs, KnownEven(t));
    }
    PartsOfBuild(rules, t, vs, rs);
    BuildIsWellFormed(rules, t, vs, rs);
    BuildKeepsTail(t, vs, rs);
  }

  /** Decoding yields only well-formed messages, of the type the bytes announce. */
  lemma DecodedIsWellFormed(rules: Rules, data: Blob)
    requires Decode(rules, data).Ok?
    ensures var m := Decode(rules, data).value;
            && WellFormed(rules, m) && Encode(m)[..2] == data[..2]
            && |Encode(m)| <= |data| && (|Encode(m)| == |data| ==> Encode(m) == data)
  {
    WidthLimits();
    UintCanonical(2, data);
    var (t, body) := ReadUint(2, data).value;
    if HasCodec(t) {
      DecodedBody(rules, t, body);
    }
    assert data[..2] == ToBe(t, 2);
  }

  /** A message survives the codec exactly when it is well-formed. */
  lemma MessageRoundTripIff(rules: Rules, m: Message)
    ensures Decode(rules, Encode(m)) == Ok(m) <==> WellFormed(rules, m)
  {
    if WellFormed(rules, m) {
      RoundTrip(rules, m);
    }
    if Decode(rules, Encode(m)) == Ok(m) {
      DecodedIsWellFormed(rules, Encode(m));
    }
  }

  /**
   * Decode-then-encode normalises: the result decodes to the same message, keeps the type, is a fixed
   * point, is never longer than the input, and differs from it exactly when it is shorter.
   */
  lemma Normalises(rules: Rules, data: Blob)
    requires Decode(rules, data).Ok?
    ensures var wire := Encode(Decode(rules, data).value);
            && Decode(rules, wire) == Decode(rules, data)
            && wire[..2] == data[..2]
            && |wire| <= |data|
            && (wire != data <==> |wire| < |data|)
  {
    DecodedIsWellFormed(rules, data);
    RoundTrip(rules, Decode(rules, data).value);
  }

  // ----- What decoding ignores -----

  /** The TLV types a message has a field for. */
  function OwnTypes(t: nat): set<nat> {
    if t == OPEN_CHANNEL then {TLV_UPFRONT_SHUTDOWN_SCRIPT, TLV_CHANNEL_TYPE}
    else if t == QUERY_CHANNEL_RANGE then {TLV_QUERY_OPTION}
    else if t == INIT then {TLV_NETWORKS, TLV_REMOTE_ADDR}
    else {TLV_TIMESTAMPS, TLV_CHECKSUMS}
  }

  predicate OfTypes(rs: seq<Tlv.Record>, types: set<nat>) {
    forall i :: 0 <= i < |rs| ==> rs[i].tlvType in types
  }

  /** A value that is one BigSize and nothing more. */
  predicate ExactBigSize(value: Blob) {
    ReadBigSize(value).Ok? && ReadBigSize(value).value.1 == []
  }

  predicate AllUsed(t: nat, rs: seq<Tlv.Record>) {
    && OfTypes(rs, OwnTypes(t))
    && (t == QUERY_CHANNEL_RANGE ==> forall i :: 0 <= i < |rs| ==> ExactBigSize(rs[i].value))
  }

  /**
   * Every byte of the input has a place in the message: nothing follows the fixed fields of a message without
   * extensions, every TLV record is one the message knows, and a query option is a BigSize with nothing after it.
   */
  predicate NothingIgnored(rules: Rules, data: Blob) {
    match ReadUint(2, data)
    case Err(_) => false
    case Ok((t, body)) =>
      HasCodec(t) ==>
        match ReadFields(rules, Layout(t), body)
        case Err(_) => false
        case Ok((_, rest)) =>
          if !HasTlvs(t) then rest == []
          else
            match Tlv.Decode(rest, KnownEven(t))
            case Err(_) => false
            case Ok(rs) => AllUsed(t, rs)
  }

  lemma TwoRecordsIff(rs: seq<Tlv.Record>, a: nat, b: nat)
    requires Tlv.Sorted(rs) && a < b
    ensures rs == TwoRecords(a, Tlv.Lookup(rs, a), b, Tlv.Lookup(rs, b)) <==> OfTypes(rs, {a, b})
  {
    Tlv.LookupFinds(rs, a);
    Tlv.LookupFinds(rs, b);
    if |rs| > 1 { assert rs[0].tlvType < rs[1].tlvType; }
    if |rs| > 2 { assert rs[1].tlvType < rs[2].tlvType; }
  }

  lemma OneRecordIff(rs: seq<Tlv.Record>, a: nat)
    requires Tlv.Sorted(rs)
    ensures rs == OptionalRecord(a, Tlv.Lookup(rs, a)) <==> OfTypes(rs, {a})
  {
    if |rs| > 1 { assert rs[0].tlvType < rs[1].tlvType; }
  }

  /** The flags of a query are written back as they were read exactly when nothing follows them. */
  lemma QueryTailIff(rs: seq<Tlv.Record>, flags: Option<nat>)
    requires Tlv.Sorted(rs) && QueryOptionFrom(Tlv.Lookup(rs, TLV_QUERY_OPTION)) == Ok(flags)
    ensures OptionalRecord(TLV_QUERY_OPTION, QueryOptionValue(flags)) == rs <==> AllUsed(QUERY_CHANNEL_RANGE, rs)
  {
    var v := Tlv.Lookup(rs, TLV_QUERY_OPTION);
    OneRecordIff(rs, TLV_QUERY_OPTION);
    Tlv.LookupFinds(rs, TLV_QUERY_OPTION);
    if v.Some? {
      BigSizeCanonical(v.value);
      assert ExactBigSize(v.value) <==> v.value == BigSizeBytes(flags.value);
    }
  }

  /** The message assembled from vs and rs is written with the records rs exactly when it uses all of them. */
  ghost predicate TailUsed(t: nat, vs: seq<Value>, rs: seq<Tlv.Record>)
    requires HasCodec(t) && |vs| == |Layout(t)| && Build(t, vs, rs).Ok?
  {
    Tail(Build(t, vs, rs).value) == rs <==> AllUsed(t, rs)
  }

  lemma InitTailUsed(vs: seq<Value>, rs: seq<Tlv.Record>)
    requires |vs| == 2 && Build(INIT, vs, rs).Ok? && Tlv.Sorted(rs)
    ensures TailUsed(INIT, vs, rs)
  {
    NetworksCanonical(Tlv.Lookup(rs, TLV_NETWORKS));
    TwoRecordsIff(rs, TLV_NETWORKS, TLV_REMOTE_ADDR);
  }

  lemma OpenChannelTailUsed(vs: seq<Value>, rs: seq<Tlv.Record>)
    requires |vs| == 18 && Tlv.Sorted(rs)
    ensures TailUsed(OPEN_CHANNEL, vs, rs)
  {
    hide OfTypes, Tlv.Lookup, Tlv.Sorted, TwoRecords;
    TwoRecordsIff(rs, TLV_UPFRONT_SHUTDOWN_SCRIPT, TLV_CHANNEL_TYPE);
  }

  lemma QueryTailUsed(vs: seq<Value>, rs: seq<Tlv.Record>)
    requires |vs| == 3 && Build(QUERY_CHANNEL_RANGE, vs, rs).Ok? && Tlv.Sorted(rs)
    ensures TailUsed(QUERY_CHANNEL_RANGE, vs, rs)
  {
    QueryTailIff(rs, Build(QUERY_CHANNEL_RANGE, vs, rs).value.queryOption);
  }

  lemma ReplyTailUsed(vs: seq<Value>, rs: seq<Tlv.Record>)
    requires |vs| == 5 && Tlv.Sorted(rs)
    ensures TailUsed(REPLY_CHANNEL_RANGE, vs, rs)
  {
    hide OfTypes, Tlv.Lookup, Tlv.Sorted, TwoRecords;
    TwoRecordsIff(rs, TLV_TIMESTAMPS, TLV_CHECKSUMS);
  }

  lemma TailIffUsed(t: nat, vs: seq<Value>, rs: seq<Tlv.Record>)
    requires HasTlvs(t) && |vs| == |Layout(t)| && Build(t, vs, rs).Ok? && Tlv.Sorted(rs)
    ensures TailUsed(t, vs, rs)
  {
    if t == INIT { InitTailUsed(vs, rs); }
    else if t == OPEN_CHANNEL { OpenChannelTailUsed(vs, rs); }
    else if t == QUERY_CHANNEL_RANGE { QueryTailUsed(vs, rs); }
    else { ReplyTailUsed(vs, rs); }
  }

  lemma PrefixCancels(a: Blob, b: Blob, c: Blob)
    ensures a + b == a + c <==> b == c
  {
    assert (a + b)[|a|..] == b && (a + c)[|a|..] == c;
  }

  lemma BodyUnchangedIff(rules: Rules, t: nat, body: Blob, vs: seq<Value>, rest: Blob, rs: seq<Tlv.Record>)
    requires HasCodec(t) && ReadFields(rules, Layout(t), body) == Ok((vs, rest))
    requires if HasTlvs(t) then Tlv.Decode(rest, KnownEven(t)) == Ok(rs) else rs == []
    requires Build(t, vs, rs).Ok?
    ensures var m := Build(t, vs, rs).value;
            !m.Unknown? && MsgType(m) == t && |Head(m)| == |Layout(t)| &&
            (EncodeBody(m) == body <==> if HasTlvs(t) then AllUsed(t, rs) else rest == [])
  {
    var m := Build(t, vs, rs).value;
    FieldsCanonical(rules, Layout(t), body);
    PartsOfBuild(rules, t, vs, rs);
    PrefixCancels(WriteFields(Layout(t), vs), Tlv.Encode(Tail(m)), rest);
    if HasTlvs(t) {
      Tlv.DecodeIffEncoded(rest, rs, KnownEven(t));
      TailIffUsed(t, vs, rs);
    }
    BuildKeepsTail(t, vs, rs);
  }

  /** Decode-then-encode gives an accepted input back exactly when the decoder ignored none of its bytes. */
  lemma UnchangedIff(rules: Rules, data: Blob)
    requires Decode(rules, data).Ok?
    ensures Encode(Decode(rules, data).value) == data <==> NothingIgnored(rules, data)
  {
    WidthLimits();
    UintCanonical(2, data);
    var (t, body) := ReadUint(2, data).value;
    if HasCodec(t) {
      var (vs, rest) := ReadFields(rules, Layout(t), body).value;
      var rs := if HasTlvs(t) then Tlv.Decode(rest, KnownEven(t)).value else [];
      BodyUnchangedIff(rules, t, body, vs, rest, rs);
      PrefixCancels(ToBe(t, 2), EncodeBody(Decode(rules, data).value), body);
    }
  }

  lemma PingBytes()
    ensures WriteFields(Layout(PING), Head(Ping(0, []))) == [0, 0, 0, 0] && ToBe(PING, 2) == [0, 18]
    ensures EncodeBody(Ping(0, [])) == [0, 0, 0, 0]
  {
    var fs, vs := Layout(PING), Head(Ping(0, []));
    assert ToBe(0, 1) == ToBe(0, 0) + [0] && ToBe(0, 2) == ToBe(0, 1) + [0] == [0, 0];
    assert ToBe(18, 2) == ToBe(0, 1) + [18] == [0, 18];
    assert fs[1..] == [Var] && vs[1..] == [Value.Raw([])];
    assert WriteFields([Var], [Value.Raw([])]) == VecBytes([]) + WriteFields([Var][1..], [Value.Raw([])][1..]);
    assert VecBytes([]) == [0, 0];
    assert WriteFields(fs, vs) == ToBe(0, 2) + WriteFields([Var], [Value.Raw([])]);
  }

  lemma PingIsWellFormed(rules: Rules)
    ensures WellFormed(rules, Ping(0, []))
  {
  }

  /** A ping with one byte too many is accepted, and loses that byte. */
  lemma PingLosesTrailingByte(rules: Rules)
    ensures Decode(rules, [0, 18, 0, 0, 0, 0, 255]) == Ok(Ping(0, []))
    ensures Encode(Ping(0, [])) == [0, 18, 0, 0, 0, 0]
    ensures !NothingIgnored(rules, [0, 18, 0, 0, 0, 0, 255])
  {
    var data: Blob, body: Blob := [0, 18, 0, 0, 0, 0, 255], [0, 0, 0, 0];
    PingBytes();
    PingIsWellFormed(rules);
    FieldsRoundTrip(rules, Layout(PING), Head(Ping(0, [])), [255]);
    WidthLimits();
    UintRoundTrip(2, PING, body + [255]);
    assert data == ToBe(PING, 2) + (body + [255]);
    assert ReadUint(2, data) == Ok((PING, body + [255]));
    assert ReadFields(rules, Layout(PING), body + [255]) == Ok((Head(Ping(0, [])), [255]));
    assert Decode(rules, data) == DecodeBody(rules, PING, body + [255]);
  }

  // ----- Forwarding a caller's message -----

  datatype Rejection = NoCodec(msgType: nat) | DecodeFailed(error: BoltError)

  /** What is sent for bytes a caller supplies: decoded, refused if there is no codec for the type, and re-encoded. */
  function Forwarded(rules: Rules, data: Blob): Result<Blob, Rejection> {
    match Decode(rules, data)
    case Ok(Unknown(t, _)) => Err(NoCodec(t))
    case Err(UnknownEvenType(t)) => Err(NoCodec(t))
    case Ok(m) => Ok(Encode(m))
    case Err(e) => Err(DecodeFailed(e))
  }

  /** Exactly the messages with a codec are forwarded, as their own encoding; the rest is refused for what is wrong with it. */
  lemma ForwardedIff(rules: Rules, data: Blob, wire: Blob, t: nat, e: BoltError)
    ensures Forwarded(rules, data) == Ok(wire) <==>
              exists m :: Decode(rules, data) == Ok(m) && !m.Unknown? && wire == Encode(m)
    ensures Forwarded(rules, data) == Err(NoCodec(t)) <==> |data| >= 2 && t == FromBe(data[..2]) && !HasCodec(t)
    ensures Forwarded(rules, data) == Err(DecodeFailed(e)) <==> Decode(rules, data) == Err(e) && !e.UnknownEvenType?
    ensures |data| >= 2 && HasCodec(FromBe(data[..2])) ==> (Forwarded(rules, data).Ok? <==> Decode(rules, data).Ok?)
  {
    hide DecodeBody, Encode;
    if |data| >= 2 && HasCodec(FromBe(data[..2])) {
      BodyNeverUnknownType(rules, FromBe(data[..2]), data[2..]);
      BodyNeverUnknown(rules, FromBe(data[..2]), data[2..]);
    }
    if Decode(rules, data).Ok? && !Decode(rules, data).value.Unknown? {
      assert Forwarded(rules, data) == Ok(Encode(Decode(rules, data).value));
    }
  }

  lemma BodyNeverUnknown(rules: Rules, t: nat, body: Blob)
    requires HasCodec(t)
    ensures DecodeBody(rules, t, body).Ok? ==> !DecodeBody(rules, t, body).value.Unknown?
  {
    if DecodeBody(rules, t, body).Ok? {
      DecodedBody(rules, t, body);
    }
  }

  /** Every well-formed message with a codec is forwarded as it is. */
  lemma WellFormedIsForwarded(rules: Rules, m: Message)
    requires WellFormed(rules, m) && !m.Unknown?
    ensures Forwarded(rules, Encode(m)) == Ok(Encode(m))
  {
    hide Encode, Decode;
    RoundTrip(rules, m);
  }

  /** Type errors come from the type alone, which no message body can produce. */
  lemma BodyNeverUnknownType(rules: Rules, t: nat, body: Blob)
    requires HasCodec(t)
    ensures DecodeBody(rules, t, body).Err? ==> !DecodeBody(rules, t, body).error.UnknownEvenType?
  {
    FieldsNeverUnknownType(rules, Layout(t), body);
    if ReadFields(rules, Layout(t), body).Ok? {
      StreamNeverUnknownType(None, KnownEven(t), ReadFields(rules, Layout(t), body).value.1);
    }
  }

  lemma {:induction false} FieldsNeverUnknownType(rules: Rules, fs: seq<Field>, data: Blob)
    ensures ReadFields(rules, fs, data).Err? ==> !ReadFields(rules, fs, data).error.UnknownEvenType?
    decreases |fs|
  {
    if fs != [] && ReadField(rules, fs[0], data).Ok? {
      FieldsNeverUnknownType(rules, fs[1..], ReadField(rules, fs[0], data).value.1);
    }
  }

  lemma {:induction false} StreamNeverUnknownType(last: Option<nat>, knownEven: seq<nat>, data: Blob)
    ensures Tlv.DecodeAfter(last, knownEven, data).Err? ==> !Tlv.DecodeAfter(last, knownEven, data).error.UnknownEvenType?
    decreases |data|
  {
    if data != [] && Tlv.ReadRecord(last, knownEven, data).Ok? {
      var (r, rest) := Tlv.ReadRecord(last, knownEven, data).value;
      StreamNeverUnknownType(Some(r.tlvType), knownEven, rest);
    }
  }

  /**
   * A type without a codec is named in the refusal, and only such a type; what is forwarded is
   * forwarded unchanged again, keeps its type and meaning, and is sendable if the input was.
   */
  lemma ForwardingIsStable(rules: Rules, data: Blob)
    requires |data| >= 2
    ensures Forwarded(rules, data).Err? && Forwarded(rules, data).error.NoCodec? <==> !HasCodec(FromBe(data[..2]))
    ensures Forwarded(rules, data).Ok? ==>
              var wire := Forwarded(rules, data).value;
              && Forwarded(rules, wire) == Ok(wire) && wire[..2] == data[..2]
              && Decode(rules, wire) == Decode(rules, data) && |wire| <= |data|
              && (wire == data <==> NothingIgnored(rules, data))
  {
    var t, body := FromBe(data[..2]), data[2..];
    if HasCodec(t) {
      BodyNeverUnknownType(rules, t, body);
      if DecodeBody(rules, t, body).Ok? {
        DecodedBody(rules, t, body);
      }
    }
    if Decode(rules, data).Ok? {
      Normalises(rules, data);
      UnchangedIff(rules, data);
    }
  }
}
