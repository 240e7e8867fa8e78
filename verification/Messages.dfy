/** The BOLT messages: their layouts, their TLV extensions, and the codec over both. */
module Messages {
  import opened Wrappers
  import opened Bytes
  import opened Wire
  import opened Fields
  import Tlv

  const WARNING: nat := 1
  const INIT: nat := 16
  const ERROR: nat := 17
  const PING: nat := 18
  const PONG: nat := 19
  const OPEN_CHANNEL: nat := 32
  const FUNDING_CREATED: nat := 34
  const CHANNEL_ANNOUNCEMENT: nat := 256
  const NODE_ANNOUNCEMENT: nat := 257
  const CHANNEL_UPDATE: nat := 258
  const QUERY_CHANNEL_RANGE: nat := 263
  const REPLY_CHANNEL_RANGE: nat := 264

  const TLV_NETWORKS: nat := 1
  const TLV_REMOTE_ADDR: nat := 3
  const TLV_UPFRONT_SHUTDOWN_SCRIPT: nat := 0
  const TLV_CHANNEL_TYPE: nat := 1
  const TLV_QUERY_OPTION: nat := 1
  const TLV_TIMESTAMPS: nat := 1
  const TLV_CHECKSUMS: nat := 3
  const CHAIN_HASH_SIZE: nat := 32

  type Blob = seq<byte>

  datatype Message =
    | Warning(channelId: Blob, data: Blob)
    | Init(globalfeatures: Blob, features: Blob, networks: Option<seq<Blob>>, remoteAddr: Option<Blob>)
    | Error(channelId: Blob, data: Blob)
    | Ping(numPongBytes: nat, ignored: Blob)
    | Pong(ignored: Blob)
    | OpenChannel(
        chainHash: Blob, temporaryChannelId: Blob, fundingSatoshis: nat, pushMsat: nat,
        dustLimitSatoshis: nat, maxHtlcValueInFlightMsat: nat, channelReserveSatoshis: nat,
        htlcMinimumMsat: nat, feeratePerKw: nat, toSelfDelay: nat, maxAcceptedHtlcs: nat,
        fundingPubkey: Blob, revocationBasepoint: Blob, paymentBasepoint: Blob,
        delayedPaymentBasepoint: Blob, htlcBasepoint: Blob, firstPerCommitmentPoint: Blob,
        channelFlags: nat, upfrontShutdownScript: Option<Blob>, channelType: Option<Blob>)
    | FundingCreated(temporaryChannelId: Blob, fundingTxid: Blob, fundingOutputIndex: nat, signature: Blob)
    | ChannelAnnouncement(
        nodeSignature1: Blob, nodeSignature2: Blob, bitcoinSignature1: Blob, bitcoinSignature2: Blob,
        features: Blob, chainHash: Blob, shortChannelId: nat,
        nodeId1: Blob, nodeId2: Blob, bitcoinKey1: Blob, bitcoinKey2: Blob)
    | NodeAnnouncement(
        signature: Blob, features: Blob, timestamp: nat, nodeId: Blob, rgbColor: Blob, alias: Blob, addresses: Blob)
    | ChannelUpdate(
        signature: Blob, chainHash: Blob, shortChannelId: nat, timestamp: nat, messageFlags: nat,
        channelFlags: nat, cltvExpiryDelta: nat, htlcMinimumMsat: nat, feeBaseMsat: nat,
        feeProportionalMillionths: nat, htlcMaximumMsat: nat)
    | QueryChannelRange(chainHash: Blob, firstBlocknum: nat, numberOfBlocks: nat, queryOption: Option<nat>)
    | ReplyChannelRange(
        chainHash: Blob, firstBlocknum: nat, numberOfBlocks: nat, syncComplete: nat, encodedShortIds: Blob,
        timestamps: Option<Blob>, checksums: Option<Blob>)
    | Unknown(msgType: nat, payload: Blob)

  function MsgType(m: Message): nat {
    match m
    case Warning(_, _) => WARNING
    case Init(_, _, _, _) => INIT
    case Error(_, _) => ERROR
    case Ping(_, _) => PING
    case Pong(_) => PONG
    case OpenChannel(_, _, _, _, _, _, _, _, _, _, _, _, _, _, _, _, _, _, _, _) => OPEN_CHANNEL
    case FundingCreated(_, _, _, _) => FUNDING_CREATED
    case ChannelAnnouncement(_, _, _, _, _, _, _, _, _, _, _) => CHANNEL_ANNOUNCEMENT
    case NodeAnnouncement(_, _, _, _, _, _, _) => NODE_ANNOUNCEMENT
    case ChannelUpdate(_, _, _, _, _, _, _, _, _, _, _) => CHANNEL_UPDATE
    case QueryChannelRange(_, _, _, _) => QUERY_CHANNEL_RANGE
    case ReplyChannelRange(_, _, _, _, _, _, _) => REPLY_CHANNEL_RANGE
    case Unknown(t, _) => t
  }

  predicate HasCodec(t: nat) {
    t in {WARNING, INIT, ERROR, PING, PONG, OPEN_CHANNEL, FUNDING_CREATED, CHANNEL_ANNOUNCEMENT,
          NODE_ANNOUNCEMENT, CHANNEL_UPDATE, QUERY_CHANNEL_RANGE, REPLY_CHANNEL_RANGE}
  }

  predicate HasTlvs(t: nat) {
    t in {INIT, OPEN_CHANNEL, QUERY_CHANNEL_RANGE, REPLY_CHANNEL_RANGE}
  }

  /** The even TLV types a message's extension may carry. */
  function KnownEven(t: nat): seq<nat> {
    if t == OPEN_CHANNEL then [TLV_UPFRONT_SHUTDOWN_SCRIPT] else []
  }

  /** The fixed fields of each message, in wire order. */
  function Layout(t: nat): seq<Field>
    requires HasCodec(t)
  {
    if t == WARNING || t == ERROR then [Fixed(32), Var]
    else if t == INIT then [Var, Var]
    else if t == PING then [Uint(2), Var]
    else if t == PONG then [Var]
    else if t == OPEN_CHANNEL then
      [Fixed(32), Fixed(32), Uint(8), Uint(8), Uint(8), Uint(8), Uint(8), Uint(8), Uint(4), Uint(2), Uint(2),
       Key, Key, Key, Key, Key, Key, Uint(1)]
    else if t == FUNDING_CREATED then [Fixed(32), Fixed(32), Uint(2), Signature]
    else if t == CHANNEL_ANNOUNCEMENT then
      [Signature, Signature, Signature, Signature, Var, Fixed(32), Uint(8), Key, Key, Key, Key]
    else if t == NODE_ANNOUNCEMENT then [Signature, Var, Uint(4), Key, Fixed(3), Fixed(32), Var]
    else if t == CHANNEL_UPDATE then
      [Signature, Fixed(32), Uint(8), Uint(4), Uint(1), Uint(1), Uint(2), Uint(8), Uint(4), Uint(4), Uint(8)]
    else if t == QUERY_CHANNEL_RANGE then [Fixed(32), Uint(4), Uint(4)]
    else [Fixed(32), Uint(4), Uint(4), Uint(1), Var]
  }

  function Head(m: Message): seq<Value>
    requires !m.Unknown?
  {
    match m
    case Warning(c, d) => [Raw(c), Raw(d)]
    case Init(g, f, _, _) => [Raw(g), Raw(f)]
    case Error(c, d) => [Raw(c), Raw(d)]
    case Ping(n, i) => [Num(n), Raw(i)]
    case Pong(i) => [Raw(i)]
    case OpenChannel(ch, id, fs, pm, dl, mh, cr, hm, fr, sd, ma, k1, k2, k3, k4, k5, k6, fl, _, _) =>
      [Raw(ch), Raw(id), Num(fs), Num(pm), Num(dl), Num(mh), Num(cr), Num(hm), Num(fr), Num(sd), Num(ma),
       Raw(k1), Raw(k2), Raw(k3), Raw(k4), Raw(k5), Raw(k6), Num(fl)]
    case FundingCreated(id, tx, out, s) => [Raw(id), Raw(tx), Num(out), Raw(s)]
    case ChannelAnnouncement(s1, s2, s3, s4, f, ch, id, n1, n2, b1, b2) =>
      [Raw(s1), Raw(s2), Raw(s3), Raw(s4), Raw(f), Raw(ch), Num(id), Raw(n1), Raw(n2), Raw(b1), Raw(b2)]
    case NodeAnnouncement(s, f, ts, id, rgb, al, ad) => [Raw(s), Raw(f), Num(ts), Raw(id), Raw(rgb), Raw(al), Raw(ad)]
    case ChannelUpdate(s, ch, id, ts, mf, cf, cl, hm, fb, fp, hx) =>
      [Raw(s), Raw(ch), Num(id), Num(ts), Num(mf), Num(cf), Num(cl), Num(hm), Num(fb), Num(fp), Num(hx)]
    case QueryChannelRange(ch, fb, nb, _) => [Raw(ch), Num(fb), Num(nb)]
    case ReplyChannelRange(ch, fb, nb, sc, ids, _, _) => [Raw(ch), Num(fb), Num(nb), Num(sc), Raw(ids)]
  }

  // ----- TLV extensions -----

  function Concat(chunks: seq<Blob>): Blob {
    if chunks == [] then [] else chunks[0] + Concat(chunks[1..])
  }

  /** The whole chunks at the front of a slice, and what is left after them. */
  function Chunks(size: nat, data: Blob): seq<Blob>
    requires size > 0
    decreases |data|
  {
    if |data| < size then [] else [data[..size]] + Chunks(size, data[size..])
  }

  function Remainder(size: nat, data: Blob): Blob
    requires size > 0
    decreases |data|
  {
    if |data| < size then data else Remainder(size, data[size..])
  }

  predicate AllOfSize(chunks: seq<Blob>, size: nat) {
    forall i :: 0 <= i < |chunks| ==> |chunks[i]| == size
  }

  lemma {:induction false} ConcatOfChunks(size: nat, data: Blob)
    requires size > 0
    ensures Concat(Chunks(size, data)) + Remainder(size, data) == data
    ensures AllOfSize(Chunks(size, data), size) && |Remainder(size, data)| < size
    decreases |data|
  {
    if |data| >= size {
      ConcatOfChunks(size, data[size..]);
      assert data == data[..size] + data[size..];
    }
  }

  lemma {:induction false} ChunksOfConcat(size: nat, chunks: seq<Blob>, rest: Blob)
    requires size > 0 && AllOfSize(chunks, size) && |rest| < size
    ensures Chunks(size, Concat(chunks) + rest) == chunks && Remainder(size, Concat(chunks) + rest) == rest
    decreases |chunks|
  {
    if chunks == [] {
      assert Concat(chunks) + rest == rest;
    } else {
      var tail := Concat(chunks[1..]) + rest;
      ChunksOfConcat(size, chunks[1..], rest);
      assert Concat(chunks) + rest == chunks[0] + tail;
      assert (chunks[0] + tail)[..size] == chunks[0] && (chunks[0] + tail)[size..] == tail;
      assert chunks == [chunks[0]] + chunks[1..];
    }
  }

  function OptionalRecord(t: nat, v: Option<Blob>): seq<Tlv.Record> {
    match v case None => [] case Some(bs) => [Tlv.Record(t, bs)]
  }

  /** At most two optional records, the smaller type first. */
  function TwoRecords(a: nat, x: Option<Blob>, b: nat, y: Option<Blob>): seq<Tlv.Record> {
    OptionalRecord(a, x) + OptionalRecord(b, y)
  }

  function NetworksValue(networks: Option<seq<Blob>>): Option<Blob> {
    match networks case None => None case Some(chunks) => Some(Concat(chunks))
  }

  function QueryOptionValue(flags: Option<nat>): Option<Blob> {
    match flags case None => None case Some(n) => Some(BigSizeBytes(n))
  }

  /** The TLV records a message is written with. */
  function Tail(m: Message): seq<Tlv.Record> {
    match m
    case Init(_, _, networks, addr) => TwoRecords(TLV_NETWORKS, NetworksValue(networks), TLV_REMOTE_ADDR, addr)
    case OpenChannel(_, _, _, _, _, _, _, _, _, _, _, _, _, _, _, _, _, _, script, kind) =>
      TwoRecords(TLV_UPFRONT_SHUTDOWN_SCRIPT, script, TLV_CHANNEL_TYPE, kind)
    case QueryChannelRange(_, _, _, flags) => OptionalRecord(TLV_QUERY_OPTION, QueryOptionValue(flags))
    case ReplyChannelRange(_, _, _, _, _, ts, cs) => TwoRecords(TLV_TIMESTAMPS, ts, TLV_CHECKSUMS, cs)
    case _ => []
  }

  /** A networks value is a whole number of chain hashes. */
  function NetworksFrom(v: Option<Blob>): Result<Option<seq<Blob>>, BoltError> {
    match v
    case None => Ok(None)
    case Some(data) =>
      var chunks := Chunks(CHAIN_HASH_SIZE, data);
      if Remainder(CHAIN_HASH_SIZE, data) != [] then Err(Truncated((|chunks| + 1) * CHAIN_HASH_SIZE, |data|))
      else Ok(Some(chunks))
  }

  /** Bytes after the BigSize inside the value are ignored. */
  function QueryOptionFrom(v: Option<Blob>): Result<Option<nat>, BoltError> {
    match v
    case None => Ok(None)
    case Some(data) =>
      var (n, _) :- ReadBigSize(data);
      Ok(Some(n))
  }

  function B(v: Value): Blob {
    match v case Raw(bs) => bs case Num(_) => []
  }

  function N(v: Value): nat {
    match v case Raw(_) => 0 case Num(n) => n
  }

  /** Assembles a message from its fixed fields and its TLV records. */
  function Build(t: nat, vs: seq<Value>, rs: seq<Tlv.Record>): Result<Message, BoltError>
    requires HasCodec(t) && |vs| == |Layout(t)|
  {
    if t == WARNING then Ok(Warning(B(vs[0]), B(vs[1])))
    else if t == ERROR then Ok(Error(B(vs[0]), B(vs[1])))
    else if t == INIT then
      var networks :- NetworksFrom(Tlv.Lookup(rs, TLV_NETWORKS));
      Ok(Init(B(vs[0]), B(vs[1]), networks, Tlv.Lookup(rs, TLV_REMOTE_ADDR)))
    else if t == PING then Ok(Ping(N(vs[0]), B(vs[1])))
    else if t == PONG then Ok(Pong(B(vs[0])))
    else if t == OPEN_CHANNEL then
      Ok(OpenChannel(B(vs[0]), B(vs[1]), N(vs[2]), N(vs[3]), N(vs[4]), N(vs[5]), N(vs[6]), N(vs[7]), N(vs[8]),
                     N(vs[9]), N(vs[10]), B(vs[11]), B(vs[12]), B(vs[13]), B(vs[14]), B(vs[15]),
                     B(vs[16]), N(vs[17]),
                     Tlv.Lookup(rs, TLV_UPFRONT_SHUTDOWN_SCRIPT), Tlv.Lookup(rs, TLV_CHANNEL_TYPE)))
    else if t == FUNDING_CREATED then Ok(FundingCreated(B(vs[0]), B(vs[1]), N(vs[2]), B(vs[3])))
    else if t == CHANNEL_ANNOUNCEMENT then
      Ok(ChannelAnnouncement(B(vs[0]), B(vs[1]), B(vs[2]), B(vs[3]), B(vs[4]), B(vs[5]), N(vs[6]),
                             B(vs[7]), B(vs[8]), B(vs[9]), B(vs[10])))
    else if t == NODE_ANNOUNCEMENT then
      Ok(NodeAnnouncement(B(vs[0]), B(vs[1]), N(vs[2]), B(vs[3]), B(vs[4]), B(vs[5]), B(vs[6])))
    else if t == CHANNEL_UPDATE then
      Ok(ChannelUpdate(B(vs[0]), B(vs[1]), N(vs[2]), N(vs[3]), N(vs[4]), N(vs[5]), N(vs[6]), N(vs[7]), N(vs[8]),
                       N(vs[9]), N(vs[10])))
    else if t == QUERY_CHANNEL_RANGE then
      var flags :- QueryOptionFrom(Tlv.Lookup(rs, TLV_QUERY_OPTION));
      Ok(QueryChannelRange(B(vs[0]), N(vs[1]), N(vs[2]), flags))
    else
      Ok(ReplyChannelRange(B(vs[0]), N(vs[1]), N(vs[2]), N(vs[3]), B(vs[4]),
                           Tlv.Lookup(rs, TLV_TIMESTAMPS), Tlv.Lookup(rs, TLV_CHECKSUMS)))
  }

  // ----- The codec -----

  function EncodeBody(m: Message): Blob
    requires !m.Unknown? ==> |Head(m)| == |Layout(MsgType(m))|
  {
    if m.Unknown? then m.payload
    else WriteFields(Layout(MsgType(m)), Head(m)) + Tlv.Encode(Tail(m))
  }

  function Encode(m: Message): Blob {
    ToBe(MsgType(m), 2) + EncodeBody(m)
  }

  function DecodeBody(rules: Rules, t: nat, body: Blob): Result<Message, BoltError>
    requires HasCodec(t)
  {
    var (vs, rest) :- ReadFields(rules, Layout(t), body);
    var rs :- if HasTlvs(t) then Tlv.Decode(rest, KnownEven(t)) else Ok([]);
    Build(t, vs, rs)
  }

  function Decode(rules: Rules, data: Blob): Result<Message, BoltError> {
    var (t, body) :- ReadUint(2, data);
    if HasCodec(t) then DecodeBody(rules, t, body)
    else if t % 2 == 0 then Err(UnknownEvenType(t))
    else Ok(Unknown(t, body))
  }

  // ----- Well-formed messages -----

  predicate TlvValueFits(v: Option<Blob>) {
    v.Some? ==> |v.value| < U64_LIMIT
  }

  /** What the types of the source guarantee about any message value. */
  predicate Typed(rules: Rules, m: Message) {
    match m
    case Unknown(t, _) => t < U16_LIMIT
    case _ =>
      && AllHaveType(rules, Layout(MsgType(m)), Head(m))
      && (match m
          case Init(_, _, networks, addr) =>
            (networks.Some? ==> AllOfSize(networks.value, CHAIN_HASH_SIZE)) &&
            TlvValueFits(NetworksValue(networks)) && TlvValueFits(addr)
          case OpenChannel(_, _, _, _, _, _, _, _, _, _, _, _, _, _, _, _, _, _, script, kind) =>
            TlvValueFits(script) && TlvValueFits(kind)
          case QueryChannelRange(_, _, _, flags) => flags.Some? ==> flags.value < U64_LIMIT
          case ReplyChannelRange(_, _, _, _, _, ts, cs) => TlvValueFits(ts) && TlvValueFits(cs)
          case _ => true)
  }

  /** Vectors fit their 16-bit lengths, and an unknown message does not pose as a known or an even one. */
  predicate WellFormed(rules: Rules, m: Message) {
    && Typed(rules, m)
    && (match m
        case Unknown(t, _) => !HasCodec(t) && t % 2 == 1
        case _ => AllFit(rules, Layout(MsgType(m)), Head(m)))
  }
}
