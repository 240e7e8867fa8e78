/** The messages byte by byte, with every constant written out, and the codec's agreement with that grammar. */
module Grammar {
  import opened Wrappers
  import opened Bytes
  import opened Wire
  import opened Fields
  import opened Messages
  import opened Layouts
  import Codec
  import Tlv

  // ----- The grammar -----

  predicate Blob32(bs: Blob) {
    |bs| == 32
  }

  predicate KeyBytes(rules: Rules, bs: Blob) {
    |bs| == 33 && rules.validKey(bs)
  }

  predicate SignatureBytes(rules: Rules, bs: Blob) {
    |bs| == 64 && rules.validSignature(bs)
  }

  predicate U8(n: nat) {
    n < 0x100
  }

  predicate U16(n: nat) {
    n < 0x1_0000
  }

  predicate U32(n: nat) {
    n < 0x1_0000_0000
  }

  predicate U64(n: nat) {
    n < 0x1_0000_0000_0000_0000
  }

  /** The size, width and validity of every field. */
  predicate FieldsTyped(rules: Rules, m: Message) {
    match m
    case Warning(c, _) => Blob32(c)
    case Init(_, _, _, _) => true
    case Error(c, _) => Blob32(c)
    case Ping(n, _) => U16(n)
    case Pong(_) => true
    case OpenChannel(ch, id, fs, pm, dl, mh, cr, hm, fr, sd, ma, k1, k2, k3, k4, k5, k6, fl, _, _) =>
      && Blob32(ch) && Blob32(id) && U64(fs) && U64(pm) && U64(dl) && U64(mh) && U64(cr) && U64(hm)
      && U32(fr) && U16(sd) && U16(ma)
      && KeyBytes(rules, k1) && KeyBytes(rules, k2) && KeyBytes(rules, k3) && KeyBytes(rules, k4)
      && KeyBytes(rules, k5) && KeyBytes(rules, k6) && U8(fl)
    case FundingCreated(id, tx, out, s) => Blob32(id) && Blob32(tx) && U16(out) && SignatureBytes(rules, s)
    case ChannelAnnouncement(s1, s2, s3, s4, _, ch, id, n1, n2, b1, b2) =>
      && SignatureBytes(rules, s1) && SignatureBytes(rules, s2)
      && SignatureBytes(rules, s3) && SignatureBytes(rules, s4) && Blob32(ch) && U64(id)
      && KeyBytes(rules, n1) && KeyBytes(rules, n2) && KeyBytes(rules, b1) && KeyBytes(rules, b2)
    case NodeAnnouncement(s, _, ts, id, rgb, al, _) =>
      SignatureBytes(rules, s) && U32(ts) && KeyBytes(rules, id) && |rgb| == 3 && Blob32(al)
    case ChannelUpdate(s, ch, id, ts, mf, cf, cl, hm, fb, fp, hx) =>
      && SignatureBytes(rules, s) && Blob32(ch) && U64(id) && U32(ts) && U8(mf) && U8(cf) && U16(cl) && U64(hm)
      && U32(fb) && U32(fp) && U64(hx)
    case QueryChannelRange(ch, fb, nb, _) => Blob32(ch) && U32(fb) && U32(nb)
    case ReplyChannelRange(ch, fb, nb, sc, _, _, _) => Blob32(ch) && U32(fb) && U32(nb) && U8(sc)
    case Unknown(t, _) => U16(t)
  }

  /** Every vector behind a 16-bit length fits it. */
  predicate VectorsFit(m: Message) {
    match m
    case Warning(_, d) => |d| <= 65535
    case Init(g, f, _, _) => |g| <= 65535 && |f| <= 65535
    case Error(_, d) => |d| <= 65535
    case Ping(_, i) => |i| <= 65535
    case Pong(i) => |i| <= 65535
    case ChannelAnnouncement(_, _, _, _, f, _, _, _, _, _, _) => |f| <= 65535
    case NodeAnnouncement(_, f, _, _, _, _, ad) => |f| <= 65535 && |ad| <= 65535
    case ReplyChannelRange(_, _, _, _, ids, _, _) => |ids| <= 65535
    case _ => true
  }

  predicate Short(v: Option<Blob>) {
    v.Some? ==> U64(|v.value|)
  }

  /** Every TLV value fits its BigSize length, and networks are 32-byte hashes. */
  predicate ExtensionsFit(m: Message) {
    match m
    case Init(_, _, networks, addr) =>
      && Short(addr)
      && (networks.Some? ==> U64(32 * |networks.value|) &&
                             forall i :: 0 <= i < |networks.value| ==> Blob32(networks.value[i]))
    case OpenChannel(_, _, _, _, _, _, _, _, _, _, _, _, _, _, _, _, _, _, script, kind) => Short(script) && Short(kind)
    case QueryChannelRange(_, _, _, flags) => flags.Some? ==> U64(flags.value)
    case ReplyChannelRange(_, _, _, _, _, ts, cs) => Short(ts) && Short(cs)
    case _ => true
  }

  /** The two bytes a message starts with. */
  function TypeBytes(m: Message): Blob {
    match m
    case Warning(_, _) => [0, 1]
    case Init(_, _, _, _) => [0, 16]
    case Error(_, _) => [0, 17]
    case Ping(_, _) => [0, 18]
    case Pong(_) => [0, 19]
    case OpenChannel(_, _, _, _, _, _, _, _, _, _, _, _, _, _, _, _, _, _, _, _) => [0, 32]
    case FundingCreated(_, _, _, _) => [0, 34]
    case ChannelAnnouncement(_, _, _, _, _, _, _, _, _, _, _) => [1, 0]
    case NodeAnnouncement(_, _, _, _, _, _, _) => [1, 1]
    case ChannelUpdate(_, _, _, _, _, _, _, _, _, _, _) => [1, 2]
    case QueryChannelRange(_, _, _, _) => [1, 7]
    case ReplyChannelRange(_, _, _, _, _, _, _) => [1, 8]
    case Unknown(t, _) => ToBe(t, 2)
  }

  function TlvBytes(t: byte, v: Option<Blob>): Blob {
    match v case None => [] case Some(bs) => [t] + BigSizeBytes(|bs|) + bs
  }

  /** The TLV extension, record by record. */
  function ExtensionBytes(m: Message): Blob {
    match m
    case Init(_, _, networks, addr) =>
      TlvBytes(1, match networks case None => None case Some(ns) => Some(Concat(ns))) + TlvBytes(3, addr)
    case OpenChannel(_, _, _, _, _, _, _, _, _, _, _, _, _, _, _, _, _, _, script, kind) =>
      TlvBytes(0, script) + TlvBytes(1, kind)
    case QueryChannelRange(_, _, _, flags) =>
      TlvBytes(1, match flags case None => None case Some(n) => Some(BigSizeBytes(n)))
    case ReplyChannelRange(_, _, _, _, _, ts, cs) => TlvBytes(1, ts) + TlvBytes(3, cs)
    case _ => []
  }

  /** The type and the fixed fields. */
  function Front(m: Message): Blob
    requires !m.Unknown?
  {
    TypeBytes(m) + Concat(Pieces(m))
  }

  predicate Extensible(m: Message) {
    m.Init? || m.OpenChannel? || m.QueryChannelRange? || m.ReplyChannelRange?
  }

  /** The even types a message understands in its extension. */
  function KnownTypes(m: Message): seq<nat> {
    if m.OpenChannel? then [0] else []
  }

  /** What a message takes from its TLV records. */
  predicate TakenFrom(m: Message, rs: seq<Tlv.Record>) {
    match m
    case Init(_, _, networks, addr) =>
      Tlv.Lookup(rs, 1) == (match networks case None => None case Some(ns) => Some(Concat(ns))) && Tlv.Lookup(rs, 3) == addr
    case OpenChannel(_, _, _, _, _, _, _, _, _, _, _, _, _, _, _, _, _, _, script, kind) =>
      Tlv.Lookup(rs, 0) == script && Tlv.Lookup(rs, 1) == kind
    case QueryChannelRange(_, _, _, flags) =>
      (match Tlv.Lookup(rs, 1) case None => flags == None case Some(v) => flags.Some? && BigSizeBytes(flags.value) <= v)
    case ReplyChannelRange(_, _, _, _, _, ts, cs) => Tlv.Lookup(rs, 1) == ts && Tlv.Lookup(rs, 3) == cs
    case _ => true
  }

  /** Type numbers that have a codec. */
  predicate Assigned(t: nat) {
    t in {1, 16, 17, 18, 19, 32, 34, 256, 257, 258, 263, 264}
  }

  /** The bytes are a message: its type, its fields, then records it can be taken from, or bytes that are ignored. */
  predicate Reads(rules: Rules, data: Blob, m: Message, rs: seq<Tlv.Record>) {
    && FieldsTyped(rules, m) && VectorsFit(m) && ExtensionsFit(m)
    && match m
       case Unknown(t, payload) => data == ToBe(t, 2) + payload && t % 2 == 1 && !Assigned(t)
       case _ =>
         && Front(m) <= data
         && (Extensible(m) ==>
              && Tlv.Canonical(rs, KnownTypes(m)) && TakenFrom(m, rs)
              && data[|Front(m)|..] == Tlv.Encode(rs))
  }

  // ----- Constants -----

  lemma TypeIsLiteral(m: Message)
    ensures TypeBytes(m) == ToBe(MsgType(m), 2)
  {
    ToBeTwo(MsgType(m));
  }

  lemma TablesAreLiteral(m: Message)
    requires !m.Unknown?
    ensures HasCodec(MsgType(m)) && (HasTlvs(MsgType(m)) <==> Extensible(m)) && KnownEven(MsgType(m)) == KnownTypes(m)
    ensures forall t :: HasCodec(t) <==> Assigned(t)
  {
  }

  // ----- Field sizes -----

  /** The layout table asks of a message's fields exactly what the grammar does. */
  ghost predicate TypedLiterally(rules: Rules, m: Message)
    requires !m.Unknown?
  {
    AllHaveType(rules, Layout(MsgType(m)), Head(m)) <==> FieldsTyped(rules, m)
  }

  ghost predicate VectorsLiterally(rules: Rules, m: Message)
    requires !m.Unknown?
  {
    AllHaveType(rules, Layout(MsgType(m)), Head(m)) ==> (AllFit(rules, Layout(MsgType(m)), Head(m)) <==> VectorsFit(m))
  }

  lemma OpenChannelHasTypes(rules: Rules, m: Message)
    requires m.OpenChannel? && AllHaveType(rules, Layout(MsgType(m)), Head(m))
    ensures FieldsTyped(rules, m)
  {
    WidthLimits();
    var fs, vs := Layout(MsgType(m)), Head(m);
    assert HasType(rules, fs[0], vs[0]) && HasType(rules, fs[1], vs[1]) && HasType(rules, fs[2], vs[2]) && HasType(rules, fs[3], vs[3]);
    assert HasType(rules, fs[4], vs[4]) && HasType(rules, fs[5], vs[5]) && HasType(rules, fs[6], vs[6]) && HasType(rules, fs[7], vs[7]);
    assert HasType(rules, fs[8], vs[8]) && HasType(rules, fs[9], vs[9]) && HasType(rules, fs[10], vs[10]) && HasType(rules, fs[11], vs[11]);
    assert HasType(rules, fs[12], vs[12]) && HasType(rules, fs[13], vs[13]) && HasType(rules, fs[14], vs[14]) && HasType(rules, fs[15], vs[15]);
    assert HasType(rules, fs[16], vs[16]) && HasType(rules, fs[17], vs[17]);
  }

  lemma OpenChannelTyped(rules: Rules, m: Message)
    requires m.OpenChannel?
    ensures TypedLiterally(rules, m)
  {
    var fs, vs := Layout(MsgType(m)), Head(m);
    if AllHaveType(rules, fs, vs) {
      OpenChannelHasTypes(rules, m);
    }
    if FieldsTyped(rules, m) {
      WidthLimits();
      forall i | 0 <= i < |fs| ensures HasType(rules, fs[i], vs[i]) {
      }
    }
  }

  lemma ChannelAnnouncementTyped(rules: Rules, m: Message)
    requires m.ChannelAnnouncement?
    ensures TypedLiterally(rules, m)
  {
    WidthLimits();
    var fs, vs := Layout(MsgType(m)), Head(m);
    if AllHaveType(rules, fs, vs) {
      assert HasType(rules, fs[0], vs[0]) && HasType(rules, fs[1], vs[1]) && HasType(rules, fs[2], vs[2]) && HasType(rules, fs[3], vs[3]);
      assert HasType(rules, fs[4], vs[4]) && HasType(rules, fs[5], vs[5]) && HasType(rules, fs[6], vs[6]) && HasType(rules, fs[7], vs[7]);
      assert HasType(rules, fs[8], vs[8]) && HasType(rules, fs[9], vs[9]) && HasType(rules, fs[10], vs[10]);
    }
  }

  lemma NodeAnnouncementTyped(rules: Rules, m: Message)
    requires m.NodeAnnouncement?
    ensures TypedLiterally(rules, m)
  {
    WidthLimits();
    var fs, vs := Layout(MsgType(m)), Head(m);
    if AllHaveType(rules, fs, vs) {
      assert HasType(rules, fs[0], vs[0]) && HasType(rules, fs[1], vs[1]) && HasType(rules, fs[2], vs[2]) && HasType(rules, fs[3], vs[3]);
      assert HasType(rules, fs[4], vs[4]) && HasType(rules, fs[5], vs[5]) && HasType(rules, fs[6], vs[6]);
    }
  }

  lemma ChannelUpdateTyped(rules: Rules, m: Message)
    requires m.ChannelUpdate?
    ensures TypedLiterally(rules, m)
  {
    WidthLimits();
    var fs, vs := Layout(MsgType(m)), Head(m);
    if AllHaveType(rules, fs, vs) {
      assert HasType(rules, fs[0], vs[0]) && HasType(rules, fs[1], vs[1]) && HasType(rules, fs[2], vs[2]) && HasType(rules, fs[3], vs[3]);
      assert HasType(rules, fs[4], vs[4]) && HasType(rules, fs[5], vs[5]) && HasType(rules, fs[6], vs[6]) && HasType(rules, fs[7], vs[7]);
      assert HasType(rules, fs[8], vs[8]) && HasType(rules, fs[9], vs[9]) && HasType(rules, fs[10], vs[10]);
    }
  }

  lemma SmallMessageTyped(rules: Rules, m: Message)
    requires !m.Unknown? && !m.OpenChannel? && !m.ChannelAnnouncement? && !m.NodeAnnouncement? && !m.ChannelUpdate?
    ensures TypedLiterally(rules, m)
  {
    WidthLimits();
    var fs, vs := Layout(MsgType(m)), Head(m);
    if AllHaveType(rules, fs, vs) {
      assert HasType(rules, fs[0], vs[0]);
      assert |fs| > 1 ==> HasType(rules, fs[1], vs[1]);
      assert |fs| > 2 ==> HasType(rules, fs[2], vs[2]);
      assert |fs| > 3 ==> HasType(rules, fs[3], vs[3]);
    }
  }

  lemma FieldsTypedIff(rules: Rules, m: Message)
    requires !m.Unknown?
    ensures TypedLiterally(rules, m)
  {
    if m.OpenChannel? { OpenChannelTyped(rules, m); }
    else if m.ChannelAnnouncement? { ChannelAnnouncementTyped(rules, m); }
    else if m.NodeAnnouncement? { NodeAnnouncementTyped(rules, m); }
    else if m.ChannelUpdate? { ChannelUpdateTyped(rules, m); }
    else { SmallMessageTyped(rules, m); }
  }

  lemma OneVectorFits(rules: Rules, m: Message)
    requires m.Warning? || m.Error? || m.Ping? || m.Pong? || m.ChannelAnnouncement? || m.ReplyChannelRange?
    ensures VectorsLiterally(rules, m)
  {
    var fs, vs := Layout(MsgType(m)), Head(m);
    var at := if m.Pong? then 0 else if m.ChannelAnnouncement? || m.ReplyChannelRange? then 4 else 1;
    OnlyVector(rules, fs, vs, at);
  }

  /** With one vector among the fields, only its length decides. */
  lemma OnlyVector(rules: Rules, fs: seq<Field>, vs: seq<Value>, at: nat)
    requires at < |fs| == |vs| && fs[at].Var?
    requires forall i :: 0 <= i < |fs| && i != at ==> !fs[i].Var?
    ensures AllHaveType(rules, fs, vs) ==> (AllFit(rules, fs, vs) <==> |vs[at].bytes| < U16_LIMIT)
  {
    if AllHaveType(rules, fs, vs) {
      assert HasType(rules, fs[at], vs[at]);
      assert Fits(rules, fs[at], vs[at]) <==> |vs[at].bytes| < U16_LIMIT;
    }
  }

  lemma NoVector(rules: Rules, fs: seq<Field>, vs: seq<Value>)
    requires forall i :: 0 <= i < |fs| ==> !fs[i].Var?
    ensures AllHaveType(rules, fs, vs) ==> AllFit(rules, fs, vs)
  {
  }

  lemma TwoVectorsFit(rules: Rules, m: Message)
    requires m.Init? || m.NodeAnnouncement?
    ensures VectorsLiterally(rules, m)
  {
    var fs, vs := Layout(MsgType(m)), Head(m);
    if AllHaveType(rules, fs, vs) {
      var first, second := if m.Init? then 0 else 1, if m.Init? then 1 else 6;
      assert HasType(rules, fs[first], vs[first]) && HasType(rules, fs[second], vs[second]);
      assert Fits(rules, fs[first], vs[first]) <==> |vs[first].bytes| < U16_LIMIT;
      assert Fits(rules, fs[second], vs[second]) <==> |vs[second].bytes| < U16_LIMIT;
    }
  }

  lemma VectorsFitIff(rules: Rules, m: Message)
    requires !m.Unknown?
    ensures VectorsLiterally(rules, m)
  {
    if m.Init? || m.NodeAnnouncement? { TwoVectorsFit(rules, m); }
    else if m.Warning? || m.Error? || m.Ping? || m.Pong? || m.ChannelAnnouncement? || m.ReplyChannelRange? {
      OneVectorFits(rules, m);
    } else { NoVector(rules, Layout(MsgType(m)), Head(m)); }
  }

  lemma {:induction false} ConcatSize(size: nat, chunks: seq<Blob>)
    requires AllOfSize(chunks, size)
    ensures |Concat(chunks)| == size * |chunks|
  {
    if chunks != [] {
      ConcatSize(size, chunks[1..]);
    }
  }

  ghost predicate ExtensionsTyped(m: Message) {
    match m
    case Init(_, _, networks, addr) =>
      (networks.Some? ==> AllOfSize(networks.value, CHAIN_HASH_SIZE)) &&
      TlvValueFits(NetworksValue(networks)) && TlvValueFits(addr)
    case _ => ExtensionsFit(m)
  }

  lemma ExtensionsTypedIff(m: Message)
    ensures ExtensionsTyped(m) <==> ExtensionsFit(m)
  {
    if m.Init? && m.networks.Some? && AllOfSize(m.networks.value, 32) {
      ConcatSize(32, m.networks.value);
    }
  }

  /** A message is well-typed, and well-formed, exactly when its fields, vectors and extensions have the literal sizes. */
  lemma WellFormedIffLiteral(rules: Rules, m: Message)
    ensures Typed(rules, m) <==> FieldsTyped(rules, m) && ExtensionsFit(m)
    ensures WellFormed(rules, m) <==>
              && FieldsTyped(rules, m) && ExtensionsFit(m) && VectorsFit(m)
              && (m.Unknown? ==> m.msgType % 2 == 1 && !Assigned(m.msgType))
  {
    hide Layout, Head, FieldsTyped, VectorsFit, AllHaveType, AllFit;
    if !m.Unknown? {
      FieldsTypedIff(rules, m);
      VectorsFitIff(rules, m);
      ExtensionsTypedIff(m);
      FitMeansTyped(rules, Layout(MsgType(m)), Head(m));
      TypedParts(rules, m);
    } else {
      UnknownIsLiteral(rules, m);
    }
  }

  lemma FitMeansTyped(rules: Rules, fs: seq<Field>, vs: seq<Value>)
    ensures AllFit(rules, fs, vs) ==> AllHaveType(rules, fs, vs)
  {
  }

  lemma TypedParts(rules: Rules, m: Message)
    requires !m.Unknown?
    ensures Typed(rules, m) <==> AllHaveType(rules, Layout(MsgType(m)), Head(m)) && ExtensionsTyped(m)
    ensures WellFormed(rules, m) <==> Typed(rules, m) && AllFit(rules, Layout(MsgType(m)), Head(m))
  {
    hide Layout, Head, AllHaveType, AllFit;
  }

  lemma UnknownIsLiteral(rules: Rules, m: Message)
    requires m.Unknown?
    ensures Typed(rules, m) <==> FieldsTyped(rules, m)
    ensures WellFormed(rules, m) <==> FieldsTyped(rules, m) && m.msgType % 2 == 1 && !Assigned(m.msgType)
    ensures ExtensionsFit(m) && VectorsFit(m)
  {
  }

  // ----- What is written -----

  lemma RecordIsLiteral(t: nat, v: Option<Blob>)
    requires t < 0xfd
    ensures Tlv.Encode(OptionalRecord(t, v)) == TlvBytes(t, v)
  {
    if v.Some? {
      assert OptionalRecord(t, v)[1..] == [];
    }
  }

  lemma TwoRecordsAreLiteral(a: nat, x: Option<Blob>, b: nat, y: Option<Blob>)
    requires a < 0xfd && b < 0xfd
    ensures Tlv.Encode(TwoRecords(a, x, b, y)) == TlvBytes(a, x) + TlvBytes(b, y)
  {
    Tlv.EncodeConcat(OptionalRecord(a, x), OptionalRecord(b, y));
    RecordIsLiteral(a, x);
    RecordIsLiteral(b, y);
  }

  lemma ExtensionIsLiteral(m: Message)
    ensures Tlv.Encode(Tail(m)) == ExtensionBytes(m)
  {
    match m
    case Init(_, _, networks, addr) => TwoRecordsAreLiteral(1, NetworksValue(networks), 3, addr);
    case OpenChannel(_, _, _, _, _, _, _, _, _, _, _, _, _, _, _, _, _, _, script, kind) =>
      TwoRecordsAreLiteral(0, script, 1, kind);
    case QueryChannelRange(_, _, _, flags) => RecordIsLiteral(1, QueryOptionValue(flags));
    case ReplyChannelRange(_, _, _, _, _, ts, cs) => TwoRecordsAreLiteral(1, ts, 3, cs);
    case _ =>
  }

  /** A message is written as its literal type, its fields in order, and its literal records. */
  lemma EncodedLiterally(m: Message)
    ensures Encode(m) == if m.Unknown? then ToBe(m.msgType, 2) + m.payload else Front(m) + ExtensionBytes(m)
  {
    hide Pieces, Tail, ExtensionBytes;
    TypeIsLiteral(m);
    if !m.Unknown? {
      EncodesInOrder(m);
      ExtensionIsLiteral(m);
      ConcatAssociates(TypeBytes(m), Concat(Pieces(m)), ExtensionBytes(m));
    }
  }

  // ----- What is read -----

  /** The message built from its own fields and any records it can be taken from is the message. */
  lemma BuiltFromRecords(m: Message, rs: seq<Tlv.Record>)
    requires !m.Unknown? && ExtensionsFit(m) && TakenFrom(m, rs)
    ensures Build(MsgType(m), Head(m), rs) == Ok(m)
  {
    if m.Init? {
      Codec.NetworksReadBack(m.networks);
    } else if m.QueryChannelRange? && m.queryOption.Some? {
      var v, n := Tlv.Lookup(rs, 1).value, m.queryOption.value;
      BigSizeRoundTrip(n, v[|BigSizeBytes(n)|..]);
      assert v == BigSizeBytes(n) + v[|BigSizeBytes(n)|..];
    }
  }

  lemma RecordsTaken(t: nat, vs: seq<Value>, rs: seq<Tlv.Record>)
    requires HasCodec(t) && |vs| == |Layout(t)| && Build(t, vs, rs).Ok?
    ensures TakenFrom(Build(t, vs, rs).value, rs)
  {
    if t == INIT {
      Codec.NetworksCanonical(Tlv.Lookup(rs, 1));
    } else if t == QUERY_CHANNEL_RANGE {
      Codec.QueryOptionCanonical(Tlv.Lookup(rs, 1));
    }
  }

  lemma HeadInPieces(m: Message)
    requires !m.Unknown?
    ensures |Head(m)| == |Layout(MsgType(m))| && WriteFields(Layout(MsgType(m)), Head(m)) == Concat(Pieces(m))
  {
    PiecesAreWritten(m);
    WrittenInOrder(Layout(MsgType(m)), Head(m), Pieces(m));
  }

  lemma ReadsDecodes(rules: Rules, data: Blob, m: Message, rs: seq<Tlv.Record>)
    requires !m.Unknown? && Reads(rules, data, m, rs)
    ensures Decode(rules, data) == Ok(m)
  {
    hide Pieces, Layout, Head, MsgType, TypeBytes, FieldsTyped, VectorsFit, ExtensionsFit, Build, TakenFrom, ReadFields,
      Extensible, KnownTypes, HasCodec, HasTlvs, KnownEven;
    TablesAreLiteral(m);
    var t, fs, vs := MsgType(m), Layout(MsgType(m)), Head(m);
    var tail := data[|Front(m)|..];
    assert data == TypeBytes(m) + (Concat(Pieces(m)) + tail);
    TypeIsLiteral(m);
    TypeFits(m);
    UintRoundTrip(2, t, Concat(Pieces(m)) + tail);
    HeadInPieces(m);
    WellFormedIffLiteral(rules, m);
    TypedParts(rules, m);
    FitsIff(rules, m);
    FieldsRoundTrip(rules, fs, vs, tail);
    var records := if Extensible(m) then rs else [];
    if Extensible(m) {
      Tlv.DecodeIffEncoded(tail, rs, KnownEven(t));
      BuiltFromRecords(m, rs);
    } else {
      NothingTaken(m);
      BuiltFromRecords(m, []);
    }
  }

  lemma NothingTaken(m: Message)
    requires !Extensible(m)
    ensures TakenFrom(m, []) && ExtensionsFit(m)
  {
  }

  lemma TypeFits(m: Message)
    requires !m.Unknown?
    ensures MsgType(m) < Pow256(2)
  {
    WidthLimits();
  }

  lemma FitsIff(rules: Rules, m: Message)
    requires !m.Unknown? && FieldsTyped(rules, m) && VectorsFit(m)
    ensures AllFit(rules, Layout(MsgType(m)), Head(m))
  {
    hide Layout, Head, FieldsTyped, VectorsFit, AllHaveType, AllFit;
    FieldsTypedIff(rules, m);
    VectorsFitIff(rules, m);
  }

  lemma DecodedReads(rules: Rules, data: Blob, m: Message) returns (rs: seq<Tlv.Record>)
    requires !m.Unknown? && Decode(rules, data) == Ok(m)
    ensures Reads(rules, data, m, rs)
  {
    hide Pieces, Layout, Head, TypeBytes, FieldsTyped, VectorsFit, ExtensionsFit, Build, TakenFrom, ReadFields,
      Extensible, KnownTypes, HasCodec, HasTlvs, KnownEven;
    WidthLimits();
    UintCanonical(2, data);
    var (t, body) := ReadUint(2, data).value;
    FieldsCanonical(rules, Layout(t), body);
    var (vs, rest) := ReadFields(rules, Layout(t), body).value;
    rs := if HasTlvs(t) then Tlv.Decode(rest, KnownEven(t)).value else [];
    Codec.PartsOfBuild(rules, t, vs, rs);
    RecordsTaken(t, vs, rs);
    if HasTlvs(t) {
      Tlv.DecodeIffEncoded(rest, rs, KnownEven(t));
    }
    Codec.DecodedIsWellFormed(rules, data);
    PartsRead(rules, m, rest, rs);
  }

  lemma PartsRead(rules: Rules, m: Message, rest: Blob, rs: seq<Tlv.Record>)
    requires WellFormed(rules, m) && !m.Unknown? && HasCodec(MsgType(m)) && |Head(m)| == |Layout(MsgType(m))|
    requires HasTlvs(MsgType(m)) ==> Tlv.Canonical(rs, KnownEven(MsgType(m))) && rest == Tlv.Encode(rs)
    requires TakenFrom(m, rs)
    ensures Reads(rules, ToBe(MsgType(m), 2) + (WriteFields(Layout(MsgType(m)), Head(m)) + rest), m, rs)
  {
    hide Pieces, Layout, Head, MsgType, TypeBytes, FieldsTyped, VectorsFit, ExtensionsFit, TakenFrom, Extensible,
      KnownTypes, HasTlvs, KnownEven, WellFormed, Tlv.Canonical;
    WellFormedIffLiteral(rules, m);
    TypeIsLiteral(m);
    TablesAreLiteral(m);
    HeadInPieces(m);
    ConcatAssociates(TypeBytes(m), Concat(Pieces(m)), rest);
  }

  /** Decoding yields a message exactly when the bytes read as it, under the literal grammar. */
  lemma DecodesIffReads(rules: Rules, data: Blob, m: Message)
    ensures Decode(rules, data) == Ok(m) <==> exists rs :: Reads(rules, data, m, rs)
  {
    if m.Unknown? {
      UnknownIffReads(rules, data, m);
    } else {
      if Decode(rules, data) == Ok(m) {
        var rs := DecodedReads(rules, data, m);
      }
      if rs :| Reads(rules, data, m, rs) {
        ReadsDecodes(rules, data, m, rs);
      }
    }
  }

  lemma UnknownIffReads(rules: Rules, data: Blob, m: Message)
    requires m.Unknown?
    ensures Decode(rules, data) == Ok(m) <==> Reads(rules, data, m, [])
    ensures (exists rs :: Reads(rules, data, m, rs)) <==> Reads(rules, data, m, [])
  {
    WidthLimits();
    if Decode(rules, data) == Ok(m) {
      UintCanonical(2, data);
      var (t, body) := ReadUint(2, data).value;
      if HasCodec(t) {
        Codec.DecodedBody(rules, t, body);
      }
    }
    if Reads(rules, data, m, []) {
      UintRoundTrip(2, m.msgType, m.payload);
    }
  }

  // ----- What is refused -----

  /** A networks value of a broken length, or a query option that is not a BigSize. */
  ghost predicate ValueRefused(t: nat, rs: seq<Tlv.Record>, e: BoltError) {
    match Tlv.Lookup(rs, 1)
    case None => false
    case Some(v) =>
      || (t == 16 && |v| % 32 != 0 && e == Truncated((|v| / 32 + 1) * 32, |v|))
      || (t == 263 && ReadBigSize(v) == Err(e))
  }

  /** A field, a record, or what is inside a record is refused, looked at in that order. */
  ghost predicate BodyRefused(rules: Rules, t: nat, body: Blob, e: BoltError)
    requires HasCodec(t)
  {
    match ReadFields(rules, Layout(t), body)
    case Err(f) => e == f
    case Ok((_, rest)) =>
      t in {16, 32, 263, 264} &&
      match Tlv.Decode(rest, if t == 32 then [0] else [])
      case Err(f) => e == f
      case Ok(rs) => ValueRefused(t, rs, e)
  }

  /** Every way in which a message can be refused, each with its own error. */
  ghost predicate MessageRefused(rules: Rules, data: Blob, e: BoltError) {
    || TooShort(2, data, e)
    || (|data| >= 2 &&
        var t := TwoBytes(data[0], data[1]);
        if HasCodec(t) then BodyRefused(rules, t, data[2..], e) else t % 2 == 0 && e == UnknownEvenType(t))
  }

  lemma WholeChunks(size: nat, data: Blob)
    requires size > 0
    ensures |Chunks(size, data)| == |data| / size && |Remainder(size, data)| == |data| % size
  {
    ConcatOfChunks(size, data);
    ConcatSize(size, Chunks(size, data));
    var k, r := |Chunks(size, data)|, |Remainder(size, data)|;
    assert |data| == k * size + r;
    QuotientIs(|data|, size, k, r);
  }

  lemma ValueRefusedIff(t: nat, vs: seq<Value>, rs: seq<Tlv.Record>, e: BoltError)
    requires HasCodec(t) && |vs| == |Layout(t)|
    ensures Build(t, vs, rs) == Err(e) <==> ValueRefused(t, rs, e)
  {
    if t == INIT && Tlv.Lookup(rs, 1).Some? {
      WholeChunks(32, Tlv.Lookup(rs, 1).value);
    }
  }

  /** Decoding fails with an error exactly when the bytes are refused with it. */
  lemma DecodeErrorIff(rules: Rules, data: Blob, e: BoltError)
    ensures Decode(rules, data) == Err(e) <==> MessageRefused(rules, data, e)
  {
    hide Build, Layout, ReadFields, ValueRefused, Tlv.Decode;
    if |data| >= 2 {
      FromBeTwo(data[..2]);
      var t, body := TwoBytes(data[0], data[1]), data[2..];
      if HasCodec(t) && ReadFields(rules, Layout(t), body).Ok? {
        var (vs, rest) := ReadFields(rules, Layout(t), body).value;
        if t !in {16, 32, 263, 264} {
          ValueRefusedIff(t, vs, [], e);
          NoValueRefused(t, e);
        } else if Tlv.Decode(rest, KnownEven(t)).Ok? {
          ValueRefusedIff(t, vs, Tlv.Decode(rest, KnownEven(t)).value, e);
        }
      }
    }
  }

  lemma NoValueRefused(t: nat, e: BoltError)
    ensures !ValueRefused(t, [], e)
  {
  }
}
