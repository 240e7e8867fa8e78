/** The short channel id list of reply_channel_range. */
module ChannelRange {
  import opened Wrappers
  import opened Bytes
  import opened Wire
  import opened Fields
  import opened Messages
  import Codec
  import opened Cursors

  const ENCODING_UNCOMPRESSED: byte := 0
  const SCID_SIZE: nat := 8

  function ScidBytes(scids: seq<nat>): Blob {
    if scids == [] then [] else ToBe(scids[0], SCID_SIZE) + ScidBytes(scids[1..])
  }

  function EncodedScids(scids: seq<nat>): Blob {
    [ENCODING_UNCOMPRESSED] + ScidBytes(scids)
  }

  function FromScids(chainHash: Blob, firstBlocknum: nat, numberOfBlocks: nat, syncComplete: bool, scids: seq<nat>): Message {
    ReplyChannelRange(chainHash, firstBlocknum, numberOfBlocks, if syncComplete then 1 else 0,
                      EncodedScids(scids), None, None)
  }

  function Numbers(chunks: seq<Blob>): seq<nat> {
    if chunks == [] then [] else [FromBe(chunks[0])] + Numbers(chunks[1..])
  }

  function ShortChannelIds(encoded: Blob): Result<seq<nat>, BoltError> {
    var (encoding, cursor) :- ReadUint(1, encoded);
    if encoding != ENCODING_UNCOMPRESSED then Err(UnknownEncoding(encoded[0]))
    else
      var chunks := Chunks(SCID_SIZE, cursor);
      if Remainder(SCID_SIZE, cursor) != [] then Err(Truncated((|chunks| + 1) * SCID_SIZE, |cursor|))
      else Ok(Numbers(chunks))
  }

  predicate AllU64(scids: seq<nat>) {
    forall i :: 0 <= i < |scids| ==> scids[i] < U64_LIMIT
  }

  lemma {:induction false} ScidBytesChunks(scids: seq<nat>)
    requires AllU64(scids)
    ensures Numbers(Chunks(SCID_SIZE, ScidBytes(scids))) == scids
    ensures Remainder(SCID_SIZE, ScidBytes(scids)) == [] && |ScidBytes(scids)| == SCID_SIZE * |scids|
  {
    if scids != [] {
      var first, rest := ToBe(scids[0], SCID_SIZE), ScidBytes(scids[1..]);
      ScidBytesChunks(scids[1..]);
      WidthLimits();
      FromBeToBe(scids[0], SCID_SIZE);
      assert (first + rest)[..SCID_SIZE] == first && (first + rest)[SCID_SIZE..] == rest;
      assert Chunks(SCID_SIZE, first + rest)[1..] == Chunks(SCID_SIZE, rest);
      assert scids == [scids[0]] + scids[1..];
    }
  }

  lemma {:induction false} ChunksScidBytes(data: Blob)
    requires Remainder(SCID_SIZE, data) == []
    ensures var scids := Numbers(Chunks(SCID_SIZE, data));
            AllU64(scids) && ScidBytes(scids) == data
    decreases |data|
  {
    if |data| >= SCID_SIZE {
      ChunksScidBytes(data[SCID_SIZE..]);
      WidthLimits();
      FromBeBound(data[..SCID_SIZE]);
      ToBeFromBe(data[..SCID_SIZE]);
      var chunks, rest := Chunks(SCID_SIZE, data), Chunks(SCID_SIZE, data[SCID_SIZE..]);
      assert chunks[1..] == rest;
      assert Numbers(chunks)[1..] == Numbers(rest);
      assert data == data[..SCID_SIZE] + data[SCID_SIZE..];
    }
  }

  lemma {:induction false} RemainderIsModulo(data: Blob)
    ensures |Remainder(SCID_SIZE, data)| == |data| % SCID_SIZE
    ensures |Chunks(SCID_SIZE, data)| == |data| / SCID_SIZE
    decreases |data|
  {
    if |data| >= SCID_SIZE {
      RemainderIsModulo(data[SCID_SIZE..]);
    }
  }

  lemma OneByte(data: Blob)
    requires data != []
    ensures ReadUint(1, data) == Ok((data[0], data[1..]))
  {
    assert data[..1] == [data[0]];
    assert [data[0]][..0] == [];
    assert FromBe([data[0]]) == FromBe([]) * 256 + data[0];
  }

  lemma ShortIdsOfEncoded(scids: seq<nat>)
    requires AllU64(scids)
    ensures ShortChannelIds(EncodedScids(scids)) == Ok(scids)
  {
    OneByte(EncodedScids(scids));
    assert EncodedScids(scids)[1..] == ScidBytes(scids);
    ScidBytesChunks(scids);
  }

  lemma {:induction false} NumbersLength(chunks: seq<Blob>)
    ensures |Numbers(chunks)| == |chunks|
  {
    if chunks != [] {
      NumbersLength(chunks[1..]);
    }
  }

  /** Whatever is read back has at most as many ids as the bytes have room for. */
  lemma ShortIdsCount(encoded: Blob)
    requires ShortChannelIds(encoded).Ok?
    ensures |encoded| == 1 + SCID_SIZE * |ShortChannelIds(encoded).value|
  {
    OneByte(encoded);
    RemainderIsModulo(encoded[1..]);
    NumbersLength(Chunks(SCID_SIZE, encoded[1..]));
  }

  /** The list a peer reads from the wire. */
  function Delivered(rules: Rules, wire: Blob): Result<seq<nat>, BoltError> {
    match Decode(rules, wire)
    case Ok(m) => if m.ReplyChannelRange? then ShortChannelIds(m.encodedShortIds) else Err(UnknownEvenType(MsgType(m)))
    case Err(e) => Err(e)
  }

  /** A list of ids survives the wire exactly when it has at most 8191 of them. */
  lemma ScidsThroughWireIff(rules: Rules, chainHash: Blob, firstBlocknum: nat, numberOfBlocks: nat, syncComplete: bool, scids: seq<nat>)
    requires AllU64(scids) && |chainHash| == CHAIN_HASH_SIZE
    requires firstBlocknum < 0x1_0000_0000 && numberOfBlocks < 0x1_0000_0000
    ensures Delivered(rules, Encode(FromScids(chainHash, firstBlocknum, numberOfBlocks, syncComplete, scids))) == Ok(scids)
            <==> |scids| <= 8191
  {
    var m := FromScids(chainHash, firstBlocknum, numberOfBlocks, syncComplete, scids);
    ScidBytesChunks(scids);
    assert |m.encodedShortIds| == 1 + 8 * |scids|;
    if |scids| <= 8191 {
      ShortListIsWellFormed(rules, m);
      Codec.MessageRoundTripIff(rules, m);
      ShortIdsOfEncoded(scids);
    } else {
      DeliveredIsShort(rules, Encode(m));
    }
  }

  lemma ShortListIsWellFormed(rules: Rules, m: Message)
    requires m.ReplyChannelRange? && m.timestamps == m.checksums == None
    requires |m.chainHash| == 32 && m.firstBlocknum < 0x1_0000_0000 && m.numberOfBlocks < 0x1_0000_0000
    requires m.syncComplete < 0x100 && |m.encodedShortIds| < U16_LIMIT
    ensures WellFormed(rules, m)
  {
    WidthLimits();
    var fs, vs := Layout(REPLY_CHANNEL_RANGE), Head(m);
    forall i | 0 <= i < |fs| ensures Fits(rules, fs[i], vs[i]) {
    }
  }

  lemma DeliveredIsShort(rules: Rules, wire: Blob)
    ensures Delivered(rules, wire).Ok? ==> |Delivered(rules, wire).value| <= 8191
  {
    if Decode(rules, wire).Ok? {
      Codec.DecodedIsWellFormed(rules, wire);
      var m := Decode(rules, wire).value;
      if m.ReplyChannelRange? && ShortChannelIds(m.encodedShortIds).Ok? {
        assert Fits(rules, Layout(MsgType(m))[4], Head(m)[4]);
        ShortIdsCount(m.encodedShortIds);
      }
    }
  }

  /** With encoding 0 the list reads back exactly when the rest is whole ids, and rebuilds the same bytes. */
  lemma ShortIdsIffWhole(encoded: Blob)
    requires encoded != [] && encoded[0] == ENCODING_UNCOMPRESSED
    ensures ShortChannelIds(encoded).Ok? <==> (|encoded| - 1) % SCID_SIZE == 0
    ensures ShortChannelIds(encoded).Ok? ==> EncodedScids(ShortChannelIds(encoded).value) == encoded
  {
    OneByte(encoded);
    RemainderIsModulo(encoded[1..]);
    if ShortChannelIds(encoded).Ok? {
      ChunksScidBytes(encoded[1..]);
      assert encoded == [encoded[0]] + encoded[1..];
    }
  }

  /** Any other encoding is refused by its number, no encoding at all for want of a byte, a broken id for want of the rest. */
  lemma ShortIdsRefused(encoded: Blob)
    ensures encoded == [] ==> ShortChannelIds(encoded) == Err(Truncated(1, 0))
    ensures encoded != [] && encoded[0] != 0 ==> ShortChannelIds(encoded) == Err(UnknownEncoding(encoded[0]))
    ensures encoded != [] && encoded[0] == 0 && (|encoded| - 1) % 8 != 0 ==>
              ShortChannelIds(encoded) == Err(Truncated(((|encoded| - 1) / 8 + 1) * 8, |encoded| - 1))
  {
    if encoded != [] {
      OneByte(encoded);
      RemainderIsModulo(encoded[1..]);
    }
  }

  /** Id i takes bytes 1 + 8i to 9 + 8i of the encoding, most significant byte first. */
  lemma {:induction false} EncodedIdAt(scids: seq<nat>, i: nat)
    requires i < |scids|
    ensures |EncodedScids(scids)| == 1 + 8 * |scids| && EncodedScids(scids)[0] == 0
    ensures EncodedScids(scids)[1 + 8 * i..9 + 8 * i] == ToBe(scids[i], 8)
  {
    ScidBytesAt(scids, i);
    assert EncodedScids(scids)[1 + 8 * i..9 + 8 * i] == ScidBytes(scids)[8 * i..8 + 8 * i];
  }

  lemma {:induction false} ScidBytesAt(scids: seq<nat>, i: nat)
    requires i < |scids|
    ensures |ScidBytes(scids)| == 8 * |scids| && ScidBytes(scids)[8 * i..8 + 8 * i] == ToBe(scids[i], 8)
  {
    var first, rest := ToBe(scids[0], 8), ScidBytes(scids[1..]);
    if |scids| > 1 {
      ScidBytesAt(scids[1..], if i > 0 then i - 1 else 0);
    }
    if i > 0 {
      assert (first + rest)[8 * i..8 + 8 * i] == rest[8 * (i - 1)..8 + 8 * (i - 1)];
    }
  }

  /** A reply with at most 8191 ids arrives with every field as it was given, and with no extension. */
  lemma ReplyArrives(rules: Rules, chainHash: Blob, firstBlocknum: nat, numberOfBlocks: nat, syncComplete: bool, scids: seq<nat>)
    requires |chainHash| == CHAIN_HASH_SIZE && |scids| <= 8191
    requires firstBlocknum < 0x1_0000_0000 && numberOfBlocks < 0x1_0000_0000
    ensures Decode(rules, Encode(FromScids(chainHash, firstBlocknum, numberOfBlocks, syncComplete, scids))) ==
            Ok(ReplyChannelRange(chainHash, firstBlocknum, numberOfBlocks, if syncComplete then 1 else 0,
                                 EncodedScids(scids), None, None))
  {
    var m := FromScids(chainHash, firstBlocknum, numberOfBlocks, syncComplete, scids);
    ScidBytesLength(scids);
    ShortListIsWellFormed(rules, m);
    Codec.MessageRoundTripIff(rules, m);
  }

  lemma {:induction false} ScidBytesLength(scids: seq<nat>)
    ensures |ScidBytes(scids)| == 8 * |scids|
  {
    if scids != [] {
      ScidBytesLength(scids[1..]);
    }
  }

  /** The source's loop: the encoding byte, then each id appended. */
  method BuildFromScids(chainHash: Blob, firstBlocknum: nat, numberOfBlocks: nat, syncComplete: bool, scids: seq<nat>)
    returns (m: Message)
    ensures m == FromScids(chainHash, firstBlocknum, numberOfBlocks, syncComplete, scids)
  {
    var encoded := new Buffer();
    encoded.Extend([ENCODING_UNCOMPRESSED]);
    var i := 0;
    while i < |scids|
      invariant i <= |scids| && fresh(encoded)
      invariant encoded.bytes + ScidBytes(scids[i..]) == EncodedScids(scids)
    {
      assert scids[i..][1..] == scids[i + 1..];
      encoded.WriteUint(scids[i], SCID_SIZE);
      i := i + 1;
    }
    m := ReplyChannelRange(chainHash, firstBlocknum, numberOfBlocks, if syncComplete then 1 else 0,
                           encoded.bytes, None, None);
  }
}
