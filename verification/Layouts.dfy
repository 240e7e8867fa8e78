/** The messages as their own encoders write them, field after field, and what their signatures cover. */
module Layouts {
  import opened Wrappers
  import opened Bytes
  import opened Wire
  import opened Fields
  import opened Messages
  import Tlv

  /** The pieces each encoder appends before any TLV extension, in the order it appends them. */
  function Pieces(m: Message): seq<Blob>
    requires !m.Unknown?
  {
    match m
    case Warning(c, d) => [c, VecBytes(d)]
    case Init(g, f, _, _) => [VecBytes(g), VecBytes(f)]
    case Error(c, d) => [c, VecBytes(d)]
    case Ping(n, i) => [ToBe(n, 2), VecBytes(i)]
    case Pong(i) => [VecBytes(i)]
    case OpenChannel(ch, id, fs, pm, dl, mh, cr, hm, fr, sd, ma, k1, k2, k3, k4, k5, k6, fl, _, _) =>
      [ch, id, ToBe(fs, 8), ToBe(pm, 8), ToBe(dl, 8), ToBe(mh, 8), ToBe(cr, 8), ToBe(hm, 8), ToBe(fr, 4),
       ToBe(sd, 2), ToBe(ma, 2), k1, k2, k3, k4, k5, k6, ToBe(fl, 1)]
    case FundingCreated(id, tx, out, s) => [id, tx, ToBe(out, 2), s]
    case ChannelAnnouncement(s1, s2, s3, s4, f, ch, id, n1, n2, b1, b2) =>
      [s1, s2, s3, s4, VecBytes(f), ch, ToBe(id, 8), n1, n2, b1, b2]
    case NodeAnnouncement(s, f, ts, id, rgb, al, ad) => [s, VecBytes(f), ToBe(ts, 4), id, rgb, al, VecBytes(ad)]
    case ChannelUpdate(s, ch, id, ts, mf, cf, cl, hm, fb, fp, hx) =>
      [s, ch, ToBe(id, 8), ToBe(ts, 4), ToBe(mf, 1), ToBe(cf, 1), ToBe(cl, 2), ToBe(hm, 8), ToBe(fb, 4),
       ToBe(fp, 4), ToBe(hx, 8)]
    case QueryChannelRange(ch, fb, nb, _) => [ch, ToBe(fb, 4), ToBe(nb, 4)]
    case ReplyChannelRange(ch, fb, nb, sc, ids, _, _) => [ch, ToBe(fb, 4), ToBe(nb, 4), ToBe(sc, 1), VecBytes(ids)]
  }

  /** Each value, written by its field. */
  predicate Written(fs: seq<Field>, vs: seq<Value>, pieces: seq<Blob>) {
    |fs| == |vs| == |pieces| && forall i :: 0 <= i < |fs| ==> WriteField(fs[i], vs[i]) == pieces[i]
  }

  lemma {:induction false} WrittenInOrder(fs: seq<Field>, vs: seq<Value>, pieces: seq<Blob>)
    requires Written(fs, vs, pieces)
    ensures WriteFields(fs, vs) == Concat(pieces)
  {
    if fs != [] {
      WrittenInOrder(fs[1..], vs[1..], pieces[1..]);
    }
  }

  /** The table-driven codec writes exactly what each message's own encoder writes. */
  lemma EncodesInOrder(m: Message)
    requires !m.Unknown?
    ensures EncodeBody(m) == Concat(Pieces(m)) + Tlv.Encode(Tail(m))
  {
    PiecesAreWritten(m);
    WrittenInOrder(Layout(MsgType(m)), Head(m), Pieces(m));
  }

  ghost predicate WritesPieces(m: Message)
    requires !m.Unknown?
  {
    Written(Layout(MsgType(m)), Head(m), Pieces(m))
  }

  lemma OpenChannelPieces(m: Message)
    requires m.OpenChannel?
    ensures WritesPieces(m)
  {
    var fs, vs, ps := Layout(MsgType(m)), Head(m), Pieces(m);
    assert |fs| == |vs| == |ps| == 18;
    forall i | 0 <= i < |fs| ensures WriteField(fs[i], vs[i]) == ps[i] {
    }
  }

  lemma ChannelAnnouncementPieces(m: Message)
    requires m.ChannelAnnouncement?
    ensures WritesPieces(m)
  {
  }

  lemma NodeAnnouncementPieces(m: Message)
    requires m.NodeAnnouncement?
    ensures WritesPieces(m)
  {
  }

  lemma ChannelUpdatePieces(m: Message)
    requires m.ChannelUpdate?
    ensures WritesPieces(m)
  {
  }

  lemma PiecesAreWritten(m: Message)
    requires !m.Unknown?
    ensures WritesPieces(m)
  {
    if m.OpenChannel? { OpenChannelPieces(m); }
    else if m.ChannelAnnouncement? { ChannelAnnouncementPieces(m); }
    else if m.NodeAnnouncement? { NodeAnnouncementPieces(m); }
    else if m.ChannelUpdate? { ChannelUpdatePieces(m); }
    else {
      var fs, vs, ps := Layout(MsgType(m)), Head(m), Pieces(m);
      forall i | 0 <= i < |fs| ensures WriteField(fs[i], vs[i]) == ps[i] {
      }
    }
  }

  // ----- What the gossip signatures cover -----

  /** The bytes hashed for signing: every field after the signatures, written again in order. */
  function SignedPieces(m: Message): seq<Blob>
    requires m.ChannelUpdate? || m.NodeAnnouncement? || m.ChannelAnnouncement?
  {
    match m
    case ChannelUpdate(_, ch, id, ts, mf, cf, cl, hm, fb, fp, hx) =>
      [ch, ToBe(id, 8), ToBe(ts, 4), ToBe(mf, 1), ToBe(cf, 1), ToBe(cl, 2), ToBe(hm, 8), ToBe(fb, 4), ToBe(fp, 4),
       ToBe(hx, 8)]
    case NodeAnnouncement(_, f, ts, id, rgb, al, ad) => [VecBytes(f), ToBe(ts, 4), id, rgb, al, VecBytes(ad)]
    case ChannelAnnouncement(_, _, _, _, f, ch, id, n1, n2, b1, b2) => [VecBytes(f), ch, ToBe(id, 8), n1, n2, b1, b2]
  }

  function SignedBytes(m: Message): Blob
    requires m.ChannelUpdate? || m.NodeAnnouncement? || m.ChannelAnnouncement?
  {
    Concat(SignedPieces(m))
  }

  /** Where the signed part of an encoded message starts. */
  function SignedFrom(m: Message): nat {
    if m.ChannelAnnouncement? then 256 else 64
  }

  lemma {:induction false} ConcatAppend(a: seq<Blob>, b: seq<Blob>)
    ensures Concat(a + b) == Concat(a) + Concat(b)
  {
    if a == [] {
      assert a + b == b;
    } else {
      assert (a + b)[1..] == a[1..] + b;
      ConcatAppend(a[1..], b);
      ConcatAssociates(a[0], Concat(a[1..]), Concat(b));
    }
  }

  lemma SuffixAfter(m: Message, signatures: seq<Blob>)
    requires m.ChannelUpdate? || m.NodeAnnouncement? || m.ChannelAnnouncement?
    requires Pieces(m) == signatures + SignedPieces(m) && AllOfSize(signatures, 64)
    ensures |EncodeBody(m)| >= 64 * |signatures| && EncodeBody(m)[64 * |signatures|..] == SignedBytes(m)
  {
    hide Pieces, SignedPieces, EncodeBody;
    assert Tlv.Encode(Tail(m)) == [];
    EncodesInOrder(m);
    ConcatAppend(signatures, SignedPieces(m));
    ConcatLength(signatures);
    assert EncodeBody(m) == Concat(signatures) + SignedBytes(m);
  }

  /** A signature covers the encoded message from byte 64 on, or 256 where there are four of them. */
  lemma SignatureCoversSuffix(rules: Rules, m: Message)
    requires m.ChannelUpdate? || m.NodeAnnouncement? || m.ChannelAnnouncement?
    requires Typed(rules, m)
    ensures |EncodeBody(m)| >= SignedFrom(m) && EncodeBody(m)[SignedFrom(m)..] == SignedBytes(m)
  {
    var signatures := if m.ChannelAnnouncement?
      then [m.nodeSignature1, m.nodeSignature2, m.bitcoinSignature1, m.bitcoinSignature2] else [m.signature];
    assert SignaturesOf(m, signatures);
    SignaturesFirst(m, signatures);
    SignaturesHaveSize(rules, m, signatures);
    hide *;
    SuffixAfter(m, signatures);
  }

  /** The signatures of m, in the order they are written. */
  predicate SignaturesOf(m: Message, signatures: seq<Blob>) {
    (m.ChannelAnnouncement? &&
       signatures == [m.nodeSignature1, m.nodeSignature2, m.bitcoinSignature1, m.bitcoinSignature2])
    || ((m.ChannelUpdate? || m.NodeAnnouncement?) && signatures == [m.signature])
  }

  lemma SignaturesFirst(m: Message, signatures: seq<Blob>)
    requires SignaturesOf(m, signatures)
    ensures Pieces(m) == signatures + SignedPieces(m) && SignedFrom(m) == 64 * |signatures|
  {
  }

  lemma SignaturesHaveSize(rules: Rules, m: Message, signatures: seq<Blob>)
    requires Typed(rules, m)
    requires SignaturesOf(m, signatures)
    ensures AllOfSize(signatures, 64)
  {
    forall i | 0 <= i < |signatures| ensures |signatures[i]| == 64 {
      assert HasType(rules, Layout(MsgType(m))[i], Head(m)[i]);
    }
  }

  lemma {:induction false} ConcatLength(chunks: seq<Blob>)
    requires AllOfSize(chunks, 64)
    ensures |Concat(chunks)| == 64 * |chunks|
  {
    if chunks != [] {
      ConcatLength(chunks[1..]);
    }
  }
}
