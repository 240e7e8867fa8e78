/** From an accepted handshake to decoded messages: the three layers chained. */
module EndToEnd {
  import opened Wrappers
  import opened Bytes
  import opened Crypto
  import Lanes
  import Handshake
  import Agreement
  import Framing
  import opened Duplex
  import opened Fields
  import opened Messages
  import Codec

  datatype AppStep =
    | SendMessage(peer: Peer, message: Message)
    | DeliverOctets(peer: Peer, octets: nat)
    | ReceiveMessage(peer: Peer)

  function Lowered(step: AppStep): Step {
    match step
    case SendMessage(p, m) => Send(p, Encode(m))
    case DeliverOctets(p, n) => Deliver(p, n)
    case ReceiveMessage(p) => Recv(p)
  }

  function LoweredAll(steps: seq<AppStep>): seq<Step> {
    if steps == [] then [] else [Lowered(steps[0])] + LoweredAll(steps[1..])
  }

  /** The message a step makes a peer send, unless it is refused for its size. */
  function SentBy(step: AppStep, p: Peer): seq<Message> {
    match step
    case SendMessage(q, m) => if q == p && |Encode(m)| <= Lanes.MAX_MESSAGE_SIZE then [m] else []
    case _ => []
  }

  function Sent(steps: seq<AppStep>, p: Peer): seq<Message> {
    if steps == [] then [] else SentBy(steps[0], p) + Sent(steps[1..], p)
  }

  function Encodings(ms: seq<Message>): seq<Blob> {
    if ms == [] then [] else [Encode(ms[0])] + Encodings(ms[1..])
  }

  lemma {:induction false} EncodingAt(ms: seq<Message>, i: nat)
    requires i < |ms|
    ensures |Encodings(ms)| == |ms| && Encodings(ms)[i] == Encode(ms[i])
  {
    if |ms| > 1 {
      EncodingAt(ms[1..], if i > 0 then i - 1 else 0);
    }
  }

  lemma {:induction false} EncodingsConcat(a: seq<Message>, b: seq<Message>)
    ensures Encodings(a + b) == Encodings(a) + Encodings(b)
  {
    if a == [] {
      assert a + b == b;
    } else {
      assert (a + b)[1..] == a[1..] + b;
      EncodingsConcat(a[1..], b);
    }
  }

  lemma StepSends(s: System, step: AppStep, p: Peer)
    ensures Next(s, Lowered(step)).At(p).sent == s.At(p).sent + Encodings(SentBy(step, p))
  {
    if SentBy(step, p) != [] {
      assert SentBy(step, p)[1..] == [];
    }
  }

  lemma {:induction false} SentIsEncoded(s: System, steps: seq<AppStep>, p: Peer)
    ensures Run(s, LoweredAll(steps)).At(p).sent == s.At(p).sent + Encodings(Sent(steps, p))
    decreases |steps|
  {
    if steps != [] {
      var next, rest := Next(s, Lowered(steps[0])), steps[1..];
      StepSends(s, steps[0], p);
      RunOfCons(s, steps);
      SentIsEncoded(next, rest, p);
      EncodingsConcat(SentBy(steps[0], p), Sent(rest, p));
      Regrouped(s.At(p).sent, Encodings(SentBy(steps[0], p)), Encodings(Sent(rest, p)));
    }
  }

  lemma Regrouped(a: seq<Blob>, b: seq<Blob>, c: seq<Blob>)
    ensures (a + b) + c == a + (b + c)
  {
  }

  lemma RunOfCons(s: System, steps: seq<AppStep>)
    requires steps != []
    ensures Run(s, LoweredAll(steps)) == Run(Next(s, Lowered(steps[0])), LoweredAll(steps[1..]))
  {
    assert LoweredAll(steps)[1..] == LoweredAll(steps[1..]);
  }

  /** The two ends of a connection whose ciphers came out of two finished handshakes. */
  function Connected(i: Handshake.Party, r: Handshake.Party): System
    requires Handshake.IntoLanes(i).Ok? && Handshake.IntoLanes(r).Ok?
  {
    var (sendI, recvI) := Handshake.IntoLanes(i).value;
    var (sendR, recvR) := Handshake.IntoLanes(r).value;
    System(Endpoint(sendI, recvI, [], [], false), Endpoint(sendR, recvR, [], [], false), Channel([], []), Channel([], []))
  }

  /** What was received decodes, in order, to the first of what was sent. */
  ghost predicate DecodesToPrefix(rules: Rules, got: seq<Blob>, sent: seq<Message>) {
    |got| <= |sent| && forall i :: 0 <= i < |got| ==> Decode(rules, got[i]) == Ok(sent[i])
  }

  lemma PrefixDecodes(rules: Rules, got: seq<Blob>, sent: seq<Message>)
    requires got <= Encodings(sent)
    requires forall i :: 0 <= i < |sent| ==> WellFormed(rules, sent[i])
    ensures DecodesToPrefix(rules, got, sent)
  {
    if sent != [] {
      EncodingAt(sent, 0);
    }
    forall i | 0 <= i < |got| ensures Decode(rules, got[i]) == Ok(sent[i]) {
      EncodingAt(sent, i);
      Codec.MessageRoundTripIff(rules, sent[i]);
    }
  }

  ghost predicate AllWellFormed(rules: Rules, ms: seq<Message>) {
    forall i :: 0 <= i < |ms| ==> WellFormed(rules, ms[i])
  }

  /** Over crossed lanes, any interleaving delivers decoded messages in order in both directions. */
  lemma CrossedDelivers(rules: Rules, i: Handshake.Party, r: Handshake.Party, steps: seq<AppStep>)
    requires Handshake.Crossed(i, r)
    requires AllWellFormed(rules, Sent(steps, A)) && AllWellFormed(rules, Sent(steps, B))
    ensures var s := Run(Connected(i, r), LoweredAll(steps));
            && DecodesToPrefix(rules, s.b.got, Sent(steps, A))
            && DecodesToPrefix(rules, s.a.got, Sent(steps, B))
            && !s.a.failed && !s.b.failed
  {
    var a, b := Handshake.IntoLanes(i).value.0, Handshake.IntoLanes(i).value.1;
    var start := Connected(i, r);
    assert start == Start(a, b);
    DuplexFifo(a, b, LoweredAll(steps));
    var s := Run(start, LoweredAll(steps));
    SentIsEncoded(start, steps, A);
    SentIsEncoded(start, steps, B);
    assert s.a.sent == Encodings(Sent(steps, A)) && s.b.sent == Encodings(Sent(steps, B));
    PrefixDecodes(rules, s.b.got, Sent(steps, A));
    PrefixDecodes(rules, s.a.got, Sent(steps, B));
  }

  /** What was received decodes, in order, to everything that was sent. */
  ghost predicate DecodesToAll(rules: Rules, got: seq<Blob>, sent: seq<Message>) {
    |got| == |sent| && DecodesToPrefix(rules, got, sent)
  }

  /** The network hands over all it holds for p, and p receives until it has everything sent to it. */
  function Drained(s: System, p: Peer): System
    requires |s.At(p).got| <= |s.At(Other(p)).sent|
  {
    Run(Next(s, Deliver(p, |s.To(p).network|)), Receives(p, |s.At(Other(p)).sent| - |s.At(p).got|))
  }

  /** Over crossed lanes, from every reachable state, draining a direction delivers every message sent on it. */
  lemma CrossedDeliversAll(rules: Rules, i: Handshake.Party, r: Handshake.Party, steps: seq<AppStep>, p: Peer)
    requires Handshake.Crossed(i, r)
    requires AllWellFormed(rules, Sent(steps, Other(p)))
    ensures var s := Run(Connected(i, r), LoweredAll(steps));
            && |s.At(p).got| <= |s.At(Other(p)).sent|
            && DecodesToAll(rules, Drained(s, p).At(p).got, Sent(steps, Other(p)))
  {
    hide Run, Next, Receives, Encodings, Sent, Decode, Encode, Handshake.IntoLanes;
    var a, b := Handshake.IntoLanes(i).value.0, Handshake.IntoLanes(i).value.1;
    ConnectedIsStart(i, r, a, b);
    EverythingSentIsReceivable(a, b, LoweredAll(steps), p);
    SentIsEncoded(Start(a, b), steps, Other(p));
    var sent := Sent(steps, Other(p));
    assert [] + Encodings(sent) == Encodings(sent);
    PrefixDecodes(rules, Encodings(sent), sent);
    EncodingsLength(sent);
  }

  lemma ConnectedIsStart(i: Handshake.Party, r: Handshake.Party, a: Lanes.Lane, b: Lanes.Lane)
    requires Handshake.Crossed(i, r) && Handshake.IntoLanes(i).value == (a, b)
    ensures Connected(i, r) == Start(a, b)
  {
  }

  lemma {:induction false} EncodingsLength(ms: seq<Message>)
    ensures |Encodings(ms)| == |ms|
  {
    if ms != [] {
      EncodingAt(ms, 0);
    }
  }

  /**
   * The whole stack: whatever a responder and an initiator were fed, once the responder accepts an Act
   * Three that carries what the initiator emitted, every interleaving of sends, deliveries and receives
   * between their ciphers gives each side, in order, exactly messages the other sent.
   */
  lemma AcceptedHandshakeDelivers(
      lsI: Scalar, leI: Scalar, rsI: PublicKey, callsI: seq<Handshake.Call>, actTwo: seq<Octet>,
      lsR: Scalar, leR: Scalar, callsR: seq<Handshake.Call>, actThree: seq<Octet>,
      rules: Rules, steps: seq<AppStep>)
    requires Handshake.AllTyped(callsI) && Handshake.AllTyped(callsR)
    requires Agreement.Accepted(Handshake.Run(Handshake.NewInitiator(lsI, leI, rsI), callsI), actTwo,
                                Handshake.Run(Handshake.NewResponder(lsR, leR), callsR), actThree)
    requires AllWellFormed(rules, Sent(steps, A)) && AllWellFormed(rules, Sent(steps, B))
    ensures var i := Handshake.ProcessActTwo(Handshake.Run(Handshake.NewInitiator(lsI, leI, rsI), callsI), actTwo).0;
            var r := Handshake.ProcessActThree(Handshake.Run(Handshake.NewResponder(lsR, leR), callsR), actThree).0;
            && Handshake.IntoLanes(i).Ok? && Handshake.IntoLanes(r).Ok?
            && var s := Run(Connected(i, r), LoweredAll(steps));
            && DecodesToPrefix(rules, s.b.got, Sent(steps, A))
            && DecodesToPrefix(rules, s.a.got, Sent(steps, B))
            && !s.a.failed && !s.b.failed
  {
    Agreement.BackwardAgreement(lsI, leI, rsI, callsI, actTwo, lsR, leR, callsR, actThree);
    var x := Handshake.HonestRun(lsI, leI, lsR, leR);
    CrossedDelivers(rules, x.i2, x.r2, steps);
  }

  /**
   * And nothing is lost: for any accepted handshake and from every state its two ciphers can reach, draining a
   * direction leaves its receiver with the decoded messages, in order and complete, that the other side sent.
   */
  lemma AcceptedHandshakeDeliversAll(
      lsI: Scalar, leI: Scalar, rsI: PublicKey, callsI: seq<Handshake.Call>, actTwo: seq<Octet>,
      lsR: Scalar, leR: Scalar, callsR: seq<Handshake.Call>, actThree: seq<Octet>,
      rules: Rules, steps: seq<AppStep>, p: Peer)
    requires Handshake.AllTyped(callsI) && Handshake.AllTyped(callsR)
    requires Agreement.Accepted(Handshake.Run(Handshake.NewInitiator(lsI, leI, rsI), callsI), actTwo,
                                Handshake.Run(Handshake.NewResponder(lsR, leR), callsR), actThree)
    requires AllWellFormed(rules, Sent(steps, Other(p)))
    ensures var i := Handshake.ProcessActTwo(Handshake.Run(Handshake.NewInitiator(lsI, leI, rsI), callsI), actTwo).0;
            var r := Handshake.ProcessActThree(Handshake.Run(Handshake.NewResponder(lsR, leR), callsR), actThree).0;
            && Handshake.IntoLanes(i).Ok? && Handshake.IntoLanes(r).Ok?
            && var s := Run(Connected(i, r), LoweredAll(steps));
            && |s.At(p).got| <= |s.At(Other(p)).sent|
            && DecodesToAll(rules, Drained(s, p).At(p).got, Sent(steps, Other(p)))
  {
    Agreement.BackwardAgreement(lsI, leI, rsI, callsI, actTwo, lsR, leR, callsR, actThree);
    var x := Handshake.HonestRun(lsI, leI, lsR, leR);
    CrossedDeliversAll(rules, x.i2, x.r2, steps, p);
  }
}
