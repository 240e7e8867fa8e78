/** Framing of messages over a byte stream, and full-duplex delivery. */
module Framing {
  import opened Wrappers
  import opened Bytes
  import opened Crypto
  import opened Lanes

  /** Outcome of one receive: the lane afterwards, the octets left in the stream, the message or error. */
  datatype Reception = Reception(lane: Lane, rest: seq<Octet>, result: Result<seq<byte>, NoiseError>)

  /** Reads an 18-octet header, then a body of the length it announces. A short stream is an I/O error. */
  function Receive(l: Lane, stream: seq<Octet>): (r: Reception)
    ensures r.result.Ok? ==> |r.rest| < |stream|
  {
    if |stream| < ENCRYPTED_LENGTH_SIZE then Reception(l, [], Err(Io))
    else
      var header := DecryptLength(l, stream[..ENCRYPTED_LENGTH_SIZE]);
      var afterHeader := stream[ENCRYPTED_LENGTH_SIZE..];
      if header.1.Err? then Reception(header.0, afterHeader, Err(header.1.error))
      else
        var size := header.1.value + MAC_SIZE;
        if |afterHeader| < size then Reception(header.0, [], Err(Io))
        else
          var body := OpenNext(header.0, afterHeader[..size]);
          Reception(body.0, afterHeader[size..], body.1)
  }

  /** The lane after sending, or receiving, whole messages: two operations each. */
  function AfterMessages(l: Lane, n: nat): Lane
    decreases n
  {
    if n == 0 then l else AfterMessages(Advance(Advance(l)), n - 1)
  }

  /** The octets that carry the messages. */
  function Stream(l: Lane, messages: seq<seq<byte>>): seq<Octet>
    decreases |messages|
  {
    if messages == [] then []
    else Encrypt(l, messages[0]) + Stream(AfterMessages(l, 1), messages[1..])
  }

  lemma Associative(a: seq<Octet>, b: seq<Octet>, c: seq<Octet>)
    ensures (a + b) + c == a + (b + c)
  {
  }

  lemma AfterOne(l: Lane)
    ensures AfterMessages(l, 1) == Advance(Advance(l))
  {
    assert AfterMessages(l, 1) == AfterMessages(Advance(Advance(l)), 0);
  }

  lemma StreamOfCons(l: Lane, m: seq<byte>, ms: seq<seq<byte>>)
    ensures Stream(l, [m] + ms) == Encrypt(l, m) + Stream(AfterMessages(l, 1), ms)
  {
    var all := [m] + ms;
    assert all[0] == m && all[1..] == ms;
  }

  predicate Sendable(messages: seq<seq<byte>>) {
    forall i :: 0 <= i < |messages| ==> |messages[i]| <= MAX_MESSAGE_SIZE
  }

  /** Any stream that starts with a whole packet is accepted, and exactly that packet is consumed. */
  lemma ReceiveWholePacket(l: Lane, message: seq<byte>, tail: seq<Octet>)
    requires |message| <= MAX_MESSAGE_SIZE
    ensures Receive(l, Encrypt(l, message) + tail) == Reception(AfterMessages(l, 1), tail, Ok(message))
  {
    AfterOne(l);
    var stream := Encrypt(l, message) + tail;
    var header := EncryptLength(l, |message|);
    var body := SealNext(Advance(l), message);
    assert stream[..ENCRYPTED_LENGTH_SIZE] == header;
    assert stream[ENCRYPTED_LENGTH_SIZE..] == body + tail;
    assert (body + tail)[..|message| + MAC_SIZE] == body;
    assert (body + tail)[|message| + MAC_SIZE..] == tail;
    OpenIffSealed(Ready(l).key, Ready(l).nonce, Nothing, header, ToBe(|message|, 2));
    assert Pow256(2) == 65536;
    FromBeToBe(|message|, 2);
    OpenIffSealed(Ready(Advance(l)).key, Ready(Advance(l)).nonce, Nothing, body, message);
  }

  /** A strict prefix of a packet is not enough: the receive waits, and nothing is misread. */
  lemma ReceivePartialPacket(l: Lane, message: seq<byte>, n: nat)
    requires |message| <= MAX_MESSAGE_SIZE && n < |Encrypt(l, message)|
    ensures Receive(l, Encrypt(l, message)[..n]).result == Err(Io)
  {
    var header := EncryptLength(l, |message|);
    if n >= ENCRYPTED_LENGTH_SIZE {
      assert Encrypt(l, message)[..n][..ENCRYPTED_LENGTH_SIZE] == header;
      OpenIffSealed(Ready(l).key, Ready(l).nonce, Nothing, header, ToBe(|message|, 2));
      assert Pow256(2) == 65536;
      FromBeToBe(|message|, 2);
    }
  }

  // ----- Only packets are accepted -----

  /** A header is taken for length n exactly when it is the header of a message of n bytes. */
  lemma HeaderIff(l: Lane, header: seq<Octet>, n: nat)
    requires |header| == ENCRYPTED_LENGTH_SIZE
    ensures DecryptLength(l, header).1 == Ok(n) <==> n <= MAX_MESSAGE_SIZE && header == EncryptLength(l, n)
    ensures DecryptLength(l, header).0 == if DecryptLength(l, header).1.Ok? then Advance(l) else Ready(l)
    ensures DecryptLength(l, header).1.Err? ==> DecryptLength(l, header).1.error == DecryptionFailed
  {
    var r := Ready(l);
    assert Pow256(2) == 65536;
    if DecryptLength(l, header).1 == Ok(n) {
      DecryptedLengthFits(l, header);
      var bytes := Open(r.key, r.nonce, Nothing, header).value;
      OpenIffSealed(r.key, r.nonce, Nothing, header, bytes);
      ToBeFromBe(bytes);
    }
    if n <= MAX_MESSAGE_SIZE && header == EncryptLength(l, n) {
      OpenIffSealed(r.key, r.nonce, Nothing, header, ToBe(n, 2));
      FromBeToBe(n, 2);
    }
  }

  /** A receive returns a message exactly when the stream starts with that message's packet. */
  lemma ReceivedIffPacket(l: Lane, stream: seq<Octet>, message: seq<byte>, rest: seq<Octet>)
    ensures Receive(l, stream).result == Ok(message) && Receive(l, stream).rest == rest <==>
            |message| <= MAX_MESSAGE_SIZE && stream == Encrypt(l, message) + rest
  {
    if Receive(l, stream).result == Ok(message) && Receive(l, stream).rest == rest {
      var header, n := stream[..ENCRYPTED_LENGTH_SIZE], |message|;
      HeaderIff(l, header, DecryptLength(l, header).1.value);
      var afterHeader := stream[ENCRYPTED_LENGTH_SIZE..];
      var body := afterHeader[..DecryptLength(l, header).1.value + MAC_SIZE];
      var r := Ready(Advance(l));
      OpenIffSealed(r.key, r.nonce, Nothing, body, message);
      assert afterHeader == body + rest;
      assert stream == header + afterHeader;
      Associative(header, body, rest);
    }
    if |message| <= MAX_MESSAGE_SIZE && stream == Encrypt(l, message) + rest {
      ReceiveWholePacket(l, message, rest);
    }
  }

  /** A stream that ends inside the header is an end-of-stream error, and nothing was decrypted. */
  lemma ReceiveShortHeader(l: Lane, stream: seq<Octet>)
    requires |stream| < ENCRYPTED_LENGTH_SIZE
    ensures Receive(l, stream) == Reception(l, [], Err(Io))
  {
  }

  /** A header that no length was sealed into fails to decrypt; the 18 octets are consumed and the nonce kept. */
  lemma ReceiveBadHeader(l: Lane, stream: seq<Octet>)
    requires |stream| >= ENCRYPTED_LENGTH_SIZE
    requires forall n: nat :: n <= MAX_MESSAGE_SIZE ==> stream[..ENCRYPTED_LENGTH_SIZE] != EncryptLength(l, n)
    ensures Receive(l, stream) == Reception(Ready(l), stream[ENCRYPTED_LENGTH_SIZE..], Err(DecryptionFailed))
  {
    var header := stream[..ENCRYPTED_LENGTH_SIZE];
    var r := DecryptLength(l, header).1;
    HeaderIff(l, header, if r.Ok? then r.value else 0);
  }

  /** After a genuine header for n bytes, a stream too short for the body is an end-of-stream error. */
  lemma ReceiveShortBody(l: Lane, n: nat, rest: seq<Octet>)
    requires n <= MAX_MESSAGE_SIZE && |rest| < n + MAC_SIZE
    ensures Receive(l, EncryptLength(l, n) + rest) == Reception(Advance(l), [], Err(Io))
  {
    var header := EncryptLength(l, n);
    assert (header + rest)[..ENCRYPTED_LENGTH_SIZE] == header && (header + rest)[ENCRYPTED_LENGTH_SIZE..] == rest;
    HeaderIff(l, header, n);
  }

  /** After a genuine header, a body that no message of that length was sealed into fails to decrypt and is consumed. */
  lemma ReceiveBadBody(l: Lane, n: nat, body: seq<Octet>, rest: seq<Octet>)
    requires n <= MAX_MESSAGE_SIZE && |body| == n + MAC_SIZE
    requires forall m: seq<byte> :: |m| == n ==> body != SealNext(Advance(l), m)
    ensures Receive(l, EncryptLength(l, n) + body + rest) == Reception(Ready(Advance(l)), rest, Err(DecryptionFailed))
  {
    var header, stream := EncryptLength(l, n), EncryptLength(l, n) + body + rest;
    assert stream[..ENCRYPTED_LENGTH_SIZE] == header && stream[ENCRYPTED_LENGTH_SIZE..] == body + rest;
    assert (body + rest)[..n + MAC_SIZE] == body && (body + rest)[n + MAC_SIZE..] == rest;
    HeaderIff(l, header, n);
    var r := Ready(Advance(l));
    var p := Open(r.key, r.nonce, Nothing, body);
    if p.Ok? {
      OpenIffSealed(r.key, r.nonce, Nothing, body, p.value);
    }
  }

  lemma {:induction false} AfterMessagesAdds(l: Lane, m: nat, n: nat)
    ensures AfterMessages(AfterMessages(l, m), n) == AfterMessages(l, m + n)
    decreases m
  {
    if m > 0 {
      AfterMessagesAdds(Advance(Advance(l)), m - 1, n);
    }
  }

  lemma {:induction false} StreamConcat(l: Lane, a: seq<seq<byte>>, b: seq<seq<byte>>)
    ensures Stream(l, a + b) == Stream(l, a) + Stream(AfterMessages(l, |a|), b)
    decreases |a|
  {
    if a == [] {
      assert a + b == b;
    } else {
      var next, rest := AfterMessages(l, 1), a[1..];
      assert a + b == [a[0]] + (rest + b) && a == [a[0]] + rest;
      StreamOfCons(l, a[0], rest + b);
      StreamOfCons(l, a[0], rest);
      StreamConcat(next, rest, b);
      AfterMessagesAdds(l, 1, |rest|);
      Associative(Encrypt(l, a[0]), Stream(next, rest), Stream(AfterMessages(l, |a|), b));
    }
  }

  lemma StreamAppend(l: Lane, messages: seq<seq<byte>>, m: seq<byte>)
    ensures Stream(l, messages + [m]) == Stream(l, messages) + Encrypt(AfterMessages(l, |messages|), m)
    ensures AfterMessages(l, |messages| + 1) == AfterMessages(AfterMessages(l, |messages|), 1)
  {
    hide Encrypt, AfterMessages;
    var at := AfterMessages(l, |messages|);
    StreamConcat(l, messages, [m]);
    assert [m] == [m] + [];
    StreamOfCons(at, m, []);
    assert Stream(at, [m]) == Encrypt(at, m) + [] == Encrypt(at, m);
    AfterMessagesAdds(l, |messages|, 1);
  }

  /** Whole messages advance a lane by two operations each. */
  lemma {:induction false} AfterMessagesIsAfter(l: Lane, n: nat)
    ensures AfterMessages(l, n) == After(l, 2 * n)
    decreases n
  {
    if n > 0 {
      AfterMessagesIsAfter(Advance(Advance(l)), n - 1);
      assert After(l, 1) == Advance(After(l, 0));
      assert After(l, 2) == Advance(After(l, 1));
      AfterComposes(l, 2, 2 * (n - 1));
    }
  }
}

/** Two endpoints, two directions, every interleaving of sends, deliveries and receives. */
module Duplex {
  import opened Wrappers
  import opened Bytes
  import opened Crypto
  import opened Lanes
  import opened Framing

  /** One direction between two endpoints: octets still in the network, and octets that have arrived. */
  datatype Channel = Channel(network: seq<Octet>, arrived: seq<Octet>)

  datatype Endpoint = Endpoint(send: Lane, recv: Lane, sent: seq<seq<byte>>, got: seq<seq<byte>>, failed: bool)

  datatype Peer = A | B

  datatype System = System(a: Endpoint, b: Endpoint, toB: Channel, toA: Channel) {
    function At(p: Peer): Endpoint {
      if p.A? then a else b
    }
    function To(p: Peer): Channel {
      if p.A? then toA else toB
    }
    function With(p: Peer, e: Endpoint, dest: Peer, c: Channel): System {
      var s := if p.A? then this.(a := e) else this.(b := e);
      if dest.A? then s.(toA := c) else s.(toB := c)
    }
  }

  function Other(p: Peer): Peer {
    if p.A? then B else A
  }

  datatype Step =
    | Send(peer: Peer, message: seq<byte>)   // encrypt and write a message, or refuse one that is too large
    | Deliver(peer: Peer, octets: nat)       // the network hands over some octets, cutting wherever it likes
    | Recv(peer: Peer)                       // a receive that waits until a whole packet has arrived

  function Next(s: System, step: Step): System {
    match step
    case Send(p, m) =>
      var e, c := s.At(p), s.To(Other(p));
      if |m| > MAX_MESSAGE_SIZE then s
      else s.With(p, e.(send := AfterMessages(e.send, 1), sent := e.sent + [m]),
                  Other(p), c.(network := c.network + Encrypt(e.send, m)))
    case Deliver(p, n) =>
      var c := s.To(p);
      if n > |c.network| then s
      else s.With(p, s.At(p), p, Channel(c.network[n..], c.arrived + c.network[..n]))
    case Recv(p) =>
      var e, c := s.At(p), s.To(p);
      var r := Receive(e.recv, c.arrived);
      if r.result == Err(Io) then s
      else if r.result.Err? then s.With(p, e.(recv := r.lane, failed := true), p, c.(arrived := r.rest))
      else s.With(p, e.(recv := r.lane, got := e.got + [r.result.value]), p, c.(arrived := r.rest))
  }

  function Run(s: System, steps: seq<Step>): System
    decreases |steps|
  {
    if steps == [] then s else Run(Next(s, steps[0]), steps[1..])
  }

  /** Fresh endpoints: each sends on the lane the other receives on. */
  function Start(a: Lane, b: Lane): System {
    var quiet := Channel([], []);
    System(Endpoint(a, b, [], [], false), Endpoint(b, a, [], [], false), quiet, quiet)
  }

  /** What one direction keeps: the octets on their way are exactly the messages not yet received. */
  ghost predicate FlowInv(root: Lane, from: Endpoint, c: Channel, to: Endpoint) {
    && !to.failed
    && Sendable(from.sent)
    && to.got <= from.sent
    && from.send == AfterMessages(root, |from.sent|)
    && to.recv == AfterMessages(root, |to.got|)
    && c.arrived + c.network == Stream(to.recv, from.sent[|to.got|..])
  }

  ghost predicate Inv(a: Lane, b: Lane, s: System) {
    FlowInv(a, s.a, s.toB, s.b) && FlowInv(b, s.b, s.toA, s.a)
  }

  lemma SendKeepsFlow(root: Lane, from: Endpoint, c: Channel, to: Endpoint, m: seq<byte>)
    requires FlowInv(root, from, c, to) && |m| <= MAX_MESSAGE_SIZE
    ensures FlowInv(root, from.(send := AfterMessages(from.send, 1), sent := from.sent + [m]),
                    c.(network := c.network + Encrypt(from.send, m)), to)
  {
    var sent, pending, packet := from.sent + [m], from.sent[|to.got|..], Encrypt(from.send, m);
    assert AfterMessages(root, |sent|) == AfterMessages(from.send, 1) by {
      StreamAppend(root, from.sent, m);
    }
    assert Stream(to.recv, sent[|to.got|..]) == Stream(to.recv, pending) + packet by {
      assert sent[|to.got|..] == pending + [m];
      StreamAppend(to.recv, pending, m);
      AfterMessagesAdds(root, |to.got|, |pending|);
    }
    Associative(c.arrived, c.network, packet);
    assert to.got <= sent;
    assert Sendable(sent);
  }

  /** A receive that does not wait takes exactly the oldest message not yet received. */
  lemma ReceiveTakesNext(root: Lane, from: Endpoint, c: Channel, to: Endpoint)
    requires FlowInv(root, from, c, to)
    ensures var r := Receive(to.recv, c.arrived);
            r.result == Err(Io) ||
            (|to.got| < |from.sent| && r.result == Ok(from.sent[|to.got|]) &&
             FlowInv(root, from, c.(arrived := r.rest), to.(recv := r.lane, got := to.got + [r.result.value])))
  {
    var pending := from.sent[|to.got|..];
    if pending == [] {
      assert |c.arrived| == 0;
    } else {
      var m := pending[0];
      var packet := Encrypt(to.recv, m);
      var rest := Stream(AfterMessages(to.recv, 1), pending[1..]);
      assert c.arrived + c.network == packet + rest;
      if |c.arrived| < |packet| {
        assert c.arrived == (c.arrived + c.network)[..|c.arrived|] == packet[..|c.arrived|];
        ReceivePartialPacket(to.recv, m, |c.arrived|);
      } else {
        var tail := c.arrived[|packet|..];
        assert c.arrived == packet + tail by {
          assert c.arrived == (packet + rest)[..|c.arrived|];
        }
        ReceiveWholePacket(to.recv, m, tail);
        assert tail + c.network == rest by {
          assert packet + (tail + c.network) == packet + rest;
          assert (packet + rest)[|packet|..] == rest;
          assert (packet + (tail + c.network))[|packet|..] == tail + c.network;
        }
        assert from.sent[|to.got| + 1..] == pending[1..];
        assert to.got + [m] <= from.sent;
        StreamAppend(root, to.got, m);
      }
    }
  }

  lemma DeliverKeepsFlow(root: Lane, from: Endpoint, c: Channel, to: Endpoint, n: nat)
    requires FlowInv(root, from, c, to) && n <= |c.network|
    ensures FlowInv(root, from, Channel(c.network[n..], c.arrived + c.network[..n]), to)
  {
    assert c.arrived + c.network[..n] + c.network[n..] == c.arrived + c.network;
  }

  lemma NextKeepsInv(a: Lane, b: Lane, s: System, step: Step)
    requires Inv(a, b, s)
    ensures Inv(a, b, Next(s, step))
  {
    match step
    case Send(p, m) =>
      if |m| <= MAX_MESSAGE_SIZE {
        if p.A? { SendKeepsFlow(a, s.a, s.toB, s.b, m); } else { SendKeepsFlow(b, s.b, s.toA, s.a, m); }
      }
    case Deliver(p, n) =>
      if n <= |s.To(p).network| {
        if p.B? { DeliverKeepsFlow(a, s.a, s.toB, s.b, n); } else { DeliverKeepsFlow(b, s.b, s.toA, s.a, n); }
      }
    case Recv(p) =>
      if p.B? { ReceiveTakesNext(a, s.a, s.toB, s.b); } else { ReceiveTakesNext(b, s.b, s.toA, s.a); }
  }

  lemma {:induction false} RunKeepsInv(a: Lane, b: Lane, s: System, steps: seq<Step>)
    requires Inv(a, b, s)
    ensures Inv(a, b, Run(s, steps))
    decreases |steps|
  {
    if steps != [] {
      NextKeepsInv(a, b, s, steps[0]);
      RunKeepsInv(a, b, Next(s, steps[0]), steps[1..]);
    }
  }

  /**
   * Full-duplex FIFO: over every interleaving, each side has received a prefix of what the other
   * sent, no receive has failed, and the two ends of a direction hold the same lane once it is drained.
   */
  lemma DuplexFifo(a: Lane, b: Lane, steps: seq<Step>)
    ensures var s := Run(Start(a, b), steps);
            && s.b.got <= s.a.sent && s.a.got <= s.b.sent
            && !s.a.failed && !s.b.failed
            && (s.b.got == s.a.sent ==> s.b.recv == s.a.send)
            && (s.a.got == s.b.sent ==> s.a.recv == s.b.send)
  {
    StartInv(a, b);
    RunKeepsInv(a, b, Start(a, b), steps);
  }

  // ----- Nothing is lost -----

  function Receives(peer: Peer, n: nat): seq<Step> {
    if n == 0 then [] else [Recv(peer)] + Receives(peer, n - 1)
  }

  lemma NextPacketArrived(root: Lane, from: Endpoint, c: Channel, to: Endpoint)
    requires FlowInv(root, from, c, to) && c.network == [] && |to.got| < |from.sent|
    ensures Receive(to.recv, c.arrived).result == Ok(from.sent[|to.got|])
  {
    var pending := from.sent[|to.got|..];
    assert pending == [pending[0]] + pending[1..] && pending[0] == from.sent[|to.got|];
    StreamOfCons(to.recv, pending[0], pending[1..]);
    assert c.arrived == c.arrived + c.network;
    ReceiveWholePacket(to.recv, pending[0], Stream(AfterMessages(to.recv, 1), pending[1..]));
  }

  lemma ReceiveOne(a: Lane, b: Lane, s: System, p: Peer)
    requires Inv(a, b, s) && s.To(p).network == []
    requires |s.At(p).got| < |s.At(Other(p)).sent|
    ensures var s' := Next(s, Recv(p));
            && Inv(a, b, s') && s'.To(p).network == [] && s'.At(Other(p)) == s.At(Other(p))
            && |s'.At(p).got| == |s.At(p).got| + 1
  {
    NextPacketArrived(if p.B? then a else b, s.At(Other(p)), s.To(p), s.At(p));
    NextKeepsInv(a, b, s, Recv(p));
  }

  lemma {:induction false} ArrivedMessagesAreReceived(a: Lane, b: Lane, s: System, p: Peer, n: nat)
    requires Inv(a, b, s) && s.To(p).network == []
    requires n == |s.At(Other(p)).sent| - |s.At(p).got|
    ensures var s' := Run(s, Receives(p, n));
            && s'.At(p).got == s.At(Other(p)).sent && s'.At(Other(p)) == s.At(Other(p))
            && s'.To(p) == Channel([], [])
    decreases n
  {
    if n > 0 {
      ReceiveOne(a, b, s, p);
      ArrivedMessagesAreReceived(a, b, Next(s, Recv(p)), p, n - 1);
      assert Receives(p, n)[1..] == Receives(p, n - 1);
    }
  }

  lemma DeliverAll(a: Lane, b: Lane, s: System, p: Peer)
    requires Inv(a, b, s)
    ensures var s' := Next(s, Deliver(p, |s.To(p).network|));
            && Inv(a, b, s') && s'.To(p).network == []
            && s'.At(p) == s.At(p) && s'.At(Other(p)) == s.At(Other(p))
            && |s.At(p).got| <= |s.At(Other(p)).sent|
  {
    NextKeepsInv(a, b, s, Deliver(p, |s.To(p).network|));
  }

  lemma StartInv(a: Lane, b: Lane)
    ensures Inv(a, b, Start(a, b))
  {
  }

  /** From every reachable state, delivering what is in flight and receiving hands over all that was sent. */
  lemma EverythingSentIsReceivable(a: Lane, b: Lane, steps: seq<Step>, p: Peer)
    ensures var s := Run(Start(a, b), steps);
            var from, to := s.At(Other(p)), s.At(p);
            |to.got| <= |from.sent| &&
            var s' := Run(Next(s, Deliver(p, |s.To(p).network|)), Receives(p, |from.sent| - |to.got|));
            s'.At(p).got == from.sent && s'.At(Other(p)).sent == from.sent
  {
    hide *;
    StartInv(a, b);
    RunKeepsInv(a, b, Start(a, b), steps);
    ReachedIsReceivable(a, b, Run(Start(a, b), steps), p);
  }

  lemma ReachedIsReceivable(a: Lane, b: Lane, s: System, p: Peer)
    requires Inv(a, b, s)
    ensures var from, to := s.At(Other(p)), s.At(p);
            |to.got| <= |from.sent| &&
            var s' := Run(Next(s, Deliver(p, |s.To(p).network|)), Receives(p, |from.sent| - |to.got|));
            s'.At(p).got == from.sent && s'.At(Other(p)).sent == from.sent
  {
    DeliverAll(a, b, s, p);
    var s' := Next(s, Deliver(p, |s.To(p).network|));
    ArrivedMessagesAreReceived(a, b, s', p, |s'.At(Other(p)).sent| - |s'.At(p).got|);
  }
}
