/** The receive loop: answers pings, skips pongs and warnings, returns the first real message. */
module ReceiveLoop {
  import opened Wrappers
  import opened Bytes
  import opened Crypto
  import Lanes
  import opened Framing
  import opened Fields
  import opened Messages
  import Wire
  import Codec
  import CodecMethods
  import opened Connection

  const MAX_PONG_BYTES: nat := 65531

  function Zeros(n: nat): Blob {
    seq(n, _ => 0)
  }

  /** The reply to a ping, capped so that it can always be sent. */
  function PongFor(ping: Message): Message
    requires ping.Ping?
  {
    Pong(Zeros(if ping.numPongBytes < MAX_PONG_BYTES then ping.numPongBytes else MAX_PONG_BYTES))
  }

  /** A pong carries min(requested, 65531) padding bytes, fits a packet, and survives the codec. */
  lemma PongIsSendable(rules: Rules, ping: Message)
    requires ping.Ping?
    ensures |Encode(PongFor(ping))| == 4 + (if ping.numPongBytes < MAX_PONG_BYTES then ping.numPongBytes else MAX_PONG_BYTES)
    ensures |Encode(PongFor(ping))| <= Lanes.MAX_MESSAGE_SIZE
    ensures WellFormed(rules, PongFor(ping)) && Decode(rules, Encode(PongFor(ping))) == Ok(PongFor(ping))
  {
    PongBytes(PongFor(ping).ignored);
    PongIsWellFormed(rules, PongFor(ping).ignored);
    Codec.MessageRoundTripIff(rules, PongFor(ping));
  }

  lemma PongBytes(ignored: Blob)
    ensures |Encode(Pong(ignored))| == 4 + |ignored|
  {
    var vs := [Value.Raw(ignored)];
    assert [Var][1..] == [] && vs[1..] == [];
    assert WriteFields([Var], vs) == WriteField(Var, vs[0]) + WriteFields([], []);
  }

  lemma PongIsWellFormed(rules: Rules, ignored: Blob)
    requires |ignored| < Wire.U16_LIMIT
    ensures WellFormed(rules, Pong(ignored))
  {
  }

  predicate IsFiller(m: Message) {
    m.Ping? || m.Pong? || m.Warning?
  }

  /** What a decrypted input of at least two bytes counts as: undecodable bytes are an unknown message. */
  function Classify(rules: Rules, raw: Blob): Message
    requires |raw| >= 2
  {
    match Decode(rules, raw)
    case Ok(m) => m
    case Err(_) => Unknown(FromBe(raw[..2]), raw[2..])
  }

  /** An undecodable input is handed on as an unknown message that encodes to the same bytes. */
  lemma UndecodableIsKept(rules: Rules, raw: Blob)
    requires |raw| >= 2 && Decode(rules, raw).Err?
    ensures Classify(rules, raw).Unknown? && Encode(Classify(rules, raw)) == raw
  {
    ToBeFromBe(raw[..2]);
  }

  /** Where the loop stops: the reader's lane and stream, the writer's lane, what it wrote, and the outcome. */
  datatype Stop = Stop(recv: Lanes.Lane, rest: seq<Octet>, send: Lanes.Lane, written: seq<Octet>, result: Result<Message, NoiseError>) {
    function Prepend(earlier: seq<Octet>): Stop {
      this.(written := earlier + written)
    }
  }

  /** What one decrypted input makes the loop do: write, and perhaps return. */
  datatype Handled = Handled(send: Lanes.Lane, written: seq<Octet>, done: Option<Result<Message, NoiseError>>)

  function Handle(rules: Rules, raw: Blob, send: Lanes.Lane): Handled {
    if |raw| < 2 then Handled(send, [], Some(Err(Io)))
    else
      var m := Classify(rules, raw);
      if m.Ping? then
        var pong := Encode(PongFor(m));
        if |pong| > Lanes.MAX_MESSAGE_SIZE then Handled(send, [], Some(Err(Io)))
        else Handled(AfterMessages(send, 1), Lanes.Encrypt(send, pong), None)
      else if m.Pong? || m.Warning? then Handled(send, [], None)
      else Handled(send, [], Some(Ok(m)))
  }

  function Loop(rules: Rules, recv: Lanes.Lane, stream: seq<Octet>, send: Lanes.Lane): Stop
    decreases |stream|
  {
    var r := Receive(recv, stream);
    if r.result.Err? then Stop(r.lane, r.rest, send, [], Err(r.result.error))
    else
      var h := Handle(rules, r.result.value, send);
      if h.done.Some? then Stop(r.lane, r.rest, h.send, h.written, h.done.value)
      else Loop(rules, r.lane, r.rest, h.send).Prepend(h.written)
  }

  /** The encoded pongs that answer the pings among some inputs, in order. */
  function Pongs(rules: Rules, raws: seq<Blob>): seq<Blob>
    requires forall i :: 0 <= i < |raws| ==> |raws[i]| >= 2
  {
    if raws == [] then []
    else
      var m := Classify(rules, raws[0]);
      (if m.Ping? then [Encode(PongFor(m))] else []) + Pongs(rules, raws[1..])
  }

  predicate AllFiller(rules: Rules, raws: seq<Blob>) {
    forall i :: 0 <= i < |raws| ==> |raws[i]| >= 2 && IsFiller(Classify(rules, raws[i]))
  }

  /** A filler input is answered if it is a ping and skipped otherwise. */
  lemma FillerIsHandled(rules: Rules, raw: Blob, send: Lanes.Lane)
    requires AllFiller(rules, [raw])
    ensures var pongs := Pongs(rules, [raw]);
            Handle(rules, raw, send) == Handled(AfterMessages(send, |pongs|), Stream(send, pongs), None)
  {
    assert [raw][0] == raw && [raw][1..] == [];
    var m := Classify(rules, raw);
    if m.Ping? {
      PongIsSendable(rules, m);
      var answer: seq<Blob> := [Encode(PongFor(m))];
      assert Pongs(rules, [raw]) == answer;
      assert answer == [answer[0]] + [];
      StreamOfCons(send, answer[0], []);
    }
  }

  lemma LoopStep(rules: Rules, recv: Lanes.Lane, raw: Blob, tail: seq<Octet>, send: Lanes.Lane)
    requires |raw| <= Lanes.MAX_MESSAGE_SIZE
    ensures var h := Handle(rules, raw, send);
            Loop(rules, recv, Lanes.Encrypt(recv, raw) + tail, send) ==
            if h.done.Some? then Stop(AfterMessages(recv, 1), tail, h.send, h.written, h.done.value)
            else Loop(rules, AfterMessages(recv, 1), tail, h.send).Prepend(h.written)
  {
    ReceiveWholePacket(recv, raw, tail);
  }

  lemma {:induction false} PongsConcat(rules: Rules, raw: Blob, raws: seq<Blob>)
    requires |raw| >= 2 && forall i :: 0 <= i < |raws| ==> |raws[i]| >= 2
    ensures forall i :: 0 <= i < |[raw] + raws| ==> |([raw] + raws)[i]| >= 2
    ensures Pongs(rules, [raw] + raws) == Pongs(rules, [raw]) + Pongs(rules, raws)
  {
    assert ([raw] + raws)[1..] == raws && [raw][1..] == [];
  }

  /**
   * The loop's trace: past any run of pings, pongs and warnings it returns the first other input,
   * leaves everything after it unread, and has written one pong per ping, in order, and nothing else.
   */
  lemma {:induction false} LoopTrace(rules: Rules, recv: Lanes.Lane, filler: seq<Blob>, first: Blob, tail: seq<Octet>, send: Lanes.Lane)
    requires AllFiller(rules, filler) && Sendable(filler)
    requires 2 <= |first| <= Lanes.MAX_MESSAGE_SIZE && !IsFiller(Classify(rules, first))
    ensures var pongs := Pongs(rules, filler);
            Loop(rules, recv, Stream(recv, filler + [first]) + tail, send) ==
            Stop(AfterMessages(recv, |filler| + 1), tail, AfterMessages(send, |pongs|), Stream(send, pongs), Ok(Classify(rules, first)))
    decreases |filler|
  {
    hide Lanes.Advance, Lanes.Encrypt, Classify, Handle, Loop;
    if filler == [] {
      assert filler + [first] == [first] + [];
      LoopStopsAt(rules, recv, first, tail, send);
    } else {
      var raw, others := filler[0], filler[1..];
      var answer := Pongs(rules, [raw]);
      assert filler == [raw] + others && filler + [first] == [raw] + (others + [first]);
      LoopPastFiller(rules, recv, raw, others + [first], tail, send);
      LoopTrace(rules, AfterMessages(recv, 1), others, first, tail, AfterMessages(send, |answer|));
      PongsConcat(rules, raw, others);
      AnswersCompose(send, answer, Pongs(rules, others));
      AfterMessagesAdds(recv, 1, |others| + 1);
    }
  }

  lemma LoopStopsAt(rules: Rules, recv: Lanes.Lane, first: Blob, tail: seq<Octet>, send: Lanes.Lane)
    requires 2 <= |first| <= Lanes.MAX_MESSAGE_SIZE && !IsFiller(Classify(rules, first))
    ensures Loop(rules, recv, Stream(recv, [first] + []) + tail, send) ==
            Stop(AfterMessages(recv, 1), tail, send, [], Ok(Classify(rules, first)))
  {
    StreamOfCons(recv, first, []);
    assert Stream(recv, [first] + []) == Lanes.Encrypt(recv, first);
    LoopStep(rules, recv, first, tail, send);
  }

  lemma LoopPastFiller(rules: Rules, recv: Lanes.Lane, raw: Blob, others: seq<Blob>, tail: seq<Octet>, send: Lanes.Lane)
    requires AllFiller(rules, [raw]) && |raw| <= Lanes.MAX_MESSAGE_SIZE
    ensures var answer := Pongs(rules, [raw]);
            Loop(rules, recv, Stream(recv, [raw] + others) + tail, send) ==
            Loop(rules, AfterMessages(recv, 1), Stream(AfterMessages(recv, 1), others) + tail,
                 AfterMessages(send, |answer|)).Prepend(Stream(send, answer))
  {
    var left := Stream(AfterMessages(recv, 1), others);
    StreamOfCons(recv, raw, others);
    Associative(Lanes.Encrypt(recv, raw), left, tail);
    LoopStep(rules, recv, raw, left + tail, send);
    FillerIsHandled(rules, raw, send);
  }

  lemma AnswersCompose(send: Lanes.Lane, answer: seq<Blob>, later: seq<Blob>)
    ensures Stream(send, answer + later) == Stream(send, answer) + Stream(AfterMessages(send, |answer|), later)
    ensures AfterMessages(send, |answer + later|) == AfterMessages(AfterMessages(send, |answer|), |later|)
  {
    hide *;
    StreamConcat(send, answer, later);
    AfterMessagesAdds(send, |answer|, |later|);
  }

  // ----- Every other way the loop ends -----

  /** Past any run of pings, pongs and warnings the loop is where it would have started from there, the pongs written. */
  lemma {:induction false} LoopPastAll(rules: Rules, recv: Lanes.Lane, filler: seq<Blob>, tail: seq<Octet>, send: Lanes.Lane)
    requires AllFiller(rules, filler) && Sendable(filler)
    ensures var pongs := Pongs(rules, filler);
            Loop(rules, recv, Stream(recv, filler) + tail, send) ==
            Loop(rules, AfterMessages(recv, |filler|), tail, AfterMessages(send, |pongs|)).Prepend(Stream(send, pongs))
    decreases |filler|
  {
    hide Lanes.Advance, Lanes.Encrypt, Classify, Handle, Loop;
    if filler == [] {
      assert Stream(recv, filler) + tail == tail;
      NothingWritten(Loop(rules, recv, tail, send));
    } else {
      var raw, others := filler[0], filler[1..];
      var answer := Pongs(rules, [raw]);
      assert filler == [raw] + others;
      LoopPastFiller(rules, recv, raw, others, tail, send);
      LoopPastAll(rules, AfterMessages(recv, 1), others, tail, AfterMessages(send, |answer|));
      PongsConcat(rules, raw, others);
      AnswersCompose(send, answer, Pongs(rules, others));
      AfterMessagesAdds(recv, 1, |others|);
      PrependTwice(Loop(rules, AfterMessages(recv, |filler|), tail, AfterMessages(send, |Pongs(rules, filler)|)),
                   Stream(send, answer), Stream(AfterMessages(send, |answer|), Pongs(rules, others)));
    }
  }

  lemma NothingWritten(s: Stop)
    ensures s.Prepend([]) == s
  {
    assert [] + s.written == s.written;
  }

  lemma PrependTwice(s: Stop, first: seq<Octet>, second: seq<Octet>)
    ensures s.Prepend(second).Prepend(first) == s.Prepend(first + second)
  {
    Associative(first, second, s.written);
  }

  /**
   * When a receive fails, after any run of pings, pongs and warnings, the loop returns that very error, having written
   * exactly the pongs of the run; the reader is left where the failed receive left it.
   */
  lemma LoopError(rules: Rules, recv: Lanes.Lane, filler: seq<Blob>, bad: seq<Octet>, send: Lanes.Lane)
    requires AllFiller(rules, filler) && Sendable(filler)
    requires Receive(AfterMessages(recv, |filler|), bad).result.Err?
    ensures var pongs, r := Pongs(rules, filler), Receive(AfterMessages(recv, |filler|), bad);
            Loop(rules, recv, Stream(recv, filler) + bad, send) ==
            Stop(r.lane, r.rest, AfterMessages(send, |pongs|), Stream(send, pongs), Err(r.result.error))
  {
    LoopPastAll(rules, recv, filler, bad, send);
    assert Stream(send, Pongs(rules, filler)) + [] == Stream(send, Pongs(rules, filler));
  }

  /** A closed connection is an end-of-stream error. */
  lemma LoopClosed(rules: Rules, recv: Lanes.Lane, filler: seq<Blob>, send: Lanes.Lane)
    requires AllFiller(rules, filler) && Sendable(filler)
    ensures Loop(rules, recv, Stream(recv, filler), send).result == Err(Io)
  {
    ReceiveShortHeader(AfterMessages(recv, |filler|), []);
    LoopError(rules, recv, filler, [], send);
    assert Stream(recv, filler) + [] == Stream(recv, filler);
  }

  /** An input of fewer than two bytes has no type: it ends the loop with an error, what follows unread. */
  lemma LoopTooShort(rules: Rules, recv: Lanes.Lane, filler: seq<Blob>, short: Blob, tail: seq<Octet>, send: Lanes.Lane)
    requires AllFiller(rules, filler) && Sendable(filler) && |short| < 2
    ensures var pongs := Pongs(rules, filler);
            Loop(rules, recv, Stream(recv, filler) + (Lanes.Encrypt(AfterMessages(recv, |filler|), short) + tail), send) ==
            Stop(AfterMessages(recv, |filler| + 1), tail, AfterMessages(send, |pongs|), Stream(send, pongs), Err(Io))
  {
    hide Loop, Classify, Stream, Lanes.Encrypt, Pongs;
    var at := AfterMessages(recv, |filler|);
    LoopPastAll(rules, recv, filler, Lanes.Encrypt(at, short) + tail, send);
    LoopStopsShort(rules, at, short, tail, AfterMessages(send, |Pongs(rules, filler)|));
    AfterMessagesAdds(recv, |filler|, 1);
    assert Stream(send, Pongs(rules, filler)) + [] == Stream(send, Pongs(rules, filler));
  }

  lemma LoopStopsShort(rules: Rules, recv: Lanes.Lane, short: Blob, tail: seq<Octet>, send: Lanes.Lane)
    requires |short| < 2
    ensures Loop(rules, recv, Lanes.Encrypt(recv, short) + tail, send) ==
            Stop(AfterMessages(recv, 1), tail, send, [], Err(Io))
  {
    LoopStep(rules, recv, short, tail, send);
  }

  // ----- The loop over messages -----

  /** The bytes of the pong that answers a request for n padding bytes. */
  function PongWire(n: nat): Blob {
    var size := if n < 65531 then n else 65531;
    [0, 19] + ToBe(size, 2) + seq(size, _ => 0)
  }

  /** The bytes written for the pings among some messages. */
  function Answers(ms: seq<Message>): seq<Blob> {
    if ms == [] then []
    else (if ms[0].Ping? then [PongWire(ms[0].numPongBytes)] else []) + Answers(ms[1..])
  }

  lemma PongIsLiteral(ping: Message)
    requires ping.Ping?
    ensures Encode(PongFor(ping)) == PongWire(ping.numPongBytes)
  {
    var ignored := PongFor(ping).ignored;
    var vs := [Value.Raw(ignored)];
    assert [Var][1..] == [] && vs[1..] == [];
    assert WriteFields([Var], vs) == WriteField(Var, vs[0]) + WriteFields([], []);
    Wire.ToBeTwo(19);
    assert EncodeBody(PongFor(ping)) == ToBe(|ignored|, 2) + ignored;
    Wire.ConcatAssociates([0, 19], ToBe(|ignored|, 2), ignored);
  }

  /** Messages as a peer would send them. */
  function Wires(ms: seq<Message>): seq<Blob> {
    if ms == [] then [] else [Encode(ms[0])] + Wires(ms[1..])
  }

  ghost predicate AllSendable(rules: Rules, ms: seq<Message>) {
    forall i :: 0 <= i < |ms| ==> WellFormed(rules, ms[i]) && |Encode(ms[i])| <= 65535
  }

  lemma WireIsClassified(rules: Rules, m: Message)
    requires WellFormed(rules, m)
    ensures |Encode(m)| >= 2 && Classify(rules, Encode(m)) == m
  {
    Codec.MessageRoundTripIff(rules, m);
  }

  lemma {:induction false} FillerWires(rules: Rules, ms: seq<Message>)
    requires AllSendable(rules, ms) && forall i :: 0 <= i < |ms| ==> ms[i].Ping? || ms[i].Pong? || ms[i].Warning?
    ensures AllFiller(rules, Wires(ms)) && Sendable(Wires(ms)) && |Wires(ms)| == |ms|
    ensures Pongs(rules, Wires(ms)) == Answers(ms)
  {
    hide Encode, Classify, WellFormed, PongWire;
    if ms != [] {
      WireIsClassified(rules, ms[0]);
      FillerWires(rules, ms[1..]);
      var wires := Wires(ms);
      assert wires[1..] == Wires(ms[1..]);
      forall i | 0 <= i < |wires| ensures |wires[i]| >= 2 && IsFiller(Classify(rules, wires[i])) && |wires[i]| <= 65535 {
        assert i > 0 ==> wires[i] == Wires(ms[1..])[i - 1];
      }
      if ms[0].Ping? {
        PongIsLiteral(ms[0]);
      }
    }
  }

  /**
   * In terms of what the peer sent: after any pings, pongs and warnings, the first other message is returned as it was
   * sent, every ping has been answered by its literal pong, and what follows is unread.
   */
  lemma LoopOverMessages(rules: Rules, recv: Lanes.Lane, ms: seq<Message>, m: Message, tail: seq<Octet>, send: Lanes.Lane)
    requires AllSendable(rules, ms + [m])
    requires forall i :: 0 <= i < |ms| ==> ms[i].Ping? || ms[i].Pong? || ms[i].Warning?
    requires !m.Ping? && !m.Pong? && !m.Warning?
    ensures Loop(rules, recv, Stream(recv, Wires(ms) + [Encode(m)]) + tail, send) ==
            Stop(AfterMessages(recv, |ms| + 1), tail, AfterMessages(send, |Answers(ms)|), Stream(send, Answers(ms)), Ok(m))
  {
    hide Encode, Classify, WellFormed, Loop, Stream;
    assert (ms + [m])[|ms|] == m;
    assert forall i :: 0 <= i < |ms| ==> (ms + [m])[i] == ms[i];
    WireIsClassified(rules, m);
    FillerWires(rules, ms);
    LoopTrace(rules, recv, Wires(ms), Encode(m), tail, send);
  }

  /** One turn of the loop after a receive. */
  method HandleRaw(rules: Rules, raw: Blob, writer: NoiseWriter) returns (done: Option<Result<Message, NoiseError>>)
    requires writer.Valid()
    modifies writer.stream, writer.cipher
    ensures writer.Valid()
    ensures var h := Handle(rules, raw, old(writer.cipher.View()));
            && writer.cipher.View() == h.send && done == h.done
            && writer.stream.octets == old(writer.stream.octets) + h.written
  {
    if |raw| < 2 {
      return Some(Err(Io));
    }
    var decoded := CodecMethods.DecodeMessage(rules, raw);
    if decoded.Err? {
      return Some(Ok(Unknown(FromBe(raw[..2]), raw[2..])));
    }
    var m := decoded.value;
    if m.Ping? {
      PongIsSendable(rules, m);
      var wire := CodecMethods.EncodeMessage(rules, PongFor(m));
      var sent := writer.Send(wire);
      return if sent.Err? then Some(Err(Io)) else None;
    }
    done := if m.Pong? || m.Warning? then None else Some(Ok(m));
  }

  /** The octets one receive and its handling add to the writer's stream. */
  ghost predicate Resumes(whole: Stop, left: Stop, added: seq<Octet>) {
    whole == left.Prepend(added)
  }

  lemma ResumesPast(whole: Stop, left: Stop, left': Stop, added: seq<Octet>, more: seq<Octet>)
    requires Resumes(whole, left, added) && left == left'.Prepend(more)
    ensures Resumes(whole, left', added + more)
  {
    Associative(added, more, left'.written);
  }

  /** One receive and its handling: either the loop's outcome, or the same loop from here on. */
  method Turn(rules: Rules, reader: NoiseReader, writer: NoiseWriter)
    returns (done: Option<Result<Message, NoiseError>>, ghost added: seq<Octet>)
    requires reader.Valid() && writer.Valid() && reader.stream != writer.stream
    modifies reader.stream, reader.cipher, writer.stream, writer.cipher
    ensures reader.Valid() && writer.Valid()
    ensures writer.stream.octets == old(writer.stream.octets) + added
    ensures var before := Loop(rules, old(reader.cipher.View()), old(reader.stream.octets), old(writer.cipher.View()));
            match done
            case Some(r) => before == Stop(reader.cipher.View(), reader.stream.octets, writer.cipher.View(), added, r)
            case None =>
              && |reader.stream.octets| < |old(reader.stream.octets)|
              && before == Loop(rules, reader.cipher.View(), reader.stream.octets, writer.cipher.View()).Prepend(added)
  {
    ghost var send := writer.cipher.View();
    added := [];
    var raw := reader.Recv();
    if raw.Err? {
      return Some(Err(raw.error)), [];
    }
    done := HandleRaw(rules, raw.value, writer);
    added := Handle(rules, raw.value, send).written;
  }

  /** The loop itself, over a reader and a writer. */
  method RecvMessage(rules: Rules, reader: NoiseReader, writer: NoiseWriter) returns (r: Result<Message, NoiseError>)
    requires reader.Valid() && writer.Valid() && reader.stream != writer.stream
    modifies reader.stream, reader.cipher, writer.stream, writer.cipher
    ensures reader.Valid() && writer.Valid()
    ensures var s := Loop(rules, old(reader.cipher.View()), old(reader.stream.octets), old(writer.cipher.View()));
            && reader.cipher.View() == s.recv && reader.stream.octets == s.rest
            && writer.cipher.View() == s.send && writer.stream.octets == old(writer.stream.octets) + s.written
            && r == s.result
  {
    ghost var whole := Loop(rules, reader.cipher.View(), reader.stream.octets, writer.cipher.View());
    ghost var written: seq<Octet> := [];
    while true
      invariant reader.Valid() && writer.Valid()
      invariant writer.stream.octets == old(writer.stream.octets) + written
      invariant Resumes(whole, Loop(rules, reader.cipher.View(), reader.stream.octets, writer.cipher.View()), written)
      decreases |reader.stream.octets|
    {
      ghost var left := Loop(rules, reader.cipher.View(), reader.stream.octets, writer.cipher.View());
      var done, added := Turn(rules, reader, writer);
      Associative(old(writer.stream.octets), written, added);
      if done.Some? {
        return done.value;
      }
      ResumesPast(whole, left, Loop(rules, reader.cipher.View(), reader.stream.octets, writer.cipher.View()), written, added);
      written := written + added;
    }
  }
}
