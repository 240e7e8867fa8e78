/** The stateful connection halves over byte pipes, and the unsplit connection. */
module Connection {
  import opened Wrappers
  import opened Bytes
  import opened Crypto
  import Lanes
  import opened Framing
  import opened Cipher

  /** The octets readable from, or written to, one direction of a socket. */
  class Pipe {
    var octets: seq<Octet>

    constructor (octets: seq<Octet>)
      ensures this.octets == octets
    {
      this.octets := octets;
    }

    /** Reads exactly n octets; a stream that ends early is used up and reported. */
    method ReadExact(n: nat) returns (r: Result<seq<Octet>, NoiseError>)
      modifies this
      ensures |old(octets)| >= n ==> r == Ok(old(octets)[..n]) && octets == old(octets)[n..]
      ensures |old(octets)| < n ==> r == Err(Io) && octets == []
    {
      if |octets| < n {
        octets := [];
        return Err(Io);
      }
      r := Ok(octets[..n]);
      octets := octets[n..];
    }

    method WriteAll(data: seq<Octet>)
      modifies this
      ensures octets == old(octets) + data
    {
      octets := octets + data;
    }
  }

  class NoiseWriter {
    const stream: Pipe
    const cipher: SendCipher

    ghost predicate Valid()
      reads this, cipher
    {
      cipher.Valid()
    }

    constructor (stream: Pipe, cipher: SendCipher)
      requires cipher.Valid()
      ensures Valid() && this.stream == stream && this.cipher == cipher
    {
      this.stream, this.cipher := stream, cipher;
    }

    /** Too large a message is refused before anything is encrypted or written. */
    method Send(msg: seq<byte>) returns (r: Result<(), NoiseError>)
      requires Valid()
      modifies stream, cipher
      ensures Valid()
      ensures r == if |msg| <= Lanes.MAX_MESSAGE_SIZE then Ok(()) else Err(Io)
      ensures r.Ok? ==> stream.octets == old(stream.octets) + Lanes.Encrypt(old(cipher.View()), msg)
      ensures r.Ok? ==> cipher.View() == AfterMessages(old(cipher.View()), 1)
      ensures r.Err? ==> stream.octets == old(stream.octets) && cipher.View() == old(cipher.View())
    {
      if |msg| > Lanes.MAX_MESSAGE_SIZE {
        return Err(Io);
      }
      assert AfterMessages(cipher.View(), 1) == AfterMessages(Lanes.Advance(Lanes.Advance(cipher.View())), 0);
      var encrypted := cipher.Encrypt(msg);
      stream.WriteAll(encrypted);
      r := Ok(());
    }
  }

  class NoiseReader {
    const stream: Pipe
    const cipher: RecvCipher

    ghost predicate Valid()
      reads this, cipher
    {
      cipher.Valid()
    }

    constructor (stream: Pipe, cipher: RecvCipher)
      requires cipher.Valid()
      ensures Valid() && this.stream == stream && this.cipher == cipher
    {
      this.stream, this.cipher := stream, cipher;
    }

    method Recv() returns (r: Result<seq<byte>, NoiseError>)
      requires Valid()
      modifies stream, cipher
      ensures Valid()
      ensures Reception(cipher.View(), stream.octets, r) == Receive(old(cipher.View()), old(stream.octets))
    {
      var lenHeader := stream.ReadExact(Lanes.ENCRYPTED_LENGTH_SIZE);
      if lenHeader.Err? {
        return Err(lenHeader.error);
      }
      var msgLen := cipher.DecryptLength(lenHeader.value);
      if msgLen.Err? {
        return Err(msgLen.error);
      }
      var body := stream.ReadExact(msgLen.value + MAC_SIZE);
      if body.Err? {
        return Err(body.error);
      }
      r := cipher.DecryptMessage(body.value);
    }
  }

  datatype ConnectionError = IoError | Noise(error: NoiseError) | MessageTooLarge(size: nat)

  /** An error of the framing layer, as this connection reports it. */
  function Reported(r: Result<seq<byte>, NoiseError>): Result<seq<byte>, ConnectionError> {
    match r
    case Ok(m) => Ok(m)
    case Err(Io) => Err(IoError)
    case Err(e) => Err(Noise(e))
  }

  class NoiseConnection {
    const incoming: Pipe
    const outgoing: Pipe
    const cipher: NoiseCipher

    ghost predicate Valid()
      reads this, cipher
    {
      cipher.Valid() && incoming != outgoing
    }

    constructor (incoming: Pipe, outgoing: Pipe, cipher: NoiseCipher)
      requires cipher.Valid() && incoming != outgoing
      ensures Valid() && this.incoming == incoming && this.outgoing == outgoing && this.cipher == cipher
    {
      this.incoming, this.outgoing, this.cipher := incoming, outgoing, cipher;
    }

    method SendMessage(msg: seq<byte>) returns (r: Result<(), ConnectionError>)
      requires Valid()
      modifies outgoing, cipher
      ensures Valid() && cipher.RecvView() == old(cipher.RecvView())
      ensures |msg| > Lanes.MAX_MESSAGE_SIZE ==>
                r == Err(MessageTooLarge(|msg|)) && outgoing.octets == old(outgoing.octets) &&
                cipher.SendView() == old(cipher.SendView())
      ensures |msg| <= Lanes.MAX_MESSAGE_SIZE ==>
                r == Ok(()) && outgoing.octets == old(outgoing.octets) + Lanes.Encrypt(old(cipher.SendView()), msg) &&
                cipher.SendView() == AfterMessages(old(cipher.SendView()), 1)
    {
      if |msg| > Lanes.MAX_MESSAGE_SIZE {
        return Err(MessageTooLarge(|msg|));
      }
      assert AfterMessages(cipher.SendView(), 1) == AfterMessages(Lanes.Advance(Lanes.Advance(cipher.SendView())), 0);
      var encrypted := cipher.Encrypt(msg);
      outgoing.WriteAll(encrypted);
      r := Ok(());
    }

    method RecvMessage() returns (r: Result<seq<byte>, ConnectionError>)
      requires Valid()
      modifies incoming, cipher
      ensures Valid() && cipher.SendView() == old(cipher.SendView())
      ensures var spec := Receive(old(cipher.RecvView()), old(incoming.octets));
              cipher.RecvView() == spec.lane && incoming.octets == spec.rest && r == Reported(spec.result)
      ensures var spec := Receive(old(cipher.RecvView()), old(incoming.octets));
              && (forall m :: r == Ok(m) <==> spec.result == Ok(m))
              && (r == Err(IoError) <==> spec.result == Err(Io))
              && (r == Err(Noise(DecryptionFailed)) <==> spec.result == Err(DecryptionFailed))
    {
      var encryptedLen := incoming.ReadExact(Lanes.ENCRYPTED_LENGTH_SIZE);
      if encryptedLen.Err? {
        return Err(IoError);
      }
      var msgLen := cipher.DecryptLength(encryptedLen.value);
      if msgLen.Err? {
        return Err(Noise(msgLen.error));
      }
      var encryptedMsg := incoming.ReadExact(msgLen.value + MAC_SIZE);
      if encryptedMsg.Err? {
        return Err(IoError);
      }
      var msg := cipher.DecryptMessage(encryptedMsg.value);
      if msg.Err? {
        return Err(Noise(msg.error));
      }
      r := Ok(msg.value);
    }
  }
}
