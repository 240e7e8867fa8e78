/** The stateful handshake object, act by act. */
module NoiseHandshakes {
  import opened Wrappers
  import opened Bytes
  import opened Crypto
  import opened Lanes
  import opened Handshake
  import opened Cipher

  class NoiseHandshake {
    const role: Role
    var state: State
    var ck: Term
    var h: Term
    const localStatic: Scalar
    const localEphemeral: Scalar
    var remoteStatic: Option<PublicKey>
    var remoteEphemeral: Option<PublicKey>
    var tempK2: Option<Term>

    ghost function View(): Party
      reads this
    {
      Party(role, state, ck, h, localStatic, localEphemeral, remoteStatic, remoteEphemeral, tempK2)
    }

    ghost predicate Valid()
      reads this
    {
      Consistent(View())
    }

    constructor NewInitiator(localStatic: Scalar, localEphemeral: Scalar, remoteStatic: PublicKey)
      ensures Valid() && View() == Handshake.NewInitiator(localStatic, localEphemeral, remoteStatic)
    {
      var init := InitializeState(remoteStatic);
      role, state := Initiator, InitiatorStart;
      ck, h := init.0, init.1;
      this.localStatic, this.localEphemeral := localStatic, localEphemeral;
      this.remoteStatic, remoteEphemeral, tempK2 := Some(remoteStatic), None, None;
    }

    constructor NewResponder(localStatic: Scalar, localEphemeral: Scalar)
      ensures Valid() && View() == Handshake.NewResponder(localStatic, localEphemeral)
    {
      var init := InitializeState(PublicOf(localStatic));
      role, state := Responder, ResponderStart;
      ck, h := init.0, init.1;
      this.localStatic, this.localEphemeral := localStatic, localEphemeral;
      remoteStatic, remoteEphemeral, tempK2 := None, None, None;
    }

    method GetActOne() returns (out: Outcome)
      requires Valid()
      modifies this
      ensures Valid() && (View(), out) == Handshake.GetActOne(old(View()))
    {
      if state != InitiatorStart {
        return Failed(InvalidState);
      }
      var ePub := SerializeKey(PublicOf(localEphemeral));
      MixHash(ePub);
      var rs := remoteStatic.value;
      var es := Ecdh(localEphemeral, rs);
      var keys := Hkdf(ck, es);
      ck := keys.0;
      var c := Seal(keys.1, 0, h, []);
      MixHash(c);
      state := InitiatorAwaitingActTwo;
      out := Act([VERSION] + ePub + c);
    }

    method ProcessActTwo(actTwo: seq<Octet>) returns (out: Outcome)
      requires Valid() && |actTwo| == ACT_TWO_SIZE
      modifies this
      ensures Valid() && (View(), out) == Handshake.ProcessActTwo(old(View()), actTwo)
    {
      if state != InitiatorAwaitingActTwo {
        return Failed(InvalidState);
      }
      var version, reBytes, c := actTwo[0], actTwo[1..34], actTwo[34..];
      if version != VERSION {
        return Failed(ActTwoBadVersion(version));
      }
      var re := ParseKey(reBytes);
      if re.None? {
        return Failed(ActTwoBadPubkey);
      }
      remoteEphemeral := re;
      MixHash(reBytes);
      var ee := Ecdh(localEphemeral, re.value);
      var keys := Hkdf(ck, ee);
      ck := keys.0;
      tempK2 := Some(keys.1);
      var tag := Open(keys.1, 0, h, c);
      if tag.Err? {
        return Failed(ActTwoBadTag);
      }
      MixHash(c);
      out := BuildActThree();
    }

    method BuildActThree() returns (out: Outcome)
      requires tempK2.Some? && remoteEphemeral.Some? && remoteStatic.Some?
      modifies this
      ensures Valid() && (View(), out) == Handshake.BuildActThree(old(View()))
    {
      var c := Seal(tempK2.value, 1, h, KeyBytes(PublicOf(localStatic)));
      MixHash(c);
      var se := Ecdh(localStatic, remoteEphemeral.value);
      var keys := Hkdf(ck, se);
      ck := keys.0;
      var t := Seal(keys.1, 0, h, []);
      state := Complete;
      out := Act([VERSION] + c + t);
    }

    method ProcessActOne(actOne: seq<Octet>) returns (out: Outcome)
      requires Valid() && |actOne| == ACT_ONE_SIZE
      modifies this
      ensures Valid() && (View(), out) == Handshake.ProcessActOne(old(View()), actOne)
    {
      if state != ResponderStart {
        return Failed(InvalidState);
      }
      var version, reBytes, c := actOne[0], actOne[1..34], actOne[34..];
      if version != VERSION {
        return Failed(ActOneBadVersion(version));
      }
      var re := ParseKey(reBytes);
      if re.None? {
        return Failed(ActOneBadPubkey);
      }
      remoteEphemeral := re;
      MixHash(reBytes);
      var es := Ecdh(localStatic, re.value);
      var keys := Hkdf(ck, es);
      ck := keys.0;
      var tag := Open(keys.1, 0, h, c);
      if tag.Err? {
        return Failed(ActOneBadTag);
      }
      MixHash(c);
      out := BuildActTwo();
    }

    method BuildActTwo() returns (out: Outcome)
      requires role == Responder && remoteEphemeral.Some?
      modifies this
      ensures Valid() && (View(), out) == Handshake.BuildActTwo(old(View()))
    {
      var ePub := SerializeKey(PublicOf(localEphemeral));
      MixHash(ePub);
      var ee := Ecdh(localEphemeral, remoteEphemeral.value);
      var keys := Hkdf(ck, ee);
      ck := keys.0;
      tempK2 := Some(keys.1);
      var c := Seal(keys.1, 0, h, []);
      MixHash(c);
      state := ResponderAwaitingActThree;
      out := Act([VERSION] + ePub + c);
    }

    method ProcessActThree(actThree: seq<Octet>) returns (out: Outcome)
      requires Valid() && |actThree| == ACT_THREE_SIZE
      modifies this
      ensures Valid() && (View(), out) == Handshake.ProcessActThree(old(View()), actThree)
    {
      if state != ResponderAwaitingActThree {
        return Failed(InvalidState);
      }
      var version, c, t := actThree[0], actThree[1..50], actThree[50..];
      if version != VERSION {
        return Failed(ActThreeBadVersion(version));
      }
      var rsBytes := Open(tempK2.value, 1, h, c);
      if rsBytes.Err? {
        return Failed(ActThreeBadCiphertext);
      }
      var rs := ParseKey(Lift(rsBytes.value));
      if rs.None? {
        return Failed(ActThreeBadPubkey);
      }
      remoteStatic := rs;
      MixHash(c);
      var se := Ecdh(localEphemeral, rs.value);
      var keys := Hkdf(ck, se);
      ck := keys.0;
      var tag := Open(keys.1, 0, h, t);
      if tag.Err? {
        return Failed(ActThreeBadTag);
      }
      state := Complete;
      out := Identity(rs.value);
    }

    method GetFinalKeys() returns (r: Result<(Term, Term), NoiseError>)
      requires Valid()
      ensures r == FinalKeys(View())
    {
      if state != Complete {
        return Err(HandshakeIncomplete);
      }
      var keys := Hkdf(ck, Nothing);
      match role
      case Initiator => r := Ok(keys);
      case Responder => r := Ok((keys.1, keys.0));
    }

    method IntoCipher() returns (r: Result<NoiseCipher, NoiseError>)
      requires Valid()
      ensures r.Ok? <==> state == Complete
      ensures r.Ok? ==> fresh(r.value) && r.value.Valid() &&
                        IntoLanes(View()) == Ok((r.value.SendView(), r.value.RecvView()))
      ensures r.Err? ==> r.error == HandshakeIncomplete
    {
      var keys := GetFinalKeys();
      if keys.Err? {
        return Err(keys.error);
      }
      var cipher := new NoiseCipher(keys.value.0, keys.value.1, ck);
      r := Ok(cipher);
    }

    method MixHash(data: seq<Octet>)
      modifies this`h
      ensures h == Mix(old(h), data)
    {
      h := Mix(h, data);
    }
  }
}
