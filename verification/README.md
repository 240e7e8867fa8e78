# Verified model of the Lightning Noise transport and BOLT codec

The repository speaks BOLT 8 to Lightning peers and encodes and decodes the BOLT messages that travel over
it. This project models three layers of it, proves what each promises, and chains them.

1. **The Noise_XK handshake** (`Crypto.dfy`, `Handshake.dfy`, `NoiseHandshake.dfy`, `Agreement.dfy`). Cryptography is
   a free term algebra: a digest, a key or a shared secret is the term that computes it, and an octet of a
   ciphertext remembers the box it was sealed in. The handshake is a state machine over any sequence of calls with
   any inputs, failed ones included. Main results: `Agreement.BackwardAgreement`, `Agreement.ActTwoAgreement`,
   `Agreement.ActOneAgreement`, `Agreement.BadTagPreventsAgreement`, `Agreement.StutteringRunIsHonest`, `Handshake.RunSafety`, `Handshake.HonestTranscript`.
2. **The encrypted transport** (`Cipher.dfy`, `Transport.dfy`, `Connection.dfy`). Each direction is a *lane*: key, nonce
   and chaining key, rotated lazily every 1000 operations. Two endpoints exchange messages over two byte streams
   that the network cuts as it likes. Main results: `Framing.ReceivedIffPacket`, `Lanes.NoKeyNonceReuse`, `Lanes.FailedDecryptionIsStutter`,
   `SplitCipher.SplitInStep`, `Duplex.DuplexFifo`, `Duplex.EverythingSentIsReceivable`.
3. **The BOLT codec** (`Wire.dfy`, `Tlv.dfy`, `Fields.dfy`, `Messages.dfy`, `Codec.dfy`, `Grammar.dfy`, `CodecMethods.dfy`, `Layouts.dfy`,
   `Scid.dfy`, `ChannelRange.dfy`). Main results: `Tlv.DecodeIffEncoded`, `Tlv.PrefixOfStream`, `Grammar.DecodesIffReads`,
   `Grammar.DecodeErrorIff`, `Codec.MessageRoundTripIff`,
   `Codec.Normalises`, `Codec.UnchangedIff`, `ChannelRange.ScidsThroughWireIff`, `Scid.ParsedIffFields`, `Scid.TextReadsBackIff`.

`ReceiveLoop.dfy` models the loop that answers pings over all three, and `EndToEnd.AcceptedHandshakeDelivers`
and `EndToEnd.AcceptedHandshakeDeliversAll` chain them: once a responder accepts the Act Three an initiator emitted, whatever
either was fed before, every interleaving of sends, deliveries and receives between their ciphers yields decoded
messages that are, in order, those the other side sent, and draining a direction yields all of them.

Code that updates fields in place is a class whose methods are proved against a value-level specification: the three
ciphers, the handshake object, the connection halves, the TLV stream, the reading cursor and the growing buffer. The
laws are lemmas about that specification. Reads of absent fields are checked where the methods make them and the
sizes of the acts are proved, so no `expect` call or fixed-size copy of the handshake can panic; both senders refuse
what `encrypt` would panic on.

## Where the code departs from its description

- Encoding a vector field longer than 65535 bytes does not fail: the length is cast to 16 bits. The exact
  condition for a vector to survive is `Wire.VecRoundTripIff`, for a message `Codec.MessageRoundTripIff`, and for a list
  of channel ids `ChannelRange.ScidsThroughWireIff`.
- The text form of a channel id accepts more than what is printed: a field may carry a plus sign or leading zeros.
  `Scid.TextReadsBackIff` says exactly when the text is printed back, `Scid.PlusSignIsLost` gives a text that is not.
- Decoding ignores bytes, so decoding then encoding is not the identity: bytes after the fixed fields of the eight
  messages without TLVs, unknown odd TLV records, and bytes after the BigSize in a query option are dropped.
  `Codec.UnchangedIff` says that an accepted input comes back exactly when it has none of these, `Codec.PingLosesTrailingByte`
  gives an input that does not come back, and `Codec.Normalises` says what is kept.
- A failed tag in any act mixes the attempt into the hash and keeps the state, so the call may be repeated.
  `Agreement.BadTagPreventsAgreement` proves that repeating it can never lead to agreement.

## Model

| member | source | states |
|---|---|---|
| Crypto.EncodeNonceInjective | noise/src/cipher.rs:266-270 | two 64-bit counters with the same 96-bit nonce are equal |
| Crypto.EncodeNonceBytes | noise/src/cipher.rs:266-270 | a nonce is four zero bytes, then the counter with its least significant byte first |
| Crypto.OpenIffSealed | noise/src/cipher.rs:278-314 | decryption yields a plaintext exactly on the ciphertext encryption makes of it under the same key, nonce and data |
| Crypto.OpenedUnderSame | noise/src/cipher.rs:297-314 | what opens was sealed under the opener's own key, nonce and associated data |
| Crypto.ParseIffSerialized | noise/src/handshake.rs:221-221 | a key parses from exactly its own 33-octet form |
| Crypto.EcdhCommutes | noise/src/handshake.rs:468-470 | both ends of an ECDH compute the same secret |
| Lanes.DecryptedLengthFits | noise/src/cipher.rs:86-94 | a decrypted header is a 16-bit length |
| Lanes.OperationInEpoch | noise/src/cipher.rs:38-70 | operation n, from 0, runs in epoch n/1000 under nonce n%1000 |
| Lanes.RotationClosedForm | noise/src/cipher.rs:38-70 | after n > 0 operations the stored key is the initial one advanced (n-1)/1000 HKDF steps, the stored nonce is (n-1)%1000+1 |
| Lanes.EpochKeysGrow | noise/src/cipher.rs:63-70 | the keys of a later epoch are deeper terms, so no key ever comes back |
| Lanes.NoKeyNonceReuse | noise/src/cipher.rs:38-70 | no two operations of a direction use the same key and encoded nonce |
| Lanes.RotatesInsideMessageIff | noise/src/cipher.rs:162-190 | a rotation falls between a length and its body exactly at operation 999 of an epoch, which whole messages never reach with a length |
| Lanes.PacketInEpoch | noise/src/cipher.rs:38-61 | message n is its length and its body sealed under the key of epoch n/500 and nonces 2(n%500) and 2(n%500)+1, without associated data |
| Lanes.DirectionsNeverShareKeys | noise/src/handshake.rs:433-441 | the two directions of one connection have no key in common, in any pair of epochs |
| Lanes.ReflectedPacketRejected | noise/src/cipher.rs:86-115 | a ciphertext sent back to its own sender fails to decrypt at every point of the connection |
| Lanes.FailedDecryptionIsStutter | noise/src/cipher.rs:86-115 | after any number of failed decryptions, across a rotation or not, every later ciphertext is answered as if they had not happened |
| Lanes.GenuineOpensAfterFailures | noise/src/cipher.rs:197-242 | in particular the genuine ciphertext still opens and advances the state as usual |
| Cipher.SendCipher.Encrypt | noise/src/cipher.rs:38-51 | the packet is the sealed length then the sealed body of the lane, which advances by two operations |
| Cipher.SendCipher.EncryptLength | noise/src/cipher.rs:55-61 | the sealed two-byte length; one operation |
| Cipher.SendCipher.MaybeRotate | noise/src/cipher.rs:63-70 | the stored state becomes the one the next operation uses |
| Cipher.RecvCipher.DecryptLength | noise/src/cipher.rs:86-94 | result and new state are those of the lane: the nonce moves only on success |
| Cipher.RecvCipher.DecryptMessage | noise/src/cipher.rs:101-106 | result and new state are those of the lane: the nonce moves only on success |
| Cipher.NoiseCipher.constructor | noise/src/cipher.rs:142-151 | both lanes start at nonce 0 with the shared chaining key |
| Cipher.NoiseCipher.Encrypt | noise/src/cipher.rs:162-179 | as the send half, with the receive side untouched |
| Cipher.NoiseCipher.EncryptLength | noise/src/cipher.rs:184-190 | as the send half, with the receive side untouched |
| Cipher.NoiseCipher.DecryptLength | noise/src/cipher.rs:197-208 | as the receive half, with the send side untouched |
| Cipher.NoiseCipher.DecryptMessage | noise/src/cipher.rs:215-222 | as the receive half, with the send side untouched |
| Cipher.NoiseCipher.MaybeRotateSendKey | noise/src/cipher.rs:225-232 | rotates the send lane alone |
| Cipher.NoiseCipher.MaybeRotateRecvKey | noise/src/cipher.rs:235-242 | rotates the receive lane alone |
| Cipher.NoiseCipher.Split | noise/src/cipher.rs:250-262 | two new halves that hold exactly the two lanes |
| SplitCipher.DriveUnsplit | noise/src/cipher.rs:162-222 | an unsplit cipher driven through any legal calls answers and ends as two lanes run side by side, each call touching one of them |
| SplitCipher.DriveHalves | noise/src/cipher.rs:29-116 | the two halves driven through the same calls, each by the half it belongs to, answer and end likewise |
| SplitCipher.SplitInStep | noise/src/cipher.rs:29-262 | a cipher and the halves split from it give the same output or error to every call of any sequence, rotations and failed decryptions included, and end in equal keys, nonces and chaining keys |
| SplitCipher.SplitApart | noise/src/cipher.rs:244-262 | the same when each half is driven alone, whatever the order between the directions |
| Framing.ReceiveWholePacket | ln-gossip-sim/src/conn.rs:63-81 | a stream that starts with a whole packet is accepted, its message returned, and exactly that packet consumed |
| Framing.ReceivePartialPacket | ln-gossip-sim/src/conn.rs:63-81 | a strict prefix of a packet is never accepted or misread: it is an end-of-stream error |
| Framing.ReceivedIffPacket | ln-gossip-sim/src/conn.rs:63-81 | a receive returns a message and leaves a rest exactly when the stream is that message's packet followed by that rest |
| Framing.ReceiveShortHeader | ln-gossip-sim/src/conn.rs:65-69 | a stream that ends inside the header is an end-of-stream error with the cipher untouched |
| Framing.ReceiveBadHeader | ln-gossip-sim/src/conn.rs:71-71 | a header no length was sealed into is a decryption failure that consumes it and keeps the nonce |
| Framing.ReceiveShortBody | ln-gossip-sim/src/conn.rs:74-78 | a stream too short for the announced body is an end-of-stream error |
| Framing.ReceiveBadBody | ln-gossip-sim/src/conn.rs:80-80 | a body no message of the announced length was sealed into is a decryption failure that consumes it and keeps the body's nonce |
| Framing.StreamConcat | ln-gossip-sim/src/conn.rs:34-47 | sending one list of messages after another is sending their concatenation |
| Framing.AfterMessagesIsAfter | ln-gossip-sim/src/conn.rs:42-42 | n whole messages are 2n operations, which ties the framing to the rotation laws |
| Connection.NoiseWriter.Send | ln-gossip-sim/src/conn.rs:34-47 | succeeds exactly up to 65535 bytes and appends the packet; an oversized message changes neither stream nor cipher |
| Connection.NoiseReader.Recv | ln-gossip-sim/src/conn.rs:63-81 | result, cipher and unread octets are those of the framing specification, on every stream; the `Framing` rows say what those are for genuine, cut and tampered packets |
| Connection.NoiseConnection.SendMessage | noise/src/connection.rs:74-81 | the same over the unsplit cipher, reporting the size of an oversized message |
| Connection.NoiseConnection.RecvMessage | noise/src/connection.rs:88-101 | the same receive over the unsplit cipher, the send side untouched; end of stream and failed decryption are reported as distinct errors |
| Duplex.SendKeepsFlow | ln-gossip-sim/src/conn.rs:34-47 | a send keeps: what is in flight is the encryption of the messages sent and not yet received |
| Duplex.ReceiveTakesNext | ln-gossip-sim/src/conn.rs:63-81 | a receive either waits or returns the oldest message not yet received, and keeps the same invariant |
| Duplex.NextKeepsInv | ln-gossip-sim/src/conn.rs:34-81 | every step of either peer or the network keeps it in both directions |
| Duplex.DuplexFifo | ln-gossip-sim/src/conn.rs:34-81 | over every interleaving each side has received a prefix of what the other sent, no decryption has failed, and a drained direction has equal lanes at its ends |
| Duplex.EverythingSentIsReceivable | ln-gossip-sim/src/conn.rs:63-81 | from every reachable state, delivering the octets in flight and receiving yields everything that was sent |
| Handshake.GetActOneLogs | noise/src/handshake.rs:161-193 | Act One is 50 octets; its key and its tag are what is mixed into the hash |
| Handshake.ActTwoLogs | noise/src/handshake.rs:202-279 | success completes with a 66-octet Act Three and mixes key, tag and ciphertext; a tag failure mixes the key and keeps the state; any other failure changes nothing |
| Handshake.ActOneLogs | noise/src/handshake.rs:290-364 | success awaits Act Three with a 50-octet Act Two and mixes both keys and tags; a tag failure mixes the key; any other failure changes nothing |
| Handshake.ActThreeLogs | noise/src/handshake.rs:374-417 | success completes with the sender's identity; a tag failure mixes the ciphertext and keeps the state; any other failure changes nothing |
| Handshake.StepMovesUpIff | noise/src/handshake.rs:161-417 | a call moves the state up one rank exactly when it succeeds; a completed handshake refuses every call unchanged |
| Handshake.RunSafety | noise/src/handshake.rs:161-442 | under any calls the rank only rises, no role enters the other's states, and keys are released exactly when complete |
| Handshake.FailureMutatesIffBadTag | noise/src/handshake.rs:161-417 | a failing call changes the machine exactly when what failed is a tag |
| Handshake.FailedAttemptsAreStutter | noise/src/handshake.rs:161-417 | a run without tag failures ends where the run of its successful calls alone ends |
| Handshake.NamesAreTexts | noise/src/handshake.rs:13-17 | the protocol name and prologue are the texts BOLT 8 gives |
| Handshake.GetActOneRefusals | noise/src/handshake.rs:161-164 | Act One is given out in the first state and refused, unchanged, in every other |
| Handshake.ActOneRefusals | noise/src/handshake.rs:290-310 | a wrong state, version or key is refused with its own error and changes nothing |
| Handshake.ActOneVerdict | noise/src/handshake.rs:308-330 | with a key in it, Act One is accepted exactly when its tag is the seal of nothing under the hash and the shared secret; otherwise a tag error leaves the stated mixed fields |
| Handshake.ActTwoRefusals | noise/src/handshake.rs:202-222 | a wrong state, version or key is refused with its own error and changes nothing |
| Handshake.ActTwoVerdict | noise/src/handshake.rs:220-243 | with a key in it, Act Two is accepted exactly when its tag is the seal of nothing under the hash and the shared secret; otherwise a tag error leaves the stated mixed fields |
| Handshake.ActThreeRefusals | noise/src/handshake.rs:374-400 | a wrong state, version, ciphertext or sealed key is refused with its own error and changes nothing |
| Handshake.ActThreeVerdict | noise/src/handshake.rs:394-417 | with a key sealed in it, Act Three is accepted, and the key returned, exactly when its tag is the seal of nothing; otherwise a tag error leaves the stated mixed fields |
| Handshake.ActOneAccepted | noise/src/handshake.rs:290-330 | the responder accepts the initiator's Act One and holds the initiator's hash and chaining key |
| Handshake.ActTwoAccepted | noise/src/handshake.rs:202-243 | the initiator accepts the Act Two built on its own Act One and holds the responder's hash, chaining key and temporary key |
| Handshake.ActThreeAccepted | noise/src/handshake.rs:374-417 | the responder accepts the Act Three built on its own Act Two, learns the initiator's static key, and ends with its hash and chaining key |
| Handshake.HonestCompleteness | noise/src/handshake.rs:84-454 | for all keys every act is accepted, both ends hold the same hash and chaining key at the start, after each act, and at the end, and their ciphers are crossed |
| Handshake.HonestTranscript | noise/src/handshake.rs:128-454 | the three messages, final hash, chaining key and role-swapped keys are those of a stateless definition of the BOLT 8 key schedule |
| NoiseHandshakes.NoiseHandshake.NewInitiator | noise/src/handshake.rs:84-104 | starts in the initiator's first state with the responder's key mixed in |
| NoiseHandshakes.NoiseHandshake.NewResponder | noise/src/handshake.rs:108-125 | starts in the responder's first state with its own key mixed in |
| NoiseHandshakes.NoiseHandshake.GetActOne | noise/src/handshake.rs:161-193 | message and every field are those of the specification, on success and on failure |
| NoiseHandshakes.NoiseHandshake.ProcessActTwo | noise/src/handshake.rs:202-243 | message, error and every field are those of the specification, partial updates of failed calls included |
| NoiseHandshakes.NoiseHandshake.BuildActThree | noise/src/handshake.rs:246-279 | as above, for the second half of the call |
| NoiseHandshakes.NoiseHandshake.ProcessActOne | noise/src/handshake.rs:290-330 | message, error and every field are those of the specification, partial updates of failed calls included |
| NoiseHandshakes.NoiseHandshake.BuildActTwo | noise/src/handshake.rs:333-364 | as above, for the second half of the call |
| NoiseHandshakes.NoiseHandshake.ProcessActThree | noise/src/handshake.rs:374-417 | identity, error and every field are those of the specification, partial updates of failed calls included |
| NoiseHandshakes.NoiseHandshake.GetFinalKeys | noise/src/handshake.rs:428-442 | the keys of the specification, by role, or an error before completion |
| NoiseHandshakes.NoiseHandshake.IntoCipher | noise/src/handshake.rs:451-454 | a cipher exactly when complete, holding the two lanes of the specification |
| NoiseHandshakes.NoiseHandshake.MixHash | noise/src/handshake.rs:459-464 | touches the hash alone |
| Agreement.InitiatorRunReached | noise/src/handshake.rs:202-243 | whatever an initiator is fed, while it waits its transcript is its own Act One followed by one 33-octet key per failed Act Two |
| Agreement.ResponderRunReached | noise/src/handshake.rs:290-417 | whatever a responder is fed, while it waits for Act Three its transcript shows which Act One it accepted and every failed attempt |
| Agreement.SealedUnderSameHash | noise/src/handshake.rs:252-256 | an accepted Act Three ciphertext was sealed under the responder's own hash, so both transcripts are equal |
| Agreement.SameFinalTag | noise/src/handshake.rs:402-416 | the ciphertext determines the whole Act Three a responder accepts |
| Agreement.BackwardAgreement | noise/src/handshake.rs:202-417 | if a responder fed anything accepts an Act Three whose ciphertext an initiator fed anything emitted, both are the two ends of the honest run between their keys: same messages, hash and chaining key, the intended responder, crossed keys |
| Agreement.EachLearnsTheOther | noise/src/handshake.rs:398-416 | the responder returns the initiator's static key, and each holds the other's keys |
| Agreement.ActOneAgreement | noise/src/handshake.rs:161-330 | if a responder fed anything accepts an Act One whose tag an initiator emitted, the initiator meant it, it had mixed in no failed attempt, and the whole message is the initiator's own |
| Agreement.TagSealedUnderSameHash | noise/src/handshake.rs:235-236 | an Act Two tag opens only under the responder's own hash, so the initiator's transcript is the responder's |
| Agreement.ActTwoAgreement | noise/src/handshake.rs:161-364 | if an initiator fed anything accepts an Act Two whose tag a responder fed anything emitted, it meant this responder, neither mixed in a failed attempt, and both stand where the honest run stands after Act Two, same messages included |
| Agreement.BadTagPreventsAgreement | noise/src/handshake.rs:202-417 | after a single tag failure on either side no Act Three is ever accepted from that pair |
| Agreement.StutteringRunIsHonest | noise/src/handshake.rs:161-417 | failures other than of a tag, anywhere in an honest run, leave both ends with the clean run's state and crossed keys |
| Wire.UintRoundTrip | bolt/src/wire.rs:44-58 | a big-endian integer that fits reads back, leaving what follows |
| Wire.UintCanonical | bolt/src/wire.rs:44-58 | what was read fits, and writing it gives back the bytes |
| Bytes.ToBeAt | bolt/src/wire.rs:53-55 | byte i of a written integer is its digit of weight 256^(width-1-i): most significant first |
| Wire.BigSizeRoundTrip | bolt/src/wire.rs:102-147 | every 64-bit value reads back, leaving what follows |
| Wire.BigSizeCanonical | bolt/src/wire.rs:102-129 | only minimal encodings are accepted: writing the value gives back the bytes |
| Wire.BigSizePrefixFree | bolt/src/wire.rs:133-147 | no encoding is a prefix of another |
| Wire.BigSizeBytes | bolt/src/types.rs:64-74 | an encoding has the announced length of 1, 3, 5 or 9 bytes |
| Wire.BigSizeCut | bolt/src/wire.rs:102-129 | every strict prefix of an encoding is reported as truncated |
| Wire.BigSizeErrors | bolt/src/wire.rs:102-129 | a read is truncated exactly for lack of bytes, not minimal exactly when a shorter encoding of the value exists, and never fails otherwise |
| Wire.BigSizeVectors | bolt/src/wire.rs:133-147 | the encodings on both sides of each change of length, byte by byte, as in BOLT 1, Appendix A |
| Wire.BigSizeExtends | bolt/src/wire.rs:102-129 | appended bytes do not change a value that was read |
| Wire.NotMinimalExtends | bolt/src/wire.rs:102-129 | appended bytes do not change a minimality error |
| Wire.VecCanonical | bolt/src/wire.rs:156-167 | what was read fits its 16-bit length, and writing it gives back the bytes |
| Wire.VecRoundTripIff | bolt/src/wire.rs:156-174 | a vector reads back exactly when it has fewer than 65536 bytes |
| Cursors.Cursor.ReadBytes | bolt/src/wire.rs:25-42 | result and remaining slice of a fixed array; a short slice is untouched |
| Cursors.Cursor.ReadUint | bolt/src/wire.rs:47-51 | result and remaining slice of an integer |
| Cursors.Cursor.ReadBigSize | bolt/src/wire.rs:102-129 | result and remaining slice of a BigSize, both error cases included |
| Cursors.Cursor.ReadVec | bolt/src/wire.rs:156-167 | result and remaining slice of a vector |
| Cursors.Buffer.WriteUint | bolt/src/wire.rs:53-55 | appends the big-endian bytes |
| Cursors.Buffer.WriteBigSize | bolt/src/wire.rs:133-147 | appends the minimal encoding |
| Cursors.Buffer.WriteVec | bolt/src/wire.rs:171-174 | appends the length, cast to 16 bits, and the bytes |
| Tlv.RecordRoundTrip | bolt/src/tlv.rs:79-146 | an acceptable record reads back, leaving what follows |
| Tlv.RecordCanonical | bolt/src/tlv.rs:111-146 | a record that was read is acceptable, and writing it gives back the bytes |
| Tlv.TypeRefused | bolt/src/tlv.rs:112-124 | a type not above the previous one is refused with both numbers, whatever follows |
| Tlv.BigSizeRefused | bolt/src/tlv.rs:112-127 | a bad type, or after a good type a bad length, is refused with the BigSize error |
| Tlv.ValueRefused | bolt/src/tlv.rs:129-146 | after a good type and length, a short value is an overflow; a whole one is accepted exactly when the type is odd or known |
| Tlv.DecodeIffEncoded | bolt/src/tlv.rs:79-149 | decoding yields a stream exactly when it is strictly increasing with every even type known and the bytes are its encoding: a bijection |
| Tlv.ErrorIffRefused | bolt/src/tlv.rs:106-149 | decoding fails with an error exactly when some canonical records are followed by a record refused with it |
| Tlv.ErrorIsFinal | bolt/src/tlv.rs:111-146 | an order, minimality or even-type error stands whatever bytes follow |
| Tlv.PrefixOfStream | bolt/src/tlv.rs:111-146 | a prefix of a valid stream is the stream cut between two records, or a truncation or length error |
| Tlv.InsertAt | bolt/src/tlv.rs:43-54 | inserting at the first position not below the type is sorted insertion |
| Tlv.DuplicateIsAtPosition | bolt/src/tlv.rs:43-52 | the duplicate check, which looks at one position, fires exactly when the type is present anywhere |
| Tlv.InsertIsMapInsertion | bolt/src/tlv.rs:41-64 | adding a fresh type keeps the order and changes what that type maps to and nothing else |
| Tlv.LookupFinds | bolt/src/tlv.rs:59-64 | a lookup finds the value of a type exactly when a record has it |
| Tlv.InsertAllSorts | bolt/src/tlv.rs:41-55 | adding distinct types in any order gives a sorted arrangement of exactly those records |
| Tlv.SortedIsUnique | bolt/src/tlv.rs:36-36 | there is only one sorted arrangement |
| Tlv.AddOrderIrrelevant | bolt/src/tlv.rs:41-55 | adding the same records in another order gives the same stream and the same bytes |
| TlvStreams.TlvStream.Add | bolt/src/tlv.rs:41-55 | the scan and insertion compute the sorted insertion and keep the order |
| TlvStreams.TlvStream.Get | bolt/src/tlv.rs:59-64 | the search computes the lookup |
| TlvStreams.TlvStream.Encode | bolt/src/tlv.rs:79-87 | the loop computes the encoding |
| TlvStreams.TlvStream.DecodeWithKnown | bolt/src/tlv.rs:106-149 | the cursor loop accepts and rejects as the grammar does, with the same error, and returns a sorted stream |
| TlvStreams.TlvStream.Decode | bolt/src/tlv.rs:97-99 | the same with no even type known |
| Fields.FieldRoundTrip | bolt/src/wire.rs:25-197 | every kind of field that fits reads back, leaving what follows |
| Fields.FieldCanonical | bolt/src/wire.rs:25-197 | every kind of field that was read fits, and writing it gives back the bytes |
| Fields.FieldsRoundTrip | bolt/src/open_channel.rs:112-132 | any run of fields reads back, leaving what follows |
| Fields.FieldsCanonical | bolt/src/open_channel.rs:112-132 | any run of fields that was read fits, and writing it gives back the bytes |
| Fields.FieldRefusedIff | bolt/src/wire.rs:25-197 | each kind of field fails exactly for too few bytes, with both numbers, or for an invalid key or signature, with its bytes |
| Fields.FieldsErrorIffRefused | bolt/src/open_channel.rs:112-132 | a run of fields fails with an error exactly when some good fields are followed by one refused with it |
| Messages.ConcatOfChunks | bolt/src/init.rs:128-140 | chunks and remainder partition the value, each chunk whole and the remainder shorter than one |
| Messages.ChunksOfConcat | bolt/src/init.rs:79-84 | chunking a concatenation of whole chunks gives the chunks back |
| Codec.NetworksReadBack | bolt/src/init.rs:79-140 | every networks list, absent and empty included, survives concatenation and chunking |
| Codec.NetworksCanonical | bolt/src/init.rs:128-140 | a networks value that is accepted is the concatenation of its 32-byte hashes |
| Codec.QueryOptionReadsBack | bolt/src/query_channel_range.rs:48-75 | the flags survive the BigSize nested in the TLV value |
| Codec.QueryOptionCanonical | bolt/src/query_channel_range.rs:72-75 | the value starts with the minimal encoding of the flags |
| Codec.BuildOfParts | bolt/src/lib.rs:124-178 | a message is assembled again from its fields and records, `Some` of an empty value distinct from `None` |
| Codec.PartsOfBuild | bolt/src/lib.rs:150-178 | an assembled message has the type and the fields it was assembled from |
| Codec.KeptRecords | bolt/src/init.rs:128-147 | the records a message keeps of a stream are no longer than the stream, and are the stream when as long |
| Codec.DecodedIsWellFormed | bolt/src/lib.rs:150-190 | every decoded message is well-formed, keeps the announced type, and re-encodes no longer, identically when as long |
| Codec.MessageRoundTripIff | bolt/src/lib.rs:104-190 | a message survives encode and decode exactly when its vectors fit, its keys and signatures are valid, and an unknown type is odd and outside the table |
| Grammar.WellFormedIffLiteral | bolt/src/lib.rs:81-99 | a message is well-typed, and well-formed, exactly when its fields have the written-out sizes, widths and validity, its vectors at most 65535 bytes, its hashes 32 |
| Grammar.EncodedLiterally | bolt/src/lib.rs:122-143 | a message is written as its literal type bytes, its fields in order, and its TLV records with literal types |
| Grammar.DecodesIffReads | bolt/src/lib.rs:150-190 | decoding yields a message exactly when the bytes are its literal type and fields, followed by a canonical extension it can be taken from or by bytes that are ignored |
| Grammar.DecodeErrorIff | bolt/src/lib.rs:150-190 | decoding fails with an error exactly when the type, a field, a TLV record, or the inside of a networks or query-option record is refused with it |
| Codec.Normalises | bolt/src/lib.rs:124-190 | re-encoding an accepted input decodes to the same message, keeps the type, is never longer, and differs from the input exactly when shorter |
| Codec.UnchangedIff | bolt/src/lib.rs:150-190 | an accepted input is given back by re-encoding exactly when nothing follows the fields of a message without TLVs, every TLV type is one the message has a field for, and a query option is one BigSize |
| Codec.TailIffUsed | bolt/src/init.rs:128-148 | a message is written with the records it was read from exactly when it uses every one of them |
| Codec.PingLosesTrailingByte | bolt/src/lib.rs:158-158 | a ping followed by one byte is accepted and comes back without it |
| Codec.BodyNeverUnknownType | bolt/src/lib.rs:179-188 | an unknown-even-type error comes from the type prefix alone, never from a body |
| Codec.ForwardedIff | ln-gossip-sim/src/bin/simd.rs:534-543 | exactly the decodable messages with a codec are sent, as their own encoding; a type without a codec is named, any other failure is reported with its own error |
| Codec.WellFormedIsForwarded | ln-gossip-sim/src/bin/simd.rs:534-543 | every well-formed message with a codec is sent as it is |
| Codec.ForwardingIsStable | ln-gossip-sim/src/bin/simd.rs:534-543 | a forwarded message is refused for lack of a codec exactly for types outside the table; otherwise what is sent is a fixed point that decodes like the input, is no longer, and is the input exactly when none of its bytes were ignored |
| CodecMethods.WriteFieldsTo | bolt/src/open_channel.rs:72-91 | writing field after field appends the run of fields |
| CodecMethods.ReadFieldsFrom | bolt/src/open_channel.rs:112-132 | reading field after field advances the cursor past the run, or stops at the first error |
| CodecMethods.ConcatNetworks | bolt/src/init.rs:79-85 | the loop concatenates the hashes |
| CodecMethods.ExtensionOf | bolt/src/init.rs:77-89 | adding the present extensions builds the message's record list |
| CodecMethods.EncodeMessage | bolt/src/lib.rs:124-143 | the buffer ends as the message's encoding, for any well-typed message |
| CodecMethods.DecodeMessage | bolt/src/lib.rs:150-190 | the cursor computes the decoding, every error included |
| CodecMethods.RawMessage | bolt/src/lib.rs:195-200 | a raw message is what an unknown message of that type and payload encodes to |
| Layouts.EncodesInOrder | bolt/src/channel_update.rs:46-60 | each message's encoding is its own fields appended in the order its encoder writes them, then its TLV records |
| Layouts.SignatureCoversSuffix | bolt/src/channel_update.rs:106-126 | the bytes hashed for signing are the encoding from byte 64 on, or from byte 256 where four signatures come first |
| Scid.OrIsSum | ln-gossip-sim/src/bin/simd.rs:39-39 | on 64-bit words, or-ing the shifted fields adds them, and shifting and masking takes them out again |
| Scid.PackUnpacks | ln-gossip-sim/src/bin/simd.rs:36-39 | fields within their widths are the three bit-fields of a packed 64-bit id |
| Scid.UnpackPacks | bolt/src/channel_update.rs:99-103 | every 64-bit id is packed from its three bit-fields |
| Scid.OrderIsLexicographic | bolt/src/channel_update.rs:99-103 | numeric order on ids is lexicographic order on block, transaction and output |
| Scid.ScidTextRoundTrip | bolt/src/channel_update.rs:99-104 | parsing the printed form gives back every 64-bit id |
| Scid.ParsedIffFields | ln-gossip-sim/src/bin/simd.rs:31-40 | a text parses to an id exactly when it has three fields that parse to the id's three bit-fields |
| Scid.ParsesIffWrites | ln-gossip-sim/src/bin/simd.rs:33-35 | a field parses to a number exactly when the number fits 64 bits and the field is an optional plus sign, any zeros, and the number in decimal |
| Scid.Bolt7Example | bolt/src/channel_update.rs:99-104 | the example of BOLT 7, 539268x845x1, in both directions |
| Scid.TextReadsBackIff | ln-gossip-sim/src/bin/simd.rs:31-40 | an accepted text is what its id prints as exactly when no field has a plus sign or a leading zero |
| Scid.PlusSignIsLost | ln-gossip-sim/src/bin/simd.rs:33-35 | a text with a plus sign is accepted and not printed back |
| ChannelRange.ShortIdsOfEncoded | bolt/src/reply_channel_range.rs:59-105 | every list of ids is read back from its encoding |
| ChannelRange.ShortIdsIffWhole | bolt/src/reply_channel_range.rs:90-105 | with encoding 0 the list reads back exactly when the rest is a whole number of ids, and rebuilds the same bytes |
| ChannelRange.ShortIdsRefused | bolt/src/reply_channel_range.rs:90-104 | an absent encoding, an encoding other than 0 and a broken last id are refused, each with its own error and numbers |
| ChannelRange.EncodedIdAt | bolt/src/reply_channel_range.rs:66-70 | the encoding is a zero byte and then each id in its eight bytes |
| ChannelRange.ReplyArrives | bolt/src/reply_channel_range.rs:59-158 | a reply with at most 8191 ids arrives with every field as it was given |
| ChannelRange.ScidsThroughWireIff | bolt/src/reply_channel_range.rs:59-158 | a list survives build, encode, decode and read exactly when it has at most 8191 ids |
| ChannelRange.BuildFromScids | bolt/src/reply_channel_range.rs:59-80 | the loop builds the uncompressed encoding |
| ReceiveLoop.PongIsSendable | bolt/src/pong.rs:31-33 | a pong has min(requested, 65531) padding bytes, is never too large to send, and survives the codec |
| ReceiveLoop.UndecodableIsKept | ln-gossip-sim/src/conn.rs:107-113 | an undecodable input is returned as an unknown message that encodes to the same bytes |
| ReceiveLoop.LoopTrace | ln-gossip-sim/src/conn.rs:92-116 | past any run of pings, pongs and warnings the loop returns the first other message, has written one pong per ping in order and nothing else, and left what follows unread |
| ReceiveLoop.LoopOverMessages | ln-gossip-sim/src/conn.rs:92-116 | over what a peer sent: after any pings, pongs and warnings the first other message is returned as sent, each ping answered by its literal pong |
| ReceiveLoop.LoopError | ln-gossip-sim/src/conn.rs:92-94 | when a receive fails, after any run of pings, pongs and warnings, that error is returned and exactly the pongs of the run were written |
| ReceiveLoop.LoopClosed | ln-gossip-sim/src/conn.rs:92-94 | a connection closed between messages is an end-of-stream error |
| ReceiveLoop.LoopTooShort | ln-gossip-sim/src/conn.rs:95-97 | an input of fewer than two bytes ends the loop with an error, what follows unread |
| ReceiveLoop.HandleRaw | ln-gossip-sim/src/conn.rs:95-114 | what one decrypted input makes the loop write and return, on every input |
| ReceiveLoop.RecvMessage | ln-gossip-sim/src/conn.rs:92-116 | the loop computes the specification over any stream: result, octets left, octets written and both ciphers |
| EndToEnd.CrossedDelivers | ln-gossip-sim/src/conn.rs:34-81 | between crossed ciphers every interleaving delivers, decoded and in order, a prefix of the messages sent, both ways |
| EndToEnd.CrossedDeliversAll | ln-gossip-sim/src/conn.rs:34-81 | from every reachable state, delivering what is in flight and receiving yields, decoded and in order, every message sent |
| EndToEnd.AcceptedHandshakeDelivers | noise/src/handshake.rs:451-454 | the same for the ciphers of any accepted handshake, whatever the parties were fed before |
| EndToEnd.AcceptedHandshakeDeliversAll | noise/src/handshake.rs:451-454 | the same complete delivery for the ciphers of any accepted handshake |

## Left out

- Real cryptography: the AEAD, HKDF, SHA-256 and ECDH are a free term algebra, so distinct computations never
  collide and a sealed octet never passes for a public key; a curve point is named by its scalar.
- Secrecy, and what an attacker can learn: only functional agreement, delivery and round trips are stated.
- Key and signature validity: an arbitrary predicate on 33 and on 64 bytes (`Fields.Rules`), for which every codec
  theorem holds; that writing a parsed key or signature gives back its bytes is part of the model.
- Duplex.DuplexFifo: a receive is one step that waits for a whole packet; a receive cancelled part-way by the `select!` loop of
  the daemon is not modelled.
- TCP, tokio, timeouts, logging and failing writes: a connection is a pair of byte streams and a write always succeeds.
- The `connect` functions, the Init exchange, and the daemon's peer map, commands and bitcoind calls.
- Signing and verifying of announcements (`new_signed`, `verify`) beyond which bytes are covered; the hash itself.
- Constructors and accessors that only copy fields: `Init::echo`, `Init::empty`, `Pong::new`, `TlvStream::iter`,
  `TlvStream::is_empty`, and the texts of errors and warnings.
- The 64-bit overflow of a nonce: a cipher's nonce never exceeds 1000, which its `Valid` keeps.
- Lengths beyond 64 bits and platforms whose `usize` is narrower than 64 bits.
- CodecMethods.EncodeMessage: the twelve per-message encoders and decoders are one pair over a table of layouts;
  `Layouts.EncodesInOrder`, `Grammar.DecodesIffReads` and `Grammar.DecodeErrorIff` pin the table to each message's own
  bytes, and each message is one constructor of a single datatype.
- TlvStreams.TlvStream.Add: a type already present makes the source panic; here it is a precondition, and
  `Tlv.DuplicateIsAtPosition` proves the source's check is exact.
- Scid.OrderIsLexicographic: ids are unbounded integers below 2^64; `Scid.OrIsSum` relates shift-and-or on words to sums, and the conversion between words and integers is not modelled.
