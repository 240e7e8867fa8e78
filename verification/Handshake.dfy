/** The Noise_XK handshake of BOLT 8 as a state machine over values. */
module Handshake {
  import opened Wrappers
  import opened Bytes
  import opened Crypto
  import opened Lanes

  const PROTOCOL_NAME: seq<byte> := [
    78, 111, 105, 115, 101, 95, 88, 75, 95, 115, 101, 99, 112, 50, 53, 54, 107, 49, 95,
    67, 104, 97, 67, 104, 97, 80, 111, 108, 121, 95, 83, 72, 65, 50, 53, 54] // "Noise_XK_secp256k1_ChaChaPoly_SHA256"
  const PROLOGUE: seq<byte> := [108, 105, 103, 104, 116, 110, 105, 110, 103] // "lightning"
  const VERSION: Octet := Raw(0)
  const ACT_ONE_SIZE: nat := 50
  const ACT_TWO_SIZE: nat := 50
  const ACT_THREE_SIZE: nat := 66

  datatype Role = Initiator | Responder

  datatype State =
    | InitiatorStart | InitiatorAwaitingActTwo
    | ResponderStart | ResponderAwaitingActThree
    | Complete

  datatype Party = Party(
    role: Role, state: State, ck: Term, h: Term,
    localStatic: Scalar, localEphemeral: Scalar,
    remoteStatic: Option<PublicKey>, remoteEphemeral: Option<PublicKey>, tempK2: Option<Term>)

  datatype Call =
    | GetActOneCall
    | ActTwoCall(actTwo: seq<Octet>)
    | ActOneCall(actOne: seq<Octet>)
    | ActThreeCall(actThree: seq<Octet>)

  datatype Outcome = Act(octets: seq<Octet>) | Identity(key: PublicKey) | Failed(error: NoiseError)

  /** The fields that later steps rely on are present, and a role stays in its own states. */
  predicate Consistent(p: Party) {
    && (p.state in {InitiatorStart, InitiatorAwaitingActTwo} ==> p.role == Initiator)
    && (p.state in {ResponderStart, ResponderAwaitingActThree} ==> p.role == Responder)
    && (p.role == Initiator ==> p.remoteStatic.Some?)
    && (p.state == ResponderAwaitingActThree ==> p.remoteEphemeral.Some? && p.tempK2.Some?)
    && (p.state == Complete ==> p.remoteStatic.Some? && p.remoteEphemeral.Some? && p.tempK2.Some?)
  }

  predicate Typed(call: Call) {
    match call
    case GetActOneCall => true
    case ActTwoCall(m) => |m| == ACT_TWO_SIZE
    case ActOneCall(m) => |m| == ACT_ONE_SIZE
    case ActThreeCall(m) => |m| == ACT_THREE_SIZE
  }

  function InitializeState(responderStatic: PublicKey): (Term, Term) {
    var ck := Digest(PROTOCOL_NAME);
    (ck, Mix(Mix(ck, Lift(PROLOGUE)), SerializeKey(responderStatic)))
  }

  function NewInitiator(localStatic: Scalar, localEphemeral: Scalar, remoteStatic: PublicKey): (p: Party)
    ensures Consistent(p)
  {
    var (ck, h) := InitializeState(remoteStatic);
    Party(Initiator, InitiatorStart, ck, h, localStatic, localEphemeral, Some(remoteStatic), None, None)
  }

  function NewResponder(localStatic: Scalar, localEphemeral: Scalar): (p: Party)
    ensures Consistent(p)
  {
    var (ck, h) := InitializeState(PublicOf(localStatic));
    Party(Responder, ResponderStart, ck, h, localStatic, localEphemeral, None, None, None)
  }

  function MixHash(p: Party, data: seq<Octet>): Party {
    p.(h := Mix(p.h, data))
  }

  /** Derives the next chaining key; the other half is the key of this act. */
  function MixKey(p: Party, ikm: Term): (Party, Term) {
    var (ck, k) := Hkdf(p.ck, ikm);
    (p.(ck := ck), k)
  }

  function GetActOne(p: Party): (Party, Outcome)
    requires Consistent(p)
  {
    if p.state != InitiatorStart then (p, Failed(InvalidState))
    else
      var ePub := SerializeKey(PublicOf(p.localEphemeral));
      var (p1, tempK1) := MixKey(MixHash(p, ePub), Ecdh(p.localEphemeral, p.remoteStatic.value));
      var c := Seal(tempK1, 0, p1.h, []);
      (MixHash(p1, c).(state := InitiatorAwaitingActTwo), Act([VERSION] + ePub + c))
  }

  function ProcessActTwo(p: Party, m: seq<Octet>): (Party, Outcome)
    requires Consistent(p) && |m| == ACT_TWO_SIZE
  {
    if p.state != InitiatorAwaitingActTwo then (p, Failed(InvalidState))
    else if m[0] != VERSION then (p, Failed(ActTwoBadVersion(m[0])))
    else
      var reBytes, c := m[1..34], m[34..];
      match ParseKey(reBytes)
      case None => (p, Failed(ActTwoBadPubkey))
      case Some(re) =>
        var (p1, tempK2) := MixKey(MixHash(p, reBytes), Ecdh(p.localEphemeral, re));
        var p2 := p1.(remoteEphemeral := Some(re), tempK2 := Some(tempK2));
        if Open(tempK2, 0, p2.h, c).Err? then (p2, Failed(ActTwoBadTag))
        else BuildActThree(MixHash(p2, c))
  }

  function BuildActThree(p: Party): (Party, Outcome)
    requires p.tempK2.Some? && p.remoteEphemeral.Some?
  {
    var c := Seal(p.tempK2.value, 1, p.h, KeyBytes(PublicOf(p.localStatic)));
    var (p1, tempK3) := MixKey(MixHash(p, c), Ecdh(p.localStatic, p.remoteEphemeral.value));
    var t := Seal(tempK3, 0, p1.h, []);
    (p1.(state := Complete), Act([VERSION] + c + t))
  }

  function ProcessActOne(p: Party, m: seq<Octet>): (Party, Outcome)
    requires Consistent(p) && |m| == ACT_ONE_SIZE
  {
    if p.state != ResponderStart then (p, Failed(InvalidState))
    else if m[0] != VERSION then (p, Failed(ActOneBadVersion(m[0])))
    else
      var reBytes, c := m[1..34], m[34..];
      match ParseKey(reBytes)
      case None => (p, Failed(ActOneBadPubkey))
      case Some(re) =>
        var (p1, tempK1) := MixKey(MixHash(p, reBytes), Ecdh(p.localStatic, re));
        var p2 := p1.(remoteEphemeral := Some(re));
        if Open(tempK1, 0, p2.h, c).Err? then (p2, Failed(ActOneBadTag))
        else BuildActTwo(MixHash(p2, c))
  }

  function BuildActTwo(p: Party): (Party, Outcome)
    requires p.remoteEphemeral.Some?
  {
    var ePub := SerializeKey(PublicOf(p.localEphemeral));
    var (p1, tempK2) := MixKey(MixHash(p, ePub), Ecdh(p.localEphemeral, p.remoteEphemeral.value));
    var c := Seal(tempK2, 0, p1.h, []);
    (MixHash(p1, c).(tempK2 := Some(tempK2), state := ResponderAwaitingActThree), Act([VERSION] + ePub + c))
  }

  function ProcessActThree(p: Party, m: seq<Octet>): (Party, Outcome)
    requires Consistent(p) && |m| == ACT_THREE_SIZE
  {
    if p.state != ResponderAwaitingActThree then (p, Failed(InvalidState))
    else if m[0] != VERSION then (p, Failed(ActThreeBadVersion(m[0])))
    else
      var c, t := m[1..50], m[50..];
      match Open(p.tempK2.value, 1, p.h, c)
      case Err(_) => (p, Failed(ActThreeBadCiphertext))
      case Ok(rsBytes) =>
        match ParseKey(Lift(rsBytes))
        case None => (p, Failed(ActThreeBadPubkey))
        case Some(rs) =>
          var (p1, tempK3) := MixKey(MixHash(p, c), Ecdh(p.localEphemeral, rs));
          var p2 := p1.(remoteStatic := Some(rs));
          if Open(tempK3, 0, p2.h, t).Err? then (p2, Failed(ActThreeBadTag))
          else (p2.(state := Complete), Identity(rs))
  }

  /** Send key and receive key, by role. */
  function FinalKeys(p: Party): Result<(Term, Term), NoiseError> {
    if p.state != Complete then Err(HandshakeIncomplete)
    else
      var (sk, rk) := Hkdf(p.ck, Nothing);
      Ok(if p.role == Initiator then (sk, rk) else (rk, sk))
  }

  /** Send lane and receive lane of the cipher the handshake turns into. */
  function IntoLanes(p: Party): Result<(Lane, Lane), NoiseError> {
    match FinalKeys(p)
    case Err(e) => Err(e)
    case Ok((send, recv)) => Ok((Lane(send, 0, p.ck), Lane(recv, 0, p.ck)))
  }

  // ----- What each call mixes into the handshake hash -----

  /** The data mixed into a handshake hash, in order. */
  function Log(h: Term): seq<seq<Octet>> {
    match h
    case Mix(prev, data) => Log(prev) + [data]
    case _ => []
  }

  lemma GetActOneLogs(p: Party)
    requires Consistent(p) && p.state == InitiatorStart
    ensures var (q, out) := GetActOne(p);
            && q == p.(ck := q.ck, h := q.h, state := InitiatorAwaitingActTwo)
            && out.Act? && |out.octets| == ACT_ONE_SIZE
            && Log(q.h) == Log(p.h) + [out.octets[1..34], out.octets[34..]]
            && out.octets[1..34] == SerializeKey(PublicOf(p.localEphemeral))
  {
    var (q, out) := GetActOne(p);
    var ePub := SerializeKey(PublicOf(p.localEphemeral));
    assert out.octets[1..34] == ePub;
    assert q.h == Mix(Mix(p.h, ePub), out.octets[34..]);
    assert Log(Mix(p.h, ePub)) == Log(p.h) + [ePub];
  }

  lemma ActTwoLogs(p: Party, m: seq<Octet>)
    requires Consistent(p) && |m| == ACT_TWO_SIZE
    ensures var (q, out) := ProcessActTwo(p, m);
            && SameIdentity(p, q)
            && (out.Failed? && !IsBadTag(out.error) ==> q == p)
            && (out.Failed? && IsBadTag(out.error) ==>
                 p.state == q.state == InitiatorAwaitingActTwo && Log(q.h) == Log(p.h) + [m[1..34]] && Consistent(q))
            && (!out.Failed? ==>
                 && p.state == InitiatorAwaitingActTwo && q.state == Complete && Consistent(q)
                 && out.Act? && |out.octets| == ACT_THREE_SIZE
                 && m[0] == VERSION
                 && Log(q.h) == Log(p.h) + [m[1..34], m[34..], out.octets[1..50]])
  {
    var (q, out) := ProcessActTwo(p, m);
    var h1 := Mix(p.h, m[1..34]);
    var h2 := Mix(h1, m[34..]);
    assert Log(h1) == Log(p.h) + [m[1..34]];
    assert Log(h2) == Log(p.h) + [m[1..34], m[34..]];
    if out.Act? {
      assert q.h == Mix(h2, out.octets[1..50]);
    }
  }

  lemma BuildActTwoLogs(p: Party)
    requires p.remoteEphemeral.Some?
    ensures var (q, out) := BuildActTwo(p);
            && SameIdentity(p, q) && q.state == ResponderAwaitingActThree
            && q.remoteEphemeral.Some? && q.tempK2.Some? && q.remoteStatic == p.remoteStatic
            && out.Act? && |out.octets| == ACT_TWO_SIZE && out.octets[0] == VERSION
            && Log(q.h) == Log(p.h) + [out.octets[1..34], out.octets[34..]]
            && out.octets[1..34] == SerializeKey(PublicOf(p.localEphemeral))
  {
    var (q, out) := BuildActTwo(p);
    var ePub := SerializeKey(PublicOf(p.localEphemeral));
    assert out.octets[1..34] == ePub;
    assert q.h == Mix(Mix(p.h, ePub), out.octets[34..]);
    assert Log(Mix(p.h, ePub)) == Log(p.h) + [ePub];
  }

  /** The responder between the two halves of ProcessActOne: Act One taken in, Act Two not yet built. */
  lemma ActOneVerified(p: Party, m: seq<Octet>) returns (p2: Party)
    requires Consistent(p) && |m| == ACT_ONE_SIZE && ProcessActOne(p, m).1.Act?
    ensures p.state == ResponderStart && m[0] == VERSION
    ensures p2.remoteEphemeral.Some? && p2.remoteStatic == p.remoteStatic && SameIdentity(p, p2)
    ensures Log(p2.h) == Log(p.h) + [m[1..34], m[34..]] && ProcessActOne(p, m) == BuildActTwo(p2)
  {
    hide Seal, Open, SerializeKey;
    var re := ParseKey(m[1..34]).value;
    var h2 := Mix(Mix(p.h, m[1..34]), m[34..]);
    p2 := p.(ck := First(p.ck, Ecdh(p.localStatic, re)), h := h2, remoteEphemeral := Some(re));
    assert Log(Mix(p.h, m[1..34])) == Log(p.h) + [m[1..34]];
  }

  lemma ActOneTakenLogs(p: Party, m: seq<Octet>)
    requires Consistent(p) && |m| == ACT_ONE_SIZE && ProcessActOne(p, m).1.Act?
    ensures var (q, out) := ProcessActOne(p, m);
            && SameIdentity(p, q) && Consistent(q)
            && p.state == ResponderStart && q.state == ResponderAwaitingActThree
            && |out.octets| == ACT_TWO_SIZE && out.octets[0] == VERSION && m[0] == VERSION
            && Log(q.h) == Log(p.h) + [m[1..34], m[34..], out.octets[1..34], out.octets[34..]]
            && out.octets[1..34] == SerializeKey(PublicOf(p.localEphemeral))
  {
    hide ProcessActOne, BuildActTwo, SerializeKey, Log;
    var out := ProcessActOne(p, m).1;
    var p2 := ActOneVerified(p, m);
    BuildActTwoLogs(p2);
    assert Log(p.h) + [m[1..34], m[34..]] + [out.octets[1..34], out.octets[34..]] ==
           Log(p.h) + [m[1..34], m[34..], out.octets[1..34], out.octets[34..]];
  }

  lemma ActOneLogs(p: Party, m: seq<Octet>)
    requires Consistent(p) && |m| == ACT_ONE_SIZE
    ensures var (q, out) := ProcessActOne(p, m);
            && SameIdentity(p, q)
            && (out.Failed? && !IsBadTag(out.error) ==> q == p)
            && (out.Failed? && IsBadTag(out.error) ==>
                 p.state == q.state == ResponderStart && Log(q.h) == Log(p.h) + [m[1..34]] && Consistent(q))
            && (!out.Failed? ==>
                 && p.state == ResponderStart && q.state == ResponderAwaitingActThree && Consistent(q)
                 && out.Act? && |out.octets| == ACT_TWO_SIZE && out.octets[0] == VERSION
                 && m[0] == VERSION
                 && Log(q.h) == Log(p.h) + [m[1..34], m[34..], out.octets[1..34], out.octets[34..]]
                 && out.octets[1..34] == SerializeKey(PublicOf(p.localEphemeral)))
  {
    hide Seal, Open, SerializeKey;
    if ProcessActOne(p, m).1.Act? {
      ActOneTakenLogs(p, m);
    }
  }

  lemma ActThreeLogs(p: Party, m: seq<Octet>)
    requires Consistent(p) && |m| == ACT_THREE_SIZE
    ensures var (q, out) := ProcessActThree(p, m);
            && SameIdentity(p, q)
            && (out.Failed? && !IsBadTag(out.error) ==> q == p)
            && (out.Failed? && IsBadTag(out.error) ==>
                 p.state == q.state == ResponderAwaitingActThree && Log(q.h) == Log(p.h) + [m[1..50]] && Consistent(q))
            && (!out.Failed? ==>
                 && p.state == ResponderAwaitingActThree && q.state == Complete && Consistent(q)
                 && out.Identity? && Log(q.h) == Log(p.h) + [m[1..50]])
  {
  }

  predicate IsBadTag(e: NoiseError) {
    e.ActOneBadTag? || e.ActTwoBadTag? || e.ActThreeBadTag?
  }

  /** A party's role and own keys, which no call changes. */
  predicate SameIdentity(p: Party, q: Party) {
    p.role == q.role && p.localStatic == q.localStatic && p.localEphemeral == q.localEphemeral
  }

  // ----- Runs of public calls -----

  function Step(p: Party, call: Call): (Party, Outcome)
    requires Consistent(p) && Typed(call)
  {
    match call
    case GetActOneCall => GetActOne(p)
    case ActTwoCall(m) => ProcessActTwo(p, m)
    case ActOneCall(m) => ProcessActOne(p, m)
    case ActThreeCall(m) => ProcessActThree(p, m)
  }

  predicate AllTyped(calls: seq<Call>) {
    forall i :: 0 <= i < |calls| ==> Typed(calls[i])
  }

  lemma StepKeepsConsistent(p: Party, call: Call)
    requires Consistent(p) && Typed(call)
    ensures Consistent(Step(p, call).0)
  {
    hide ProcessActOne, ProcessActTwo, ProcessActThree, Seal, SerializeKey, Log;
    match call
    case GetActOneCall =>
    case ActTwoCall(m) => ActTwoLogs(p, m);
    case ActOneCall(m) => ActOneLogs(p, m);
    case ActThreeCall(m) => ActThreeLogs(p, m);
  }

  function Run(p: Party, calls: seq<Call>): (q: Party)
    requires Consistent(p) && AllTyped(calls)
    ensures Consistent(q)
  {
    if calls == [] then p
    else
      var q := Run(p, calls[..|calls| - 1]);
      StepKeepsConsistent(q, calls[|calls| - 1]);
      Step(q, calls[|calls| - 1]).0
  }

  function Rank(s: State): nat {
    match s
    case InitiatorStart => 0
    case ResponderStart => 0
    case InitiatorAwaitingActTwo => 1
    case ResponderAwaitingActThree => 1
    case Complete => 2
  }

  /** A call either fails in the same state or moves one state up; a finished handshake refuses every call. */
  lemma StepMovesUpIff(p: Party, call: Call)
    requires Consistent(p) && Typed(call)
    ensures var (q, out) := Step(p, call);
            && SameIdentity(p, q)
            && (out.Failed? ==> q.state == p.state)
            && (!out.Failed? ==> Rank(q.state) == Rank(p.state) + 1)
            && (p.state == Complete ==> (q, out) == (p, Failed(InvalidState)))
  {
    match call
    case GetActOneCall => if p.state == InitiatorStart { GetActOneLogs(p); }
    case ActTwoCall(m) => ActTwoLogs(p, m);
    case ActOneCall(m) => ActOneLogs(p, m);
    case ActThreeCall(m) => ActThreeLogs(p, m);
  }

  /**
   * Run safety: under any calls with any inputs the rank only rises, a role never enters the other
   * role's states, and keys are released exactly when the handshake is complete.
   */
  lemma {:induction false} RunSafety(p: Party, calls: seq<Call>)
    requires Consistent(p) && AllTyped(calls)
    ensures var q := Run(p, calls);
            && SameIdentity(p, q)
            && Rank(p.state) <= Rank(q.state)
            && (q.role == Initiator ==> q.state in {InitiatorStart, InitiatorAwaitingActTwo, Complete})
            && (q.role == Responder ==> q.state in {ResponderStart, ResponderAwaitingActThree, Complete})
            && (FinalKeys(q).Ok? <==> q.state == Complete)
            && (q.state != Complete ==> FinalKeys(q) == Err(HandshakeIncomplete))
            && (p.state == Complete ==> q == p)
  {
    if calls != [] {
      RunSafety(p, calls[..|calls| - 1]);
      StepMovesUpIff(Run(p, calls[..|calls| - 1]), calls[|calls| - 1]);
    }
  }

  // ----- Failures that leave no trace -----

  /** A failing call changes the party exactly when what failed is the tag of an act. */
  lemma FailureMutatesIffBadTag(p: Party, call: Call)
    requires Consistent(p) && Typed(call) && Step(p, call).1.Failed?
    ensures Step(p, call).0 != p <==> IsBadTag(Step(p, call).1.error)
  {
    var q := Step(p, call).0;
    if IsBadTag(Step(p, call).1.error) {
      assert Log(q.h) != Log(p.h);
    }
  }

  predicate NoBadTag(p: Party, calls: seq<Call>)
    requires Consistent(p) && AllTyped(calls)
  {
    calls == [] ||
    var q, last := Run(p, calls[..|calls| - 1]), calls[|calls| - 1];
    NoBadTag(p, calls[..|calls| - 1]) && (Step(q, last).1.Failed? ==> !IsBadTag(Step(q, last).1.error))
  }

  /** The calls of a run that did not fail. */
  function Succeeding(p: Party, calls: seq<Call>): (s: seq<Call>)
    requires Consistent(p) && AllTyped(calls)
    ensures AllTyped(s)
  {
    if calls == [] then []
    else
      var q, last := Run(p, calls[..|calls| - 1]), calls[|calls| - 1];
      Succeeding(p, calls[..|calls| - 1]) + (if Step(q, last).1.Failed? then [] else [last])
  }

  /**
   * Any number of attempts failing other than by a tag, anywhere in a run, leave the party
   * exactly where the clean run without them would have left it.
   */
  lemma {:induction false} FailedAttemptsAreStutter(p: Party, calls: seq<Call>)
    requires Consistent(p) && AllTyped(calls) && NoBadTag(p, calls)
    ensures Run(p, calls) == Run(p, Succeeding(p, calls))
  {
    if calls != [] {
      var rest, last := calls[..|calls| - 1], calls[|calls| - 1];
      FailedAttemptsAreStutter(p, rest);
      var q := Run(p, rest);
      if Step(q, last).1.Failed? {
        FailureMutatesIffBadTag(q, last);
        assert Succeeding(p, calls) == Succeeding(p, rest);
      } else {
        assert Succeeding(p, calls)[..|Succeeding(p, calls)| - 1] == Succeeding(p, rest);
      }
    }
  }

  // ----- Honest completeness -----

  /** The two parties and the three messages of a run where each act reaches the other side intact. */
  datatype Honest = Honest(i0: Party, r0: Party, m1: seq<Octet>, i1: Party, m2: seq<Octet>, r1: Party,
                           m3: seq<Octet>, i2: Party, r2: Party)

  ghost predicate IsHonest(x: Honest, lsI: Scalar, leI: Scalar, lsR: Scalar, leR: Scalar) {
    && x.i0 == NewInitiator(lsI, leI, PublicOf(lsR))
    && x.r0 == NewResponder(lsR, leR)
    && GetActOne(x.i0) == (x.i1, Act(x.m1)) && |x.m1| == ACT_ONE_SIZE
    && ProcessActOne(x.r0, x.m1) == (x.r1, Act(x.m2)) && |x.m2| == ACT_TWO_SIZE
    && Consistent(x.i1) && ProcessActTwo(x.i1, x.m2) == (x.i2, Act(x.m3)) && |x.m3| == ACT_THREE_SIZE
    && Consistent(x.r1) && ProcessActThree(x.r1, x.m3) == (x.r2, Identity(PublicOf(lsI)))
  }

  /** A party that has taken in its peer's act: the peer's chaining key and hash, and its ephemeral key. */
  function CaughtUp(p: Party, peer: Party): Party {
    p.(ck := peer.ck, h := peer.h, remoteEphemeral := Some(PublicOf(peer.localEphemeral)))
  }

  /**
   * Both ends agree at each point where they have seen the same messages: at the start, after Act One, after
   * Act Two (where they also share the temporary key) and at the end.
   */
  ghost predicate InStep(x: Honest)
    requires Consistent(x.r0) && |x.m1| == ACT_ONE_SIZE && Consistent(x.i1) && |x.m2| == ACT_TWO_SIZE
  {
    && x.i0.ck == x.r0.ck && x.i0.h == x.r0.h
    && ProcessActOne(x.r0, x.m1) == BuildActTwo(CaughtUp(x.r0, x.i1))
    && x.r1.tempK2.Some?
    && ProcessActTwo(x.i1, x.m2) == BuildActThree(CaughtUp(x.i1, x.r1).(tempK2 := x.r1.tempK2))
    && Log(x.i1.h) < Log(x.r1.h) < Log(x.i2.h)
    && x.r1.tempK2 == x.i2.tempK2
    && x.i2.ck == x.r2.ck && x.i2.h == x.r2.h
    && x.i2.state == Complete && x.r2.state == Complete
  }

  /** The send lane of each is the receive lane of the other. */
  ghost predicate Crossed(i: Party, r: Party) {
    && IntoLanes(i).Ok? && IntoLanes(r).Ok?
    && IntoLanes(i).value.0 == IntoLanes(r).value.1 == Lane(First(i.ck, Nothing), 0, i.ck)
    && IntoLanes(i).value.1 == IntoLanes(r).value.0 == Lane(Second(i.ck, Nothing), 0, i.ck)
  }

  lemma InitialLog(rs: PublicKey)
    ensures Log(InitializeState(rs).1) == [Lift(PROLOGUE), SerializeKey(rs)]
  {
    var h0 := Digest(PROTOCOL_NAME);
    assert Log(Mix(h0, Lift(PROLOGUE))) == [Lift(PROLOGUE)];
  }

  /** The responder accepts the initiator's Act One and knows what the initiator knows. */
  lemma ActOneAccepted(lsI: Scalar, leI: Scalar, lsR: Scalar, leR: Scalar)
    ensures var i0, r0 := NewInitiator(lsI, leI, PublicOf(lsR)), NewResponder(lsR, leR);
            var (i1, out1) := GetActOne(i0);
            && out1.Act? && |out1.octets| == ACT_ONE_SIZE
            && var r := r0.(ck := i1.ck, h := i1.h, remoteEphemeral := Some(PublicOf(leI)));
            ProcessActOne(r0, out1.octets) == BuildActTwo(r)
  {
    var i0, r0 := NewInitiator(lsI, leI, PublicOf(lsR)), NewResponder(lsR, leR);
    var (i1, out1) := GetActOne(i0);
    var ePub := SerializeKey(PublicOf(leI));
    EcdhCommutes(leI, lsR);
    var h1, k1 := Mix(i0.h, ePub), Second(i0.ck, Ecdh(leI, PublicOf(lsR)));
    var c := Seal(k1, 0, h1, []);
    assert out1.octets[1..34] == ePub && out1.octets[34..] == c;
    ParseIffSerialized(ePub, PublicOf(leI));
    OpenIffSealed(k1, 0, h1, c, []);
  }

  /** The initiator accepts the Act Two built on its own Act One. */
  lemma ActTwoAccepted(i1: Party, r: Party)
    requires Consistent(i1) && i1.state == InitiatorAwaitingActTwo
    requires i1.ck == r.ck && i1.h == r.h && r.remoteEphemeral == Some(PublicOf(i1.localEphemeral))
    ensures var (r1, out2) := BuildActTwo(r);
            && out2.Act? && |out2.octets| == ACT_TWO_SIZE
            && var i := i1.(ck := r1.ck, h := r1.h, tempK2 := r1.tempK2, remoteEphemeral := Some(PublicOf(r.localEphemeral)));
            ProcessActTwo(i1, out2.octets) == BuildActThree(i)
  {
    var (r1, out2) := BuildActTwo(r);
    var ePub := SerializeKey(PublicOf(r.localEphemeral));
    EcdhCommutes(i1.localEphemeral, r.localEphemeral);
    var h1, k2 := Mix(r.h, ePub), Second(r.ck, Ecdh(r.localEphemeral, r.remoteEphemeral.value));
    var c := Seal(k2, 0, h1, []);
    assert out2.octets[1..34] == ePub && out2.octets[34..] == c;
    ParseIffSerialized(ePub, PublicOf(r.localEphemeral));
    OpenIffSealed(k2, 0, h1, c, []);
  }

  /** The responder accepts the Act Three built on its own Act Two, and learns who sent it. */
  lemma ActThreeAccepted(r1: Party, i: Party)
    requires Consistent(r1) && r1.state == ResponderAwaitingActThree
    requires i.ck == r1.ck && i.h == r1.h && i.tempK2 == r1.tempK2
    requires i.remoteEphemeral == Some(PublicOf(r1.localEphemeral))
    ensures var (i2, out3) := BuildActThree(i);
            && out3.Act? && |out3.octets| == ACT_THREE_SIZE
            && ProcessActThree(r1, out3.octets) ==
               (r1.(ck := i2.ck, h := i2.h, remoteStatic := Some(PublicOf(i.localStatic)), state := Complete),
                Identity(PublicOf(i.localStatic)))
  {
    var (i2, out3) := BuildActThree(i);
    var s := PublicOf(i.localStatic);
    var c := Seal(i.tempK2.value, 1, i.h, KeyBytes(s));
    EcdhCommutes(i.localStatic, r1.localEphemeral);
    var k3 := Second(i.ck, Ecdh(i.localStatic, i.remoteEphemeral.value));
    var t := Seal(k3, 0, i2.h, []);
    assert out3.octets[1..50] == c && out3.octets[50..] == t;
    OpenIffSealed(i.tempK2.value, 1, i.h, c, KeyBytes(s));
    ParseIffSerialized(Lift(KeyBytes(s)), s);
    OpenIffSealed(k3, 0, i2.h, t, []);
  }

  function HonestRun(lsI: Scalar, leI: Scalar, lsR: Scalar, leR: Scalar): (x: Honest)
    ensures IsHonest(x, lsI, leI, lsR, leR)
  {
    var i0, r0 := NewInitiator(lsI, leI, PublicOf(lsR)), NewResponder(lsR, leR);
    ActOneAccepted(lsI, leI, lsR, leR);
    var a := GetActOne(i0);
    var r := r0.(ck := a.0.ck, h := a.0.h, remoteEphemeral := Some(PublicOf(leI)));
    ActTwoAccepted(a.0, r);
    var b := BuildActTwo(r);
    var i := a.0.(ck := b.0.ck, h := b.0.h, tempK2 := b.0.tempK2, remoteEphemeral := Some(PublicOf(leR)));
    ActThreeAccepted(b.0, i);
    var c := ProcessActTwo(a.0, b.1.octets);
    var d := ProcessActThree(b.0, c.1.octets);
    Honest(i0, r0, a.1.octets, a.0, b.1.octets, b.0, c.1.octets, c.0, d.0)
  }

  /**
   * Honest completeness: for all static and ephemeral keys every act is accepted, the two ends agree
   * wherever they have seen the same messages, and their ciphers decrypt each other both ways.
   */
  lemma HonestCompleteness(lsI: Scalar, leI: Scalar, lsR: Scalar, leR: Scalar)
    ensures exists x :: IsHonest(x, lsI, leI, lsR, leR) && InStep(x) && Crossed(x.i2, x.r2)
  {
    var x := HonestRun(lsI, leI, lsR, leR);
    HonestLogs(x, lsI, leI, lsR, leR);
    assert IsHonest(x, lsI, leI, lsR, leR) && InStep(x) && Crossed(x.i2, x.r2);
  }

  lemma HonestLogs(x: Honest, lsI: Scalar, leI: Scalar, lsR: Scalar, leR: Scalar)
    requires IsHonest(x, lsI, leI, lsR, leR)
    ensures InStep(x) && Crossed(x.i2, x.r2)
  {
    hide GetActOne, ProcessActOne, ProcessActTwo, ProcessActThree, BuildActTwo, BuildActThree, Log;
    HonestLogsGrow(x, lsI, leI, lsR, leR);
    HonestEndsAgree(x, lsI, leI, lsR, leR);
    HonestActsCatchUp(x, lsI, leI, lsR, leR);
  }

  /** After each act its receiver holds the sender's chaining key and hash, and only then answers. */
  lemma HonestActsCatchUp(x: Honest, lsI: Scalar, leI: Scalar, lsR: Scalar, leR: Scalar)
    requires IsHonest(x, lsI, leI, lsR, leR)
    ensures ProcessActOne(x.r0, x.m1) == BuildActTwo(CaughtUp(x.r0, x.i1))
    ensures x.r1.tempK2.Some?
    ensures ProcessActTwo(x.i1, x.m2) == BuildActThree(CaughtUp(x.i1, x.r1).(tempK2 := x.r1.tempK2))
  {
    ActOneAccepted(lsI, leI, lsR, leR);
    ActTwoAccepted(x.i1, CaughtUp(x.r0, x.i1));
  }

  /** The texts of the constants. */
  lemma NamesAreTexts()
    ensures var name := "Noise_XK_secp256k1_ChaChaPoly_SHA256";
            |PROTOCOL_NAME| == |name| && forall i :: 0 <= i < |name| ==> PROTOCOL_NAME[i] == name[i] as int
    ensures |PROLOGUE| == |"lightning"| && forall i :: 0 <= i < 9 ==> PROLOGUE[i] == "lightning"[i] as int
  {
  }

  // ----- What each act accepts, and how it refuses the rest -----

  /** No key is written like this. */
  ghost predicate NotAKey(os: seq<Octet>) {
    forall p :: os != SerializeKey(p)
  }

  lemma UnparsedIff(os: seq<Octet>)
    ensures ParseKey(os) == None <==> NotAKey(os)
  {
    if ParseKey(os).Some? {
      ParseIffSerialized(os, ParseKey(os).value);
    }
    forall p | os == SerializeKey(p) ensures ParseKey(os) == Some(p) {
      ParseIffSerialized(os, p);
    }
  }

  /** A 16-octet tag opens exactly when it is the seal of nothing. */
  lemma TagIff(key: Term, h: Term, tag: seq<Octet>)
    requires |tag| == MAC_SIZE
    ensures Open(key, 0, h, tag).Ok? <==> tag == Seal(key, 0, h, [])
  {
    OpenIffSealed(key, 0, h, tag, []);
    if Open(key, 0, h, tag).Ok? {
      assert Open(key, 0, h, tag).value == [];
    }
  }

  /** Act One is refused for the state, then the version, then the key, before anything changes. */
  lemma ActOneRefusals(p: Party, m: seq<Octet>)
    requires Consistent(p) && |m| == ACT_ONE_SIZE
    ensures ProcessActOne(p, m) == (p, Failed(InvalidState)) <==> p.state != ResponderStart
    ensures p.state == ResponderStart && m[0] != Raw(0) ==> ProcessActOne(p, m) == (p, Failed(ActOneBadVersion(m[0])))
    ensures p.state == ResponderStart && m[0] == Raw(0) && NotAKey(m[1..34]) ==>
              ProcessActOne(p, m) == (p, Failed(ActOneBadPubkey))
  {
    UnparsedIff(m[1..34]);
  }

  /** With a key in it, Act One is accepted exactly when its tag was sealed under the hash and the shared secret. */
  lemma ActOneVerdict(p: Party, re: PublicKey, tag: seq<Octet>)
    requires Consistent(p) && p.state == ResponderStart && |tag| == MAC_SIZE
    ensures var h, es := Mix(p.h, SerializeKey(re)), Shared(multiset{p.localStatic, re.scalar});
            var (q, out) := ProcessActOne(p, [Raw(0)] + SerializeKey(re) + tag);
            && (out.Act? <==> tag == Seal(Second(p.ck, es), 0, h, []))
            && (!out.Act? ==> out == Failed(ActOneBadTag) &&
                              q == p.(ck := First(p.ck, es), h := h, remoteEphemeral := Some(re)))
  {
    var m := [Raw(0)] + SerializeKey(re) + tag;
    assert m[1..34] == SerializeKey(re) && m[34..] == tag;
    ParseIffSerialized(m[1..34], re);
    TagIff(Second(p.ck, Ecdh(p.localStatic, re)), Mix(p.h, m[1..34]), tag);
  }

  /** Act Two is refused for the state, then the version, then the key, before anything changes. */
  lemma ActTwoRefusals(p: Party, m: seq<Octet>)
    requires Consistent(p) && |m| == ACT_TWO_SIZE
    ensures ProcessActTwo(p, m) == (p, Failed(InvalidState)) <==> p.state != InitiatorAwaitingActTwo
    ensures p.state == InitiatorAwaitingActTwo && m[0] != Raw(0) ==>
              ProcessActTwo(p, m) == (p, Failed(ActTwoBadVersion(m[0])))
    ensures p.state == InitiatorAwaitingActTwo && m[0] == Raw(0) && NotAKey(m[1..34]) ==>
              ProcessActTwo(p, m) == (p, Failed(ActTwoBadPubkey))
  {
    UnparsedIff(m[1..34]);
  }

  /** With a key in it, Act Two is accepted exactly when its tag was sealed under the hash and the shared secret. */
  lemma ActTwoVerdict(p: Party, re: PublicKey, tag: seq<Octet>)
    requires Consistent(p) && p.state == InitiatorAwaitingActTwo && |tag| == MAC_SIZE
    ensures var h, ee := Mix(p.h, SerializeKey(re)), Shared(multiset{p.localEphemeral, re.scalar});
            var (q, out) := ProcessActTwo(p, [Raw(0)] + SerializeKey(re) + tag);
            && (out.Act? <==> tag == Seal(Second(p.ck, ee), 0, h, []))
            && (!out.Act? ==> out == Failed(ActTwoBadTag) &&
                              q == p.(ck := First(p.ck, ee), h := h, remoteEphemeral := Some(re), tempK2 := Some(Second(p.ck, ee))))
  {
    var m := [Raw(0)] + SerializeKey(re) + tag;
    assert m[1..34] == SerializeKey(re) && m[34..] == tag;
    ParseIffSerialized(m[1..34], re);
    TagIff(Second(p.ck, Ecdh(p.localEphemeral, re)), Mix(p.h, m[1..34]), tag);
  }

  /** Nobody sealed the ciphertext for this point of the handshake. */
  ghost predicate NothingSealed(p: Party, c: seq<Octet>)
    requires p.tempK2.Some?
  {
    forall bs :: c != Seal(p.tempK2.value, 1, p.h, bs)
  }

  /** The ciphertext was sealed for this point of the handshake, but what is in it is not a key. */
  ghost predicate NoKeySealed(p: Party, c: seq<Octet>)
    requires p.tempK2.Some?
  {
    exists bs :: c == Seal(p.tempK2.value, 1, p.h, bs) && NotAKey(Lift(bs))
  }

  /** Act Three is refused for the state, the version, the ciphertext and the key inside it, before anything changes. */
  lemma ActThreeRefusals(p: Party, m: seq<Octet>)
    requires Consistent(p) && |m| == ACT_THREE_SIZE
    ensures ProcessActThree(p, m) == (p, Failed(InvalidState)) <==> p.state != ResponderAwaitingActThree
    ensures p.state == ResponderAwaitingActThree && m[0] != Raw(0) ==>
              ProcessActThree(p, m) == (p, Failed(ActThreeBadVersion(m[0])))
    ensures p.state == ResponderAwaitingActThree && m[0] == Raw(0) && NothingSealed(p, m[1..50]) ==>
              ProcessActThree(p, m) == (p, Failed(ActThreeBadCiphertext))
    ensures p.state == ResponderAwaitingActThree && m[0] == Raw(0) && NoKeySealed(p, m[1..50]) ==>
              ProcessActThree(p, m) == (p, Failed(ActThreeBadPubkey))
  {
    if p.state == ResponderAwaitingActThree {
      var k2, c := p.tempK2.value, m[1..50];
      if NoKeySealed(p, c) {
        var bs :| c == Seal(k2, 1, p.h, bs) && NotAKey(Lift(bs));
        OpenIffSealed(k2, 1, p.h, c, bs);
        UnparsedIff(Lift(bs));
      } else if Open(k2, 1, p.h, c).Ok? {
        OpenIffSealed(k2, 1, p.h, c, Open(k2, 1, p.h, c).value);
      }
    }
  }

  /** With a key sealed in it, Act Three is accepted exactly when its tag was sealed under the hash and the shared secret. */
  lemma ActThreeVerdict(p: Party, rs: PublicKey, tag: seq<Octet>)
    requires Consistent(p) && p.state == ResponderAwaitingActThree && |tag| == MAC_SIZE
    ensures var c := Seal(p.tempK2.value, 1, p.h, KeyBytes(rs));
            var h, se := Mix(p.h, c), Shared(multiset{p.localEphemeral, rs.scalar});
            var q := p.(ck := First(p.ck, se), h := h, remoteStatic := Some(rs));
            ProcessActThree(p, [Raw(0)] + c + tag) ==
            if tag == Seal(Second(p.ck, se), 0, h, []) then (q.(state := Complete), Identity(rs))
            else (q, Failed(ActThreeBadTag))
  {
    var c := Seal(p.tempK2.value, 1, p.h, KeyBytes(rs));
    var m := [Raw(0)] + c + tag;
    assert m[1..50] == c && m[50..] == tag;
    OpenIffSealed(p.tempK2.value, 1, p.h, c, KeyBytes(rs));
    ParseIffSerialized(Lift(KeyBytes(rs)), rs);
    TagIff(Second(p.ck, Ecdh(p.localEphemeral, rs)), Mix(p.h, c), tag);
  }

  /** Act One is given out exactly once, at the start. */
  lemma GetActOneRefusals(p: Party)
    requires Consistent(p)
    ensures GetActOne(p) == (p, Failed(InvalidState)) <==> p.state != InitiatorStart
    ensures GetActOne(p).1.Act? <==> p.state == InitiatorStart
  {
  }

  // ----- The transcript BOLT 8 prescribes -----

  /** The three messages, the final chaining key and the final hash, written down without any state. */
  datatype Transcript = Transcript(m1: seq<Octet>, m2: seq<Octet>, m3: seq<Octet>, ck: Term, h: Term)

  function Prescribed(lsI: Scalar, leI: Scalar, lsR: Scalar, leR: Scalar): Transcript {
    var es, ee, se := Shared(multiset{leI, lsR}), Shared(multiset{leI, leR}), Shared(multiset{lsI, leR});
    var ck0 := Digest(PROTOCOL_NAME);
    var ck1 := First(ck0, es);
    var ck2 := First(ck1, ee);
    var eI, eR := SerializeKey(PublicOf(leI)), SerializeKey(PublicOf(leR));
    var h1 := Mix(Mix(Mix(ck0, Lift(PROLOGUE)), SerializeKey(PublicOf(lsR))), eI);
    var c1 := Seal(Second(ck0, es), 0, h1, []);
    var h2 := Mix(Mix(h1, c1), eR);
    var c2 := Seal(Second(ck1, ee), 0, h2, []);
    var h3 := Mix(h2, c2);
    var c3 := Seal(Second(ck1, ee), 1, h3, KeyBytes(PublicOf(lsI)));
    var h4 := Mix(h3, c3);
    var t := Seal(Second(ck2, se), 0, h4, []);
    Transcript([Raw(0)] + eI + c1, [Raw(0)] + eR + c2, [Raw(0)] + c3 + t, First(ck2, se), h4)
  }

  /** The honest run produces exactly the prescribed messages and ends in the prescribed keys on both sides. */
  lemma HonestTranscript(lsI: Scalar, leI: Scalar, lsR: Scalar, leR: Scalar)
    ensures var x, t := HonestRun(lsI, leI, lsR, leR), Prescribed(lsI, leI, lsR, leR);
            && (x.m1, x.m2, x.m3) == (t.m1, t.m2, t.m3)
            && x.i2.ck == x.r2.ck == t.ck && x.i2.h == x.r2.h == t.h
            && FinalKeys(x.i2) == Ok((First(t.ck, Nothing), Second(t.ck, Nothing)))
            && FinalKeys(x.r2) == Ok((Second(t.ck, Nothing), First(t.ck, Nothing)))
  {
    var x := HonestRun(lsI, leI, lsR, leR);
    HonestEndsAgree(x, lsI, leI, lsR, leR);
    EcdhCommutes(leI, leR);
    ActOneAccepted(lsI, leI, lsR, leR);
    var r := x.r0.(ck := x.i1.ck, h := x.i1.h, remoteEphemeral := Some(PublicOf(leI)));
    assert ProcessActOne(x.r0, x.m1) == BuildActTwo(r);
    ActTwoAccepted(x.i1, r);
    var i := x.i1.(ck := x.r1.ck, h := x.r1.h, tempK2 := x.r1.tempK2, remoteEphemeral := Some(PublicOf(leR)));
    assert ProcessActTwo(x.i1, x.m2) == BuildActThree(i);
  }

  lemma HonestEndsAgree(x: Honest, lsI: Scalar, leI: Scalar, lsR: Scalar, leR: Scalar)
    requires IsHonest(x, lsI, leI, lsR, leR)
    ensures x.r1.tempK2 == x.i2.tempK2 && x.i2.ck == x.r2.ck && x.i2.h == x.r2.h
    ensures x.i2.state == x.r2.state == Complete && x.i2.role == Initiator && x.r2.role == Responder
  {
    ActOneAccepted(lsI, leI, lsR, leR);
    var r := x.r0.(ck := x.i1.ck, h := x.i1.h, remoteEphemeral := Some(PublicOf(leI)));
    ActTwoAccepted(x.i1, r);
    var i := x.i1.(ck := x.r1.ck, h := x.r1.h, tempK2 := x.r1.tempK2, remoteEphemeral := Some(PublicOf(leR)));
    ActThreeAccepted(x.r1, i);
  }

  lemma HonestLogsGrow(x: Honest, lsI: Scalar, leI: Scalar, lsR: Scalar, leR: Scalar)
    requires IsHonest(x, lsI, leI, lsR, leR)
    ensures Log(x.i1.h) < Log(x.r1.h) < Log(x.i2.h)
  {
    hide GetActOne, ProcessActOne, ProcessActTwo, ProcessActThree;
    GetActOneLogs(x.i0);
    ActOneLogs(x.r0, x.m1);
    ActTwoLogs(x.i1, x.m2);
  }
}
