/** What acceptance of Act Three proves about two parties fed arbitrary messages. */
module Agreement {
  import opened Wrappers
  import opened Bytes
  import opened Crypto
  import opened Lanes
  import opened Handshake

  ghost predicate AllOfLength(log: seq<seq<Octet>>, from: nat, n: nat) {
    forall k :: from <= k < |log| ==> |log[k]| == n
  }

  // ----- Every state an initiator can reach -----

  /**
   * While it waits for Act Two the initiator has logged its own Act One, then one 33-octet key per
   * Act Two whose tag failed; with none of those it is exactly where Act One left it.
   */
  ghost predicate InitiatorReached(start: Party, p: Party)
    requires Consistent(start)
  {
    && SameIdentity(start, p) && Consistent(p)
    && (p.state == InitiatorStart ==> p == start)
    && (p.state == InitiatorAwaitingActTwo ==>
         var one := GetActOne(start).0;
         && Log(one.h) <= Log(p.h) && |Log(one.h)| == 4 && |Log(one.h)[3]| == 16
         && AllOfLength(Log(p.h), 4, 33)
         && (|Log(p.h)| == 4 ==> p == one))
  }

  lemma InitiatorStepReached(start: Party, p: Party, call: Call)
    requires start.state == InitiatorStart && Consistent(start) && |Log(start.h)| == 2
    requires InitiatorReached(start, p) && Typed(call)
    ensures InitiatorReached(start, Step(p, call).0)
  {
    StepMovesUpIff(p, call);
    match call
    case GetActOneCall => if p.state == InitiatorStart { GetActOneLogs(p); }
    case ActTwoCall(m) => ActTwoLogs(p, m);
    case ActOneCall(m) =>
    case ActThreeCall(m) =>
  }

  lemma {:induction false} InitiatorRunReached(start: Party, calls: seq<Call>)
    requires start.state == InitiatorStart && Consistent(start) && |Log(start.h)| == 2 && AllTyped(calls)
    ensures InitiatorReached(start, Run(start, calls))
  {
    if calls != [] {
      InitiatorRunReached(start, calls[..|calls| - 1]);
      InitiatorStepReached(start, Run(start, calls[..|calls| - 1]), calls[|calls| - 1]);
    }
  }

  lemma {:induction false} InitiatorLogGrows(start: Party, calls: seq<Call>)
    requires start.role == Initiator && Consistent(start) && AllTyped(calls)
    ensures Log(start.h) <= Log(Run(start, calls).h) && Run(start, calls).role == Initiator
  {
    if calls != [] {
      InitiatorLogGrows(start, calls[..|calls| - 1]);
      var p := Run(start, calls[..|calls| - 1]);
      match calls[|calls| - 1]
      case GetActOneCall => if p.state == InitiatorStart { GetActOneLogs(p); }
      case ActTwoCall(m) => ActTwoLogs(p, m);
      case ActOneCall(m) =>
      case ActThreeCall(m) =>
    }
  }

  // ----- Every state a responder can reach -----

  /** The log of a responder that accepted Act One at position j: its tag, the own key, the own tag, then failed Act Threes. */
  ghost predicate AcceptedAt(log: seq<seq<Octet>>, j: nat, ownKey: seq<Octet>) {
    && 3 <= j && j + 3 <= |log|
    && (forall k :: 2 <= k < j ==> |log[k]| == 33)
    && |log[j]| == 16 && log[j + 1] == ownKey && |log[j + 2]| == 16
    && AllOfLength(log, j + 3, 49)
  }

  ghost predicate ResponderReached(start: Party, p: Party)
    requires Consistent(start)
  {
    && SameIdentity(start, p) && Consistent(p)
    && Log(start.h) <= Log(p.h) && |Log(start.h)| == 2
    && (p.state == ResponderStart ==>
         AllOfLength(Log(p.h), 2, 33) && (|Log(p.h)| == 2 ==> p == start))
    && (p.state == ResponderAwaitingActThree ==>
         && (exists j :: AcceptedAt(Log(p.h), j, SerializeKey(PublicOf(p.localEphemeral))))
         && (|Log(p.h)| == 6 ==>
              var actOne := [VERSION] + Log(p.h)[2] + Log(p.h)[3];
              |actOne| == ACT_ONE_SIZE &&
              ProcessActOne(start, actOne) == (p, Act([VERSION] + Log(p.h)[4] + Log(p.h)[5]))))
  }

  lemma LogOfAcceptedActOne(p: Party, m: seq<Octet>)
    requires Consistent(p) && |m| == ACT_ONE_SIZE && ProcessActOne(p, m).1.Act?
    requires |Log(p.h)| >= 2 && AllOfLength(Log(p.h), 2, 33)
    ensures var (q, out) := ProcessActOne(p, m);
            && |Log(q.h)| == |Log(p.h)| + 4 && |out.octets| == ACT_TWO_SIZE
            && AcceptedAt(Log(q.h), |Log(p.h)| + 1, SerializeKey(PublicOf(p.localEphemeral)))
            && m == [VERSION] + Log(q.h)[|Log(p.h)|] + Log(q.h)[|Log(p.h)| + 1]
            && out.octets == [VERSION] + Log(q.h)[|Log(p.h)| + 2] + Log(q.h)[|Log(p.h)| + 3]
  {
    hide ProcessActOne, Consistent, SerializeKey;
    ActOneLogs(p, m);
    var (q, out) := ProcessActOne(p, m);
    var n, log := |Log(p.h)|, Log(q.h);
    assert |m[1..34]| == 33 && |m[34..]| == 16 && |out.octets[34..]| == 16;
    assert log[n] == m[1..34] && log[n + 1] == m[34..] && log[n + 3] == out.octets[34..];
    ActParts(m);
    ActParts(out.octets);
  }

  lemma ActParts(m: seq<Octet>)
    requires |m| == 50
    ensures m == [m[0]] + m[1..34] + m[34..]
  {
  }

  lemma ResponderAcceptsActOne(start: Party, p: Party, m: seq<Octet>)
    requires start.state == ResponderStart && Consistent(start)
    requires ResponderReached(start, p) && |m| == ACT_ONE_SIZE && ProcessActOne(p, m).1.Act?
    ensures ResponderReached(start, ProcessActOne(p, m).0)
  {
    ActOneLogs(p, m);
    LogOfAcceptedActOne(p, m);
  }

  lemma ResponderRejectsActThree(start: Party, p: Party, m: seq<Octet>)
    requires start.state == ResponderStart && Consistent(start)
    requires ResponderReached(start, p) && |m| == ACT_THREE_SIZE
    ensures ResponderReached(start, ProcessActThree(p, m).0)
  {
    ActThreeLogs(p, m);
    var q := ProcessActThree(p, m).0;
    if q != p && q.state == ResponderAwaitingActThree {
      var own := SerializeKey(PublicOf(p.localEphemeral));
      var j :| AcceptedAt(Log(p.h), j, own);
      assert |m[1..50]| == 49;
      assert AcceptedAt(Log(q.h), j, own);
      assert |Log(q.h)| > 6;
    }
  }

  lemma ResponderStepReached(start: Party, p: Party, call: Call)
    requires start.state == ResponderStart && Consistent(start)
    requires ResponderReached(start, p) && Typed(call)
    ensures ResponderReached(start, Step(p, call).0)
  {
    StepMovesUpIff(p, call);
    match call
    case GetActOneCall =>
    case ActTwoCall(m) => ActTwoLogs(p, m);
    case ActOneCall(m) =>
      ActOneLogs(p, m);
      if ProcessActOne(p, m).1.Act? { ResponderAcceptsActOne(start, p, m); }
    case ActThreeCall(m) => ResponderRejectsActThree(start, p, m);
  }

  lemma {:induction false} ResponderRunReached(start: Party, calls: seq<Call>)
    requires start.state == ResponderStart && Consistent(start) && |Log(start.h)| == 2 && AllTyped(calls)
    ensures ResponderReached(start, Run(start, calls))
  {
    if calls != [] {
      ResponderRunReached(start, calls[..|calls| - 1]);
      ResponderStepReached(start, Run(start, calls[..|calls| - 1]), calls[|calls| - 1]);
    }
  }

  // ----- Agreement -----

  /** i emits an Act Three on actTwo, and r accepts an Act Three that carries the same ciphertext. */
  ghost predicate Accepted(i: Party, actTwo: seq<Octet>, r: Party, actThree: seq<Octet>) {
    && Consistent(i) && |actTwo| == ACT_TWO_SIZE && ProcessActTwo(i, actTwo).1.Act?
    && Consistent(r) && |actThree| == ACT_THREE_SIZE && ProcessActThree(r, actThree).1.Identity?
    && |ProcessActTwo(i, actTwo).1.octets| == ACT_THREE_SIZE
    && actThree[1..50] == ProcessActTwo(i, actTwo).1.octets[1..50]
  }

  /** What was sealed in Act Three was opened under the initiator's own hash. */
  lemma SealedUnderSameHash(i: Party, actTwo: seq<Octet>, r: Party, actThree: seq<Octet>)
    requires Accepted(i, actTwo, r, actThree)
    ensures Log(r.h) == Log(i.h) + [actTwo[1..34], actTwo[34..]]
  {
    var re := ParseKey(actTwo[1..34]).value;
    var h2 := Mix(Mix(i.h, actTwo[1..34]), actTwo[34..]);
    var k2 := Second(i.ck, Ecdh(i.localEphemeral, re));
    var c := Seal(k2, 1, h2, KeyBytes(PublicOf(i.localStatic)));
    assert ProcessActTwo(i, actTwo).1.octets[1..50] == c;
    OpenedUnderSame(k2, 1, h2, KeyBytes(PublicOf(i.localStatic)), r.tempK2.value, 1, r.h);
    assert Log(Mix(i.h, actTwo[1..34])) == Log(i.h) + [actTwo[1..34]];
  }

  /** Equal logs leave room for no failed attempt on either side. */
  lemma MatchingLogsAreClean(logI: seq<seq<Octet>>, key: seq<Octet>, tag: seq<Octet>, logR: seq<seq<Octet>>, j: nat, own: seq<Octet>)
    requires logR == logI + [key, tag]
    requires |logI| >= 4 && |logI[3]| == 16 && AllOfLength(logI, 4, 33) && |key| == 33 && |tag| == 16
    requires AcceptedAt(logR, j, own)
    ensures |logI| == 4 && j == 3 && key == own
  {
    assert logR[3] == logI[3];
    assert j == 3;
    assert forall k :: 4 <= k <= |logI| ==> |logR[k]| == 33;
    assert |logR[5]| == 16;
    assert |logI| == 4;
    assert logR[4] == key;
  }

  lemma AcceptedIsClean(i0: Party, i: Party, actTwo: seq<Octet>, r0: Party, r: Party, actThree: seq<Octet>)
    requires Consistent(i0) && InitiatorReached(i0, i) && Consistent(r0) && ResponderReached(r0, r)
    requires Accepted(i, actTwo, r, actThree)
    ensures i.state == InitiatorAwaitingActTwo && r.state == ResponderAwaitingActThree
    ensures i == GetActOne(i0).0 && |Log(i.h)| == 4
    ensures actTwo[0] == VERSION && Log(r.h) == Log(i.h) + [actTwo[1..34], actTwo[34..]]
  {
    ActTwoLogs(i, actTwo);
    ActThreeLogs(r, actThree);
    SealedUnderSameHash(i, actTwo, r, actThree);
    var own := SerializeKey(PublicOf(r.localEphemeral));
    var j :| AcceptedAt(Log(r.h), j, own);
    MatchingLogsAreClean(Log(i.h), actTwo[1..34], actTwo[34..], Log(r.h), j, own);
  }

  /** Both parties, their messages and the keys they end with are those of the honest run x. */
  ghost predicate EndsOf(x: Honest, i: Party, actTwo: seq<Octet>, r: Party, actThree: seq<Octet>) {
    && i == x.i1 && actTwo == x.m2 && r == x.r1 && actThree == x.m3
    && x.i2.h == x.r2.h && x.i2.ck == x.r2.ck && Crossed(x.i2, x.r2)
  }

  /**
   * Backward agreement: if a responder, fed anything, accepts an Act Three whose ciphertext some
   * initiator, fed anything, emitted, then both are the two ends of the honest run between
   * their keys: neither mixed in a failed attempt, the initiator meant this responder, the responder
   * learned this initiator, and the whole state, transcript and crossed keys agree.
   */
  lemma BackwardAgreement(lsI: Scalar, leI: Scalar, rsI: PublicKey, callsI: seq<Call>, actTwo: seq<Octet>,
                          lsR: Scalar, leR: Scalar, callsR: seq<Call>, actThree: seq<Octet>)
    requires AllTyped(callsI) && AllTyped(callsR)
    requires Accepted(Run(NewInitiator(lsI, leI, rsI), callsI), actTwo, Run(NewResponder(lsR, leR), callsR), actThree)
    ensures rsI == PublicOf(lsR)
    ensures EndsOf(HonestRun(lsI, leI, lsR, leR), Run(NewInitiator(lsI, leI, rsI), callsI), actTwo,
                   Run(NewResponder(lsR, leR), callsR), actThree)
  {
    var i0, r0 := NewInitiator(lsI, leI, rsI), NewResponder(lsR, leR);
    var i, r := Run(i0, callsI), Run(r0, callsR);
    assert InitiatorReached(i0, i) && ResponderReached(r0, r) && Log(i0.h) <= Log(i.h) by {
      InitialLog(rsI);
      InitialLog(PublicOf(lsR));
      InitiatorRunReached(i0, callsI);
      ResponderRunReached(r0, callsR);
      InitiatorLogGrows(i0, callsI);
    }
    AcceptedIsClean(i0, i, actTwo, r0, r, actThree);
    SameStatic(rsI, lsR, i, r);
    CleanResponderIsHonest(lsI, leI, lsR, leR, i, r);
    var x := HonestRun(lsI, leI, lsR, leR);
    assert Log(r.h)[4] == actTwo[1..34] && Log(r.h)[5] == actTwo[34..];
    AcceptedEnds(x, actTwo, actThree);
    HonestLogs(x, lsI, leI, lsR, leR);
  }

  // ----- Agreement at Act One -----

  /**
   * Agreement starts at Act One: if a responder, fed anything, accepts an Act One whose tag some initiator emitted,
   * the initiator meant this responder, the responder had mixed in no failed attempt, and the whole message is the
   * initiator's own.
   */
  lemma ActOneAgreement(lsI: Scalar, leI: Scalar, rsI: PublicKey, callsI: seq<Call>,
                        lsR: Scalar, leR: Scalar, callsR: seq<Call>, actOne: seq<Octet>)
    requires AllTyped(callsI) && AllTyped(callsR) && |actOne| == ACT_ONE_SIZE
    requires ProcessActOne(Run(NewResponder(lsR, leR), callsR), actOne).1.Act?
    requires GetActOne(Run(NewInitiator(lsI, leI, rsI), callsI)).1.Act?
    requires |GetActOne(Run(NewInitiator(lsI, leI, rsI), callsI)).1.octets| == ACT_ONE_SIZE
    requires actOne[34..] == GetActOne(Run(NewInitiator(lsI, leI, rsI), callsI)).1.octets[34..]
    ensures rsI == PublicOf(lsR)
    ensures Run(NewResponder(lsR, leR), callsR) == NewResponder(lsR, leR)
    ensures actOne == GetActOne(NewInitiator(lsI, leI, rsI)).1.octets
    ensures var x := HonestRun(lsI, leI, lsR, leR);
            actOne == x.m1 && ProcessActOne(Run(NewResponder(lsR, leR), callsR), actOne).0 == x.r1
  {
    var i0, r0 := NewInitiator(lsI, leI, rsI), NewResponder(lsR, leR);
    var i, r := Run(i0, callsI), Run(r0, callsR);
    InitialLog(rsI);
    InitialLog(PublicOf(lsR));
    InitiatorRunReached(i0, callsI);
    ResponderRunReached(r0, callsR);
    assert i == i0;
    var m1 := GetActOne(i0).1.octets;
    ActOneOpened(r, actOne, i0);
    assert r == r0;
    SameStatic(rsI, lsR, i0, r0);
    GetActOneLogs(i0);
    ActParts(actOne);
    ActParts(m1);
    assert m1[0] == VERSION;
  }

  /** An Act One tag was opened under the hash its sender held, and next to the sender's own key. */
  lemma ActOneOpened(r: Party, actOne: seq<Octet>, i: Party)
    requires Consistent(r) && |actOne| == ACT_ONE_SIZE && ProcessActOne(r, actOne).1.Act?
    requires Consistent(i) && i.state == InitiatorStart
    requires |GetActOne(i).1.octets| == ACT_ONE_SIZE && actOne[34..] == GetActOne(i).1.octets[34..]
    ensures r.state == ResponderStart && actOne[0] == VERSION
    ensures r.h == i.h && actOne[1..34] == SerializeKey(PublicOf(i.localEphemeral))
  {
    var eI := SerializeKey(PublicOf(i.localEphemeral));
    var key := Second(i.ck, Ecdh(i.localEphemeral, i.remoteStatic.value));
    assert GetActOne(i).1.octets[34..] == Seal(key, 0, Mix(i.h, eI), []);
    var key' := Second(r.ck, Ecdh(r.localStatic, ParseKey(actOne[1..34]).value));
    assert Open(key', 0, Mix(r.h, actOne[1..34]), actOne[34..]).Ok?;
    OpenedUnderSame(key, 0, Mix(i.h, eI), [], key', 0, Mix(r.h, actOne[1..34]));
  }

  // ----- Agreement at Act Two -----

  /** r answers actOne with an Act Two, and i accepts an Act Two that carries the same tag. */
  ghost predicate AcceptedActTwo(r: Party, actOne: seq<Octet>, i: Party, actTwo: seq<Octet>) {
    && Consistent(r) && |actOne| == ACT_ONE_SIZE && ProcessActOne(r, actOne).1.Act?
    && |ProcessActOne(r, actOne).1.octets| == ACT_TWO_SIZE
    && Consistent(i) && |actTwo| == ACT_TWO_SIZE && ProcessActTwo(i, actTwo).1.Act?
    && actTwo[34..] == ProcessActOne(r, actOne).1.octets[34..]
  }

  /** The tag of Act Two was opened under the responder's own hash, so the initiator has seen what the responder mixed. */
  lemma TagSealedUnderSameHash(r: Party, actOne: seq<Octet>, i: Party, actTwo: seq<Octet>)
    requires AcceptedActTwo(r, actOne, i, actTwo)
    ensures Log(i.h) == Log(r.h) + [actOne[1..34], actOne[34..]]
    ensures actTwo[1..34] == SerializeKey(PublicOf(r.localEphemeral))
  {
    var eR := SerializeKey(PublicOf(r.localEphemeral));
    var hash, key := TagOf(r, actOne, eR);
    var re := ParseKey(actTwo[1..34]).value;
    var key' := Second(i.ck, Ecdh(i.localEphemeral, re));
    assert Open(key', 0, Mix(i.h, actTwo[1..34]), actTwo[34..]).Ok?;
    OpenedUnderSame(key, 0, Mix(hash, eR), [], key', 0, Mix(i.h, actTwo[1..34]));
  }

  /** The hash before the responder's own key, and the key its tag is sealed under. */
  lemma TagOf(r: Party, actOne: seq<Octet>, eR: seq<Octet>) returns (hash: Term, key: Term)
    requires Consistent(r) && |actOne| == ACT_ONE_SIZE && ProcessActOne(r, actOne).1.Act?
    requires eR == SerializeKey(PublicOf(r.localEphemeral))
    ensures Log(hash) == Log(r.h) + [actOne[1..34], actOne[34..]]
    ensures |ProcessActOne(r, actOne).1.octets| == ACT_TWO_SIZE
    ensures ProcessActOne(r, actOne).1.octets[34..] == Seal(key, 0, Mix(hash, eR), [])
  {
    var r2 := ActOneVerified(r, actOne);
    hash := r2.h;
    key := Second(r2.ck, Ecdh(r2.localEphemeral, r2.remoteEphemeral.value));
    assert BuildActTwo(r2).1.octets[34..] == Seal(key, 0, Mix(hash, eR), []);
  }

  lemma ActTwoIsClean(i0: Party, i: Party, actTwo: seq<Octet>, r0: Party, r: Party, actOne: seq<Octet>)
    requires Consistent(i0) && InitiatorReached(i0, i) && Consistent(r0) && ResponderReached(r0, r)
    requires AcceptedActTwo(r, actOne, i, actTwo)
    ensures i.state == InitiatorAwaitingActTwo && i == GetActOne(i0).0 && |Log(i.h)| == 4
    ensures r == r0 && actOne[0] == VERSION && actTwo[0] == VERSION
    ensures Log(i.h) == Log(r.h) + [actOne[1..34], actOne[34..]]
    ensures actTwo[1..34] == SerializeKey(PublicOf(r.localEphemeral))
  {
    ActTwoLogs(i, actTwo);
    ActOneLogs(r, actOne);
    TagSealedUnderSameHash(r, actOne, i, actTwo);
    var last := |Log(i.h)| - 1;
    assert Log(i.h)[last] == actOne[34..] && |actOne[34..]| == 16;
    assert last == 3;
  }

  /**
   * Agreement one act earlier, on the initiator's side: if an initiator, fed anything, accepts an Act Two whose tag some
   * responder, fed anything, emitted, then neither mixed in a failed attempt, the responder is the one the
   * initiator meant, and both stand where the honest run between their keys stands after Act Two.
   */
  lemma ActTwoAgreement(lsI: Scalar, leI: Scalar, rsI: PublicKey, callsI: seq<Call>, actTwo: seq<Octet>,
                        lsR: Scalar, leR: Scalar, callsR: seq<Call>, actOne: seq<Octet>)
    requires AllTyped(callsI) && AllTyped(callsR)
    requires AcceptedActTwo(Run(NewResponder(lsR, leR), callsR), actOne, Run(NewInitiator(lsI, leI, rsI), callsI), actTwo)
    ensures rsI == PublicOf(lsR)
    ensures var x := HonestRun(lsI, leI, lsR, leR);
            var i, r := Run(NewInitiator(lsI, leI, rsI), callsI), Run(NewResponder(lsR, leR), callsR);
            && i == x.i1 && r == x.r0 && actOne == x.m1 && actTwo == x.m2
            && ProcessActTwo(i, actTwo).0 == x.i2 && ProcessActOne(r, actOne).0 == x.r1
            && InStep(x)
  {
    hide Run, HonestRun, ProcessActOne, ProcessActTwo, ProcessActThree, GetActOne;
    var i0, r0 := NewInitiator(lsI, leI, rsI), NewResponder(lsR, leR);
    var i, r := Run(i0, callsI), Run(r0, callsR);
    assert InitiatorReached(i0, i) && ResponderReached(r0, r) && Log(i0.h) <= Log(i.h) by {
      InitialLog(rsI);
      InitialLog(PublicOf(lsR));
      InitiatorRunReached(i0, callsI);
      ResponderRunReached(r0, callsR);
      InitiatorLogGrows(i0, callsI);
    }
    ActTwoIsClean(i0, i, actTwo, r0, r, actOne);
    assert Log(r0.h) <= Log(i.h);
    SameStatic(rsI, lsR, i, i);
    var x := HonestRun(lsI, leI, lsR, leR);
    assert i == x.i1;
    SameActOne(i0, actOne, x.m1);
    SameActTwo(x, actTwo);
    HonestLogs(x, lsI, leI, lsR, leR);
  }

  /** An Act One with the initiator's key and tag is the one the initiator emitted. */
  lemma SameActOne(i0: Party, actOne: seq<Octet>, m1: seq<Octet>)
    requires Consistent(i0) && i0.state == InitiatorStart && |actOne| == ACT_ONE_SIZE && actOne[0] == VERSION
    requires GetActOne(i0).1 == Act(m1) && |Log(i0.h)| == 2
    requires Log(GetActOne(i0).0.h) == Log(i0.h) + [actOne[1..34], actOne[34..]]
    ensures actOne == m1
  {
    GetActOneLogs(i0);
    var log := Log(GetActOne(i0).0.h);
    assert log[2] == actOne[1..34] == m1[1..34] && log[3] == actOne[34..] == m1[34..];
    ActParts(actOne);
    ActParts(m1);
    assert m1[0] == VERSION;
  }

  lemma SameActTwo(x: Honest, actTwo: seq<Octet>)
    requires Consistent(x.r0) && |x.m1| == ACT_ONE_SIZE && ProcessActOne(x.r0, x.m1) == (x.r1, Act(x.m2))
    requires |x.m2| == |actTwo| == ACT_TWO_SIZE && actTwo[0] == VERSION && actTwo[34..] == x.m2[34..]
    requires actTwo[1..34] == SerializeKey(PublicOf(x.r0.localEphemeral))
    ensures actTwo == x.m2
  {
    ActOneLogs(x.r0, x.m1);
    ActParts(actTwo);
    ActParts(x.m2);
  }

  /** The responder returns the initiator's own static key, and each holds the other's ephemeral key. */
  ghost predicate EachKnowsTheOther(i: Party, actTwo: seq<Octet>, r: Party, actThree: seq<Octet>)
    requires Accepted(i, actTwo, r, actThree)
  {
    var i', r', out := ProcessActTwo(i, actTwo).0, ProcessActThree(r, actThree).0, ProcessActThree(r, actThree).1;
    && out == Identity(PublicOf(i.localStatic)) && r'.remoteStatic == Some(PublicOf(i.localStatic))
    && i'.remoteStatic == Some(PublicOf(r.localStatic))
    && i'.remoteEphemeral == Some(PublicOf(r.localEphemeral)) && r'.remoteEphemeral == Some(PublicOf(i.localEphemeral))
  }

  lemma HonestKnowledge(x: Honest, lsI: Scalar, leI: Scalar, lsR: Scalar, leR: Scalar)
    requires IsHonest(x, lsI, leI, lsR, leR)
    ensures x.i1.localStatic == lsI && x.i1.localEphemeral == leI && x.r1.localStatic == lsR && x.r1.localEphemeral == leR
    ensures x.r2.remoteStatic == Some(PublicOf(lsI)) && x.i2.remoteStatic == Some(PublicOf(lsR))
    ensures x.i2.remoteEphemeral == Some(PublicOf(leR)) && x.r2.remoteEphemeral == Some(PublicOf(leI))
  {
    ActOneAccepted(lsI, leI, lsR, leR);
    var r := x.r0.(ck := x.i1.ck, h := x.i1.h, remoteEphemeral := Some(PublicOf(leI)));
    ActTwoAccepted(x.i1, r);
    var i := x.i1.(ck := x.r1.ck, h := x.r1.h, tempK2 := x.r1.tempK2, remoteEphemeral := Some(PublicOf(leR)));
    ActThreeAccepted(x.r1, i);
  }

  lemma EachLearnsTheOther(lsI: Scalar, leI: Scalar, rsI: PublicKey, callsI: seq<Call>, actTwo: seq<Octet>,
                           lsR: Scalar, leR: Scalar, callsR: seq<Call>, actThree: seq<Octet>)
    requires AllTyped(callsI) && AllTyped(callsR)
    requires Accepted(Run(NewInitiator(lsI, leI, rsI), callsI), actTwo, Run(NewResponder(lsR, leR), callsR), actThree)
    ensures EachKnowsTheOther(Run(NewInitiator(lsI, leI, rsI), callsI), actTwo, Run(NewResponder(lsR, leR), callsR), actThree)
  {
    hide Run, HonestRun, ProcessActTwo, ProcessActThree, ProcessActOne, GetActOne, NewInitiator, NewResponder;
    BackwardAgreement(lsI, leI, rsI, callsI, actTwo, lsR, leR, callsR, actThree);
    HonestKnowledge(HonestRun(lsI, leI, lsR, leR), lsI, leI, lsR, leR);
  }

  lemma AcceptedEnds(x: Honest, actTwo: seq<Octet>, actThree: seq<Octet>)
    requires Consistent(x.r1) && |x.m3| == ACT_THREE_SIZE && ProcessActThree(x.r1, x.m3).1.Identity?
    requires Consistent(x.i1) && |x.m2| == ACT_TWO_SIZE && ProcessActTwo(x.i1, x.m2).1 == Act(x.m3)
    requires Accepted(x.i1, actTwo, x.r1, actThree)
    requires x.m2 == [actTwo[0]] + actTwo[1..34] + actTwo[34..]
    ensures actTwo == x.m2 && actThree == x.m3
  {
    hide Consistent, BuildActThree, Open, Seal, ParseKey;
    assert actTwo == [actTwo[0]] + actTwo[1..34] + actTwo[34..];
    SameFinalTag(x.r1, x.m3, actThree);
  }

  lemma CleanResponderIsHonest(lsI: Scalar, leI: Scalar, lsR: Scalar, leR: Scalar, i: Party, r: Party)
    requires i == GetActOne(NewInitiator(lsI, leI, PublicOf(lsR))).0 && |Log(i.h)| == 4
    requires ResponderReached(NewResponder(lsR, leR), r) && r.state == ResponderAwaitingActThree
    requires Log(i.h) <= Log(r.h) && |Log(r.h)| == 6
    ensures var x := HonestRun(lsI, leI, lsR, leR);
            i == x.i1 && r == x.r1 && x.m2 == [VERSION] + Log(r.h)[4] + Log(r.h)[5]
  {
    var i0 := NewInitiator(lsI, leI, PublicOf(lsR));
    var m1 := GetActOne(i0).1.octets;
    GetActOneLogs(i0);
    InitialLog(PublicOf(lsR));
    assert Log(r.h)[2] == Log(i.h)[2] == m1[1..34] && Log(r.h)[3] == Log(i.h)[3] == m1[34..];
    assert m1 == [VERSION] + m1[1..34] + m1[34..];
    var x := HonestRun(lsI, leI, lsR, leR);
    assert x.m1 == m1;
  }

  lemma SameStatic(rsI: PublicKey, lsR: Scalar, i: Party, r: Party)
    requires Log(i.h) <= Log(r.h)
    requires Log(InitializeState(rsI).1) <= Log(i.h)
    requires Log(InitializeState(PublicOf(lsR)).1) <= Log(r.h)
    ensures rsI == PublicOf(lsR)
  {
    InitialLog(rsI);
    InitialLog(PublicOf(lsR));
    assert Log(r.h)[1] == SerializeKey(rsI) == SerializeKey(PublicOf(lsR));
    ParseIffSerialized(SerializeKey(rsI), rsI);
    ParseIffSerialized(SerializeKey(rsI), PublicOf(lsR));
  }

  /** The only final tag a responder accepts after the ciphertext c. */
  function FinalTag(r: Party, c: seq<Octet>): seq<Octet>
    requires r.tempK2.Some? && Open(r.tempK2.value, 1, r.h, c).Ok?
    requires ParseKey(Lift(Open(r.tempK2.value, 1, r.h, c).value)).Some?
  {
    var rs := ParseKey(Lift(Open(r.tempK2.value, 1, r.h, c).value)).value;
    Seal(Second(r.ck, Ecdh(r.localEphemeral, rs)), 0, Mix(r.h, c), [])
  }

  lemma AcceptedTag(r: Party, m: seq<Octet>)
    requires Consistent(r) && |m| == ACT_THREE_SIZE && ProcessActThree(r, m).1.Identity?
    ensures Open(r.tempK2.value, 1, r.h, m[1..50]).Ok?
    ensures ParseKey(Lift(Open(r.tempK2.value, 1, r.h, m[1..50]).value)).Some?
    ensures m[0] == VERSION && m[50..] == FinalTag(r, m[1..50])
  {
    var c, t := m[1..50], m[50..];
    var rs := ParseKey(Lift(Open(r.tempK2.value, 1, r.h, c).value)).value;
    var k3 := Second(r.ck, Ecdh(r.localEphemeral, rs));
    assert Open(k3, 0, Mix(r.h, c), t) == Ok([]);
    OpenIffSealed(k3, 0, Mix(r.h, c), t, []);
  }

  /** The final tag is determined by the ciphertext before it. */
  lemma SameFinalTag(r: Party, m: seq<Octet>, m': seq<Octet>)
    requires Consistent(r) && |m| == |m'| == ACT_THREE_SIZE && m[1..50] == m'[1..50]
    requires ProcessActThree(r, m).1.Identity? && ProcessActThree(r, m').1.Identity?
    ensures m == m'
  {
    AcceptedTag(r, m);
    AcceptedTag(r, m');
    ActThreeParts(m);
    ActThreeParts(m');
  }

  lemma ActThreeParts(m: seq<Octet>)
    requires |m| == ACT_THREE_SIZE
    ensures m == [m[0]] + m[1..50] + m[50..]
  {
  }

  // ----- Failed attempts that leave a trace -----

  lemma {:induction false} InitiatorPoisoned(start: Party, calls: seq<Call>)
    requires start.state == InitiatorStart && Consistent(start) && |Log(start.h)| == 2 && AllTyped(calls)
    requires !NoBadTag(start, calls)
    ensures var p := Run(start, calls);
            p.state != InitiatorStart && (p.state == InitiatorAwaitingActTwo ==> |Log(p.h)| > 4)
  {
    var rest, last := calls[..|calls| - 1], calls[|calls| - 1];
    var p := Run(start, rest);
    InitiatorRunReached(start, rest);
    if !NoBadTag(start, rest) {
      InitiatorPoisoned(start, rest);
    }
    match last
    case GetActOneCall =>
    case ActTwoCall(m) => ActTwoLogs(p, m);
    case ActOneCall(m) => ActOneLogs(p, m);
    case ActThreeCall(m) => ActThreeLogs(p, m);
  }

  lemma {:induction false} ResponderPoisoned(start: Party, calls: seq<Call>)
    requires start.state == ResponderStart && Consistent(start) && |Log(start.h)| == 2 && AllTyped(calls)
    requires !NoBadTag(start, calls)
    ensures var p := Run(start, calls);
            && (p.state == ResponderStart ==> |Log(p.h)| > 2)
            && (p.state == ResponderAwaitingActThree ==> |Log(p.h)| > 6)
  {
    var rest, last := calls[..|calls| - 1], calls[|calls| - 1];
    var p := Run(start, rest);
    ResponderRunReached(start, rest);
    if !NoBadTag(start, rest) {
      ResponderPoisoned(start, rest);
    }
    match last
    case GetActOneCall =>
    case ActTwoCall(m) => ActTwoLogs(p, m);
    case ActOneCall(m) => ActOneLogs(p, m);
    case ActThreeCall(m) => ActThreeLogs(p, m);
  }

  /** A single tag failure on either side, however long ago, rules agreement out for good. */
  lemma BadTagPreventsAgreement(lsI: Scalar, leI: Scalar, rsI: PublicKey, callsI: seq<Call>, actTwo: seq<Octet>,
                                lsR: Scalar, leR: Scalar, callsR: seq<Call>, actThree: seq<Octet>)
    requires AllTyped(callsI) && AllTyped(callsR)
    requires !NoBadTag(NewInitiator(lsI, leI, rsI), callsI) || !NoBadTag(NewResponder(lsR, leR), callsR)
    ensures !Accepted(Run(NewInitiator(lsI, leI, rsI), callsI), actTwo, Run(NewResponder(lsR, leR), callsR), actThree)
  {
    var i0, r0 := NewInitiator(lsI, leI, rsI), NewResponder(lsR, leR);
    InitialLog(rsI);
    InitialLog(PublicOf(lsR));
    InitiatorRunReached(i0, callsI);
    ResponderRunReached(r0, callsR);
    if !NoBadTag(i0, callsI) { InitiatorPoisoned(i0, callsI); }
    if !NoBadTag(r0, callsR) { ResponderPoisoned(r0, callsR); }
    if Accepted(Run(i0, callsI), actTwo, Run(r0, callsR), actThree) {
      AcceptedIsClean(i0, Run(i0, callsI), actTwo, r0, Run(r0, callsR), actThree);
    }
  }

  // ----- Failed attempts that leave no trace -----

  /**
   * Stuttering: runs whose failing calls never failed by a tag, and whose succeeding calls are the
   * honest ones, end exactly where the honest run ends.
   */
  lemma StutteringRunIsHonest(lsI: Scalar, leI: Scalar, lsR: Scalar, leR: Scalar, callsI: seq<Call>, callsR: seq<Call>)
    requires AllTyped(callsI) && AllTyped(callsR)
    requires var x := HonestRun(lsI, leI, lsR, leR);
             && NoBadTag(x.i0, callsI) && Succeeding(x.i0, callsI) == [GetActOneCall, ActTwoCall(x.m2)]
             && NoBadTag(x.r0, callsR) && Succeeding(x.r0, callsR) == [ActOneCall(x.m1), ActThreeCall(x.m3)]
    ensures var x := HonestRun(lsI, leI, lsR, leR);
            Run(x.i0, callsI) == x.i2 && Run(x.r0, callsR) == x.r2 && Crossed(x.i2, x.r2)
  {
    var x := HonestRun(lsI, leI, lsR, leR);
    HonestLogs(x, lsI, leI, lsR, leR);
    FailedAttemptsAreStutter(x.i0, callsI);
    FailedAttemptsAreStutter(x.r0, callsR);
    RunTwo(x.i0, GetActOneCall, ActTwoCall(x.m2));
    RunTwo(x.r0, ActOneCall(x.m1), ActThreeCall(x.m3));
  }

  lemma RunTwo(p: Party, a: Call, b: Call)
    requires Consistent(p) && Typed(a) && Typed(b) && Consistent(Step(p, a).0)
    ensures AllTyped([a, b]) && Run(p, [a, b]) == Step(Step(p, a).0, b).0
  {
    assert [a, b][..1] == [a];
    assert [a][..0] == [];
    assert Run(p, [a]) == Step(p, a).0;
  }
}
