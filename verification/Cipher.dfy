/** One direction of the post-handshake cipher as a value, and its laws. */
module Lanes {
  import opened Wrappers
  import opened Bytes
  import opened Crypto

  const KEY_ROTATION_THRESHOLD: nat := 1000
  const MAX_MESSAGE_SIZE: nat := 65535
  const ENCRYPTED_LENGTH_SIZE: nat := 2 + MAC_SIZE

  datatype Lane = Lane(key: Term, nonce: nat, ck: Term)

  /** The lane the next operation will use: the key is rotated lazily, just before use. */
  function Ready(l: Lane): (r: Lane)
    ensures r.nonce < KEY_ROTATION_THRESHOLD
  {
    if l.nonce >= KEY_ROTATION_THRESHOLD then
      var (ck, key) := Hkdf(l.ck, l.key);
      Lane(key, 0, ck)
    else l
  }

  function Advance(l: Lane): (r: Lane)
    ensures 1 <= r.nonce <= KEY_ROTATION_THRESHOLD
  {
    var r := Ready(l);
    r.(nonce := r.nonce + 1)
  }

  function SealNext(l: Lane, plaintext: seq<byte>): seq<Octet> {
    var r := Ready(l);
    Seal(r.key, r.nonce, Nothing, plaintext)
  }

  /** A failed decryption leaves the rotation done but the nonce where it was. */
  function OpenNext(l: Lane, ciphertext: seq<Octet>): (Lane, Result<seq<byte>, NoiseError>) {
    var r := Ready(l);
    var p := Open(r.key, r.nonce, Nothing, ciphertext);
    (if p.Ok? then Advance(l) else r, p)
  }

  function EncryptLength(l: Lane, length: nat): seq<Octet> {
    SealNext(l, ToBe(length, 2))
  }

  function Encrypt(l: Lane, plaintext: seq<byte>): (packet: seq<Octet>)
    ensures |packet| == ENCRYPTED_LENGTH_SIZE + |plaintext| + MAC_SIZE
  {
    EncryptLength(l, |plaintext|) + SealNext(Advance(l), plaintext)
  }

  function DecryptLength(l: Lane, header: seq<Octet>): (Lane, Result<nat, NoiseError>)
    requires |header| == ENCRYPTED_LENGTH_SIZE
  {
    var (l', p) := OpenNext(l, header);
    (l', if p.Ok? then Ok(FromBe(p.value)) else Err(p.error))
  }

  /** What a header opened to is a two-byte length. */
  lemma DecryptedLengthFits(l: Lane, header: seq<Octet>)
    requires |header| == ENCRYPTED_LENGTH_SIZE
    ensures DecryptLength(l, header).1.Ok? ==> DecryptLength(l, header).1.value <= MAX_MESSAGE_SIZE
  {
    var p := OpenNext(l, header).1;
    if p.Ok? {
      FromBeBound(p.value);
      assert Pow256(2) == 65536;
    }
  }

  /** After n operations, whatever they carried. */
  function After(root: Lane, n: nat): Lane {
    if n == 0 then root else Advance(After(root, n - 1))
  }

  lemma {:induction false} AfterComposes(root: Lane, m: nat, n: nat)
    ensures After(After(root, m), n) == After(root, m + n)
  {
    if n > 0 {
      AfterComposes(root, m, n - 1);
    }
  }

  // ----- Rotation in closed form -----

  /** The lane's keys after e rotations. */
  function Epoch(root: Lane, e: nat): (l: Lane)
    ensures l.nonce == 0
  {
    if e == 0 then root.(nonce := 0)
    else
      var p := Epoch(root, e - 1);
      Lane(Second(p.ck, p.key), 0, First(p.ck, p.key))
  }

  /** Operation n (from 0) runs in epoch n / 1000 under nonce n % 1000. */
  lemma {:induction false} OperationInEpoch(root: Lane, n: nat)
    requires root.nonce == 0
    ensures Ready(After(root, n)) == Epoch(root, n / 1000).(nonce := n % 1000)
  {
    if n > 0 {
      OperationInEpoch(root, n - 1);
      assert After(root, n) == Epoch(root, (n - 1) / 1000).(nonce := (n - 1) % 1000 + 1);
      if n % 1000 == 0 {
        assert n / 1000 == (n - 1) / 1000 + 1;
      } else {
        assert n / 1000 == (n - 1) / 1000;
      }
    }
  }

  /** The stored state lags the rotation: it is performed by the first operation of the new epoch. */
  lemma RotationClosedForm(root: Lane, n: nat)
    requires root.nonce == 0 && n > 0
    ensures After(root, n) == Epoch(root, (n - 1) / 1000).(nonce := (n - 1) % 1000 + 1)
  {
    OperationInEpoch(root, n - 1);
  }

  /**
   * Message n of a direction, from 0, is sent under the key of epoch n / 500: its length under nonce 2 * (n % 500),
   * its body under the next one, neither with associated data.
   */
  lemma PacketInEpoch(root: Lane, n: nat, plaintext: seq<byte>)
    requires root.nonce == 0
    ensures var key, nonce := Epoch(root, n / 500).key, 2 * (n % 500);
            Encrypt(After(root, 2 * n), plaintext) ==
            Seal(key, nonce, Nothing, ToBe(|plaintext|, 2)) + Seal(key, nonce + 1, Nothing, plaintext)
  {
    OperationInEpoch(root, 2 * n);
    OperationInEpoch(root, 2 * n + 1);
    assert (2 * n) / 1000 == n / 500 && (2 * n) % 1000 == 2 * (n % 500);
    assert (2 * n + 1) / 1000 == n / 500 && (2 * n + 1) % 1000 == 2 * (n % 500) + 1;
    assert After(root, 2 * n + 1) == Advance(After(root, 2 * n));
  }

  function Depth(t: Term): nat {
    match t
    case First(s, i) => 1 + (if Depth(s) > Depth(i) then Depth(s) else Depth(i))
    case Second(s, i) => 1 + (if Depth(s) > Depth(i) then Depth(s) else Depth(i))
    case _ => 0
  }

  lemma {:induction false} EpochKeysGrow(root: Lane, d: nat, e: nat)
    requires d < e
    ensures Depth(Epoch(root, d).key) < Depth(Epoch(root, e).key)
  {
    if d < e - 1 {
      EpochKeysGrow(root, d, e - 1);
    }
  }

  /** No two operations of a direction ever share a key and an encoded nonce. */
  lemma NoKeyNonceReuse(root: Lane, m: nat, n: nat)
    requires root.nonce == 0 && m != n
    ensures var a, b := Ready(After(root, m)), Ready(After(root, n));
            !(a.key == b.key && EncodeNonce(a.nonce) == EncodeNonce(b.nonce))
  {
    OperationInEpoch(root, m);
    OperationInEpoch(root, n);
    if m / 1000 < n / 1000 {
      EpochKeysGrow(root, m / 1000, n / 1000);
    } else if n / 1000 < m / 1000 {
      EpochKeysGrow(root, n / 1000, m / 1000);
    } else {
      assert m % 1000 != n % 1000;
      if EncodeNonce(m % 1000) == EncodeNonce(n % 1000) {
        EncodeNonceInjective(m % 1000, n % 1000);
      }
    }
  }

  /**
   * A length and its body straddle a rotation exactly when the length is operation
   * 999 of an epoch; a run of whole messages puts every length on an even operation.
   */
  lemma RotatesInsideMessageIff(root: Lane, n: nat)
    requires root.nonce == 0
    ensures var length, body := Ready(After(root, n)), Ready(After(root, n + 1));
            body.key != length.key <==> n % 1000 == 999
    ensures Ready(After(root, 2 * n)).key == Ready(After(root, 2 * n + 1)).key
  {
    OperationInEpoch(root, n);
    OperationInEpoch(root, n + 1);
    OperationInEpoch(root, 2 * n);
    OperationInEpoch(root, 2 * n + 1);
    assert (2 * n) % 1000 % 2 == 0 by {
      assert 2 * n == 1000 * ((2 * n) / 1000) + (2 * n) % 1000;
      assert (2 * n) % 1000 == 2 * (n - 500 * ((2 * n) / 1000));
    }
    assert (2 * n + 1) / 1000 == (2 * n) / 1000;
    if n % 1000 == 999 {
      assert (n + 1) / 1000 == n / 1000 + 1;
      EpochKeysGrow(root, n / 1000, n / 1000 + 1);
    } else {
      assert (n + 1) / 1000 == n / 1000;
    }
  }

  /** The two directions of a connection, started from the two halves of one HKDF output, never share a key. */
  lemma {:induction false} DirectionsNeverShareKeys(ck: Term, d: nat, e: nat)
    ensures Epoch(Lane(First(ck, Nothing), 0, ck), d).key != Epoch(Lane(Second(ck, Nothing), 0, ck), e).key
    decreases d
  {
    if d > 0 {
      if e > 0 {
        DirectionsNeverShareKeys(ck, d - 1, e - 1);
      } else {
        assert Epoch(Lane(First(ck, Nothing), 0, ck), d - 1).key != Nothing;
      }
    }
  }

  /** So a packet reflected back to its sender is rejected, at any point of the connection. */
  lemma ReflectedPacketRejected(ck: Term, m: nat, n: nat, plaintext: seq<byte>)
    ensures OpenNext(After(Lane(Second(ck, Nothing), 0, ck), n),
                     SealNext(After(Lane(First(ck, Nothing), 0, ck), m), plaintext)).1.Err?
    ensures OpenNext(After(Lane(First(ck, Nothing), 0, ck), n),
                     SealNext(After(Lane(Second(ck, Nothing), 0, ck), m), plaintext)).1.Err?
  {
    var s, r := Lane(First(ck, Nothing), 0, ck), Lane(Second(ck, Nothing), 0, ck);
    OperationInEpoch(s, m);
    OperationInEpoch(r, n);
    OperationInEpoch(r, m);
    OperationInEpoch(s, n);
    DirectionsNeverShareKeys(ck, m / 1000, n / 1000);
    DirectionsNeverShareKeys(ck, n / 1000, m / 1000);
    var a, b := Ready(After(s, m)), Ready(After(r, n));
    if Open(b.key, b.nonce, Nothing, Seal(a.key, a.nonce, Nothing, plaintext)).Ok? {
      OpenedUnderSame(a.key, a.nonce, Nothing, plaintext, b.key, b.nonce, Nothing);
    }
    var c, d := Ready(After(r, m)), Ready(After(s, n));
    if Open(d.key, d.nonce, Nothing, Seal(c.key, c.nonce, Nothing, plaintext)).Ok? {
      OpenedUnderSame(c.key, c.nonce, Nothing, plaintext, d.key, d.nonce, Nothing);
    }
  }

  // ----- Failed decryption -----

  function OpenAll(l: Lane, attempts: seq<seq<Octet>>): Lane
    decreases |attempts|
  {
    if attempts == [] then l else OpenAll(OpenNext(l, attempts[0]).0, attempts[1..])
  }

  predicate AllFail(l: Lane, attempts: seq<seq<Octet>>)
    decreases |attempts|
  {
    attempts == [] || (OpenNext(l, attempts[0]).1.Err? && AllFail(OpenNext(l, attempts[0]).0, attempts[1..]))
  }

  /**
   * After any number of bad ciphertexts, at a rotation boundary or not, the lane answers
   * every later ciphertext as if they had never been tried.
   */
  lemma {:induction false} FailedDecryptionIsStutter(l: Lane, attempts: seq<seq<Octet>>, ciphertext: seq<Octet>)
    requires AllFail(l, attempts)
    ensures Ready(OpenAll(l, attempts)) == Ready(l)
    ensures OpenNext(OpenAll(l, attempts), ciphertext) == OpenNext(l, ciphertext)
    decreases |attempts|
  {
    if attempts != [] {
      FailedDecryptionIsStutter(OpenNext(l, attempts[0]).0, attempts[1..], ciphertext);
    }
  }

  /** In particular the genuine ciphertext still opens, and moves the lane as it would have. */
  lemma GenuineOpensAfterFailures(l: Lane, attempts: seq<seq<Octet>>, plaintext: seq<byte>)
    requires AllFail(l, attempts)
    ensures OpenNext(OpenAll(l, attempts), SealNext(l, plaintext)) == (Advance(l), Ok(plaintext))
  {
    FailedDecryptionIsStutter(l, attempts, SealNext(l, plaintext));
    OpenIffSealed(Ready(l).key, Ready(l).nonce, Nothing, SealNext(l, plaintext), plaintext);
  }
}

/** Splitting a cipher into halves that two tasks drive independently. */
module Split {
  import opened Wrappers
  import opened Bytes
  import opened Crypto
  import opened Lanes

  datatype SendOp = EncryptLengthOp(length: nat) | EncryptOp(plaintext: seq<byte>)

  datatype RecvOp = DecryptLengthOp(header: seq<Octet>) | DecryptMessageOp(ciphertext: seq<Octet>)

  datatype Op = ToSend(send: SendOp) | ToRecv(recv: RecvOp)

  datatype Received = Length(length: Result<nat, NoiseError>) | Message(message: Result<seq<byte>, NoiseError>)

  datatype Output = Packet(octets: seq<Octet>) | Plain(received: Received)

  /** What a SendCipher does for one call. */
  function SendStep(l: Lane, op: SendOp): (Lane, seq<Octet>) {
    match op
    case EncryptLengthOp(n) => (Advance(l), EncryptLength(l, n))
    case EncryptOp(p) => (Advance(Advance(l)), Encrypt(l, p))
  }

  /** What a RecvCipher does for one call; a header is always 18 octets. */
  function RecvStep(l: Lane, op: RecvOp): (Lane, Received) {
    match op
    case DecryptLengthOp(h) =>
      if |h| == ENCRYPTED_LENGTH_SIZE then
        var (l', r) := DecryptLength(l, h);
        (l', Length(r))
      else (l, Length(Err(Io)))
    case DecryptMessageOp(c) =>
      var (l', r) := OpenNext(l, c);
      (l', Message(r))
  }

  function RunSend(l: Lane, ops: seq<SendOp>): (Lane, seq<seq<Octet>>) {
    if ops == [] then (l, [])
    else
      var p := RunSend(l, ops[..|ops| - 1]);
      var q := SendStep(p.0, ops[|ops| - 1]);
      (q.0, p.1 + [q.1])
  }

  function RunRecv(l: Lane, ops: seq<RecvOp>): (Lane, seq<Received>) {
    if ops == [] then (l, [])
    else
      var p := RunRecv(l, ops[..|ops| - 1]);
      var q := RecvStep(p.0, ops[|ops| - 1]);
      (q.0, p.1 + [q.1])
  }

  datatype Unsplit = Unsplit(send: Lane, recv: Lane, out: seq<Output>)

  function UnsplitStep(u: Unsplit, op: Op): Unsplit {
    match op
    case ToSend(o) =>
      var q := SendStep(u.send, o);
      Unsplit(q.0, u.recv, u.out + [Packet(q.1)])
    case ToRecv(o) =>
      var q := RecvStep(u.recv, o);
      Unsplit(u.send, q.0, u.out + [Plain(q.1)])
  }

  /** The unsplit cipher: one state, calls of both directions in any order. */
  function RunUnsplit(s: Lane, r: Lane, ops: seq<Op>): Unsplit {
    if ops == [] then Unsplit(s, r, [])
    else UnsplitStep(RunUnsplit(s, r, ops[..|ops| - 1]), ops[|ops| - 1])
  }

  function SendOps(ops: seq<Op>): seq<SendOp> {
    if ops == [] then []
    else if ops[0].ToSend? then [ops[0].send] + SendOps(ops[1..])
    else SendOps(ops[1..])
  }

  function RecvOps(ops: seq<Op>): seq<RecvOp> {
    if ops == [] then []
    else if ops[0].ToRecv? then [ops[0].recv] + RecvOps(ops[1..])
    else RecvOps(ops[1..])
  }

  function Packets(out: seq<Output>): seq<seq<Octet>> {
    if out == [] then []
    else if out[0].Packet? then [out[0].octets] + Packets(out[1..])
    else Packets(out[1..])
  }

  function Plains(out: seq<Output>): seq<Received> {
    if out == [] then []
    else if out[0].Plain? then [out[0].received] + Plains(out[1..])
    else Plains(out[1..])
  }

  lemma {:induction false} OpsOfAppend(ops: seq<Op>, op: Op)
    ensures SendOps(ops + [op]) == if op.ToSend? then SendOps(ops) + [op.send] else SendOps(ops)
    ensures RecvOps(ops + [op]) == if op.ToRecv? then RecvOps(ops) + [op.recv] else RecvOps(ops)
  {
    if ops == [] {
      assert ops + [op] == [op];
      assert [op][1..] == [];
    } else {
      OpsOfAppend(ops[1..], op);
      assert (ops + [op])[1..] == ops[1..] + [op];
    }
  }

  lemma {:induction false} OutputsOfAppend(out: seq<Output>, o: Output)
    ensures Packets(out + [o]) == if o.Packet? then Packets(out) + [o.octets] else Packets(out)
    ensures Plains(out + [o]) == if o.Plain? then Plains(out) + [o.received] else Plains(out)
  {
    if out == [] {
      assert out + [o] == [o];
      assert [o][1..] == [];
    } else {
      OutputsOfAppend(out[1..], o);
      assert (out + [o])[1..] == out[1..] + [o];
    }
  }

  lemma RunSendAppend(l: Lane, ops: seq<SendOp>, op: SendOp)
    ensures var p := RunSend(l, ops);
            var q := SendStep(p.0, op);
            RunSend(l, ops + [op]) == (q.0, p.1 + [q.1])
  {
    assert (ops + [op])[..|ops|] == ops;
  }

  lemma RunRecvAppend(l: Lane, ops: seq<RecvOp>, op: RecvOp)
    ensures var p := RunRecv(l, ops);
            var q := RecvStep(p.0, op);
            RunRecv(l, ops + [op]) == (q.0, p.1 + [q.1])
  {
    assert (ops + [op])[..|ops|] == ops;
  }

  ghost predicate Agrees(s: Lane, r: Lane, ops: seq<Op>, u: Unsplit) {
    && RunSend(s, SendOps(ops)) == (u.send, Packets(u.out))
    && RunRecv(r, RecvOps(ops)) == (u.recv, Plains(u.out))
  }

  lemma StepAgrees(s: Lane, r: Lane, ops: seq<Op>, op: Op, u: Unsplit)
    requires Agrees(s, r, ops, u)
    ensures Agrees(s, r, ops + [op], UnsplitStep(u, op))
  {
    OpsOfAppend(ops, op);
    match op
    case ToSend(o) =>
      RunSendAppend(s, SendOps(ops), o);
      OutputsOfAppend(u.out, Packet(SendStep(u.send, o).1));
    case ToRecv(o) =>
      RunRecvAppend(r, RecvOps(ops), o);
      OutputsOfAppend(u.out, Plain(RecvStep(u.recv, o).1));
  }

  /**
   * From any state, under any interleaving, the unsplit cipher answers each direction's calls
   * exactly as that half would have answered them alone, and ends in the same state.
   */
  lemma {:induction false} SplitRefinesUnsplit(s: Lane, r: Lane, ops: seq<Op>)
    ensures Agrees(s, r, ops, RunUnsplit(s, r, ops))
  {
    if ops != [] {
      SplitRefinesUnsplit(s, r, ops[..|ops| - 1]);
      StepAgrees(s, r, ops[..|ops| - 1], ops[|ops| - 1], RunUnsplit(s, r, ops[..|ops| - 1]));
      assert ops == ops[..|ops| - 1] + [ops[|ops| - 1]];
    }
  }
}

/** The stateful ciphers: SendCipher, RecvCipher and the unsplit NoiseCipher. */
module Cipher {
  import opened Wrappers
  import opened Bytes
  import opened Crypto
  import opened Lanes

  class SendCipher {
    var key: Term
    var nonce: nat
    var ck: Term

    ghost predicate Valid()
      reads this
    {
      nonce <= KEY_ROTATION_THRESHOLD
    }

    ghost function View(): Lane
      reads this
    {
      Lane(key, nonce, ck)
    }

    constructor (key: Term, nonce: nat, ck: Term)
      requires nonce <= KEY_ROTATION_THRESHOLD
      ensures Valid() && View() == Lane(key, nonce, ck)
    {
      this.key, this.nonce, this.ck := key, nonce, ck;
    }

    method Encrypt(plaintext: seq<byte>) returns (packet: seq<Octet>)
      requires Valid() && |plaintext| <= MAX_MESSAGE_SIZE
      modifies this
      ensures Valid()
      ensures packet == Lanes.Encrypt(old(View()), plaintext)
      ensures View() == Advance(Advance(old(View())))
    {
      var encryptedLen := EncryptLength(|plaintext|);
      MaybeRotate();
      var encryptedMsg := Seal(key, nonce, Nothing, plaintext);
      nonce := nonce + 1;
      packet := encryptedLen + encryptedMsg;
    }

    method EncryptLength(length: nat) returns (encrypted: seq<Octet>)
      requires Valid() && length <= MAX_MESSAGE_SIZE
      modifies this
      ensures Valid()
      ensures encrypted == Lanes.EncryptLength(old(View()), length)
      ensures View() == Advance(old(View()))
    {
      MaybeRotate();
      encrypted := Seal(key, nonce, Nothing, ToBe(length, 2));
      nonce := nonce + 1;
    }

    method MaybeRotate()
      modifies this
      ensures Valid() && View() == Ready(old(View()))
    {
      if nonce >= KEY_ROTATION_THRESHOLD {
        var keys := Hkdf(ck, key);
        ck := keys.0;
        key := keys.1;
        nonce := 0;
      }
    }
  }

  class RecvCipher {
    var key: Term
    var nonce: nat
    var ck: Term

    ghost predicate Valid()
      reads this
    {
      nonce <= KEY_ROTATION_THRESHOLD
    }

    ghost function View(): Lane
      reads this
    {
      Lane(key, nonce, ck)
    }

    constructor (key: Term, nonce: nat, ck: Term)
      requires nonce <= KEY_ROTATION_THRESHOLD
      ensures Valid() && View() == Lane(key, nonce, ck)
    {
      this.key, this.nonce, this.ck := key, nonce, ck;
    }

    method DecryptLength(encryptedLen: seq<Octet>) returns (r: Result<nat, NoiseError>)
      requires Valid() && |encryptedLen| == ENCRYPTED_LENGTH_SIZE
      modifies this
      ensures Valid()
      ensures (View(), r) == Lanes.DecryptLength(old(View()), encryptedLen)
    {
      MaybeRotate();
      var lenBytes := Open(key, nonce, Nothing, encryptedLen);
      if lenBytes.Err? {
        return Err(lenBytes.error);
      }
      nonce := nonce + 1;
      r := Ok(FromBe(lenBytes.value));
    }

    method DecryptMessage(encryptedMsg: seq<Octet>) returns (r: Result<seq<byte>, NoiseError>)
      requires Valid()
      modifies this
      ensures Valid()
      ensures (View(), r) == OpenNext(old(View()), encryptedMsg)
    {
      MaybeRotate();
      r := Open(key, nonce, Nothing, encryptedMsg);
      if r.Ok? {
        nonce := nonce + 1;
      }
    }

    method MaybeRotate()
      modifies this
      ensures Valid() && View() == Ready(old(View()))
    {
      if nonce >= KEY_ROTATION_THRESHOLD {
        var keys := Hkdf(ck, key);
        ck := keys.0;
        key := keys.1;
        nonce := 0;
      }
    }
  }

  class NoiseCipher {
    var sendKey: Term
    var recvKey: Term
    var sendNonce: nat
    var recvNonce: nat
    var sendCk: Term
    var recvCk: Term

    ghost predicate Valid()
      reads this
    {
      sendNonce <= KEY_ROTATION_THRESHOLD && recvNonce <= KEY_ROTATION_THRESHOLD
    }

    ghost function SendView(): Lane
      reads this
    {
      Lane(sendKey, sendNonce, sendCk)
    }

    ghost function RecvView(): Lane
      reads this
    {
      Lane(recvKey, recvNonce, recvCk)
    }

    constructor (sendKey: Term, recvKey: Term, chainingKey: Term)
      ensures Valid()
      ensures SendView() == Lane(sendKey, 0, chainingKey)
      ensures RecvView() == Lane(recvKey, 0, chainingKey)
    {
      this.sendKey, this.recvKey := sendKey, recvKey;
      sendNonce, recvNonce := 0, 0;
      sendCk, recvCk := chainingKey, chainingKey;
    }

    method Encrypt(plaintext: seq<byte>) returns (packet: seq<Octet>)
      requires Valid() && |plaintext| <= MAX_MESSAGE_SIZE
      modifies this
      ensures Valid()
      ensures packet == Lanes.Encrypt(old(SendView()), plaintext)
      ensures SendView() == Advance(Advance(old(SendView())))
      ensures RecvView() == old(RecvView())
    {
      var encryptedLen := EncryptLength(|plaintext|);
      MaybeRotateSendKey();
      var encryptedMsg := Seal(sendKey, sendNonce, Nothing, plaintext);
      sendNonce := sendNonce + 1;
      packet := encryptedLen + encryptedMsg;
    }

    method EncryptLength(length: nat) returns (encrypted: seq<Octet>)
      requires Valid() && length <= MAX_MESSAGE_SIZE
      modifies this
      ensures Valid()
      ensures encrypted == Lanes.EncryptLength(old(SendView()), length)
      ensures SendView() == Advance(old(SendView()))
      ensures RecvView() == old(RecvView())
    {
      MaybeRotateSendKey();
      encrypted := Seal(sendKey, sendNonce, Nothing, ToBe(length, 2));
      sendNonce := sendNonce + 1;
    }

    method DecryptLength(encryptedLen: seq<Octet>) returns (r: Result<nat, NoiseError>)
      requires Valid() && |encryptedLen| == ENCRYPTED_LENGTH_SIZE
      modifies this
      ensures Valid()
      ensures (RecvView(), r) == Lanes.DecryptLength(old(RecvView()), encryptedLen)
      ensures SendView() == old(SendView())
    {
      MaybeRotateRecvKey();
      var lenBytes := Open(recvKey, recvNonce, Nothing, encryptedLen);
      if lenBytes.Err? {
        return Err(lenBytes.error);
      }
      recvNonce := recvNonce + 1;
      r := Ok(FromBe(lenBytes.value));
    }

    method DecryptMessage(encryptedMsg: seq<Octet>) returns (r: Result<seq<byte>, NoiseError>)
      requires Valid()
      modifies this
      ensures Valid()
      ensures (RecvView(), r) == OpenNext(old(RecvView()), encryptedMsg)
      ensures SendView() == old(SendView())
    {
      MaybeRotateRecvKey();
      r := Open(recvKey, recvNonce, Nothing, encryptedMsg);
      if r.Ok? {
        recvNonce := recvNonce + 1;
      }
    }

    method MaybeRotateSendKey()
      requires Valid()
      modifies this
      ensures Valid() && SendView() == Ready(old(SendView())) && RecvView() == old(RecvView())
    {
      if sendNonce >= KEY_ROTATION_THRESHOLD {
        var keys := Hkdf(sendCk, sendKey);
        sendCk := keys.0;
        sendKey := keys.1;
        sendNonce := 0;
      }
    }

    method MaybeRotateRecvKey()
      requires Valid()
      modifies this
      ensures Valid() && RecvView() == Ready(old(RecvView())) && SendView() == old(SendView())
    {
      if recvNonce >= KEY_ROTATION_THRESHOLD {
        var keys := Hkdf(recvCk, recvKey);
        recvCk := keys.0;
        recvKey := keys.1;
        recvNonce := 0;
      }
    }

    method Split() returns (send: SendCipher, recv: RecvCipher)
      requires Valid()
      ensures fresh(send) && send.Valid() && send.View() == SendView()
      ensures fresh(recv) && recv.Valid() && recv.View() == RecvView()
    {
      send := new SendCipher(sendKey, sendNonce, sendCk);
      recv := new RecvCipher(recvKey, recvNonce, recvCk);
    }
  }
}

/** The unsplit cipher and the two halves it splits into, driven as objects. */
module SplitCipher {
  import opened Wrappers
  import opened Bytes
  import opened Crypto
  import opened Lanes
  import opened Split
  import opened Cipher

  /** A call the types and the size limit allow. */
  predicate LegalSend(op: SendOp) {
    match op
    case EncryptLengthOp(n) => n <= MAX_MESSAGE_SIZE
    case EncryptOp(p) => |p| <= MAX_MESSAGE_SIZE
  }

  predicate LegalRecv(op: RecvOp) {
    op.DecryptLengthOp? ==> |op.header| == ENCRYPTED_LENGTH_SIZE
  }

  predicate Legal(op: Op) {
    match op
    case ToSend(o) => LegalSend(o)
    case ToRecv(o) => LegalRecv(o)
  }

  predicate AllLegal(ops: seq<Op>) {
    forall i :: 0 <= i < |ops| ==> Legal(ops[i])
  }

  method CallUnsplit(c: NoiseCipher, op: Op) returns (o: Output)
    requires c.Valid() && Legal(op)
    modifies c
    ensures c.Valid()
    ensures forall out :: UnsplitStep(Unsplit(old(c.SendView()), old(c.RecvView()), out), op) ==
                          Unsplit(c.SendView(), c.RecvView(), out + [o])
  {
    match op {
      case ToSend(EncryptLengthOp(n)) =>
        var octets := c.EncryptLength(n);
        o := Packet(octets);
      case ToSend(EncryptOp(p)) =>
        var octets := c.Encrypt(p);
        o := Packet(octets);
      case ToRecv(DecryptLengthOp(h)) =>
        var r := c.DecryptLength(h);
        o := Plain(Length(r));
      case ToRecv(DecryptMessageOp(m)) =>
        var r := c.DecryptMessage(m);
        o := Plain(Message(r));
    }
  }

  method CallSend(c: SendCipher, op: SendOp) returns (octets: seq<Octet>)
    requires c.Valid() && LegalSend(op)
    modifies c
    ensures c.Valid() && (c.View(), octets) == SendStep(old(c.View()), op)
  {
    match op {
      case EncryptLengthOp(n) => octets := c.EncryptLength(n);
      case EncryptOp(p) => octets := c.Encrypt(p);
    }
  }

  method CallRecv(c: RecvCipher, op: RecvOp) returns (r: Received)
    requires c.Valid() && LegalRecv(op)
    modifies c
    ensures c.Valid() && (c.View(), r) == RecvStep(old(c.View()), op)
  {
    match op {
      case DecryptLengthOp(h) =>
        var length := c.DecryptLength(h);
        r := Length(length);
      case DecryptMessageOp(m) =>
        var message := c.DecryptMessage(m);
        r := Message(message);
    }
  }

  /** One cipher, every call in the order given. */
  method DriveUnsplit(c: NoiseCipher, ops: seq<Op>) returns (out: seq<Output>)
    requires c.Valid() && AllLegal(ops)
    modifies c
    ensures c.Valid()
    ensures RunUnsplit(old(c.SendView()), old(c.RecvView()), ops) == Unsplit(c.SendView(), c.RecvView(), out)
  {
    out := [];
    for i := 0 to |ops|
      invariant c.Valid()
      invariant RunUnsplit(old(c.SendView()), old(c.RecvView()), ops[..i]) == Unsplit(c.SendView(), c.RecvView(), out)
    {
      assert ops[..i + 1][..i] == ops[..i];
      var o := CallUnsplit(c, ops[i]);
      out := out + [o];
    }
    assert ops[..|ops|] == ops;
  }

  method DriveSend(c: SendCipher, ops: seq<SendOp>) returns (out: seq<seq<Octet>>)
    requires c.Valid() && forall i :: 0 <= i < |ops| ==> LegalSend(ops[i])
    modifies c
    ensures c.Valid() && (c.View(), out) == RunSend(old(c.View()), ops)
  {
    out := [];
    for i := 0 to |ops|
      invariant c.Valid() && (c.View(), out) == RunSend(old(c.View()), ops[..i])
    {
      assert ops[..i + 1][..i] == ops[..i];
      var o := CallSend(c, ops[i]);
      out := out + [o];
    }
    assert ops[..|ops|] == ops;
  }

  method DriveRecv(c: RecvCipher, ops: seq<RecvOp>) returns (out: seq<Received>)
    requires c.Valid() && forall i :: 0 <= i < |ops| ==> LegalRecv(ops[i])
    modifies c
    ensures c.Valid() && (c.View(), out) == RunRecv(old(c.View()), ops)
  {
    out := [];
    for i := 0 to |ops|
      invariant c.Valid() && (c.View(), out) == RunRecv(old(c.View()), ops[..i])
    {
      assert ops[..i + 1][..i] == ops[..i];
      var o := CallRecv(c, ops[i]);
      out := out + [o];
    }
    assert ops[..|ops|] == ops;
  }

  /** Two halves, each call handed to the half it belongs to, in the order given. */
  method DriveHalves(send: SendCipher, recv: RecvCipher, ops: seq<Op>) returns (out: seq<Output>)
    requires send.Valid() && recv.Valid() && AllLegal(ops)
    modifies send, recv
    ensures send.Valid() && recv.Valid()
    ensures RunUnsplit(old(send.View()), old(recv.View()), ops) == Unsplit(send.View(), recv.View(), out)
  {
    out := [];
    for i := 0 to |ops|
      invariant send.Valid() && recv.Valid()
      invariant RunUnsplit(old(send.View()), old(recv.View()), ops[..i]) == Unsplit(send.View(), recv.View(), out)
    {
      assert ops[..i + 1][..i] == ops[..i];
      match ops[i] {
        case ToSend(o) =>
          var octets := CallSend(send, o);
          out := out + [Packet(octets)];
        case ToRecv(o) =>
          var r := CallRecv(recv, o);
          out := out + [Plain(r)];
      }
    }
    assert ops[..|ops|] == ops;
  }

  lemma {:induction false} LegalOps(ops: seq<Op>)
    requires AllLegal(ops)
    ensures forall i :: 0 <= i < |SendOps(ops)| ==> LegalSend(SendOps(ops)[i])
    ensures forall i :: 0 <= i < |RecvOps(ops)| ==> LegalRecv(RecvOps(ops)[i])
  {
    if ops != [] {
      LegalOps(ops[1..]);
    }
  }

  /**
   * A cipher and the halves split from it answer every sequence of legal calls alike and end in the same keys,
   * nonces and chaining keys, failed decryptions and rotations included.
   */
  method SplitInStep(c: NoiseCipher, ops: seq<Op>)
    returns (whole: seq<Output>, halves: seq<Output>, send: SendCipher, recv: RecvCipher)
    requires c.Valid() && AllLegal(ops)
    modifies c
    ensures RunUnsplit(old(c.SendView()), old(c.RecvView()), ops) == Unsplit(c.SendView(), c.RecvView(), whole)
    ensures halves == whole && |whole| == |ops|
    ensures fresh(send) && fresh(recv) && c.SendView() == send.View() && c.RecvView() == recv.View()
  {
    send, recv := c.Split();
    whole := DriveUnsplit(c, ops);
    halves := DriveHalves(send, recv, ops);
    OneOutputEach(old(c.SendView()), old(c.RecvView()), ops);
  }

  lemma {:induction false} OneOutputEach(s: Lane, r: Lane, ops: seq<Op>)
    ensures |RunUnsplit(s, r, ops).out| == |ops|
  {
    if ops != [] {
      OneOutputEach(s, r, ops[..|ops| - 1]);
    }
  }

  /**
   * The same when each half runs by itself, all its calls at once and the receiver first: whatever the order between
   * the directions, each half gives the answers the unsplit cipher gave to its calls.
   */
  method SplitApart(c: NoiseCipher, ops: seq<Op>)
    returns (whole: seq<Output>, sent: seq<seq<Octet>>, received: seq<Received>, send: SendCipher, recv: RecvCipher)
    requires c.Valid() && AllLegal(ops)
    modifies c
    ensures RunUnsplit(old(c.SendView()), old(c.RecvView()), ops) == Unsplit(c.SendView(), c.RecvView(), whole)
    ensures sent == Packets(whole) && received == Plains(whole)
    ensures fresh(send) && fresh(recv) && c.SendView() == send.View() && c.RecvView() == recv.View()
  {
    send, recv := c.Split();
    LegalOps(ops);
    received := DriveRecv(recv, RecvOps(ops));
    sent := DriveSend(send, SendOps(ops));
    SplitRefinesUnsplit(c.SendView(), c.RecvView(), ops);
    whole := DriveUnsplit(c, ops);
  }
}
