/**
 * The cryptographic libraries as a free term algebra: every 32-byte secret is the
 * term that computes it, and every ciphertext octet remembers the box it came from.
 * Two terms are equal exactly when they were computed in the same way.
 */
module Crypto {
  import opened Wrappers
  import opened Bytes

  const MAC_SIZE: nat := 16
  const KEY_SIZE: nat := 33

  datatype NoiseError =
    | ActOneBadVersion(version: Octet) | ActOneBadPubkey | ActOneBadTag
    | ActTwoBadVersion(version: Octet) | ActTwoBadPubkey | ActTwoBadTag
    | ActThreeBadVersion(version: Octet) | ActThreeBadCiphertext | ActThreeBadPubkey | ActThreeBadTag
    | DecryptionFailed | HandshakeIncomplete | InvalidState | Io

  /** A 32-byte value: a digest, a Diffie-Hellman secret or a derived key. */
  datatype Term =
    | Digest(text: seq<byte>)                // SHA-256 of a constant
    | Mix(h: Term, data: seq<Octet>)         // SHA-256 of h followed by data
    | Shared(secrets: multiset<Scalar>)      // the point both scalars multiply out to
    | Nothing                                // the empty string, as HKDF input or as associated data
    | First(salt: Term, ikm: Term)           // first half of the HKDF output
    | Second(salt: Term, ikm: Term)          // second half of the HKDF output

  /** An octet on the wire: a known byte, or position `at` of a sealed box. */
  datatype Octet = Raw(b: byte) | Sealed(box: Box, at: nat)

  datatype Box = Box(key: Term, nonce: seq<byte>, ad: Term, plaintext: seq<byte>)

  function Lift(bs: seq<byte>): (os: seq<Octet>)
    ensures |os| == |bs|
    ensures forall i :: 0 <= i < |bs| ==> os[i] == Raw(bs[i])
  {
    seq(|bs|, i requires 0 <= i < |bs| => Raw(bs[i]))
  }

  predicate AllRaw(os: seq<Octet>) {
    forall i :: 0 <= i < |os| ==> os[i].Raw?
  }

  function Lower(os: seq<Octet>): (bs: seq<byte>)
    requires AllRaw(os)
    ensures |bs| == |os|
    ensures forall i :: 0 <= i < |os| ==> os[i] == Raw(bs[i])
  {
    seq(|os|, i requires 0 <= i < |os| => os[i].b)
  }

  // ----- Authenticated encryption -----

  /** 96-bit nonce: 32 zero bits, then the counter in little-endian order. */
  function EncodeNonce(n: nat): (bs: seq<byte>)
    ensures |bs| == 12
  {
    [0, 0, 0, 0] + ToLe(n, 8)
  }

  lemma EncodeNonceInjective(m: nat, n: nat)
    requires m < 0x1_0000_0000_0000_0000 && n < 0x1_0000_0000_0000_0000
    requires EncodeNonce(m) == EncodeNonce(n)
    ensures m == n
  {
    assert EncodeNonce(m)[4..] == ToLe(m, 8) && EncodeNonce(n)[4..] == ToLe(n, 8);
    assert Pow256(8) == 0x1_0000_0000_0000_0000;
    ToLeInjective(m, n, 8);
  }

  /** Four zero bytes, then the counter with its least significant byte first. */
  lemma EncodeNonceBytes(n: nat, i: nat)
    requires i < 12
    ensures EncodeNonce(n)[i] == if i < 4 then 0 else n / Pow256(i - 4) % 256
  {
    if i >= 4 {
      ToLeAt(n, 8, i - 4);
    }
  }

  /** The octets of a sealed box from position `at` on: the ciphertext, then its 16-octet tag. */
  function OctetsFrom(box: Box, at: nat): (os: seq<Octet>)
    requires at <= |box.plaintext| + MAC_SIZE
    ensures |os| == |box.plaintext| + MAC_SIZE - at
    decreases |box.plaintext| + MAC_SIZE - at
  {
    if at == |box.plaintext| + MAC_SIZE then [] else [Sealed(box, at)] + OctetsFrom(box, at + 1)
  }

  function BoxOctets(box: Box): (os: seq<Octet>)
    ensures |os| == |box.plaintext| + MAC_SIZE
  {
    OctetsFrom(box, 0)
  }

  function Seal(key: Term, nonce: nat, ad: Term, plaintext: seq<byte>): (os: seq<Octet>)
    ensures |os| == |plaintext| + MAC_SIZE
  {
    BoxOctets(Box(key, EncodeNonce(nonce), ad, plaintext))
  }

  function Open(key: Term, nonce: nat, ad: Term, ciphertext: seq<Octet>): (r: Result<seq<byte>, NoiseError>)
    ensures r.Ok? ==> |ciphertext| == |r.value| + MAC_SIZE
    ensures r.Err? ==> r.error == DecryptionFailed
  {
    if |ciphertext| < MAC_SIZE || ciphertext[0].Raw? then Err(DecryptionFailed)
    else
      var box := ciphertext[0].box;
      if box.key == key && box.nonce == EncodeNonce(nonce) && box.ad == ad && BoxOctets(box) == ciphertext
      then Ok(box.plaintext)
      else Err(DecryptionFailed)
  }

  /** Decryption succeeds exactly on what encryption under the same key, nonce and data made. */
  lemma OpenIffSealed(key: Term, nonce: nat, ad: Term, ciphertext: seq<Octet>, plaintext: seq<byte>)
    ensures Open(key, nonce, ad, ciphertext) == Ok(plaintext) <==> ciphertext == Seal(key, nonce, ad, plaintext)
  {
    if ciphertext == Seal(key, nonce, ad, plaintext) {
      assert ciphertext[0] == Sealed(Box(key, EncodeNonce(nonce), ad, plaintext), 0);
    }
  }

  /** A box is opened only under the key, nonce and associated data it was sealed with. */
  lemma OpenedUnderSame(key: Term, nonce: nat, ad: Term, plaintext: seq<byte>, key': Term, nonce': nat, ad': Term)
    requires Open(key', nonce', ad', Seal(key, nonce, ad, plaintext)).Ok?
    ensures key == key' && ad == ad' && EncodeNonce(nonce) == EncodeNonce(nonce')
    ensures Open(key', nonce', ad', Seal(key, nonce, ad, plaintext)) == Ok(plaintext)
  {
    assert Seal(key, nonce, ad, plaintext)[0] == Sealed(Box(key, EncodeNonce(nonce), ad, plaintext), 0);
  }

  // ----- Keys -----

  type Scalar = s: seq<byte> | |s| == 32 witness seq(32, _ => 1)

  /** A curve point, named by the scalar that generates it. */
  datatype PublicKey = Point(scalar: Scalar)

  function PublicOf(secret: Scalar): PublicKey {
    Point(secret)
  }

  /** Compressed form, 33 octets. */
  function SerializeKey(p: PublicKey): (os: seq<Octet>)
    ensures |os| == KEY_SIZE
  {
    Lift(KeyBytes(p))
  }

  function KeyBytes(p: PublicKey): (bs: seq<byte>)
    ensures |bs| == KEY_SIZE
  {
    [2] + p.scalar
  }

  function ParseKey(os: seq<Octet>): Option<PublicKey> {
    if |os| == KEY_SIZE && AllRaw(os) && os[0] == Raw(2) then
      Some(Point(Lower(os)[1..]))
    else
      None
  }

  lemma ParseIffSerialized(os: seq<Octet>, p: PublicKey)
    ensures ParseKey(os) == Some(p) <==> os == SerializeKey(p)
  {
    if ParseKey(os) == Some(p) {
      assert Lower(os)[0] == 2;
      assert Lower(os) == [2] + Lower(os)[1..];
      assert os == SerializeKey(p);
    }
    if os == SerializeKey(p) {
      assert Lower(os) == KeyBytes(p);
      assert KeyBytes(p)[1..] == p.scalar;
    }
  }

  function Ecdh(secret: Scalar, public: PublicKey): Term {
    Shared(multiset{secret, public.scalar})
  }

  lemma EcdhCommutes(a: Scalar, b: Scalar)
    ensures Ecdh(a, PublicOf(b)) == Ecdh(b, PublicOf(a))
  {
    assert multiset{a, b} == multiset{b, a};
  }

  function Hkdf(salt: Term, ikm: Term): (Term, Term) {
    (First(salt, ikm), Second(salt, ikm))
  }
}
