/** Runs of fixed-layout message fields: one reader and one writer for every layout. */
module Fields {
  import opened Wrappers
  import opened Bytes
  import opened Wire

  /** Which 33-byte strings are points of the curve, and which 64-byte strings are signatures. */
  datatype Rules = Rules(validKey: seq<byte> -> bool, validSignature: seq<byte> -> bool)

  datatype Field =
    | Fixed(size: nat)   // a byte array
    | Uint(width: nat)   // a big-endian integer
    | Key                // a compressed public key
    | Signature          // a compact signature
    | Var                // a vector behind a 16-bit length

  datatype Value = Raw(bytes: seq<byte>) | Num(n: nat)

  /** What the types of the source guarantee about a field's value. */
  predicate HasType(rules: Rules, f: Field, v: Value) {
    match f
    case Fixed(n) => v.Raw? && |v.bytes| == n
    case Uint(w) => v.Num? && v.n < Pow256(w)
    case Key => v.Raw? && |v.bytes| == 33 && rules.validKey(v.bytes)
    case Signature => v.Raw? && |v.bytes| == 64 && rules.validSignature(v.bytes)
    case Var => v.Raw?
  }

  /** A vector must also fit its 16-bit length. */
  predicate Fits(rules: Rules, f: Field, v: Value) {
    HasType(rules, f, v) && (f.Var? ==> |v.bytes| < U16_LIMIT)
  }

  predicate AllHaveType(rules: Rules, fs: seq<Field>, vs: seq<Value>) {
    |fs| == |vs| && forall i :: 0 <= i < |fs| ==> HasType(rules, fs[i], vs[i])
  }

  predicate AllFit(rules: Rules, fs: seq<Field>, vs: seq<Value>) {
    |fs| == |vs| && forall i :: 0 <= i < |fs| ==> Fits(rules, fs[i], vs[i])
  }

  function WriteField(f: Field, v: Value): seq<byte> {
    match v
    case Num(n) => ToBe(n, if f.Uint? then f.width else 0)
    case Raw(bs) => if f.Var? then VecBytes(bs) else bs
  }

  function ReadField(rules: Rules, f: Field, data: seq<byte>): Parsed<Value> {
    match f
    case Fixed(n) =>
      var (bs, rest) :- ReadArray(n, data);
      Ok((Raw(bs), rest))
    case Uint(w) =>
      var (n, rest) :- ReadUint(w, data);
      Ok((Num(n), rest))
    case Key =>
      var (bs, rest) :- ReadArray(33, data);
      if rules.validKey(bs) then Ok((Raw(bs), rest)) else Err(InvalidPublicKey(bs))
    case Signature =>
      var (bs, rest) :- ReadArray(64, data);
      if rules.validSignature(bs) then Ok((Raw(bs), rest)) else Err(InvalidSignature(bs))
    case Var =>
      var (bs, rest) :- ReadVec(data);
      Ok((Raw(bs), rest))
  }

  function WriteFields(fs: seq<Field>, vs: seq<Value>): seq<byte>
    requires |fs| == |vs|
  {
    if fs == [] then [] else WriteField(fs[0], vs[0]) + WriteFields(fs[1..], vs[1..])
  }

  function ReadFields(rules: Rules, fs: seq<Field>, data: seq<byte>): (r: Parsed<seq<Value>>)
    ensures r.Ok? ==> |r.value.0| == |fs|
    decreases |fs|
  {
    if fs == [] then Ok(([], data))
    else
      var (v, rest) :- ReadField(rules, fs[0], data);
      var (vs, tail) :- ReadFields(rules, fs[1..], rest);
      Ok(([v] + vs, tail))
  }

  lemma FieldRoundTrip(rules: Rules, f: Field, v: Value, rest: seq<byte>)
    requires Fits(rules, f, v)
    ensures ReadField(rules, f, WriteField(f, v) + rest) == Ok((v, rest))
  {
    match f
    case Uint(w) => UintRoundTrip(w, v.n, rest);
    case Var => VecRoundTripIff(v.bytes, rest);
    case _ =>
      assert (v.bytes + rest)[..|v.bytes|] == v.bytes;
      assert (v.bytes + rest)[|v.bytes|..] == rest;
  }

  lemma FieldCanonical(rules: Rules, f: Field, data: seq<byte>)
    requires ReadField(rules, f, data).Ok?
    ensures var (v, rest) := ReadField(rules, f, data).value;
            Fits(rules, f, v) && WriteField(f, v) + rest == data
  {
    match f
    case Uint(w) => UintCanonical(w, data);
    case Var => VecCanonical(data);
    case _ =>
  }

  lemma {:induction false} FieldsRoundTrip(rules: Rules, fs: seq<Field>, vs: seq<Value>, rest: seq<byte>)
    requires AllFit(rules, fs, vs)
    ensures ReadFields(rules, fs, WriteFields(fs, vs) + rest) == Ok((vs, rest))
    decreases |fs|
  {
    hide ReadField, WriteField, Fits;
    if fs == [] {
      assert WriteFields(fs, vs) + rest == rest;
    } else {
      var tail := WriteFields(fs[1..], vs[1..]);
      ConcatAssociates(WriteField(fs[0], vs[0]), tail, rest);
      FieldRoundTrip(rules, fs[0], vs[0], tail + rest);
      FieldsRoundTrip(rules, fs[1..], vs[1..], rest);
      assert [vs[0]] + vs[1..] == vs;
    }
  }

  lemma {:induction false} FieldsCanonical(rules: Rules, fs: seq<Field>, data: seq<byte>)
    requires ReadFields(rules, fs, data).Ok?
    ensures var (vs, rest) := ReadFields(rules, fs, data).value;
            AllFit(rules, fs, vs) && WriteFields(fs, vs) + rest == data
    decreases |fs|
  {
    if fs != [] {
      var (v, rest) := ReadField(rules, fs[0], data).value;
      FieldCanonical(rules, fs[0], data);
      FieldsCanonical(rules, fs[1..], rest);
      var (vs, tail) := ReadFields(rules, fs[1..], rest).value;
      assert ([v] + vs)[1..] == vs;
      ConcatAssociates(WriteField(fs[0], v), WriteFields(fs[1..], vs), tail);
    }
  }

  // ----- What is refused -----

  /** Too few bytes, with how many were wanted and how many there were. */
  predicate TooShort(size: nat, data: seq<byte>, e: BoltError) {
    |data| < size && e == Truncated(size, |data|)
  }

  function TwoBytes(high: nat, low: nat): nat {
    high * 256 + low
  }

  /** Every way in which a field can be refused, each with its own error. */
  predicate Refused(rules: Rules, f: Field, data: seq<byte>, e: BoltError) {
    match f
    case Fixed(n) => TooShort(n, data, e)
    case Uint(w) => TooShort(w, data, e)
    case Key => TooShort(33, data, e) || (|data| >= 33 && !rules.validKey(data[..33]) && e == InvalidPublicKey(data[..33]))
    case Signature =>
      TooShort(64, data, e) || (|data| >= 64 && !rules.validSignature(data[..64]) && e == InvalidSignature(data[..64]))
    case Var => TooShort(2, data, e) || (|data| >= 2 && TooShort(TwoBytes(data[0], data[1]), data[2..], e))
  }

  lemma FieldRefusedIff(rules: Rules, f: Field, data: seq<byte>, e: BoltError)
    ensures ReadField(rules, f, data) == Err(e) <==> Refused(rules, f, data, e)
  {
    if f.Var? && |data| >= 2 {
      FromBeTwo(data[..2]);
    }
  }

  lemma FromBeTwo(bs: seq<byte>)
    requires |bs| == 2
    ensures FromBe(bs) == TwoBytes(bs[0], bs[1])
  {
    assert bs[..1][..0] == [];
    assert FromBe(bs[..1]) == FromBe([]) * 256 + bs[0];
  }

  /** The bytes are the first fields, read as vs, followed by a field refused with e. */
  ghost predicate RefusedAfter(rules: Rules, fs: seq<Field>, data: seq<byte>, vs: seq<Value>, e: BoltError) {
    && |vs| < |fs| && AllFit(rules, fs[..|vs|], vs)
    && WriteFields(fs[..|vs|], vs) <= data
    && Refused(rules, fs[|vs|], data[|WriteFields(fs[..|vs|], vs)|..], e)
  }

  lemma {:induction false} FieldsErrorIsRefused(rules: Rules, fs: seq<Field>, data: seq<byte>) returns (vs: seq<Value>)
    requires ReadFields(rules, fs, data).Err?
    ensures RefusedAfter(rules, fs, data, vs, ReadFields(rules, fs, data).error)
    decreases |fs|
  {
    var e := ReadFields(rules, fs, data).error;
    FieldRefusedIff(rules, fs[0], data, e);
    if ReadField(rules, fs[0], data).Err? {
      vs := [];
      assert data[0..] == data;
    } else {
      FieldCanonical(rules, fs[0], data);
      var (v, rest) := ReadField(rules, fs[0], data).value;
      var tail := FieldsErrorIsRefused(rules, fs[1..], rest);
      vs := [v] + tail;
      var first, others := WriteField(fs[0], v), WriteFields(fs[1..][..|tail|], tail);
      assert fs[..|vs|][1..] == fs[1..][..|tail|] && vs[1..] == tail;
      assert WriteFields(fs[..|vs|], vs) == first + others;
      assert rest[..|others|] == others;
      assert data[..|first + others|] == first + others;
      assert data[|first + others|..] == rest[|others|..];
    }
  }

  lemma {:induction false} RefusedIsFieldsError(rules: Rules, fs: seq<Field>, data: seq<byte>, vs: seq<Value>, e: BoltError)
    requires RefusedAfter(rules, fs, data, vs, e)
    ensures ReadFields(rules, fs, data) == Err(e)
    decreases |fs|
  {
    if vs == [] {
      assert data[0..] == data;
      FieldRefusedIff(rules, fs[0], data, e);
    } else {
      var v, tail := vs[0], vs[1..];
      var first, others := WriteField(fs[0], v), WriteFields(fs[1..][..|tail|], tail);
      assert fs[..|vs|][1..] == fs[1..][..|tail|];
      assert WriteFields(fs[..|vs|], vs) == first + others;
      assert data[..|first + others|] == first + others;
      var rest := data[|first|..];
      assert data == first + rest;
      assert rest[..|others|] == others;
      assert rest[|others|..] == data[|first + others|..];
      FieldRoundTrip(rules, fs[0], v, rest);
      RefusedIsFieldsError(rules, fs[1..], rest, tail, e);
    }
  }

  /** A run of fields fails with an error exactly when some good fields are followed by one refused with it. */
  lemma FieldsErrorIffRefused(rules: Rules, fs: seq<Field>, data: seq<byte>, e: BoltError)
    ensures ReadFields(rules, fs, data) == Err(e) <==> exists vs :: RefusedAfter(rules, fs, data, vs, e)
  {
    if ReadFields(rules, fs, data) == Err(e) {
      var vs := FieldsErrorIsRefused(rules, fs, data);
    }
    if vs :| RefusedAfter(rules, fs, data, vs, e) {
      RefusedIsFieldsError(rules, fs, data, vs, e);
    }
  }
}
