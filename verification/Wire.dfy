/** Wire primitives of the BOLT codec: parsers over byte slices and the writers they invert. */
module Wire {
  import opened Wrappers
  import opened Bytes

  const U16_LIMIT: nat := 0x1_0000
  const U64_LIMIT: nat := 0x1_0000_0000_0000_0000

  datatype BoltError =
    | Truncated(expected: nat, actual: nat)
    | UnknownEvenType(msgType: nat)
    | InvalidPublicKey(key: seq<byte>)
    | InvalidSignature(signature: seq<byte>)
    | UnknownEncoding(encoding: byte)
    | BigSizeNotMinimal
    | BigSizeTruncated
    | TlvNotIncreasing(previous: nat, current: nat)
    | TlvLengthOverflow
    | TlvUnknownEvenType(tlvType: nat)

  /** A value and the bytes after it. */
  type Parsed<T> = Result<(T, seq<byte>), BoltError>

  function ReadArray(n: nat, data: seq<byte>): (r: Parsed<seq<byte>>)
    ensures r.Ok? ==> |r.value.0| == n && r.value.0 + r.value.1 == data
  {
    if |data| < n then Err(Truncated(n, |data|)) else Ok((data[..n], data[n..]))
  }

  function ReadUint(width: nat, data: seq<byte>): (r: Parsed<nat>)
    ensures r.Ok? ==> |r.value.1| + width == |data|
  {
    var (bs, rest) :- ReadArray(width, data);
    Ok((FromBe(bs), rest))
  }

  lemma UintRoundTrip(width: nat, v: nat, rest: seq<byte>)
    requires v < Pow256(width)
    ensures ReadUint(width, ToBe(v, width) + rest) == Ok((v, rest))
  {
    FromBeToBe(v, width);
    assert (ToBe(v, width) + rest)[..width] == ToBe(v, width);
  }

  lemma UintCanonical(width: nat, data: seq<byte>)
    requires ReadUint(width, data).Ok?
    ensures var (v, rest) := ReadUint(width, data).value;
            v < Pow256(width) && ToBe(v, width) + rest == data
  {
    FromBeBound(data[..width]);
    ToBeFromBe(data[..width]);
  }

  // ----- BigSize -----

  function BigSizeLen(v: nat): nat {
    if v < 0xfd then 1 else if v < 0x1_0000 then 3 else if v < 0x1_0000_0000 then 5 else 9
  }

  function BigSizeBytes(v: nat): (bs: seq<byte>)
    ensures |bs| == BigSizeLen(v)
  {
    if v < 0xfd then [v]
    else if v < 0x1_0000 then [0xfd] + ToBe(v, 2)
    else if v < 0x1_0000_0000 then [0xfe] + ToBe(v, 4)
    else [0xff] + ToBe(v, 8)
  }

  /** The integer after a BigSize prefix, which must not have fitted a shorter form. */
  function ReadBigSizeTail(width: nat, minimum: nat, data: seq<byte>): Parsed<nat> {
    match ReadUint(width, data)
    case Err(_) => Err(BigSizeTruncated)
    case Ok((v, rest)) => if v < minimum then Err(BigSizeNotMinimal) else Ok((v, rest))
  }

  function ReadBigSize(data: seq<byte>): (r: Parsed<nat>)
    ensures r.Ok? ==> |r.value.1| < |data|
  {
    if data == [] then Err(BigSizeTruncated)
    else if data[0] < 0xfd then Ok((data[0], data[1..]))
    else if data[0] == 0xfd then ReadBigSizeTail(2, 0xfd, data[1..])
    else if data[0] == 0xfe then ReadBigSizeTail(4, 0x1_0000, data[1..])
    else ReadBigSizeTail(8, 0x1_0000_0000, data[1..])
  }

  lemma WidthLimits()
    ensures Pow256(1) == 0x100 && Pow256(2) == 0x1_0000 && Pow256(4) == 0x1_0000_0000 && Pow256(8) == U64_LIMIT
  {
  }

  lemma BigSizeRoundTrip(v: nat, rest: seq<byte>)
    requires v < U64_LIMIT
    ensures ReadBigSize(BigSizeBytes(v) + rest) == Ok((v, rest))
  {
    WidthLimits();
    var data := BigSizeBytes(v) + rest;
    if v < 0xfd {
      assert data[1..] == rest;
    } else {
      var width := if v < 0x1_0000 then 2 else if v < 0x1_0000_0000 then 4 else 8;
      assert data[1..] == ToBe(v, width) + rest;
      UintRoundTrip(width, v, rest);
    }
  }

  lemma BigSizeCanonical(data: seq<byte>)
    requires ReadBigSize(data).Ok?
    ensures var (v, rest) := ReadBigSize(data).value;
            v < U64_LIMIT && BigSizeBytes(v) + rest == data
  {
    WidthLimits();
    var (v, rest) := ReadBigSize(data).value;
    if data[0] >= 0xfd {
      UintCanonical(if data[0] == 0xfd then 2 else if data[0] == 0xfe then 4 else 8, data[1..]);
    }
    assert data == [data[0]] + data[1..];
  }

  /** No encoding is a prefix of another: what a BigSize starts with determines it. */
  lemma BigSizePrefixFree(v: nat, w: nat, a: seq<byte>, b: seq<byte>)
    requires v < U64_LIMIT && w < U64_LIMIT && BigSizeBytes(v) + a == BigSizeBytes(w) + b
    ensures v == w && a == b
  {
    BigSizeRoundTrip(v, a);
    BigSizeRoundTrip(w, b);
  }

  /** A cut encoding is reported as truncated. */
  lemma BigSizeCut(v: nat, n: nat)
    requires n < BigSizeLen(v)
    ensures ReadBigSize(BigSizeBytes(v)[..n]) == Err(BigSizeTruncated)
  {
  }

  /** Bytes appended after a value, or after a non-minimal one, change nothing. */
  lemma BigSizeExtends(data: seq<byte>, more: seq<byte>)
    requires ReadBigSize(data).Ok?
    ensures ReadBigSize(data + more) == Ok((ReadBigSize(data).value.0, ReadBigSize(data).value.1 + more))
  {
    BigSizeCanonical(data);
    var (v, rest) := ReadBigSize(data).value;
    BigSizeRoundTrip(v, rest + more);
    ConcatAssociates(BigSizeBytes(v), rest, more);
  }

  lemma ConcatAssociates(a: seq<byte>, b: seq<byte>, c: seq<byte>)
    ensures (a + b) + c == a + (b + c)
  {
  }

  lemma NotMinimalExtends(data: seq<byte>, more: seq<byte>)
    requires ReadBigSize(data) == Err(BigSizeNotMinimal)
    ensures ReadBigSize(data + more) == Err(BigSizeNotMinimal)
  {
    var width := if data[0] == 0xfd then 2 else if data[0] == 0xfe then 4 else 8;
    var tail := data[1..];
    assert ReadUint(width, tail).Ok?;
    assert (data + more)[0] == data[0] && (data + more)[1..] == tail + more;
    UintExtends(width, tail, more);
  }

  lemma UintExtends(width: nat, data: seq<byte>, more: seq<byte>)
    requires ReadUint(width, data).Ok?
    ensures ReadUint(width, data + more) == Ok((ReadUint(width, data).value.0, ReadUint(width, data).value.1 + more))
  {
    assert (data + more)[..width] == data[..width];
    assert (data + more)[width..] == data[width..] + more;
  }

  /** How many bytes follow a BigSize prefix. */
  function BytesAfterPrefix(prefix: byte): nat {
    if prefix == 0xff then 8 else if prefix == 0xfe then 4 else if prefix == 0xfd then 2 else 0
  }

  /** A read fails for lack of bytes, or because a shorter encoding of the same value exists, and for no other reason. */
  lemma BigSizeErrors(data: seq<byte>)
    ensures ReadBigSize(data) == Err(BigSizeTruncated) <==> data == [] || |data| <= BytesAfterPrefix(data[0])
    ensures ReadBigSize(data) == Err(BigSizeNotMinimal) <==>
              data != [] && 0 < BytesAfterPrefix(data[0]) < |data| &&
              BigSizeLen(FromBe(data[1..1 + BytesAfterPrefix(data[0])])) <= BytesAfterPrefix(data[0])
    ensures ReadBigSize(data).Err? ==> ReadBigSize(data).error in {BigSizeTruncated, BigSizeNotMinimal}
  {
    if data != [] && 0 < BytesAfterPrefix(data[0]) < |data| {
      var width := BytesAfterPrefix(data[0]);
      assert data[1..][..width] == data[1..1 + width];
      WidthLimits();
      FromBeBound(data[1..1 + width]);
    }
  }

  /** The encodings on either side of each change of length, as in BOLT 1, Appendix A. */
  lemma BigSizeVectors()
    ensures BigSizeBytes(0) == [0] && BigSizeBytes(252) == [0xfc]
    ensures BigSizeBytes(253) == [0xfd, 0x00, 0xfd] && BigSizeBytes(65535) == [0xfd, 0xff, 0xff]
    ensures BigSizeBytes(65536) == [0xfe, 0x00, 0x01, 0x00, 0x00]
    ensures BigSizeBytes(4294967295) == [0xfe, 0xff, 0xff, 0xff, 0xff]
    ensures BigSizeBytes(4294967296) == [0xff, 0x00, 0x00, 0x00, 0x01, 0x00, 0x00, 0x00, 0x00]
    ensures BigSizeBytes(18446744073709551615) == [0xff, 0xff, 0xff, 0xff, 0xff, 0xff, 0xff, 0xff, 0xff]
  {
    hide ToBe;
    ToBeTwo(253);
    ToBeTwo(65535);
    ToBeFour(65536);
    ToBeFour(4294967295);
    ToBeEight(4294967296);
    ToBeFour(1);
    ToBeFour(4294967296);
    ToBeEight(18446744073709551615);
    ToBeFour(18446744073709551615);
  }

  lemma ToBeTwo(n: nat)
    ensures ToBe(n, 2) == [n / 256 % 256, n % 256]
  {
    assert ToBe(n, 2) == ToBe(n / 256, 1) + [n % 256];
    assert ToBe(n / 256, 1) == ToBe(n / 256 / 256, 0) + [n / 256 % 256];
  }

  lemma ToBeStep(n: nat, width: nat)
    ensures ToBe(n, width + 1) == ToBe(n / 256, width) + [n % 256]
  {
  }

  lemma ToBeFour(n: nat)
    ensures ToBe(n, 4) == [n / 0x100_0000 % 256, n / 0x1_0000 % 256, n / 256 % 256, n % 256]
  {
    hide ToBe;
    DivideTwice(n, 0x100);
    DivideTwice(n, 0x1_0000);
    ToBeTwo(n / 0x1_0000);
    DivideTwice(n / 256, 0x100);
    assert n / 0x1_0000 / 256 == n / 0x100_0000;
    ToBeStep(n, 3);
    ToBeStep(n / 256, 2);
  }

  lemma ToBeEight(n: nat)
    ensures ToBe(n, 8) == ToBe(n / 0x1_0000_0000, 4) + ToBe(n, 4)
  {
    hide ToBe;
    ToBeFour(n);
    var a := n / 256;
    var b := a / 256;
    var c := b / 256;
    ToBeStep(n, 7);
    ToBeStep(a, 6);
    ToBeStep(b, 5);
    ToBeStep(c, 4);
    assert b == n / 0x1_0000 && c == n / 0x100_0000 && c / 256 == n / 0x1_0000_0000;
    assert ToBe(n, 8) == ToBe(c / 256, 4) + [c % 256] + [b % 256] + [a % 256] + [n % 256];
  }

  // ----- Length-prefixed byte vectors -----

  /** The length is cast to 16 bits, so an overlong vector is written with a wrapped length. */
  function VecBytes(v: seq<byte>): seq<byte> {
    ToBe(|v|, 2) + v
  }

  function ReadVec(data: seq<byte>): Parsed<seq<byte>> {
    var (len, rest) :- ReadUint(2, data);
    ReadArray(len, rest)
  }

  lemma VecCanonical(data: seq<byte>)
    requires ReadVec(data).Ok?
    ensures var (v, rest) := ReadVec(data).value;
            |v| < U16_LIMIT && VecBytes(v) + rest == data
  {
    WidthLimits();
    UintCanonical(2, data);
  }

  lemma VecRoundTripIff(v: seq<byte>, rest: seq<byte>)
    ensures ReadVec(VecBytes(v) + rest) == Ok((v, rest)) <==> |v| < U16_LIMIT
  {
    if |v| < U16_LIMIT {
      WidthLimits();
      UintRoundTrip(2, |v|, v + rest);
      assert VecBytes(v) + rest == ToBe(|v|, 2) + (v + rest);
      assert (v + rest)[..|v|] == v;
    } else if ReadVec(VecBytes(v) + rest) == Ok((v, rest)) {
      VecCanonical(VecBytes(v) + rest);
    }
  }
}

/** The same primitives as the source runs them: a slice that advances and a vector that grows. */
module Cursors {
  import opened Wrappers
  import opened Bytes
  import opened Wire

  /** What a read of one value does to a cursor. */
  ghost predicate Advanced<T>(spec: Parsed<T>, r: Result<T, BoltError>, rest: seq<byte>) {
    match spec
    case Ok((v, tail)) => r == Ok(v) && rest == tail
    case Err(e) => r == Err(e)
  }

  class Cursor {
    var rest: seq<byte>

    constructor (data: seq<byte>)
      ensures rest == data
    {
      rest := data;
    }

    method ReadBytes(n: nat) returns (r: Result<seq<byte>, BoltError>)
      modifies this
      ensures Advanced(ReadArray(n, old(rest)), r, rest)
      ensures r.Err? ==> rest == old(rest)
    {
      if |rest| < n {
        return Err(Truncated(n, |rest|));
      }
      r := Ok(rest[..n]);
      rest := rest[n..];
    }

    method ReadUint(width: nat) returns (r: Result<nat, BoltError>)
      modifies this
      ensures Advanced(Wire.ReadUint(width, old(rest)), r, rest)
      ensures r.Err? ==> rest == old(rest)
    {
      var bytes := ReadBytes(width);
      if bytes.Err? {
        return Err(bytes.error);
      }
      r := Ok(FromBe(bytes.value));
    }

    method ReadBigSize() returns (r: Result<nat, BoltError>)
      modifies this
      ensures Advanced(Wire.ReadBigSize(old(rest)), r, rest)
    {
      var prefix := ReadUint(1);
      if prefix.Err? {
        return Err(BigSizeTruncated);
      }
      assert FromBe(old(rest)[..1]) == old(rest)[0] by {
        assert old(rest)[..1][..0] == [];
      }
      if prefix.value < 0xfd {
        return Ok(prefix.value);
      }
      var width, minimum := 8, 0x1_0000_0000;
      if prefix.value == 0xfd {
        width, minimum := 2, 0xfd;
      } else if prefix.value == 0xfe {
        width, minimum := 4, 0x1_0000;
      }
      var value := ReadUint(width);
      if value.Err? {
        return Err(BigSizeTruncated);
      }
      if value.value < minimum {
        return Err(BigSizeNotMinimal);
      }
      r := Ok(value.value);
    }

    method ReadVec() returns (r: Result<seq<byte>, BoltError>)
      modifies this
      ensures Advanced(Wire.ReadVec(old(rest)), r, rest)
    {
      var len := ReadUint(2);
      if len.Err? {
        return Err(len.error);
      }
      r := ReadBytes(len.value);
    }
  }

  class Buffer {
    var bytes: seq<byte>

    constructor ()
      ensures bytes == []
    {
      bytes := [];
    }

    method Extend(bs: seq<byte>)
      modifies this
      ensures bytes == old(bytes) + bs
    {
      bytes := bytes + bs;
    }

    method WriteUint(v: nat, width: nat)
      modifies this
      ensures bytes == old(bytes) + ToBe(v, width)
    {
      bytes := bytes + ToBe(v, width);
    }

    method WriteBigSize(v: nat)
      requires v < U64_LIMIT
      modifies this
      ensures bytes == old(bytes) + BigSizeBytes(v)
    {
      if v < 0xfd {
        assert ToBe(v, 1) == [v % 256] by {
          assert ToBe(v / 256, 0) == [];
        }
        WriteUint(v, 1);
      } else if v < 0x1_0000 {
        Extend([0xfd]);
        WriteUint(v, 2);
      } else if v < 0x1_0000_0000 {
        Extend([0xfe]);
        WriteUint(v, 4);
      } else {
        Extend([0xff]);
        WriteUint(v, 8);
      }
    }

    method WriteVec(v: seq<byte>)
      modifies this
      ensures bytes == old(bytes) + VecBytes(v)
    {
      WriteUint(|v|, 2);
      Extend(v);
    }
  }
}
