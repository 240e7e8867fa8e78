/** TLV streams: a grammar, the parser that accepts exactly it, and the sorted map they form. */
module Tlv {
  import opened Wrappers
  import opened Bytes
  import opened Wire

  datatype Record = Record(tlvType: nat, value: seq<byte>)

  predicate Fits(r: Record) {
    r.tlvType < U64_LIMIT && |r.value| < U64_LIMIT
  }

  predicate Understood(tlvType: nat, knownEven: seq<nat>) {
    tlvType % 2 == 1 || tlvType in knownEven
  }

  predicate Sorted(rs: seq<Record>) {
    forall i, j :: 0 <= i < j < |rs| ==> rs[i].tlvType < rs[j].tlvType
  }

  /** The streams of BOLT 1: strictly increasing types, and every even type known. */
  predicate Canonical(rs: seq<Record>, knownEven: seq<nat>) {
    && Sorted(rs)
    && forall i :: 0 <= i < |rs| ==> Fits(rs[i]) && Understood(rs[i].tlvType, knownEven)
  }

  function EncodeRecord(r: Record): (bs: seq<byte>)
    ensures |bs| == BigSizeLen(r.tlvType) + BigSizeLen(|r.value|) + |r.value|
  {
    BigSizeBytes(r.tlvType) + BigSizeBytes(|r.value|) + r.value
  }

  function Encode(rs: seq<Record>): seq<byte> {
    if rs == [] then [] else EncodeRecord(rs[0]) + Encode(rs[1..])
  }

  predicate Above(last: Option<nat>, t: nat) {
    last.Some? ==> t > last.value
  }

  /** One record, in the order the checks are made: type, order, length, even/odd rule. */
  function ReadRecord(last: Option<nat>, knownEven: seq<nat>, data: seq<byte>): (r: Parsed<Record>)
    ensures r.Ok? ==> |r.value.1| < |data|
  {
    var (t, afterType) :- ReadBigSize(data);
    if !Above(last, t) then Err(TlvNotIncreasing(last.value, t))
    else
      var (n, afterLength) :- ReadBigSize(afterType);
      if n > |afterLength| then Err(TlvLengthOverflow)
      else if !Understood(t, knownEven) then Err(TlvUnknownEvenType(t))
      else Ok((Record(t, afterLength[..n]), afterLength[n..]))
  }

  function DecodeAfter(last: Option<nat>, knownEven: seq<nat>, data: seq<byte>): Result<seq<Record>, BoltError>
    decreases |data|
  {
    if data == [] then Ok([])
    else
      var (r, rest) :- ReadRecord(last, knownEven, data);
      var rs :- DecodeAfter(Some(r.tlvType), knownEven, rest);
      Ok([r] + rs)
  }

  function Decode(data: seq<byte>, knownEven: seq<nat>): Result<seq<Record>, BoltError> {
    DecodeAfter(None, knownEven, data)
  }

  /** A stream decoded so far, and what decoding the bytes left will make of the whole. */
  predicate Continues(whole: Result<seq<Record>, BoltError>, done: seq<Record>, left: Result<seq<Record>, BoltError>) {
    if left.Ok? then whole == Ok(done + left.value) else whole == left
  }

  lemma ContinuesPast(whole: Result<seq<Record>, BoltError>, done: seq<Record>, last: Option<nat>, knownEven: seq<nat>,
                      data: seq<byte>, r: Record, rest: seq<byte>)
    requires data != [] && ReadRecord(last, knownEven, data) == Ok((r, rest))
    requires Continues(whole, done, DecodeAfter(last, knownEven, data))
    ensures Continues(whole, done + [r], DecodeAfter(Some(r.tlvType), knownEven, rest))
  {
    var left := DecodeAfter(Some(r.tlvType), knownEven, rest);
    if left.Ok? {
      assert done + ([r] + left.value) == (done + [r]) + left.value;
    }
  }

  // ----- One record -----

  predicate Acceptable(last: Option<nat>, knownEven: seq<nat>, r: Record) {
    Fits(r) && Above(last, r.tlvType) && Understood(r.tlvType, knownEven)
  }

  lemma RecordRoundTrip(last: Option<nat>, knownEven: seq<nat>, r: Record, rest: seq<byte>)
    requires Acceptable(last, knownEven, r)
    ensures ReadRecord(last, knownEven, EncodeRecord(r) + rest) == Ok((r, rest))
  {
    var tail := BigSizeBytes(|r.value|) + (r.value + rest);
    Regroup(BigSizeBytes(r.tlvType), BigSizeBytes(|r.value|), r.value, rest);
    BigSizeRoundTrip(r.tlvType, tail);
    BigSizeRoundTrip(|r.value|, r.value + rest);
  }

  lemma RecordCanonical(last: Option<nat>, knownEven: seq<nat>, data: seq<byte>)
    requires ReadRecord(last, knownEven, data).Ok?
    ensures var (r, rest) := ReadRecord(last, knownEven, data).value;
            Acceptable(last, knownEven, r) && EncodeRecord(r) + rest == data
  {
    BigSizeCanonical(data);
    var (t, afterType) := ReadBigSize(data).value;
    BigSizeCanonical(afterType);
    var (n, afterLength) := ReadBigSize(afterType).value;
    assert afterLength[..n] + afterLength[n..] == afterLength;
    Regroup(BigSizeBytes(t), BigSizeBytes(n), afterLength[..n], afterLength[n..]);
  }

  lemma Regroup(a: seq<byte>, b: seq<byte>, c: seq<byte>, d: seq<byte>)
    ensures (a + b + c) + d == a + (b + (c + d))
    ensures a + (b + c + d) == a + b + c + d
  {
  }

  /** Errors that no later byte can change. */
  predicate Final(e: BoltError) {
    e.TlvNotIncreasing? || e.BigSizeNotMinimal? || e.TlvUnknownEvenType?
  }

  /** Errors of a stream that was cut. */
  predicate Cut(e: BoltError) {
    e.BigSizeTruncated? || e.TlvLengthOverflow?
  }

  lemma RecordErrorIsFinal(last: Option<nat>, knownEven: seq<nat>, data: seq<byte>, more: seq<byte>)
    requires ReadRecord(last, knownEven, data).Err? && Final(ReadRecord(last, knownEven, data).error)
    ensures ReadRecord(last, knownEven, data + more) == ReadRecord(last, knownEven, data)
  {
    if ReadBigSize(data).Ok? {
      BigSizeExtends(data, more);
      var (t, afterType) := ReadBigSize(data).value;
      if Above(last, t) {
        if ReadBigSize(afterType).Ok? {
          BigSizeExtends(afterType, more);
        } else {
          NotMinimalExtends(afterType, more);
        }
      }
    } else {
      NotMinimalExtends(data, more);
    }
  }

  lemma CutRecord(last: Option<nat>, knownEven: seq<nat>, r: Record, n: nat)
    requires Acceptable(last, knownEven, r) && n < |EncodeRecord(r)|
    ensures var p := ReadRecord(last, knownEven, EncodeRecord(r)[..n]);
            p.Err? && Cut(p.error)
  {
    var typeBytes, lengthBytes := BigSizeBytes(r.tlvType), BigSizeBytes(|r.value|);
    var data := EncodeRecord(r)[..n];
    if n < |typeBytes| {
      assert data == typeBytes[..n];
      BigSizeCut(r.tlvType, n);
    } else {
      var m := n - |typeBytes|;
      var afterType := (lengthBytes + r.value)[..m];
      assert data == typeBytes + afterType;
      BigSizeRoundTrip(r.tlvType, afterType);
      if m < |lengthBytes| {
        assert afterType == lengthBytes[..m];
        BigSizeCut(|r.value|, m);
      } else {
        assert afterType == lengthBytes + r.value[..m - |lengthBytes|];
        BigSizeRoundTrip(|r.value|, r.value[..m - |lengthBytes|]);
      }
    }
  }

  /** A type that does not exceed the one before it is refused with both, whatever follows. */
  lemma TypeRefused(last: Option<nat>, knownEven: seq<nat>, t: nat, rest: seq<byte>)
    requires t < U64_LIMIT && last.Some? && t <= last.value
    ensures ReadRecord(last, knownEven, BigSizeBytes(t) + rest) == Err(TlvNotIncreasing(last.value, t))
  {
    BigSizeRoundTrip(t, rest);
  }

  /** A type or length that is not a BigSize is refused with that error, the length only once the type has passed. */
  lemma BigSizeRefused(last: Option<nat>, knownEven: seq<nat>, t: nat, rest: seq<byte>)
    ensures ReadBigSize(rest).Err? ==> ReadRecord(last, knownEven, rest) == Err(ReadBigSize(rest).error)
    ensures t < U64_LIMIT && (last.Some? ==> t > last.value) && ReadBigSize(rest).Err? ==>
              ReadRecord(last, knownEven, BigSizeBytes(t) + rest) == Err(ReadBigSize(rest).error)
  {
    if t < U64_LIMIT {
      BigSizeRoundTrip(t, rest);
    }
  }

  /** After a good type and length, a short value is an overflow; with a whole value, an even type must be known. */
  lemma ValueRefused(last: Option<nat>, knownEven: seq<nat>, t: nat, n: nat, rest: seq<byte>)
    requires t < U64_LIMIT && n < U64_LIMIT && (last.Some? ==> t > last.value)
    ensures var r := ReadRecord(last, knownEven, BigSizeBytes(t) + (BigSizeBytes(n) + rest));
            && (r == Err(TlvLengthOverflow) <==> n > |rest|)
            && (r == Err(TlvUnknownEvenType(t)) <==> n <= |rest| && t % 2 == 0 && t !in knownEven)
            && (r.Ok? <==> n <= |rest| && (t % 2 == 1 || t in knownEven))
  {
    BigSizeRoundTrip(t, BigSizeBytes(n) + rest);
    BigSizeRoundTrip(n, rest);
  }

  // ----- Streams -----

  predicate CanonicalAfter(last: Option<nat>, rs: seq<Record>, knownEven: seq<nat>) {
    Canonical(rs, knownEven) && (rs != [] ==> Above(last, rs[0].tlvType))
  }

  lemma CanonicalTail(last: Option<nat>, rs: seq<Record>, knownEven: seq<nat>)
    requires CanonicalAfter(last, rs, knownEven) && rs != []
    ensures Acceptable(last, knownEven, rs[0])
    ensures CanonicalAfter(Some(rs[0].tlvType), rs[1..], knownEven)
  {
  }

  lemma CanonicalCons(last: Option<nat>, r: Record, tail: seq<Record>, knownEven: seq<nat>)
    requires Acceptable(last, knownEven, r) && CanonicalAfter(Some(r.tlvType), tail, knownEven)
    ensures CanonicalAfter(last, [r] + tail, knownEven)
  {
    var rs := [r] + tail;
    assert forall i :: 0 < i < |rs| ==> rs[i] == tail[i - 1];
    assert forall i :: 0 <= i < |tail| ==> r.tlvType < tail[i].tlvType;
  }

  lemma DecodeCons(last: Option<nat>, knownEven: seq<nat>, r: Record, rest: seq<byte>)
    requires Acceptable(last, knownEven, r)
    ensures DecodeAfter(last, knownEven, EncodeRecord(r) + rest) ==
            match DecodeAfter(Some(r.tlvType), knownEven, rest)
            case Ok(rs) => Ok([r] + rs)
            case Err(e) => Err(e)
  {
    RecordRoundTrip(last, knownEven, r, rest);
    assert |EncodeRecord(r) + rest| > 0;
  }

  lemma {:induction false} DecodeOfEncode(last: Option<nat>, rs: seq<Record>, knownEven: seq<nat>)
    requires CanonicalAfter(last, rs, knownEven)
    ensures DecodeAfter(last, knownEven, Encode(rs)) == Ok(rs)
    decreases |rs|
  {
    if rs != [] {
      CanonicalTail(last, rs, knownEven);
      DecodeCons(last, knownEven, rs[0], Encode(rs[1..]));
      DecodeOfEncode(Some(rs[0].tlvType), rs[1..], knownEven);
      assert rs == [rs[0]] + rs[1..];
    }
  }

  lemma {:induction false} EncodeOfDecode(last: Option<nat>, knownEven: seq<nat>, data: seq<byte>)
    requires DecodeAfter(last, knownEven, data).Ok?
    ensures var rs := DecodeAfter(last, knownEven, data).value;
            CanonicalAfter(last, rs, knownEven) && Encode(rs) == data
    decreases |data|
  {
    if data != [] {
      RecordCanonical(last, knownEven, data);
      var (r, rest) := ReadRecord(last, knownEven, data).value;
      EncodeOfDecode(Some(r.tlvType), knownEven, rest);
      var tail := DecodeAfter(Some(r.tlvType), knownEven, rest).value;
      CanonicalCons(last, r, tail, knownEven);
      assert ([r] + tail)[1..] == tail;
    }
  }

  /**
   * The bijection: exactly the encodings of canonical streams are accepted, each as the stream it
   * encodes, so encoding and decoding undo each other both ways.
   */
  lemma DecodeIffEncoded(data: seq<byte>, rs: seq<Record>, knownEven: seq<nat>)
    ensures Decode(data, knownEven) == Ok(rs) <==> Canonical(rs, knownEven) && Encode(rs) == data
  {
    if Decode(data, knownEven) == Ok(rs) {
      EncodeOfDecode(None, knownEven, data);
    }
    if Canonical(rs, knownEven) && Encode(rs) == data {
      DecodeOfEncode(None, rs, knownEven);
    }
  }

  function LastOf(last: Option<nat>, rs: seq<Record>): Option<nat> {
    if rs == [] then last else Some(rs[|rs| - 1].tlvType)
  }

  /** The bytes are the records rs followed by something that is refused with e. */
  ghost predicate RefusedAfter(last: Option<nat>, knownEven: seq<nat>, data: seq<byte>, rs: seq<Record>, e: BoltError) {
    && CanonicalAfter(last, rs, knownEven)
    && Encode(rs) < data
    && ReadRecord(LastOf(last, rs), knownEven, data[|Encode(rs)|..]) == Err(e)
  }

  lemma {:induction false} RefusedIsError(last: Option<nat>, knownEven: seq<nat>, data: seq<byte>, rs: seq<Record>, e: BoltError)
    requires RefusedAfter(last, knownEven, data, rs, e)
    ensures DecodeAfter(last, knownEven, data) == Err(e)
    decreases |rs|
  {
    if rs == [] {
      assert data[|Encode(rs)|..] == data;
    } else {
      CanonicalTail(last, rs, knownEven);
      var r, tail := rs[0], rs[1..];
      var rest := data[|EncodeRecord(r)|..];
      PastFirst(EncodeRecord(r), Encode(tail), data);
      RefusedIsError(Some(r.tlvType), knownEven, rest, tail, e);
      DecodeCons(last, knownEven, r, rest);
    }
  }

  lemma {:induction false} ErrorIsRefused(last: Option<nat>, knownEven: seq<nat>, data: seq<byte>) returns (rs: seq<Record>)
    requires DecodeAfter(last, knownEven, data).Err?
    ensures RefusedAfter(last, knownEven, data, rs, DecodeAfter(last, knownEven, data).error)
    decreases |data|
  {
    if ReadRecord(last, knownEven, data).Err? {
      rs := [];
      assert data[|Encode(rs)|..] == data;
    } else {
      RecordCanonical(last, knownEven, data);
      var (r, rest) := ReadRecord(last, knownEven, data).value;
      var tail := ErrorIsRefused(Some(r.tlvType), knownEven, rest);
      rs := [r] + tail;
      RefusedCons(last, knownEven, r, rest, tail, DecodeAfter(last, knownEven, data).error);
    }
  }

  lemma RefusedCons(last: Option<nat>, knownEven: seq<nat>, r: Record, rest: seq<byte>, tail: seq<Record>, e: BoltError)
    requires Acceptable(last, knownEven, r) && RefusedAfter(Some(r.tlvType), knownEven, rest, tail, e)
    ensures RefusedAfter(last, knownEven, EncodeRecord(r) + rest, [r] + tail, e)
  {
    hide ReadRecord, EncodeRecord;
    CanonicalCons(last, r, tail, knownEven);
    assert ([r] + tail)[1..] == tail;
    assert Encode([r] + tail) == EncodeRecord(r) + Encode(tail);
    AfterFirst(EncodeRecord(r), Encode(tail), rest);
  }

  lemma AfterFirst(a: seq<byte>, b: seq<byte>, rest: seq<byte>)
    requires b < rest
    ensures a + b < a + rest && (a + rest)[|a + b|..] == rest[|b|..]
  {
  }

  lemma PastFirst(a: seq<byte>, b: seq<byte>, data: seq<byte>)
    requires a + b < data
    ensures data == a + data[|a|..] && b < data[|a|..] && data[|a|..][|b|..] == data[|a + b|..]
  {
    assert data == (a + b) + data[|a + b|..];
  }

  /** Decoding fails with an error exactly when some canonical records are followed by a record refused with it. */
  lemma ErrorIffRefused(last: Option<nat>, knownEven: seq<nat>, data: seq<byte>, e: BoltError)
    ensures DecodeAfter(last, knownEven, data) == Err(e) <==> exists rs :: RefusedAfter(last, knownEven, data, rs, e)
  {
    if DecodeAfter(last, knownEven, data) == Err(e) {
      var rs := ErrorIsRefused(last, knownEven, data);
    }
    if rs :| RefusedAfter(last, knownEven, data, rs, e) {
      RefusedIsError(last, knownEven, data, rs, e);
    }
  }

  lemma {:induction false} EncodeConcat(a: seq<Record>, b: seq<Record>)
    ensures Encode(a + b) == Encode(a) + Encode(b)
  {
    if a == [] {
      assert a + b == b;
    } else {
      assert (a + b)[1..] == a[1..] + b;
      EncodeConcat(a[1..], b);
    }
  }

  lemma EncodeNext(rs: seq<Record>, i: nat)
    requires i < |rs|
    ensures Encode(rs[..i + 1]) == Encode(rs[..i]) + BigSizeBytes(rs[i].tlvType) + BigSizeBytes(|rs[i].value|) + rs[i].value
  {
    assert rs[..i + 1] == rs[..i] + [rs[i]];
    EncodeConcat(rs[..i], [rs[i]]);
    assert [rs[i]][1..] == [];
    assert Encode([rs[i]]) == EncodeRecord(rs[i]) + [];
    Regroup(Encode(rs[..i]), BigSizeBytes(rs[i].tlvType), BigSizeBytes(|rs[i].value|), rs[i].value);
  }

  // ----- Prefixes and extensions -----

  /** An order, minimality or even-type error stands whatever is appended. */
  lemma {:induction false} ErrorIsFinal(last: Option<nat>, knownEven: seq<nat>, data: seq<byte>, more: seq<byte>)
    requires DecodeAfter(last, knownEven, data).Err? && Final(DecodeAfter(last, knownEven, data).error)
    ensures DecodeAfter(last, knownEven, data + more) == DecodeAfter(last, knownEven, data)
    decreases |data|
  {
    match ReadRecord(last, knownEven, data)
    case Err(_) => RecordErrorIsFinal(last, knownEven, data, more);
    case Ok((r, rest)) =>
      RecordCanonical(last, knownEven, data);
      assert data + more == EncodeRecord(r) + (rest + more);
      assert data == EncodeRecord(r) + rest;
      DecodeCons(last, knownEven, r, rest + more);
      ErrorIsFinal(Some(r.tlvType), knownEven, rest, more);
  }

  /** A prefix of a valid stream is the stream cut between two records, or an error of a cut stream. */
  ghost predicate CutBetween(rs: seq<Record>, n: nat, r: Result<seq<Record>, BoltError>) {
    || (r.Err? && Cut(r.error))
    || (exists k :: 0 <= k <= |rs| && n == |Encode(rs[..k])| && r == Ok(rs[..k]))
  }

  lemma PrefixOfConcat(a: seq<byte>, b: seq<byte>, n: nat)
    requires n <= |a + b|
    ensures (a + b)[..n] == if n < |a| then a[..n] else a + b[..n - |a|]
  {
  }

  lemma {:induction false} PrefixOfStream(last: Option<nat>, rs: seq<Record>, knownEven: seq<nat>, n: nat)
    requires CanonicalAfter(last, rs, knownEven) && n <= |Encode(rs)|
    ensures CutBetween(rs, n, DecodeAfter(last, knownEven, Encode(rs)[..n]))
    decreases |rs|
  {
    hide ReadRecord, EncodeRecord;
    if n == 0 {
      assert rs[..0] == [];
    } else {
      CanonicalTail(last, rs, knownEven);
      var r, tail := rs[0], rs[1..];
      var m := |EncodeRecord(r)|;
      PrefixOfConcat(EncodeRecord(r), Encode(tail), n);
      if n < m {
        CutRecord(last, knownEven, r, n);
      } else {
        var rest := Encode(tail)[..n - m];
        PrefixOfStream(Some(r.tlvType), tail, knownEven, n - m);
        PrefixPastRecord(last, knownEven, r, tail, n - m, rest);
        assert rs == [r] + tail;
      }
    }
  }

  lemma PrefixPastRecord(last: Option<nat>, knownEven: seq<nat>, r: Record, tail: seq<Record>, n: nat, rest: seq<byte>)
    requires Acceptable(last, knownEven, r)
    requires CutBetween(tail, n, DecodeAfter(Some(r.tlvType), knownEven, rest))
    ensures CutBetween([r] + tail, |EncodeRecord(r)| + n, DecodeAfter(last, knownEven, EncodeRecord(r) + rest))
  {
    DecodeCons(last, knownEven, r, rest);
    CutBetweenCons(r, tail, n, DecodeAfter(Some(r.tlvType), knownEven, rest));
  }

  lemma CutBetweenCons(r: Record, tail: seq<Record>, n: nat, d: Result<seq<Record>, BoltError>)
    requires CutBetween(tail, n, d)
    ensures CutBetween([r] + tail, |EncodeRecord(r)| + n, match d case Ok(rs) => Ok([r] + rs) case Err(e) => Err(e))
  {
    if d.Ok? {
      var k :| 0 <= k <= |tail| && n == |Encode(tail[..k])| && d == Ok(tail[..k]);
      var cut := ([r] + tail)[..k + 1];
      assert cut == [r] + tail[..k] && cut[1..] == tail[..k];
      assert Encode(cut) == EncodeRecord(r) + Encode(tail[..k]);
    }
  }

  // ----- Streams as sorted maps -----

  function Lookup(rs: seq<Record>, t: nat): Option<seq<byte>> {
    if rs == [] then None
    else if rs[0].tlvType == t then Some(rs[0].value)
    else Lookup(rs[1..], t)
  }

  predicate Has(rs: seq<Record>, t: nat) {
    exists i :: 0 <= i < |rs| && rs[i].tlvType == t
  }

  function Insert(rs: seq<Record>, r: Record): seq<Record> {
    if rs == [] || r.tlvType <= rs[0].tlvType then [r] + rs else [rs[0]] + Insert(rs[1..], r)
  }

  lemma {:induction false} InsertAt(rs: seq<Record>, r: Record, pos: nat)
    requires pos <= |rs|
    requires forall i :: 0 <= i < pos ==> rs[i].tlvType < r.tlvType
    requires pos < |rs| ==> rs[pos].tlvType >= r.tlvType
    ensures Insert(rs, r) == rs[..pos] + [r] + rs[pos..]
  {
    if pos > 0 {
      InsertAt(rs[1..], r, pos - 1);
      assert rs[1..][..pos - 1] == rs[1..pos];
      assert rs[..pos] == [rs[0]] + rs[1..pos];
    }
  }

  /** At the first record not below t, the duplicate check fires exactly when t is present anywhere. */
  lemma DuplicateIsAtPosition(rs: seq<Record>, t: nat, pos: nat)
    requires Sorted(rs) && pos <= |rs|
    requires forall i :: 0 <= i < pos ==> rs[i].tlvType < t
    requires pos < |rs| ==> rs[pos].tlvType >= t
    ensures Has(rs, t) <==> pos < |rs| && rs[pos].tlvType == t
  {
    if Has(rs, t) {
      var i :| 0 <= i < |rs| && rs[i].tlvType == t;
      assert i >= pos;
    }
  }

  lemma {:induction false} InsertAdds(rs: seq<Record>, r: Record)
    ensures multiset(Insert(rs, r)) == multiset(rs) + multiset{r}
  {
    if !(rs == [] || r.tlvType <= rs[0].tlvType) {
      InsertAdds(rs[1..], r);
      assert rs == [rs[0]] + rs[1..];
    }
  }

  lemma {:induction false} InsertSorts(rs: seq<Record>, r: Record)
    requires Sorted(rs) && !Has(rs, r.tlvType)
    ensures Sorted(Insert(rs, r))
  {
    if rs == [] || r.tlvType <= rs[0].tlvType {
      assert rs != [] ==> rs[0].tlvType != r.tlvType;
    } else {
      var tail := Insert(rs[1..], r);
      InsertSorts(rs[1..], r);
      InsertAdds(rs[1..], r);
      forall i | 0 <= i < |tail| ensures rs[0].tlvType < tail[i].tlvType {
        assert tail[i] in multiset(tail);
        assert tail[i] in rs[1..] || tail[i] == r;
      }
    }
  }

  lemma {:induction false} InsertLookup(rs: seq<Record>, r: Record, t: nat)
    requires !Has(rs, r.tlvType)
    ensures Lookup(Insert(rs, r), t) == if t == r.tlvType then Some(r.value) else Lookup(rs, t)
  {
    if rs == [] || r.tlvType <= rs[0].tlvType {
      assert ([r] + rs)[1..] == rs;
    } else {
      assert !Has(rs[1..], r.tlvType);
      InsertLookup(rs[1..], r, t);
      var tail := Insert(rs[1..], r);
      assert ([rs[0]] + tail)[1..] == tail;
      assert rs[0].tlvType != r.tlvType;
    }
  }

  /** Inserting a fresh type keeps the order, and changes what one type maps to and no other. */
  lemma InsertIsMapInsertion(rs: seq<Record>, r: Record, t: nat)
    requires Sorted(rs) && !Has(rs, r.tlvType)
    ensures Sorted(Insert(rs, r))
    ensures multiset(Insert(rs, r)) == multiset(rs) + multiset{r}
    ensures Lookup(Insert(rs, r), t) == if t == r.tlvType then Some(r.value) else Lookup(rs, t)
  {
    InsertAdds(rs, r);
    InsertSorts(rs, r);
    InsertLookup(rs, r, t);
  }

  lemma {:induction false} LookupFinds(rs: seq<Record>, t: nat)
    requires Sorted(rs)
    ensures Lookup(rs, t).Some? <==> Has(rs, t)
    ensures forall i :: 0 <= i < |rs| && rs[i].tlvType == t ==> Lookup(rs, t) == Some(rs[i].value)
  {
    if rs != [] {
      LookupFinds(rs[1..], t);
      assert forall i :: 0 < i < |rs| ==> rs[i] == rs[1..][i - 1];
    }
  }

  function InsertAll(rs: seq<Record>): seq<Record> {
    if rs == [] then [] else Insert(InsertAll(rs[..|rs| - 1]), rs[|rs| - 1])
  }

  predicate DistinctTypes(rs: seq<Record>) {
    forall i, j :: 0 <= i < j < |rs| ==> rs[i].tlvType != rs[j].tlvType
  }

  lemma {:induction false} InsertAllSorts(rs: seq<Record>)
    requires DistinctTypes(rs)
    ensures Sorted(InsertAll(rs)) && multiset(InsertAll(rs)) == multiset(rs)
  {
    if rs != [] {
      var init, last := rs[..|rs| - 1], rs[|rs| - 1];
      InsertAllSorts(init);
      var sorted := InsertAll(init);
      forall i | 0 <= i < |sorted| ensures sorted[i].tlvType != last.tlvType {
        assert sorted[i] in multiset(sorted);
        assert sorted[i] in init;
        var k :| 0 <= k < |init| && init[k] == sorted[i];
        assert rs[k] == init[k];
      }
      InsertIsMapInsertion(sorted, last, 0);
      assert rs == init + [last];
    }
  }

  lemma LeastIsFirst(a: seq<Record>, b: seq<Record>)
    requires Sorted(a) && Sorted(b) && multiset(a) == multiset(b) && a != [] && b != []
    ensures a[0] == b[0]
  {
    assert a[0] in multiset(a) && b[0] in multiset(b);
    assert a[0] in b && b[0] in a;
    var i :| 0 <= i < |b| && b[i] == a[0];
    var j :| 0 <= j < |a| && a[j] == b[0];
    assert b[0].tlvType <= b[i].tlvType && a[0].tlvType <= a[j].tlvType;
    assert i == 0;
  }

  lemma {:induction false} SortedIsUnique(a: seq<Record>, b: seq<Record>)
    requires Sorted(a) && Sorted(b) && multiset(a) == multiset(b)
    ensures a == b
  {
    assert |a| == |multiset(a)| == |multiset(b)| == |b|;
    if a != [] {
      LeastIsFirst(a, b);
      assert a == [a[0]] + a[1..] && b == [b[0]] + b[1..];
      assert multiset(a[1..]) == multiset(a) - multiset{a[0]};
      assert multiset(b[1..]) == multiset(b) - multiset{b[0]};
      SortedIsUnique(a[1..], b[1..]);
    }
  }

  /** Adding the same records in any order gives the same stream, hence the same bytes. */
  lemma AddOrderIrrelevant(rs: seq<Record>, ss: seq<Record>)
    requires DistinctTypes(rs) && DistinctTypes(ss) && multiset(rs) == multiset(ss)
    ensures InsertAll(rs) == InsertAll(ss) && Encode(InsertAll(rs)) == Encode(InsertAll(ss))
  {
    InsertAllSorts(rs);
    InsertAllSorts(ss);
    SortedIsUnique(InsertAll(rs), InsertAll(ss));
  }
}

/** The stateful TLV stream and its cursor loop. */
module TlvStreams {
  import opened Wrappers
  import opened Bytes
  import opened Wire
  import opened Cursors
  import opened Tlv

  class TlvStream {
    var records: seq<Record>

    ghost predicate Valid()
      reads this
    {
      Sorted(records)
    }

    constructor ()
      ensures Valid() && records == []
    {
      records := [];
    }

    /** The source panics on a type that is already present. */
    method Add(tlvType: nat, value: seq<byte>)
      requires Valid() && !Has(records, tlvType)
      modifies this
      ensures Valid() && records == Insert(old(records), Record(tlvType, value))
    {
      var pos := 0;
      while pos < |records| && records[pos].tlvType < tlvType
        invariant pos <= |records|
        invariant forall i :: 0 <= i < pos ==> records[i].tlvType < tlvType
      {
        pos := pos + 1;
      }
      DuplicateIsAtPosition(records, tlvType, pos);
      assert pos == |records| || records[pos].tlvType != tlvType;
      InsertAt(records, Record(tlvType, value), pos);
      InsertIsMapInsertion(records, Record(tlvType, value), 0);
      records := records[..pos] + [Record(tlvType, value)] + records[pos..];
    }

    method Get(tlvType: nat) returns (r: Option<seq<byte>>)
      requires Valid()
      ensures r == Lookup(records, tlvType)
    {
      LookupFinds(records, tlvType);
      var i := 0;
      while i < |records|
        invariant i <= |records|
        invariant forall k :: 0 <= k < i ==> records[k].tlvType != tlvType
      {
        if records[i].tlvType == tlvType {
          return Some(records[i].value);
        }
        i := i + 1;
      }
      r := None;
    }

    method Encode() returns (bytes: seq<byte>)
      requires forall i :: 0 <= i < |records| ==> Fits(records[i])
      ensures bytes == Tlv.Encode(records)
    {
      var out := new Buffer();
      var i := 0;
      while i < |records|
        invariant i <= |records|
        invariant fresh(out)
        invariant out.bytes == Tlv.Encode(records[..i])
      {
        out.WriteBigSize(records[i].tlvType);
        out.WriteBigSize(|records[i].value|);
        out.Extend(records[i].value);
        EncodeNext(records, i);
        i := i + 1;
      }
      assert records[..i] == records;
      bytes := out.bytes;
    }

    static method DecodeWithKnown(data: seq<byte>, knownEven: seq<nat>) returns (r: Result<TlvStream, BoltError>)
      ensures r.Ok? ==> fresh(r.value) && r.value.Valid() && Tlv.Decode(data, knownEven) == Ok(r.value.records)
      ensures r.Err? ==> Tlv.Decode(data, knownEven) == Err(r.error)
    {
      var stream := new TlvStream();
      var cursor := new Cursor(data);
      var lastType: Option<nat> := None;
      assert forall rs: seq<Record> :: [] + rs == rs;
      while cursor.rest != []
        invariant fresh(stream) && fresh(cursor)
        invariant Continues(Tlv.Decode(data, knownEven), stream.records, DecodeAfter(lastType, knownEven, cursor.rest))
        decreases |cursor.rest|
      {
        ghost var before := cursor.rest;
        var tlvType := cursor.ReadBigSize();
        if tlvType.Err? {
          return Err(tlvType.error);
        }
        if lastType.Some? && tlvType.value <= lastType.value {
          return Err(TlvNotIncreasing(lastType.value, tlvType.value));
        }
        ghost var prev := lastType;
        lastType := Some(tlvType.value);
        var length := cursor.ReadBigSize();
        if length.Err? {
          return Err(length.error);
        }
        if length.value > |cursor.rest| {
          return Err(TlvLengthOverflow);
        }
        var isEven := tlvType.value % 2 == 0;
        if isEven && tlvType.value !in knownEven {
          return Err(TlvUnknownEvenType(tlvType.value));
        }
        var value := cursor.rest[..length.value];
        cursor.rest := cursor.rest[length.value..];
        ContinuesPast(Tlv.Decode(data, knownEven), stream.records, prev, knownEven, before,
                      Record(tlvType.value, value), cursor.rest);
        stream.records := stream.records + [Record(tlvType.value, value)];
      }
      assert stream.records + [] == stream.records;
      DecodeIffEncoded(data, stream.records, knownEven);
      r := Ok(stream);
    }

    static method Decode(data: seq<byte>) returns (r: Result<TlvStream, BoltError>)
      ensures r.Ok? ==> fresh(r.value) && r.value.Valid() && Tlv.Decode(data, []) == Ok(r.value.records)
      ensures r.Err? ==> Tlv.Decode(data, []) == Err(r.error)
    {
      r := DecodeWithKnown(data, []);
    }
  }
}
