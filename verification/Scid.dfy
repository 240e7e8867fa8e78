/** Short channel ids: packing, and the `block x tx x output` text form. */
module Scid {
  import opened Wrappers
  import Wire

  const BLOCK_UNIT: nat := 0x100_0000_0000 // 2^40
  const TX_UNIT: nat := 0x1_0000           // 2^16
  const MAX_24: nat := 0xFF_FFFF
  const MAX_16: nat := 0xFFFF

  function Block(x: nat): nat {
    x / BLOCK_UNIT
  }

  function TxIndex(x: nat): nat {
    x / TX_UNIT % 0x100_0000
  }

  function Output(x: nat): nat {
    x % TX_UNIT
  }

  /** Shift-and-or of fields that do not overlap. */
  function Pack(block: nat, tx: nat, output: nat): nat {
    block * BLOCK_UNIT + tx * TX_UNIT + output
  }

  /** On 64-bit words the or of the shifted fields is their sum, and shifting and masking takes them out again. */
  lemma OrIsSum(block: bv64, tx: bv64, output: bv64)
    requires block <= 0xFF_FFFF && tx <= 0xFF_FFFF && output <= 0xFFFF
    ensures (block << 40) | (tx << 16) | output == (block << 40) + (tx << 16) + output
    ensures var x := (block << 40) | (tx << 16) | output;
            x >> 40 == block && (x >> 16) & 0xFF_FFFF == tx && x & 0xFFFF == output
  {
  }

  lemma PackUnpacks(block: nat, tx: nat, output: nat)
    requires block <= MAX_24 && tx <= MAX_24 && output <= MAX_16
    ensures var x := Pack(block, tx, output);
            x < Wire.U64_LIMIT && Block(x) == block && TxIndex(x) == tx && Output(x) == output
  {
    var x := Pack(block, tx, output);
    var low := tx * TX_UNIT + output;
    assert low < BLOCK_UNIT;
    assert x == (block * 0x100_0000 + tx) * TX_UNIT + output;
    assert x / TX_UNIT == block * 0x100_0000 + tx;
  }

  lemma UnpackPacks(x: nat)
    requires x < Wire.U64_LIMIT
    ensures Block(x) <= MAX_24 && TxIndex(x) <= MAX_24 && Output(x) <= MAX_16
    ensures Pack(Block(x), TxIndex(x), Output(x)) == x
  {
    var high := x / TX_UNIT;
    assert x == high * TX_UNIT + Output(x);
    assert high == (high / 0x100_0000) * 0x100_0000 + TxIndex(x);
    assert high / 0x100_0000 == Block(x);
  }

  /** Numeric order on packed ids is the order of block, then transaction, then output. */
  lemma OrderIsLexicographic(x: nat, y: nat)
    requires x < Wire.U64_LIMIT && y < Wire.U64_LIMIT
    ensures x < y <==>
            || Block(x) < Block(y)
            || (Block(x) == Block(y) && TxIndex(x) < TxIndex(y))
            || (Block(x) == Block(y) && TxIndex(x) == TxIndex(y) && Output(x) < Output(y))
  {
    UnpackPacks(x);
    UnpackPacks(y);
  }

  // ----- Decimal text -----

  predicate IsDigit(c: char) {
    '0' <= c <= '9'
  }

  function DigitOf(d: nat): (c: char)
    requires d < 10
    ensures IsDigit(c)
  {
    '0' + d as char
  }

  function Decimal(n: nat): (s: string)
    ensures s != []
  {
    if n < 10 then [DigitOf(n)] else Decimal(n / 10) + [DigitOf(n % 10)]
  }

  predicate AllDigits(s: string) {
    forall i :: 0 <= i < |s| ==> IsDigit(s[i])
  }

  function DigitsValue(s: string): nat
    requires AllDigits(s)
  {
    if s == [] then 0 else DigitsValue(s[..|s| - 1]) * 10 + (s[|s| - 1] - '0') as nat
  }

  /** The standard library's parse of an unsigned 64-bit integer: an optional plus sign, then digits. */
  function ParseU64(s: string): Option<nat> {
    var digits := if |s| > 0 && s[0] == '+' then s[1..] else s;
    if digits == [] || !AllDigits(digits) then None
    else if DigitsValue(digits) >= Wire.U64_LIMIT then None
    else Some(DigitsValue(digits))
  }

  lemma {:induction false} DecimalReadsBack(n: nat)
    ensures AllDigits(Decimal(n)) && DigitsValue(Decimal(n)) == n
  {
    if n >= 10 {
      DecimalReadsBack(n / 10);
      assert Decimal(n)[..|Decimal(n)| - 1] == Decimal(n / 10);
    } else {
      assert Decimal(n)[..0] == [];
    }
  }

  lemma ParseOfDecimal(n: nat)
    requires n < Wire.U64_LIMIT
    ensures ParseU64(Decimal(n)) == Some(n)
  {
    DecimalReadsBack(n);
    assert IsDigit(Decimal(n)[0]);
  }

  // ----- Fields between separators -----

  /** The pieces of s between occurrences of 'x'; always at least one. */
  function Split(s: string): (fields: seq<string>)
    ensures fields != []
  {
    if s == [] then [[]]
    else if s[0] == 'x' then [[]] + Split(s[1..])
    else
      var rest := Split(s[1..]);
      [[s[0]] + rest[0]] + rest[1..]
  }

  function Join(fields: seq<string>): string
    requires fields != []
  {
    if |fields| == 1 then fields[0] else fields[0] + ['x'] + Join(fields[1..])
  }

  lemma {:induction false} SplitOfField(a: string, rest: string)
    requires 'x' !in a
    ensures Split(a + ['x'] + rest) == [a] + Split(rest) && Split(a) == [a]
  {
    if a == [] {
      assert a + ['x'] + rest == ['x'] + rest;
      assert (['x'] + rest)[1..] == rest;
    } else {
      SplitOfField(a[1..], rest);
      var s := a + ['x'] + rest;
      assert s[1..] == a[1..] + ['x'] + rest;
      assert [a[0]] + a[1..] == a;
      assert ([a[1..]] + Split(rest))[1..] == Split(rest);
    }
  }

  /** Splitting loses nothing: the fields joined again are the text, and no field holds a separator. */
  lemma {:induction false} JoinOfSplit(s: string)
    ensures Join(Split(s)) == s
    ensures forall i :: 0 <= i < |Split(s)| ==> 'x' !in Split(s)[i]
  {
    if s != [] {
      JoinOfSplit(s[1..]);
      var rest := Split(s[1..]);
      if s[0] == 'x' {
        assert Split(s)[1..] == rest;
      } else {
        assert Split(s)[1..] == rest[1..];
        assert Split(s)[0] == [s[0]] + rest[0];
      }
      assert s == [s[0]] + s[1..];
    }
  }

  // ----- The text form -----

  function ScidStr(x: nat): string {
    Decimal(Block(x)) + ['x'] + Decimal(TxIndex(x)) + ['x'] + Decimal(Output(x))
  }

  function ParseScid(s: string): Option<nat> {
    var fields := Split(s);
    if |fields| != 3 then None
    else
      match (ParseU64(fields[0]), ParseU64(fields[1]), ParseU64(fields[2]))
      case (Some(block), Some(tx), Some(output)) =>
        if block > MAX_24 || tx > MAX_24 || output > MAX_16 then None
        else Some(Pack(block, tx, output))
      case _ => None
  }

  lemma DecimalHasNoSeparator(n: nat)
    ensures 'x' !in Decimal(n)
  {
    DecimalReadsBack(n);
  }

  lemma SplitOfScidStr(x: nat)
    ensures Split(ScidStr(x)) == [Decimal(Block(x)), Decimal(TxIndex(x)), Decimal(Output(x))]
  {
    var a, b, c := Decimal(Block(x)), Decimal(TxIndex(x)), Decimal(Output(x));
    DecimalHasNoSeparator(Block(x));
    DecimalHasNoSeparator(TxIndex(x));
    DecimalHasNoSeparator(Output(x));
    assert ScidStr(x) == a + ['x'] + (b + ['x'] + c);
    SplitOfField(a, b + ['x'] + c);
    SplitOfField(b, c);
    SplitOfField(c, []);
  }

  /** Every id survives printing and parsing. */
  lemma ScidTextRoundTrip(x: nat)
    requires x < Wire.U64_LIMIT
    ensures ParseScid(ScidStr(x)) == Some(x)
  {
    SplitOfScidStr(x);
    UnpackPacks(x);
    ParseOfDecimal(Block(x));
    ParseOfDecimal(TxIndex(x));
    ParseOfDecimal(Output(x));
  }

  /** Exactly the texts of three fields are accepted whose numbers are the three bit-fields of the result. */
  lemma ParsedIffFields(s: string, x: nat)
    ensures ParseScid(s) == Some(x) <==>
            && x < Wire.U64_LIMIT
            && |Split(s)| == 3
            && ParseU64(Split(s)[0]) == Some(Block(x))
            && ParseU64(Split(s)[1]) == Some(TxIndex(x))
            && ParseU64(Split(s)[2]) == Some(Output(x))
  {
    if ParseScid(s) == Some(x) {
      PackUnpacks(ParseU64(Split(s)[0]).value, ParseU64(Split(s)[1]).value, ParseU64(Split(s)[2]).value);
    }
    if x < Wire.U64_LIMIT {
      UnpackPacks(x);
    }
  }

  // ----- Texts that are not what would be printed -----

  /** No plus sign and no leading zero: the way a number is printed. */
  predicate Printed(f: string) {
    f != [] && f[0] != '+' && (|f| == 1 || f[0] != '0')
  }

  lemma {:induction false} DecimalIsPrinted(n: nat)
    ensures Printed(Decimal(n)) && (n > 0 ==> Decimal(n)[0] != '0')
  {
    if n >= 10 {
      DecimalIsPrinted(n / 10);
    }
    DecimalReadsBack(n);
    assert IsDigit(Decimal(n)[0]);
  }

  lemma {:induction false} DecimalOfDigits(d: string)
    requires AllDigits(d) && Printed(d)
    ensures Decimal(DigitsValue(d)) == d && (d[0] != '0' ==> DigitsValue(d) > 0)
  {
    var last := (d[|d| - 1] - '0') as nat;
    assert DigitOf(last) == d[|d| - 1];
    if |d| == 1 {
      assert d[..0] == [];
    } else {
      DecimalOfDigits(d[..|d| - 1]);
      assert d == d[..|d| - 1] + [d[|d| - 1]];
    }
  }

  lemma PrintedIff(f: string, n: nat)
    requires ParseU64(f) == Some(n)
    ensures Decimal(n) == f <==> Printed(f)
  {
    DecimalIsPrinted(n);
    if Printed(f) {
      DecimalOfDigits(f);
    }
  }

  function Zeros(k: nat): string {
    seq(k, _ => '0')
  }

  /** The ways to write n: perhaps a plus sign, any number of zeros, and n in decimal. */
  ghost predicate Writes(f: string, plus: bool, k: nat, n: nat) {
    f == (if plus then "+" else "") + Zeros(k) + Decimal(n)
  }

  lemma {:induction false} ZerosChangeNothing(k: nat, d: string)
    requires AllDigits(d)
    ensures AllDigits(Zeros(k) + d) && DigitsValue(Zeros(k) + d) == DigitsValue(d)
    decreases |d|, k
  {
    var s := Zeros(k) + d;
    if d != [] {
      assert s[..|s| - 1] == Zeros(k) + d[..|d| - 1];
      ZerosChangeNothing(k, d[..|d| - 1]);
    } else if k > 0 {
      assert s[..|s| - 1] == Zeros(k - 1) + d;
      ZerosChangeNothing(k - 1, d);
    }
  }

  /** Digits are zeros followed by the number they are worth. */
  lemma {:induction false} DigitsAreZerosAndDecimal(d: string) returns (k: nat)
    requires AllDigits(d) && d != []
    ensures d == Zeros(k) + Decimal(DigitsValue(d))
    decreases |d|
  {
    if Printed(d) {
      k := 0;
      DecimalOfDigits(d);
      assert Zeros(0) + d == d;
    } else {
      assert d[0] == '0' && d == Zeros(1) + d[1..];
      ZerosChangeNothing(1, d[1..]);
      var rest := DigitsAreZerosAndDecimal(d[1..]);
      k := rest + 1;
      assert Zeros(1) + Zeros(rest) == Zeros(k);
    }
  }

  lemma ParsedIsWritten(f: string, n: nat)
    requires ParseU64(f) == Some(n)
    ensures n < Wire.U64_LIMIT && exists plus, k :: Writes(f, plus, k, n)
  {
    hide Decimal, DigitsValue;
    var plus := |f| > 0 && f[0] == '+';
    var digits := if plus then f[1..] else f;
    var k := DigitsAreZerosAndDecimal(digits);
    assert f == (if plus then "+" else "") + digits;
    assert Writes(f, plus, k, n) by {
      Regrouped(if plus then "+" else "", Zeros(k), Decimal(n));
    }
  }

  lemma Regrouped(a: string, b: string, c: string)
    ensures a + (b + c) == a + b + c
  {
  }

  lemma WrittenIsParsed(f: string, plus: bool, k: nat, n: nat)
    requires n < Wire.U64_LIMIT && Writes(f, plus, k, n)
    ensures ParseU64(f) == Some(n)
  {
    hide Decimal, DigitsValue;
    var sign, digits := if plus then "+" else "", Zeros(k) + Decimal(n);
    DecimalReadsBack(n);
    ZerosChangeNothing(k, Decimal(n));
    Regrouped(sign, Zeros(k), Decimal(n));
    assert f == sign + digits && digits != [] && IsDigit(digits[0]);
    if plus {
      assert f[1..] == digits;
    } else {
      assert f == digits;
    }
  }

  /** A field parses to n exactly when n fits 64 bits and the field is one of the ways to write it. */
  lemma ParsesIffWrites(f: string, n: nat)
    ensures ParseU64(f) == Some(n) <==> n < Wire.U64_LIMIT && exists plus, k :: Writes(f, plus, k, n)
  {
    hide ParseU64, Writes;
    if ParseU64(f) == Some(n) {
      ParsedIsWritten(f, n);
    }
    if plus, k :| n < Wire.U64_LIMIT && Writes(f, plus, k, n) {
      WrittenIsParsed(f, plus, k, n);
    }
  }

  lemma OneDigit(d: nat)
    requires d < 10
    ensures Decimal(d) == [DigitOf(d)]
  {
  }

  lemma OneMoreDigit(n: nat, d: nat)
    requires n > 0 && d < 10
    ensures Decimal(n * 10 + d) == Decimal(n) + [DigitOf(d)]
  {
    assert (n * 10 + d) / 10 == n && (n * 10 + d) % 10 == d;
  }

  lemma ThreeDigits(a: nat, b: nat, c: nat)
    requires 0 < a < 10 && b < 10 && c < 10
    ensures Decimal(a * 100 + b * 10 + c) == [DigitOf(a), DigitOf(b), DigitOf(c)]
  {
    hide Decimal;
    OneDigit(a);
    OneMoreDigit(a, b);
    OneMoreDigit(a * 10 + b, c);
    assert (a * 10 + b) * 10 + c == a * 100 + b * 10 + c;
  }

  /** The example of BOLT 7, as a number and as text. */
  lemma Bolt7Example()
    ensures Pack(539268, 845, 1) == 0x083a_8400_034d_0001
    ensures ScidStr(0x083a_8400_034d_0001) == "539268x845x1" && ParseScid("539268x845x1") == Some(0x083a_8400_034d_0001)
  {
    hide Decimal, ParseScid;
    var x := 0x083a_8400_034d_0001;
    assert Block(x) == 539268 && TxIndex(x) == 845 && Output(x) == 1;
    ThreeDigits(8, 4, 5);
    ThreeDigits(5, 3, 9);
    OneMoreDigit(539, 2);
    OneMoreDigit(5392, 6);
    OneMoreDigit(53926, 8);
    assert Decimal(845) == "845" && Decimal(539268) == "539268";
    assert Decimal(1) == "1" by { OneDigit(1); }
    assert ScidStr(x) == "539268" + ['x'] + "845" + ['x'] + "1" == "539268x845x1";
    ScidTextRoundTrip(x);
  }

  /** Printing an accepted id gives back its text exactly when no field had a plus sign or a leading zero. */
  lemma TextReadsBackIff(s: string, x: nat)
    requires ParseScid(s) == Some(x)
    ensures ScidStr(x) == s <==> forall i :: 0 <= i < 3 ==> Printed(Split(s)[i])
  {
    ParsedIffFields(s, x);
    var fs := Split(s);
    PrintedIff(fs[0], Block(x));
    PrintedIff(fs[1], TxIndex(x));
    PrintedIff(fs[2], Output(x));
    if ScidStr(x) == s {
      SplitOfScidStr(x);
    } else {
      JoinOfThree(s);
    }
  }

  lemma DigitReads(c: char)
    requires IsDigit(c)
    ensures DigitsValue([c]) == (c - '0') as nat && Decimal((c - '0') as nat) == [c]
  {
    assert [c][..0] == [];
  }

  lemma SplitWithPlus()
    ensures Split("+1x2x3") == ["+1", "2", "3"]
  {
    SplitOfField("+1", "2x3");
    SplitOfField("2", "3");
    SplitOfField("3", "");
    assert "+1x2x3" == "+1" + ['x'] + "2x3" && "2x3" == "2" + ['x'] + "3";
  }

  /** A plus sign is read and not printed back. */
  lemma PlusSignIsLost()
    ensures ParseScid("+1x2x3") == Some(Pack(1, 2, 3)) && ScidStr(Pack(1, 2, 3)) != "+1x2x3"
  {
    hide Split, Pack, ScidStr, Decimal;
    SplitWithPlus();
    assert ("+1")[1..] == ['1'];
    DigitReads('1');
    DigitReads('2');
    DigitReads('3');
    TextReadsBackIff("+1x2x3", Pack(1, 2, 3));
    assert !Printed(Split("+1x2x3")[0]);
  }

  lemma JoinOfThree(s: string)
    requires |Split(s)| == 3
    ensures s == Split(s)[0] + ['x'] + Split(s)[1] + ['x'] + Split(s)[2]
  {
    JoinOfSplit(s);
    var fs := Split(s);
    assert Join(fs) == fs[0] + ['x'] + Join(fs[1..]);
    assert Join(fs[1..]) == fs[1] + ['x'] + Join(fs[1..][1..]);
    assert fs[1..][1..] == [fs[2]];
  }
}
