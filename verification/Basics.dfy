/** Option and Result, the two carriers of absent values and errors. */
module Wrappers {

  datatype Option<+T> = None | Some(value: T)

  datatype Result<+T, +E> = Ok(value: T) | Err(error: E) {
    predicate IsFailure() {
      Err?
    }

    function PropagateFailure<U>(): Result<U, E>
      requires Err?
    {
      Err(error)
    }

    function Extract(): T
      requires Ok?
    {
      value
    }
  }
}

/** Bytes and fixed-width integers. */
module Bytes {

  type byte = b: int | 0 <= b < 256

  function Pow256(n: nat): (p: nat)
    ensures p > 0
  {
    if n == 0 then 1 else 256 * Pow256(n - 1)
  }

  /** The low `width` bytes of n, most significant first: `(n as uN).to_be_bytes()`. */
  function ToBe(n: nat, width: nat): (bs: seq<byte>)
    ensures |bs| == width
  {
    if width == 0 then [] else ToBe(n / 256, width - 1) + [n % 256]
  }

  function FromBe(bs: seq<byte>): nat {
    if bs == [] then 0 else FromBe(bs[..|bs| - 1]) * 256 + bs[|bs| - 1]
  }

  /** The low `width` bytes of n, least significant first. */
  function ToLe(n: nat, width: nat): (bs: seq<byte>)
    ensures |bs| == width
  {
    if width == 0 then [] else [n % 256] + ToLe(n / 256, width - 1)
  }

  lemma {:induction false} FromBeBound(bs: seq<byte>)
    ensures FromBe(bs) < Pow256(|bs|)
  {
    if bs != [] {
      FromBeBound(bs[..|bs| - 1]);
    }
  }

  lemma {:induction false} FromBeToBe(n: nat, width: nat)
    requires n < Pow256(width)
    ensures FromBe(ToBe(n, width)) == n
  {
    if width > 0 {
      FromBeToBe(n / 256, width - 1);
      assert ToBe(n, width)[..width - 1] == ToBe(n / 256, width - 1);
    }
  }

  lemma {:induction false} ToBeFromBe(bs: seq<byte>)
    ensures ToBe(FromBe(bs), |bs|) == bs
  {
    if bs != [] {
      ToBeFromBe(bs[..|bs| - 1]);
      assert bs == bs[..|bs| - 1] + [bs[|bs| - 1]];
    }
  }

  /** Byte i of a big-endian integer is its digit of weight 256^(width-1-i). */
  lemma {:induction false} ToBeAt(n: nat, width: nat, i: nat)
    requires i < width
    ensures ToBe(n, width)[i] == n / Pow256(width - 1 - i) % 256
  {
    if i < width - 1 {
      ToBeAt(n / 256, width - 1, i);
      DivideTwice(n, Pow256(width - 2 - i));
    } else {
      assert n / 1 == n;
    }
  }

  /** Byte i of a little-endian integer is its digit of weight 256^i. */
  lemma {:induction false} ToLeAt(n: nat, width: nat, i: nat)
    requires i < width
    ensures ToLe(n, width)[i] == n / Pow256(i) % 256
  {
    if i > 0 {
      ToLeAt(n / 256, width - 1, i - 1);
      DivideTwice(n, Pow256(i - 1));
    } else {
      assert n / 1 == n;
    }
  }

  lemma DivideTwice(n: nat, k: nat)
    requires k > 0
    ensures n / 256 / k == n / (256 * k)
  {
    var q := n / (256 * k);
    var r := n - q * (256 * k);
    assert 0 <= r < 256 * k;
    assert n / 256 == q * k + r / 256 by {
      assert n == 256 * (q * k) + r;
    }
    assert 0 <= r / 256 < k;
    QuotientIs(n / 256, k, q, r / 256);
  }

  lemma QuotientIs(n: nat, k: nat, q: nat, r: nat)
    requires n == q * k + r && r < k
    ensures n / k == q
  {
    var d := n / k;
    assert n == d * k + n % k;
    if d > q {
      ProductGrows(q + 1, d, k);
    } else if d < q {
      ProductGrows(d + 1, q, k);
    }
  }

  lemma ProductGrows(a: nat, b: nat, k: nat)
    requires a <= b
    ensures a * k <= b * k
  {
    assert b * k == a * k + (b - a) * k;
  }

  lemma {:induction false} ToLeInjective(m: nat, n: nat, width: nat)
    requires m < Pow256(width) && n < Pow256(width)
    requires ToLe(m, width) == ToLe(n, width)
    ensures m == n
  {
    if width > 0 {
      assert ToLe(m, width)[0] == m % 256 && ToLe(n, width)[0] == n % 256;
      assert ToLe(m, width)[1..] == ToLe(m / 256, width - 1);
      assert ToLe(n, width)[1..] == ToLe(n / 256, width - 1);
      ToLeInjective(m / 256, n / 256, width - 1);
    }
  }
}
