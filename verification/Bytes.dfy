/** Bytes, optional values, and the fixed-width integer encodings of Python's
    `int.to_bytes`/`int.from_bytes` and of `struct`. */
module Bytes {
  type byte = b: int | 0 <= b < 256

  datatype Option<+T> = None | Some(value: T)

  datatype Result<+T> = Success(value: T) | Raised

  function Min(a: int, b: int): (m: int)
    ensures m <= a && m <= b && (m == a || m == b)
  {
    if a <= b then a else b
  }

  /** 256 to the power `n`: the number of values `n` bytes can hold. */
  function Pow256(n: nat): (p: nat)
    ensures p >= 1
  {
    if n == 0 then 1 else 256 * Pow256(n - 1)
  }

  /** `int.from_bytes(b, 'big')`. */
  function FromBE(b: seq<byte>): nat {
    if b == [] then 0 else 256 * FromBE(b[..|b| - 1]) + b[|b| - 1]
  }

  /** `v.to_bytes(width, 'big')`; Python raises OverflowError where the precondition fails. */
  function ToBE(v: nat, width: nat): (b: seq<byte>)
    requires v < Pow256(width)
    ensures |b| == width
  {
    if width == 0 then [] else ToBE(v / 256, width - 1) + [v % 256]
  }

  /** `int.from_bytes(b, 'little')`. */
  function FromLE(b: seq<byte>): nat {
    if b == [] then 0 else b[0] + 256 * FromLE(b[1..])
  }

  /** `v.to_bytes(width, 'little')`. */
  function ToLE(v: nat, width: nat): (b: seq<byte>)
    requires v < Pow256(width)
    ensures |b| == width
  {
    if width == 0 then [] else [v % 256] + ToLE(v / 256, width - 1)
  }

  lemma {:induction false} FromBEBound(b: seq<byte>)
    ensures FromBE(b) < Pow256(|b|)
  {
    if b != [] {
      FromBEBound(b[..|b| - 1]);
    }
  }

  lemma {:induction false} FromToBE(v: nat, width: nat)
    requires v < Pow256(width)
    ensures FromBE(ToBE(v, width)) == v
  {
    if width != 0 {
      FromToBE(v / 256, width - 1);
      assert ToBE(v, width)[..width - 1] == ToBE(v / 256, width - 1);
    }
  }

  lemma {:induction false} ToFromBE(b: seq<byte>)
    ensures FromBE(b) < Pow256(|b|)
    ensures ToBE(FromBE(b), |b|) == b
  {
    FromBEBound(b);
    if b != [] {
      ToFromBE(b[..|b| - 1]);
      assert b == b[..|b| - 1] + [b[|b| - 1]];
    }
  }

  /** Big-endian: byte `i` of `width` is worth 256 to the power `width - 1 - i`. */
  lemma {:induction false} BEDigit(v: nat, width: nat, i: nat)
    requires v < Pow256(width) && i < width
    ensures ToBE(v, width)[i] == v / Pow256(width - 1 - i) % 256
  {
    if i < width - 1 {
      BEDigit(v / 256, width - 1, i);
      DivideTwice(v, 256, Pow256(width - 2 - i), v / 256);
    }
  }

  /** Little-endian: byte `i` is worth 256 to the power `i`. */
  lemma {:induction false} LEDigit(v: nat, width: nat, i: nat)
    requires v < Pow256(width) && i < width
    ensures ToLE(v, width)[i] == v / Pow256(i) % 256
  {
    if i > 0 {
      LEDigit(v / 256, width - 1, i - 1);
      DivideTwice(v, 256, Pow256(i - 1), v / 256);
    }
  }

  /** Dividing by `b` and then by `d` is dividing by their product. */
  lemma DivideTwice(v: nat, b: nat, d: nat, q: nat)
    requires d > 0 && b * q <= v < b * (q + 1)
    ensures b * d > 0 && v / (b * d) == q / d
    ensures q >= d <==> v >= b * d
  {
    Multiple(b, d);
    DivMod(q, d);
    Nested(b, d, q / d, q % d, v - b * q);
    QuotientIs(v, b * d, q / d, b * (q % d) + (v - b * q));
    AtLeast(q, d);
    AtLeast(v, b * d);
  }

  lemma DivMod(q: nat, d: nat)
    requires d > 0
    ensures q == d * (q / d) + q % d && 0 <= q % d < d
  {
  }

  lemma Nested(b: nat, d: nat, q: nat, r: nat, s: nat)
    requires s < b && r < d
    ensures b * (d * q + r) + s == (b * d) * q + (b * r + s)
    ensures b * r + s < b * d
  {
    assert b * (d * q) == (b * d) * q;
    Multiple(b, d - r - 1);
    assert b * (d - r - 1) == b * d - b * r - b;
  }

  lemma AtLeast(v: nat, d: nat)
    requires d > 0
    ensures v / d >= 1 <==> v >= d
  {
  }

  lemma QuotientIs(v: nat, d: nat, q: nat, r: nat)
    requires d > 0 && v == d * q + r && r < d
    ensures v / d == q
  {
    var k: int := v / d - q;
    assert d * k + v % d == r by {
      assert v == d * (v / d) + v % d;
      assert d * (v / d) == d * q + d * k;
    }
    Multiple(d, k);
  }

  lemma Multiple(d: nat, k: int)
    ensures k >= 1 ==> d * k >= d
    ensures k >= 0 ==> d * k >= 0
    ensures k <= -1 ==> d * k + d <= 0
  {
  }

  lemma {:induction false} FromLEBound(b: seq<byte>)
    ensures FromLE(b) < Pow256(|b|)
  {
    if b != [] {
      FromLEBound(b[1..]);
    }
  }

  lemma {:induction false} FromToLE(v: nat, width: nat)
    requires v < Pow256(width)
    ensures FromLE(ToLE(v, width)) == v
  {
    if width != 0 {
      FromToLE(v / 256, width - 1);
    }
  }

  lemma {:induction false} ToFromLE(b: seq<byte>)
    ensures FromLE(b) < Pow256(|b|)
    ensures ToLE(FromLE(b), |b|) == b
  {
    FromLEBound(b);
    if b != [] {
      ToFromLE(b[1..]);
    }
  }
}
