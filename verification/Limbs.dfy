/** Big-endian integers in 32-bit limbs (soft_fido2/key_pair.py, `_long_to_bytes` and
    `_bytes_to_long`), beside the fixed 32-byte form of U2F public keys
    (soft_fido2/authenticator/u2f.py). */
module Limbs {
  import opened Bytes

  const LIMB: nat := 0x1_0000_0000
  const COORDINATE: nat := 32

  // ---- Meaning: big-endian values and word-aligned encodings ----

  /** `b` writes `n` big-endian in whole words, the first of them not zero. */
  predicate IsLimbForm(b: seq<byte>, n: nat) {
    |b| % 4 == 0 && FromBE(b) == n && (b != [] ==> FromBE(b[..4]) != 0)
  }

  lemma {:induction false} PowSum(m: nat, n: nat)
    ensures Pow256(m + n) == Pow256(m) * Pow256(n)
  {
    if m != 0 {
      PowSum(m - 1, n);
      assert Pow256(m + n) == 256 * (Pow256(m - 1) * Pow256(n));
    }
  }

  lemma Pow4()
    ensures Pow256(4) == LIMB
  {
    assert Pow256(1) == 256 && Pow256(2) == 0x10000 && Pow256(3) == 0x100_0000;
  }

  lemma {:induction false} FromBEConcat(a: seq<byte>, b: seq<byte>)
    ensures FromBE(a + b) == FromBE(a) * Pow256(|b|) + FromBE(b)
  {
    if b == [] {
      assert a + b == a;
    } else {
      var front := b[..|b| - 1];
      FromBEConcat(a, front);
      assert (a + b)[..|a + b| - 1] == a + front;
      assert 256 * (FromBE(a) * Pow256(|front|)) == FromBE(a) * Pow256(|b|);
    }
  }

  lemma {:induction false} PowMonotone(m: nat, n: nat)
    requires m <= n
    ensures Pow256(m) <= Pow256(n)
  {
    if m < n {
      PowMonotone(m, n - 1);
    }
  }

  lemma AtLeastOne(k: nat, w: nat)
    ensures if k == 0 then k * w == 0 else k * w >= w
  {
  }

  /** The first word being non-zero pins the length to the value. */
  lemma LimbFormBounds(b: seq<byte>, n: nat)
    requires IsLimbForm(b, n) && b != []
    ensures |b| >= 4 && Pow256(|b| - 4) <= n < Pow256(|b|)
  {
    hide FromBE, Pow256;
    assert b == b[..4] + b[4..];
    FromBEConcat(b[..4], b[4..]);
    FromBEBound(b);
    AtLeastOne(FromBE(b[..4]), Pow256(|b| - 4));
  }

  lemma LimbFormLength(a: seq<byte>, b: seq<byte>, n: nat)
    requires IsLimbForm(a, n) && IsLimbForm(b, n)
    ensures |a| <= |b|
  {
    if |a| > |b| {
      LimbFormBounds(a, n);
      FromBEBound(b);
      PowMonotone(|b|, |a| - 4);
      assert false;
    }
  }

  /** So there is exactly one such encoding of a number. */
  lemma LimbFormUnique(a: seq<byte>, b: seq<byte>, n: nat)
    requires IsLimbForm(a, n) && IsLimbForm(b, n)
    ensures a == b
  {
    LimbFormLength(a, b, n);
    LimbFormLength(b, a, n);
    ToFromBE(a);
    ToFromBE(b);
  }

  // ---- The two loops ----

  function PackWords(parts: seq<nat>): seq<byte>
    requires forall i | 0 <= i < |parts| :: parts[i] < LIMB
  {
    if parts == [] then [] else Pow4(); ToBE(parts[0], 4) + PackWords(parts[1..])
  }

  function Reversed(s: seq<nat>): (r: seq<nat>)
    ensures |r| == |s| && forall i | 0 <= i < |s| :: r[i] == s[|s| - 1 - i]
  {
    seq(|s|, i requires 0 <= i < |s| => s[|s| - 1 - i])
  }

  /** Reads whole words; `struct.unpack` refuses any other length. */
  function UnpackWords(b: seq<byte>): (parts: seq<nat>)
    requires |b| % 4 == 0
    ensures |parts| == |b| / 4 && forall i | 0 <= i < |parts| :: parts[i] == FromBE(b[4 * i..4 * i + 4])
  {
    seq(|b| / 4, i requires 0 <= i < |b| / 4 => FromBE(b[4 * i..4 * i + 4]))
  }

  /** One more word in front: how the encoding of the limbs seen so far grows. */
  lemma FrontWord(word: nat, rest: seq<byte>)
    requires word < LIMB
    ensures word < Pow256(4)
    ensures FromBE(ToBE(word, 4) + rest) == word * Pow256(|rest|) + FromBE(rest)
    ensures (ToBE(word, 4) + rest)[..4] == ToBE(word, 4) && FromBE(ToBE(word, 4)) == word
  {
    Pow4();
    FromToBE(word, 4);
    FromBEConcat(ToBE(word, 4), rest);
  }

  lemma ReversedPush(parts: seq<nat>, x: nat)
    ensures Reversed(parts + [x])[0] == x && Reversed(parts + [x])[1..] == Reversed(parts)
  {
  }

  lemma LimbStep(l: nat, word: nat, rest: nat, width: nat)
    requires word == l % LIMB
    ensures (l / LIMB) * Pow256(width + 4) + (word * Pow256(width) + rest) == l * Pow256(width) + rest
  {
    hide Pow256;
    Pow4();
    PowSum(4, width);
    assert l == (l / LIMB) * LIMB + word;
    assert ((l / LIMB) * LIMB + word) * Pow256(width) == (l / LIMB) * (LIMB * Pow256(width)) + word * Pow256(width);
  }

  /** The limbs peeled off so far and what is left of the number. */
  predicate Peeled(n: nat, l: nat, parts: seq<nat>) {
    && (forall i | 0 <= i < |parts| :: parts[i] < LIMB)
    && var rest := PackWords(Reversed(parts));
       |rest| % 4 == 0 && n == l * Pow256(|rest|) + FromBE(rest)
  }

  lemma PeelOne(n: nat, l: nat, parts: seq<nat>)
    requires Peeled(n, l, parts)
    ensures Peeled(n, l / LIMB, parts + [l % LIMB])
  {
    hide Pow256, FromBE, ToBE, Reversed;
    var rest := PackWords(Reversed(parts));
    FrontWord(l % LIMB, rest);
    ReversedPush(parts, l % LIMB);
    LimbStep(l, l % LIMB, FromBE(rest), |rest|);
  }

  lemma PeeledOut(n: nat, parts: seq<nat>)
    requires Peeled(n, 0, parts) && (parts != [] ==> parts[|parts| - 1] != 0)
    ensures IsLimbForm(PackWords(Reversed(parts)), n)
  {
    hide Pow256, FromBE, ToBE;
    if parts != [] {
      FrontWord(Reversed(parts)[0], PackWords(Reversed(parts)[1..]));
    }
  }

  /** `_long_to_bytes`: the encoding in whole words without a leading zero word. */
  method LongToBytes(n: nat) returns (b: seq<byte>)
    ensures IsLimbForm(b, n)
  {
    var l: nat := n;
    var parts: seq<nat> := [];
    assert PackWords(Reversed(parts)) == [];
    hide PackWords, Reversed, Pow256, FromBE;
    while l != 0
      invariant Peeled(n, l, parts)
      invariant l == 0 && parts != [] ==> parts[|parts| - 1] != 0
    {
      PeelOne(n, l, parts);
      parts := parts + [l % LIMB];
      l := l / LIMB;
    }
    b := PackWords(Reversed(parts));
    PeeledOut(n, parts);
  }

  /** `_bytes_to_long`: the big-endian value, for a whole number of words. */
  method BytesToLong(b: seq<byte>) returns (r: Result<nat>)
    ensures r == if |b| % 4 == 0 then Success(FromBE(b)) else Raised
  {
    if |b| % 4 != 0 { return Raised; }
    var parts := Reversed(UnpackWords(b));
    var result := 0;
    for i := 0 to |parts|
      invariant result == FromBE(b[|b| - 4 * i..])
    {
      ghost var at := |b| - 4 * i;
      assert b[at - 4..] == b[at - 4..at] + b[at..];
      FromBEConcat(b[at - 4..at], b[at..]);
      result := result + parts[i] * Pow256(4 * i);
    }
    assert b[0..] == b;
    r := Success(result);
  }

  // ---- What the two promise together ----

  /** Every number is encoded, and its encoding decodes to it. */
  method RoundTrip(n: nat) returns (b: seq<byte>, r: Result<nat>)
    ensures IsLimbForm(b, n) && r == Success(n)
  {
    b := LongToBytes(n);
    r := BytesToLong(b);
  }

  /** `b` without its leading zero words. */
  function DropZeroWords(b: seq<byte>): (d: seq<byte>)
    requires |b| % 4 == 0
    ensures |d| % 4 == 0
  {
    if b != [] && FromBE(b[..4]) == 0 then DropZeroWords(b[4..]) else b
  }

  /** Decoding then encoding drops exactly the leading zero words. */
  lemma {:induction false} EncodingDropsZeroWords(b: seq<byte>)
    requires |b| % 4 == 0
    ensures IsLimbForm(DropZeroWords(b), FromBE(b))
    ensures forall a | IsLimbForm(a, FromBE(b)) :: a == DropZeroWords(b)
  {
    if b != [] && FromBE(b[..4]) == 0 {
      assert b == b[..4] + b[4..];
      FromBEConcat(b[..4], b[4..]);
      EncodingDropsZeroWords(b[4..]);
    }
    forall a | IsLimbForm(a, FromBE(b))
      ensures a == DropZeroWords(b)
    {
      LimbFormUnique(a, DropZeroWords(b), FromBE(b));
    }
  }

  method DecodeThenEncode(b: seq<byte>) returns (d: seq<byte>)
    requires |b| % 4 == 0
    ensures d == DropZeroWords(b)
  {
    var r := BytesToLong(b);
    d := LongToBytes(r.value);
    EncodingDropsZeroWords(b);
  }

  lemma LeadingWord(n: nat)
    requires n < Pow256(COORDINATE)
    ensures FromBE(ToBE(n, COORDINATE)[..4]) == 0 <==> n < Pow256(COORDINATE - 4)
  {
    hide FromBE, ToBE, Pow256;
    var b := ToBE(n, COORDINATE);
    FromToBE(n, COORDINATE);
    assert b == b[..4] + b[4..];
    FromBEConcat(b[..4], b[4..]);
    FromBEBound(b[4..]);
    AtLeastOne(FromBE(b[..4]), Pow256(COORDINATE - 4));
  }

  /** For a coordinate of 32 bytes at most, the limb form and the fixed 32-byte form are
      the same exactly from 2^224 on; a smaller one comes out shorter. */
  lemma AgreesWithFixedForm(n: nat, b: seq<byte>)
    requires n < Pow256(COORDINATE) && IsLimbForm(b, n)
    ensures b == ToBE(n, COORDINATE) <==> Pow256(COORDINATE - 4) <= n
    ensures |b| < COORDINATE <==> n < Pow256(COORDINATE - 4)
  {
    hide Pow256, ToBE;
    LeadingWord(n);
    FromToBE(n, COORDINATE);
    if Pow256(COORDINATE - 4) <= n {
      LimbFormUnique(b, ToBE(n, COORDINATE), n);
    } else if b != [] {
      LimbFormBounds(b, n);
      if |b| >= COORDINATE {
        PowMonotone(COORDINATE - 4, |b| - 4);
        assert false;
      }
    }
  }

  /** U2F's uncompressed point: refused unless both coordinates fit 32 bytes. */
  function UncompressedPoint(x: nat, y: nat): Result<seq<byte>> {
    if x >= Pow256(COORDINATE) || y >= Pow256(COORDINATE) then Raised
    else Success([0x04] + ToBE(x, COORDINATE) + ToBE(y, COORDINATE))
  }

  lemma UncompressedPointHolds(x: nat, y: nat)
    requires UncompressedPoint(x, y).Success?
    ensures
      var b := UncompressedPoint(x, y).value;
      |b| == 1 + 2 * COORDINATE && b[0] == 0x04
      && FromBE(b[1..1 + COORDINATE]) == x && FromBE(b[1 + COORDINATE..]) == y
  {
    hide Pow256, ToBE;
    FromToBE(x, COORDINATE);
    FromToBE(y, COORDINATE);
    var b := UncompressedPoint(x, y).value;
    assert b[1..1 + COORDINATE] == ToBE(x, COORDINATE) && b[1 + COORDINATE..] == ToBE(y, COORDINATE);
  }
}
