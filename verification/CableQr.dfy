/** The digits of a FIDO QR code (soft_fido2/platform/cable.py, `decode_qr_data`), and the
    encoding of section 11.5 of CTAP 2.2 they come from. */
module CableQr {
  import opened Bytes

  type Digit = d: int | 0 <= d < 10

  const CHUNK_DIGITS: nat := 17
  const CHUNK_BYTES: nat := 7

  function Pow10(n: nat): (p: nat)
    ensures p >= 1
  {
    if n == 0 then 1 else 10 * Pow10(n - 1)
  }

  /** `int(s)` of a decimal string. */
  function FromDec(d: seq<Digit>): nat {
    if d == [] then 0 else 10 * FromDec(d[..|d| - 1]) + d[|d| - 1]
  }

  function ToDec(v: nat, width: nat): (d: seq<Digit>)
    requires v < Pow10(width)
    ensures |d| == width
  {
    if width == 0 then [] else ToDec(v / 10, width - 1) + [v % 10]
  }

  lemma {:induction false} FromToDec(v: nat, width: nat)
    requires v < Pow10(width)
    ensures FromDec(ToDec(v, width)) == v
  {
    if width != 0 {
      FromToDec(v / 10, width - 1);
      assert ToDec(v, width)[..width - 1] == ToDec(v / 10, width - 1);
    }
  }

  lemma {:induction false} ToFromDec(d: seq<Digit>)
    ensures FromDec(d) < Pow10(|d|)
    ensures ToDec(FromDec(d), |d|) == d
  {
    if d != [] {
      ToFromDec(d[..|d| - 1]);
      assert d == d[..|d| - 1] + [d[|d| - 1]];
    }
  }

  /** Decimal: digit `i` of `width` is worth 10 to the power `width - 1 - i`. */
  lemma {:induction false} DecimalDigit(v: nat, width: nat, i: nat)
    requires v < Pow10(width) && i < width
    ensures ToDec(v, width)[i] == v / Pow10(width - 1 - i) % 10
  {
    if i < width - 1 {
      DecimalDigit(v / 10, width - 1, i);
      DivideTwice(v, 10, Pow10(width - 2 - i), v / 10);
    }
  }

  /** How many digits the encoding writes for so many bytes of a chunk. */
  function DigitsFor(bytes: nat): nat
    requires 1 <= bytes <= CHUNK_BYTES
  {
    [3, 5, 8, 10, 13, 15, 17][bytes - 1]
  }

  /** How many bytes the decoder takes so many digits for. */
  function BytesFor(digits: nat): (bytes: nat)
    ensures 1 <= bytes <= CHUNK_BYTES
  {
    match digits
    case 3 => 1
    case 5 => 2
    case 8 => 3
    case 10 => 4
    case 13 => 5
    case 15 => 6
    case _ => CHUNK_BYTES
  }

  /** Every value of so many bytes can be written in that many digits. */
  lemma DigitsSuffice(bytes: nat)
    requires 1 <= bytes <= CHUNK_BYTES
    ensures Pow256(bytes) <= Pow10(DigitsFor(bytes)) && BytesFor(DigitsFor(bytes)) == bytes
  {
    assert Pow256(1) == 0x100 && Pow256(2) == 0x1_0000 && Pow256(3) == 0x100_0000;
    assert Pow256(4) == 0x1_0000_0000 && Pow256(5) == 0x100_0000_0000;
    assert Pow256(6) == 0x1_0000_0000_0000 && Pow256(7) == 0x100_0000_0000_0000;
    assert Pow10(3) == 1000 && Pow10(5) == 1000_00 && Pow10(8) == 1000_000_00;
    assert Pow10(10) == 100_000 * Pow10(5) && Pow10(13) == 100_000 * Pow10(8);
    assert Pow10(15) == 100_000 * Pow10(10) && Pow10(17) == 10_000 * Pow10(13);
  }

  // ---- The decoder ----

  function DecodeChunk(d: seq<Digit>): Result<seq<byte>> {
    if FromDec(d) < Pow256(BytesFor(|d|)) then Success(ToLE(FromDec(d), BytesFor(|d|))) else Raised
  }

  function Before(front: seq<byte>, rest: Result<seq<byte>>): Result<seq<byte>> {
    if rest.Success? then Success(front + rest.value) else Raised
  }

  /** The bytes handed on to the CBOR decoder. */
  function Decode(d: seq<Digit>): Result<seq<byte>> {
    if d == [] then Success([])
    else if |d| < CHUNK_DIGITS then DecodeChunk(d)
    else match DecodeChunk(d[..CHUNK_DIGITS])
      case Raised => Raised
      case Success(front) => Before(front, Decode(d[CHUNK_DIGITS..]))
  }

  method DecodeQrData(data: seq<Digit>) returns (buff: Result<seq<byte>>)
    ensures buff == Decode(data)
  {
    hide DecodeChunk, BytesFor, FromDec;
    var bytes: seq<byte> := [];
    assert data[CHUNK_DIGITS * 0..] == data && forall r: seq<byte> :: bytes + r == r;
    for i := 0 to |data| / CHUNK_DIGITS
      invariant Decode(data) == Before(bytes, Decode(data[CHUNK_DIGITS * i..]))
    {
      ghost var rest := data[CHUNK_DIGITS * i..];
      var chunk := data[CHUNK_DIGITS * i..CHUNK_DIGITS * (i + 1)];
      assert chunk == rest[..CHUNK_DIGITS] && data[CHUNK_DIGITS * (i + 1)..] == rest[CHUNK_DIGITS..];
      var front := DecodeChunk(chunk);
      if front.Raised? { return Raised; }
      assert forall r: seq<byte> :: bytes + (front.value + r) == (bytes + front.value) + r;
      bytes := bytes + front.value;
    }
    if |data| % CHUNK_DIGITS != 0 {
      var tail := DecodeChunk(data[CHUNK_DIGITS * (|data| / CHUNK_DIGITS)..]);
      return if tail.Success? then Success(bytes + tail.value) else Raised;
    }
    assert bytes + [] == bytes;
    buff := Success(bytes);
  }

  // ---- The encoder ----

  function EncodeChunk(b: seq<byte>): seq<Digit>
    requires 1 <= |b| <= CHUNK_BYTES
  {
    FromLEBound(b);
    DigitsSuffice(|b|);
    ToDec(FromLE(b), DigitsFor(|b|))
  }

  function Encode(b: seq<byte>): seq<Digit> {
    if b == [] then []
    else if |b| < CHUNK_BYTES then EncodeChunk(b)
    else EncodeChunk(b[..CHUNK_BYTES]) + Encode(b[CHUNK_BYTES..])
  }

  lemma EncodeOneChunk(b: seq<byte>)
    requires 1 <= |b| <= CHUNK_BYTES
    ensures Encode(b) == EncodeChunk(b)
  {
    hide EncodeChunk;
    if |b| == CHUNK_BYTES {
      assert b[..CHUNK_BYTES] == b && b[CHUNK_BYTES..] == [];
      assert EncodeChunk(b) + [] == EncodeChunk(b);
    }
  }

  lemma DecodeEncodeChunk(b: seq<byte>)
    requires 1 <= |b| <= CHUNK_BYTES
    ensures |EncodeChunk(b)| == DigitsFor(|b|)
    ensures DecodeChunk(EncodeChunk(b)) == Success(b)
  {
    hide Pow256, Pow10, FromLE, ToLE, FromDec, ToDec;
    DigitsSuffice(|b|);
    ToFromLE(b);
    FromToDec(FromLE(b), DigitsFor(|b|));
  }

  /** Every byte string survives encoding and decoding. */
  lemma {:induction false} DecodeInvertsEncode(b: seq<byte>)
    ensures Decode(Encode(b)) == Success(b)
  {
    hide DecodeChunk, EncodeChunk;
    if b != [] {
      var front := if |b| < CHUNK_BYTES then b else b[..CHUNK_BYTES];
      DecodeEncodeChunk(front);
      if |b| >= CHUNK_BYTES {
        DecodeInvertsEncode(b[CHUNK_BYTES..]);
        var rest := Encode(b[CHUNK_BYTES..]);
        assert (EncodeChunk(front) + rest)[..CHUNK_DIGITS] == EncodeChunk(front);
        assert (EncodeChunk(front) + rest)[CHUNK_DIGITS..] == rest;
        assert b == front + b[CHUNK_BYTES..];
      }
    }
  }

  // ---- When decoding is defined, and when it can be undone ----

  /** The i-th chunk, the last of which may be short. */
  function Chunk(d: seq<Digit>, i: nat): seq<Digit>
    requires CHUNK_DIGITS * i < |d|
  {
    d[CHUNK_DIGITS * i..Min(CHUNK_DIGITS * (i + 1), |d|)]
  }

  ghost predicate ChunksFit(d: seq<Digit>) {
    forall i: nat | CHUNK_DIGITS * i < |d| :: FromDec(Chunk(d, i)) < Pow256(BytesFor(|Chunk(d, i)|))
  }

  lemma ChunkOfRest(d: seq<Digit>, i: nat)
    requires CHUNK_DIGITS * (i + 1) < |d|
    ensures Chunk(d[CHUNK_DIGITS..], i) == Chunk(d, i + 1)
  {
  }

  /** Decoding is defined exactly when every chunk's number fits its bytes. */
  lemma {:induction false} DecodesExactlyIfChunksFit(d: seq<Digit>)
    ensures Decode(d).Success? <==> ChunksFit(d)
  {
    hide FromDec, Pow256, BytesFor, ToLE;
    if |d| >= CHUNK_DIGITS {
      var rest := d[CHUNK_DIGITS..];
      DecodesExactlyIfChunksFit(rest);
      assert Chunk(d, 0) == d[..CHUNK_DIGITS];
      forall i: nat | CHUNK_DIGITS * i < |rest|
        ensures Chunk(rest, i) == Chunk(d, i + 1)
      {
        ChunkOfRest(d, i);
      }
      if !ChunksFit(d) && DecodeChunk(d[..CHUNK_DIGITS]).Success? {
        var i: nat :| CHUNK_DIGITS * i < |d| && !(FromDec(Chunk(d, i)) < Pow256(BytesFor(|Chunk(d, i)|)));
        ChunkOfRest(d, i - 1);
      }
    } else if d != [] {
      assert Chunk(d, 0) == d;
      assert forall i: nat | CHUNK_DIGITS * i < |d| :: i == 0;
    }
  }

  lemma ChunkBytes(chunk: seq<Digit>)
    requires DecodeChunk(chunk).Success?
    ensures
      var bytes := DecodeChunk(chunk).value;
      var n := match |chunk| case 3 => 1 case 5 => 2 case 8 => 3 case 10 => 4 case 13 => 5 case 15 => 6 case _ => 7;
      && |bytes| == n
      && forall j | 0 <= j < |bytes| :: bytes[j] == FromDec(chunk) / Pow256(j) % 256
  {
    hide FromDec, Pow256, ToLE;
    var bytes := DecodeChunk(chunk).value;
    forall j | 0 <= j < |bytes|
      ensures bytes[j] == FromDec(chunk) / Pow256(j) % 256
    {
      LEDigit(FromDec(chunk), |bytes|, j);
    }
  }

  lemma DecodeUnfolds(d: seq<Digit>)
    requires Decode(d).Success? && |d| >= CHUNK_DIGITS
    ensures DecodeChunk(d[..CHUNK_DIGITS]).Success? && |DecodeChunk(d[..CHUNK_DIGITS]).value| == 7
    ensures Decode(d[CHUNK_DIGITS..]).Success?
    ensures Decode(d).value == DecodeChunk(d[..CHUNK_DIGITS]).value + Decode(d[CHUNK_DIGITS..]).value
  {
    hide FromDec, Pow256, ToLE;
  }

  lemma {:induction false} DecodedChunk(d: seq<Digit>, i: nat)
    requires Decode(d).Success? && CHUNK_DIGITS * i < |d|
    ensures DecodeChunk(Chunk(d, i)).Success?
    ensures
      var part, bytes := DecodeChunk(Chunk(d, i)).value, Decode(d).value;
      7 * i + |part| <= |bytes| && bytes[7 * i..7 * i + |part|] == part
    ensures CHUNK_DIGITS * (i + 1) >= |d| ==> |Decode(d).value| == 7 * i + |DecodeChunk(Chunk(d, i)).value|
  {
    hide DecodeChunk;
    if |d| < CHUNK_DIGITS {
      assert Chunk(d, 0) == d;
    } else {
      DecodeUnfolds(d);
      hide Decode;
      var front, rest := d[..CHUNK_DIGITS], d[CHUNK_DIGITS..];
      assert Chunk(d, 0) == front;
      if i > 0 {
        ChunkOfRest(d, i - 1);
        DecodedChunk(rest, i - 1);
        assert |d| == |rest| + CHUNK_DIGITS;
        hide Chunk;
        var head, tail := DecodeChunk(front).value, Decode(rest).value;
        var n := |DecodeChunk(Chunk(d, i)).value|;
        assert (head + tail)[7 * i..7 * i + n] == tail[7 * (i - 1)..7 * (i - 1) + n];
      } else if rest == [] {
        assert Decode(rest).value == [] by { EmptyDecodes(); }
      }
    }
  }

  lemma EmptyDecodes()
    ensures Decode([]) == Success([])
  {
  }

  /** What is decoded: chunk `i` gives seven bytes, or the last what its length stands for,
      the bytes of its decimal number, lowest first. */
  lemma DecodedBytes(d: seq<Digit>, i: nat)
    requires Decode(d).Success? && 17 * i < |d|
    ensures
      var chunk, bytes := d[17 * i..Min(17 * i + 17, |d|)], Decode(d).value;
      var n := match |chunk| case 3 => 1 case 5 => 2 case 8 => 3 case 10 => 4 case 13 => 5 case 15 => 6 case _ => 7;
      && 7 * i + n <= |bytes| && (17 * i + 17 >= |d| ==> |bytes| == 7 * i + n)
      && forall j | 7 * i <= j < 7 * i + n :: bytes[j] == FromDec(chunk) / Pow256(j - 7 * i) % 256
  {
    hide DecodeChunk, FromDec, Pow256, Decode;
    DecodedChunk(d, i);
    ChunkBytes(Chunk(d, i));
    var part := DecodeChunk(Chunk(d, i)).value;
    forall j | 7 * i <= j < 7 * i + |part|
      ensures Decode(d).value[j] == part[j - 7 * i]
    {
      assert Decode(d).value[7 * i..7 * i + |part|][j - 7 * i] == Decode(d).value[j];
    }
  }

  /** The tail lengths the encoding produces. */
  predicate IsTailLength(t: nat) { t in {0, 3, 5, 8, 10, 13, 15} }

  lemma EncodeDecodeChunk(d: seq<Digit>)
    requires 1 <= |d| <= CHUNK_DIGITS && DecodeChunk(d).Success?
    ensures |DecodeChunk(d).value| == BytesFor(|d|)
    ensures EncodeChunk(DecodeChunk(d).value) == d <==> |d| == CHUNK_DIGITS || IsTailLength(|d|)
  {
    hide Pow256, Pow10, FromLE, ToLE, FromDec, ToDec;
    FromToLE(FromDec(d), BytesFor(|d|));
    DigitsSuffice(BytesFor(|d|));
    ToFromDec(d);
  }

  /** Encoding what was decoded gives the digits back exactly if their tail has a length
      the encoding produces: any other tail is taken for seven bytes. */
  lemma {:induction false} EncodeInvertsDecode(d: seq<Digit>)
    requires Decode(d).Success?
    ensures Encode(Decode(d).value) == d <==> IsTailLength(|d| % CHUNK_DIGITS)
  {
    hide DecodeChunk, EncodeChunk;
    if |d| >= CHUNK_DIGITS {
      EncodeDecodeChunk(d[..CHUNK_DIGITS]);
      EncodeInvertsDecode(d[CHUNK_DIGITS..]);
      var front, rest := DecodeChunk(d[..CHUNK_DIGITS]).value, Decode(d[CHUNK_DIGITS..]).value;
      assert |front| == CHUNK_BYTES;
      assert (front + rest)[..CHUNK_BYTES] == front && (front + rest)[CHUNK_BYTES..] == rest;
      assert d == d[..CHUNK_DIGITS] + d[CHUNK_DIGITS..];
      assert (d[..CHUNK_DIGITS] + Encode(rest))[CHUNK_DIGITS..] == Encode(rest);
      assert |d[CHUNK_DIGITS..]| % CHUNK_DIGITS == |d| % CHUNK_DIGITS;
    } else if d != [] {
      EncodeDecodeChunk(d);
      EncodeOneChunk(DecodeChunk(d).value);
    }
  }
}
