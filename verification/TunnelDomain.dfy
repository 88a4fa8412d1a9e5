/** The tunnel server domain of a hybrid transport (soft_fido2/platform/cable.py,
    `decode_tunnel_server_domain`): two bits of a digest choose the top-level domain, the
    other 62 become a base-32 label, lowest digit first. */
module TunnelDomain {
  import opened Bytes

  type Digest = d: seq<byte> | |d| == 32 witness seq(32, i => 0)

  const ASSIGNED: seq<string> := ["cable.ua5v.com", "cable.auth.com"]
  const BASE32_CHARS: string := "abcdefghijklmnopqrstuvwxyz234567"
  const TLDS: seq<string> := [".com", ".org", ".net", ".info"]
  const PREFIX: string := "cable."
  const MAX_LABEL: nat := 13

  /** `encoded` outside 16 bits, or a negative one past the assigned list, raises. */
  datatype Domain = Assigned(name: string) | Generated(name: string) | Unknown | Refused

  function Base32(v: nat): string {
    if v == 0 then "" else [BASE32_CHARS[v % 32]] + Base32(v / 32)
  }

  function DomainOf(v: nat): string { PREFIX + Base32(v / 4) + TLDS[v % 4] }

  /** "caBLEv2 tunnel server domain" in ASCII, the encoded value, and a zero byte. */
  function ShaInput(encoded: nat): seq<byte>
    requires encoded < Pow256(2)
  {
    seq(|SALT|, i requires 0 <= i < |SALT| => SALT[i] as int % 256) + ToLE(encoded, 2) + [0]
  }

  const SALT: string := "caBLEv2 tunnel server domain"

  /** The base-32 loop. */
  method BuildDomain(digest: nat) returns (ret: string)
    ensures ret == DomainOf(digest)
  {
    var v := digest;
    var tldIndex := v % 4;
    v := v / 4;
    ret := PREFIX;
    while v != 0
      invariant PREFIX + Base32(digest / 4) == ret + Base32(v)
    {
      assert ret + ([BASE32_CHARS[v % 32]] + Base32(v / 32)) == (ret + [BASE32_CHARS[v % 32]]) + Base32(v / 32);
      ret := ret + [BASE32_CHARS[v % 32]];
      v := v / 32;
    }
    assert ret + "" == ret;
    ret := ret + TLDS[tldIndex % 4];
  }

  method DecodeTunnelServerDomain(encoded: int, sha256: seq<byte> -> Digest) returns (d: Domain)
    ensures -|ASSIGNED| <= encoded < |ASSIGNED| ==> d == Assigned(ASSIGNED[encoded % |ASSIGNED|])
    ensures |ASSIGNED| <= encoded < 256 ==> d == Unknown
    ensures 256 <= encoded < Pow256(2) ==> d == Generated(DomainOf(FromLE(sha256(ShaInput(encoded))[..8])))
    ensures encoded < -|ASSIGNED| || encoded >= Pow256(2) ==> d == Refused
  {
    assert Pow256(2) > 256;
    hide FromLE, DomainOf, ShaInput, Pow256;
    if encoded < 256 {
      if encoded >= |ASSIGNED| { return Unknown; }
      var at := if encoded < 0 then encoded + |ASSIGNED| else encoded;
      return if at < 0 then Refused else Assigned(ASSIGNED[at]);
    }
    if encoded >= Pow256(2) { return Refused; }
    var name := BuildDomain(FromLE(sha256(ShaInput(encoded))[..8]));
    d := Generated(name);
  }

  /** The bytes hashed, one by one. */
  lemma ShaInputBytes(encoded: nat)
    requires encoded < Pow256(2)
    ensures Pow256(2) == 0x1_0000
    ensures ShaInput(encoded) ==
      [0x63, 0x61, 0x42, 0x4C, 0x45, 0x76, 0x32, 0x20, 0x74, 0x75, 0x6E, 0x6E, 0x65, 0x6C, 0x20, 0x73, 0x65, 0x72,
       0x76, 0x65, 0x72, 0x20, 0x64, 0x6F, 0x6D, 0x61, 0x69, 0x6E, encoded % 256, encoded / 256, 0]
  {
    assert Pow256(1) == 256;
    LEDigit(encoded, 2, 0);
    LEDigit(encoded, 2, 1);
    hide ToLE, Pow256;
    SaltBytes();
    assert ToLE(encoded, 2) == [encoded % 256, encoded / 256];
  }

  lemma SaltBytes()
    ensures seq(|SALT|, i requires 0 <= i < |SALT| => SALT[i] as int % 256) ==
      [0x63, 0x61, 0x42, 0x4C, 0x45, 0x76, 0x32, 0x20, 0x74, 0x75, 0x6E, 0x6E, 0x65, 0x6C, 0x20, 0x73, 0x65, 0x72,
       0x76, 0x65, 0x72, 0x20, 0x64, 0x6F, 0x6D, 0x61, 0x69, 0x6E]
  {
  }

  lemma {:induction false} LabelDigit(v: nat, i: nat)
    ensures i < |Base32(v)| <==> v >= Pow32(i)
    ensures i < |Base32(v)| ==> Base32(v)[i] == BASE32_CHARS[v / Pow32(i) % 32]
  {
    if v != 0 && i > 0 {
      LabelDigit(v / 32, i - 1);
      DivideTwice(v, 32, Pow32(i - 1), v / 32);
    }
  }

  /** The domain, character by character: "cable.", as many base-32 digits as it takes, the
      lowest first, and the top-level domain of the lowest two bits. */
  lemma DomainCharacters(v: nat)
    ensures
      var domain, n := DomainOf(v), |DomainOf(v)| - 6 - (if v % 4 == 3 then 5 else 4);
      && n >= 0 && domain[..6] == "cable."
      && (forall i: nat :: i < n <==> v / 4 >= Pow32(i))
      && (forall i | 0 <= i < n :: domain[6 + i] == "abcdefghijklmnopqrstuvwxyz234567"[v / 4 / Pow32(i) % 32])
      && domain[6 + n..] == (match v % 4 case 0 => ".com" case 1 => ".org" case 2 => ".net" case _ => ".info")
  {
    var digits, tld := Base32(v / 4), TLDS[v % 4];
    assert |tld| == if v % 4 == 3 then 5 else 4;
    assert tld == (match v % 4 case 0 => ".com" case 1 => ".org" case 2 => ".net" case _ => ".info");
    assert PREFIX == "cable." && |PREFIX| == 6;
    hide Base32, Pow32;
    forall i: nat
      ensures i < |digits| <==> v / 4 >= Pow32(i)
      ensures i < |digits| ==> digits[i] == BASE32_CHARS[v / 4 / Pow32(i) % 32]
    {
      LabelDigit(v / 4, i);
    }
    assert DomainOf(v) == PREFIX + (digits + tld);
  }

  // ---- The label ----

  function Pow32(n: nat): (p: nat)
    ensures p >= 1
  {
    if n == 0 then 1 else 32 * Pow32(n - 1)
  }

  lemma {:induction false} Base32Length(v: nat, n: nat)
    requires v < Pow32(n)
    ensures |Base32(v)| <= n
  {
    if v != 0 {
      Base32Length(v / 32, n - 1);
    }
  }

  /** A 64-bit value gives a label of 13 characters at most. */
  lemma LabelFits(v: nat)
    requires v < Pow256(8)
    ensures |Base32(v / 4)| <= MAX_LABEL
  {
    assert Pow256(8) == 4 * 0x4000_0000_0000_0000;
    assert Pow32(13) == 8 * 0x4000_0000_0000_0000;
    Base32Length(v / 4, MAX_LABEL);
  }

  /** The value of a character, and of a label. */
  function CharValue(c: char): nat {
    if 'a' <= c <= 'z' then c as int - 'a' as int else if '2' <= c <= '7' then c as int - '2' as int + 26 else 0
  }

  function FromBase32(s: string): nat {
    if s == "" then 0 else CharValue(s[0]) + 32 * FromBase32(s[1..])
  }

  lemma CharsHaveValues(i: nat)
    requires i < 32
    ensures CharValue(BASE32_CHARS[i]) == i && BASE32_CHARS[i] != '.'
  {
    assert BASE32_CHARS[..26] == "abcdefghijklmnopqrstuvwxyz";
  }

  lemma {:induction false} LabelReadsBack(v: nat)
    ensures FromBase32(Base32(v)) == v && '.' !in Base32(v)
  {
    if v != 0 {
      CharsHaveValues(v % 32);
      LabelReadsBack(v / 32);
    }
  }

  lemma FirstDot(a: string, s: string)
    requires '.' !in a && s != "" && s[0] == '.'
    ensures (a + s)[|a|] == '.' && forall i | 0 <= i < |a| :: (a + s)[i] != '.'
  {
  }

  /** The label ends at the first dot. */
  lemma LabelEnds(a: string, b: string, s: string, t: string)
    requires '.' !in a && '.' !in b && s != "" && t != "" && s[0] == '.' && t[0] == '.' && a + s == b + t
    ensures a == b && s == t
  {
    FirstDot(a, s);
    FirstDot(b, t);
    assert |a| == |b|;
    assert (a + s)[..|a|] == a && (b + t)[..|b|] == b;
    assert (a + s)[|a|..] == s && (b + t)[|b|..] == t;
  }

  lemma TldsDiffer(i: nat, j: nat)
    requires i < 4 && j < 4 && TLDS[i] == TLDS[j]
    ensures i == j
  {
    assert TLDS[0][1] == 'c' && TLDS[1][1] == 'o' && TLDS[2][1] == 'n' && TLDS[3][1] == 'i';
  }

  lemma AfterPrefix(a: string, s: string)
    ensures (PREFIX + a + s)[|PREFIX|..] == a + s
  {
  }

  /** Different values give different domains. */
  lemma DomainsDiffer(v: nat, w: nat)
    requires DomainOf(v) == DomainOf(w)
    ensures v == w
  {
    hide Base32, FromBase32;
    var a, b, s, t := Base32(v / 4), Base32(w / 4), TLDS[v % 4], TLDS[w % 4];
    LabelReadsBack(v / 4);
    LabelReadsBack(w / 4);
    AfterPrefix(a, s);
    AfterPrefix(b, t);
    LabelEnds(a, b, s, t);
    TldsDiffer(v % 4, w % 4);
  }

  /** So two digests give one domain exactly if their first eight bytes are the same. */
  lemma DomainIsDigestPrefix(x: Digest, y: Digest)
    ensures DomainOf(FromLE(x[..8])) == DomainOf(FromLE(y[..8])) <==> x[..8] == y[..8]
  {
    ToFromLE(x[..8]);
    ToFromLE(y[..8]);
    hide DomainOf;
    if DomainOf(FromLE(x[..8])) == DomainOf(FromLE(y[..8])) {
      DomainsDiffer(FromLE(x[..8]), FromLE(y[..8]));
    }
  }
}
