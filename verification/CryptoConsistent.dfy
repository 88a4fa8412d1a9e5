/** The laws of Crypto can all hold at once, so no theorem that asks for them is empty.
    The functions here are far from secret; they only satisfy the laws. */
module CryptoConsistent {
  import opened Bytes
  import opened Crypto

  // ---- A self-delimiting form of byte strings and credential lists ----

  function Write(s: seq<byte>): seq<byte> {
    if s == [] then [0] else [1, s[0]] + Write(s[1..])
  }

  /** The first string written in `b`, and what follows it. */
  function Read(b: seq<byte>): Option<(seq<byte>, seq<byte>)> {
    if b == [] then None
    else if b[0] == 0 then Some(([], b[1..]))
    else if |b| < 2 then None
    else match Read(b[2..])
      case None => None
      case Some((s, rest)) => Some(([b[1]] + s, rest))
  }

  lemma {:induction false} ReadWrite(s: seq<byte>, rest: seq<byte>)
    ensures Read(Write(s) + rest) == Some((s, rest))
  {
    var b := Write(s) + rest;
    if s == [] {
      assert b[1..] == rest;
    } else {
      ReadWrite(s[1..], rest);
      assert b[2..] == Write(s[1..]) + rest;
      assert [s[0]] + s[1..] == s;
    }
  }

  function Write3(x: seq<byte>, y: seq<byte>, z: seq<byte>): seq<byte> { Write(x) + (Write(y) + Write(z)) }

  function Read3(b: seq<byte>): Option<(seq<byte>, seq<byte>, seq<byte>, seq<byte>)> {
    match Read(b)
    case None => None
    case Some((x, b')) =>
      match Read(b')
      case None => None
      case Some((y, b'')) =>
        match Read(b'')
        case None => None
        case Some((z, rest)) => Some((x, y, z, rest))
  }

  lemma Read3Write3(x: seq<byte>, y: seq<byte>, z: seq<byte>, rest: seq<byte>)
    ensures Read3(Write3(x, y, z) + rest) == Some((x, y, z, rest))
  {
    hide Read, Write;
    assert Write3(x, y, z) + rest == Write(x) + (Write(y) + (Write(z) + rest));
    ReadWrite(x, Write(y) + (Write(z) + rest));
    ReadWrite(y, Write(z) + rest);
    ReadWrite(z, rest);
  }

  function WriteCreds(cs: seq<Cred>): seq<byte> {
    if cs == [] then [] else Write3(cs[0].rpId, cs[0].userId, cs[0].credId) + WriteCreds(cs[1..])
  }

  function ReadCreds(b: seq<byte>, fuel: nat): Option<seq<Cred>>
    decreases fuel
  {
    if b == [] then Some([])
    else if fuel == 0 then None
    else match Read3(b)
      case None => None
      case Some((rpId, userId, credId, rest)) =>
        match ReadCreds(rest, fuel - 1)
        case None => None
        case Some(cs) => Some([Cred(rpId, userId, credId)] + cs)
  }

  lemma WriteNonEmpty(s: seq<byte>)
    ensures |Write(s)| >= 1
  {
  }

  lemma {:induction false} ReadWriteCreds(cs: seq<Cred>, fuel: nat)
    requires fuel >= |WriteCreds(cs)|
    ensures ReadCreds(WriteCreds(cs), fuel) == Some(cs)
  {
    if cs != [] {
      hide Read3, Write;
      var c, rest := cs[0], WriteCreds(cs[1..]);
      Read3Write3(c.rpId, c.userId, c.credId, rest);
      WriteNonEmpty(c.rpId);
      ReadWriteCreds(cs[1..], fuel - 1);
      assert [c] + cs[1..] == cs;
    }
  }

  // ---- The primitives ----

  function OpenFile(file: seq<byte>, secret: seq<byte>): Option<(Key, Cert)> {
    match Read3(file)
    case None => None
    case Some((key, cert, s, _)) => if s == secret then Some((key, cert)) else None
  }

  /** A tag that tells each of two keys from all others. */
  function ToyTag(one: Key, two: Key, k: Key): (t: seq<byte>)
    ensures |t| == TAG_LENGTH
  {
    seq(TAG_LENGTH, i => if k == one then 1 else if k == two then 2 else 0)
  }

  function Toy(one: Key, two: Key): Primitives {
    Primitives(
      b64enc := x => x,
      b64dec := x => Some(x),
      sealTag := (k, n, a, x) => ToyTag(one, two, k),
      sealText := (k, n, a, x) => x,
      open := (k, n, a, t, x) => if t == ToyTag(one, two, k) then Some(x) else None,
      publicPem := k => seq(PEM_LENGTH, i => 0),
      loadable := pem => true,
      exchange := (k, pem) => [],
      pkcs12 := (k, c, s, salt) => Write3(k, c, s) + salt,
      unpkcs12 := (file, secret) => OpenFile(file, secret),
      dumps := cs => WriteCreds(cs),
      loads := b => ReadCreds(b, |b|),
      pinHash := pin => seq(HASH_LENGTH, i => 0),
      seed := (rpId, k, info) => Write(rpId) + Write(k),
      derives := (alg, material) => true)
  }

  lemma ToyIsLawful(one: Key, two: Key)
    ensures Laws(Toy(one, two))
  {
    var p := Toy(one, two);
    assert Pkcs12Exact(p) by {
      hide Read3, Write3;
      forall k, c, s, salt, s'
        ensures p.unpkcs12(p.pkcs12(k, c, s, salt), s') == if s' == s then Some((k, c)) else None
      {
        Read3Write3(k, c, s, salt);
      }
    }
    assert CborInverts(p) by {
      forall cs ensures p.loads(p.dumps(cs)) == Some(cs) {
        ReadWriteCreds(cs, |WriteCreds(cs)|);
      }
    }
    hide Read3, Write3, ReadCreds, WriteCreds, OpenFile;
  }

  lemma ToyRejects(one: Key, two: Key, k: Key, k': Key)
    requires k != k' && k' in {one, two}
    ensures Rejects(Toy(one, two), k, k')
  {
    assert ToyTag(one, two, k)[0] != ToyTag(one, two, k')[0];
  }

  lemma WriteInjective(r: seq<byte>, k: seq<byte>, r': seq<byte>, k': seq<byte>)
    requires Write(r) + Write(k) == Write(r') + Write(k')
    ensures r == r' && k == k'
  {
    hide Read, Write;
    ReadWrite(r, Write(k));
    ReadWrite(r', Write(k'));
    ReadWrite(k, []);
    ReadWrite(k', []);
    assert Write(k) + [] == Write(k) && Write(k') + [] == Write(k');
  }

  /** The laws can hold, and with them the seeds of all RPs and keys differ, and two of them
      be told apart from all others by the cipher: those of one RP under two keys, say. */
  lemma LawsAreConsistent(rpId: seq<byte>, wallet: Key, platform: Key, info: seq<byte>)
    ensures exists p: Primitives ::
      && Laws(p)
      && (forall r, k, r', k' :: p.seed(r, k, info) == p.seed(r', k', info) ==> r == r' && k == k')
      && (forall s | s != p.seed(rpId, wallet, info) :: Rejects(p, s, p.seed(rpId, wallet, info)))
      && (forall s | s != p.seed(rpId, platform, info) :: Rejects(p, s, p.seed(rpId, platform, info)))
  {
    var one, two := Write(rpId) + Write(wallet), Write(rpId) + Write(platform);
    var p := Toy(one, two);
    ToyIsLawful(one, two);
    assert p.seed(rpId, wallet, info) == one && p.seed(rpId, platform, info) == two;
    forall s, s' | s != s' && s' in {one, two}
      ensures Rejects(p, s, s')
    {
      ToyRejects(one, two, s, s');
    }
    forall r, k, r', k' | p.seed(r, k, info) == p.seed(r', k', info)
      ensures r == r' && k == k'
    {
      WriteInjective(r, k, r', k');
    }
    hide Laws, Rejects, Write;
  }
}
