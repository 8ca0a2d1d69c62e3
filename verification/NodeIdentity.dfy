/**
 The byte string a node signs to authenticate (_pack and signing_message in
 protocol/node_identity.py).

 A text is a sequence of Unicode code points; encoding one that holds a surrogate fails, as
 `str.encode` does. The digest of the hello is a parameter: any byte string of 32 bytes.
 */
module NodeIdentity {
  import opened Basics

  type Bytes = seq<int>
  type Text = seq<int>

  datatype Problem = NotEncodable | FieldTooLarge | OutOfRange

  /** What is signed; the digest covers the remaining fields of the hello. */
  datatype Signed = Signed(
    sessionId: Text,
    challenge: Text,
    nodeId: Text,
    keyId: Text,
    major: int,
    minor: int,
    issuedAt: int,
    expiresAt: int,
    digest: Bytes)

  // -------------------------------------------------------------- UTF-8

  predicate Scalar(c: int) {
    0 <= c < 0xD800 || 0xE000 <= c < 0x11_0000
  }

  predicate Encodable(s: Text) {
    forall i :: 0 <= i < |s| ==> Scalar(s[i])
  }

  function EncodePoint(c: int): Bytes
    requires Scalar(c)
  {
    if c < 0x80 then [c]
    else if c < 0x800 then [192 + c / 64, 128 + c % 64]
    else if c < 0x1_0000 then [224 + c / 64 / 64, 128 + c / 64 % 64, 128 + c % 64]
    else [240 + c / 64 / 64 / 64, 128 + c / 64 / 64 % 64, 128 + c / 64 % 64, 128 + c % 64]
  }

  function Utf8(s: Text): Bytes
    requires Encodable(s)
  {
    if s == [] then [] else EncodePoint(s[0]) + Utf8(s[1..])
  }

  /** The length of an encoded code point, read off its first byte. */
  function PointWidth(first: int): nat {
    if first < 192 then 1 else if first < 224 then 2 else if first < 240 then 3 else 4
  }

  /** The code point at the front of a byte string. */
  function PointAt(b: Bytes): int
    requires b != [] && PointWidth(b[0]) <= |b|
  {
    match PointWidth(b[0])
    case 1 => b[0]
    case 2 => (b[0] - 192) * 64 + (b[1] - 128)
    case 3 => ((b[0] - 224) * 64 + (b[1] - 128)) * 64 + (b[2] - 128)
    case _ => (((b[0] - 240) * 64 + (b[1] - 128)) * 64 + (b[2] - 128)) * 64 + (b[3] - 128)
  }

  lemma PointRoundTrip(c: int, rest: Bytes)
    requires Scalar(c)
    ensures var b := EncodePoint(c) + rest;
            b != [] && PointWidth(b[0]) == |EncodePoint(c)| && PointAt(b) == c
  {
    var q := c / 64;
    var p := q / 64;
    assert c == q * 64 + c % 64 && q == p * 64 + q % 64 && p == p / 64 * 64 + p % 64;
    var e := EncodePoint(c);
    assert (e + rest)[0] == e[0];
    if c >= 0x1_0000 {
      assert 240 <= e[0];
    } else if c >= 0x800 {
      assert 224 <= e[0] < 240;
    }
  }

  /** UTF-8 loses nothing. */
  lemma {:induction false} Utf8Injective(s: Text, t: Text)
    requires Encodable(s) && Encodable(t) && Utf8(s) == Utf8(t)
    ensures s == t
  {
    if s != [] {
      PointRoundTrip(s[0], Utf8(s[1..]));
    }
    if t != [] {
      PointRoundTrip(t[0], Utf8(t[1..]));
    }
    if s != [] && t != [] {
      SplitAt(EncodePoint(s[0]), Utf8(s[1..]), EncodePoint(t[0]), Utf8(t[1..]));
      Utf8Injective(s[1..], t[1..]);
      assert s == [s[0]] + s[1..] && t == [t[0]] + t[1..];
    }
  }

  // ------------------------------------------------- fixed-width integers

  function Power256(n: nat): nat {
    if n == 0 then 1 else 256 * Power256(n - 1)
  }

  /** Most significant byte first. */
  function BigEndian(v: nat, width: nat): (b: Bytes)
    ensures |b| == width
  {
    if width == 0 then [] else BigEndian(v / 256, width - 1) + [v % 256]
  }

  lemma {:induction false} BigEndianInjective(v: nat, w: nat, width: nat)
    requires v < Power256(width) && w < Power256(width)
    requires BigEndian(v, width) == BigEndian(w, width)
    ensures v == w
  {
    if width > 0 {
      SplitAt(BigEndian(v / 256, width - 1), [v % 256], BigEndian(w / 256, width - 1), [w % 256]);
      BigEndianInjective(v / 256, w / 256, width - 1);
      assert v % 256 == w % 256;
    }
  }

  predicate Unsigned32(v: int) {
    0 <= v < 0x1_0000_0000
  }

  predicate Signed64(v: int) {
    -0x8000_0000_0000_0000 <= v < 0x8000_0000_0000_0000
  }

  function TwosComplement64(v: int): nat
    requires Signed64(v)
  {
    if v < 0 then v + 0x1_0000_0000_0000_0000 else v
  }

  function Integers(f: Signed): (b: Bytes)
    requires Unsigned32(f.major) && Unsigned32(f.minor) && Signed64(f.issuedAt) && Signed64(f.expiresAt)
    ensures |b| == 24
  {
    BigEndian(f.major, 4) + (BigEndian(f.minor, 4) +
      (BigEndian(TwosComplement64(f.issuedAt), 8) + BigEndian(TwosComplement64(f.expiresAt), 8)))
  }

  lemma IntegersInjective(f: Signed, g: Signed)
    requires Unsigned32(f.major) && Unsigned32(f.minor) && Signed64(f.issuedAt) && Signed64(f.expiresAt)
    requires Unsigned32(g.major) && Unsigned32(g.minor) && Signed64(g.issuedAt) && Signed64(g.expiresAt)
    requires Integers(f) == Integers(g)
    ensures f.major == g.major && f.minor == g.minor
    ensures f.issuedAt == g.issuedAt && f.expiresAt == g.expiresAt
  {
    var fi, fe := BigEndian(TwosComplement64(f.issuedAt), 8), BigEndian(TwosComplement64(f.expiresAt), 8);
    var gi, ge := BigEndian(TwosComplement64(g.issuedAt), 8), BigEndian(TwosComplement64(g.expiresAt), 8);
    SplitAt(BigEndian(f.major, 4), BigEndian(f.minor, 4) + (fi + fe),
      BigEndian(g.major, 4), BigEndian(g.minor, 4) + (gi + ge));
    SplitAt(BigEndian(f.minor, 4), fi + fe, BigEndian(g.minor, 4), gi + ge);
    SplitAt(fi, fe, gi, ge);
    Widths();
    BigEndianInjective(f.major, g.major, 4);
    BigEndianInjective(f.minor, g.minor, 4);
    BigEndianInjective(TwosComplement64(f.issuedAt), TwosComplement64(g.issuedAt), 8);
    BigEndianInjective(TwosComplement64(f.expiresAt), TwosComplement64(g.expiresAt), 8);
  }

  lemma Widths()
    ensures Power256(2) == 0x1_0000
    ensures Power256(4) == 0x1_0000_0000
    ensures Power256(8) == 0x1_0000_0000_0000_0000
  {
    assert Power256(4) == 256 * (256 * Power256(2));
    assert Power256(6) == 256 * (256 * Power256(4));
    assert Power256(8) == 256 * (256 * Power256(6));
  }

  // ------------------------------------------------------- packed fields

  predicate Packable(s: Text) {
    Encodable(s) && |Utf8(s)| <= 65535
  }

  /** A two-byte length and the encoded text. */
  function Pack(s: Text): (r: Result<Bytes, Problem>)
    ensures r.Ok? <==> Packable(s)
    ensures r == Err(NotEncodable) <==> exists i :: 0 <= i < |s| && !Scalar(s[i])
  {
    if !Encodable(s) then Err(NotEncodable)
    else if |Utf8(s)| > 65535 then Err(FieldTooLarge)
    else Ok(BigEndian(|Utf8(s)|, 2) + Utf8(s))
  }

  /** Packed fields are self-delimiting: whatever follows them, they can be told apart. */
  lemma PackSelfDelimiting(s: Text, x: Bytes, t: Text, y: Bytes)
    requires Packable(s) && Packable(t) && Pack(s).value + x == Pack(t).value + y
    ensures s == t && x == y
  {
    var a, b := Utf8(s), Utf8(t);
    var la, lb := BigEndian(|a|, 2), BigEndian(|b|, 2);
    assert la + (a + x) == (la + a) + x == (lb + b) + y == lb + (b + y);
    SplitAt(la, a + x, lb, b + y);
    Widths();
    BigEndianInjective(|a|, |b|, 2);
    SplitAt(a, x, b, y);
    Utf8Injective(s, t);
  }

  // ------------------------------------------------- the signed message

  /** "ComputeMesh.NodeAuth.v1" and a zero byte. */
  const DOMAIN: Bytes :=
    [67, 111, 109, 112, 117, 116, 101, 77, 101, 115, 104, 46, 78, 111, 100, 101,
     65, 117, 116, 104, 46, 118, 49, 0]

  predicate InRange(f: Signed) {
    && Packable(f.sessionId) && Packable(f.challenge) && Packable(f.nodeId) && Packable(f.keyId)
    && Unsigned32(f.major) && Unsigned32(f.minor) && Signed64(f.issuedAt) && Signed64(f.expiresAt)
  }

  function SigningMessage(f: Signed): (r: Result<Bytes, Problem>)
    ensures r.Ok? <==> InRange(f)
    ensures r.Ok? ==> DOMAIN <= r.value
    ensures r == Err(OutOfRange) <==>
      && Packable(f.sessionId) && Packable(f.challenge) && Packable(f.nodeId) && Packable(f.keyId) && !InRange(f)
  {
    var session := Pack(f.sessionId);
    var challenge := Pack(f.challenge);
    var node := Pack(f.nodeId);
    var key := Pack(f.keyId);
    if session.Err? then session
    else if challenge.Err? then challenge
    else if node.Err? then node
    else if key.Err? then key
    else if !(Unsigned32(f.major) && Unsigned32(f.minor) && Signed64(f.issuedAt) && Signed64(f.expiresAt)) then
      Err(OutOfRange)
    else
      Ok(DOMAIN + (session.value + (challenge.value + (node.value + (key.value + (Integers(f) + f.digest))))))
  }

  /** The signed bytes determine every field, whatever the lengths of the fields are: in-range
      fields that differ anywhere, or in the digest, give different bytes. */
  lemma SigningMessageInjective(f: Signed, g: Signed)
    requires InRange(f) && InRange(g)
    ensures SigningMessage(f) == SigningMessage(g) <==> f == g
  {
    if SigningMessage(f) == SigningMessage(g) {
      var fKey, gKey := Integers(f) + f.digest, Integers(g) + g.digest;
      var fNode, gNode := Pack(f.keyId).value + fKey, Pack(g.keyId).value + gKey;
      var fChallenge, gChallenge := Pack(f.nodeId).value + fNode, Pack(g.nodeId).value + gNode;
      var fSession, gSession := Pack(f.challenge).value + fChallenge, Pack(g.challenge).value + gChallenge;
      SplitAt(DOMAIN, Pack(f.sessionId).value + fSession, DOMAIN, Pack(g.sessionId).value + gSession);
      PackSelfDelimiting(f.sessionId, fSession, g.sessionId, gSession);
      PackSelfDelimiting(f.challenge, fChallenge, g.challenge, gChallenge);
      PackSelfDelimiting(f.nodeId, fNode, g.nodeId, gNode);
      PackSelfDelimiting(f.keyId, fKey, g.keyId, gKey);
      SplitAt(Integers(f), f.digest, Integers(g), g.digest);
      IntegersInjective(f, g);
    }
  }

  // ------------------------------------------------------------- the layout

  /** The number that bytes spell, most significant first. */
  function Number(b: Bytes): int {
    if b == [] then 0 else Number(b[..|b| - 1]) * 256 + b[|b| - 1]
  }

  lemma {:induction false} NumberOfBigEndian(v: nat, width: nat)
    requires v < Power256(width)
    ensures Number(BigEndian(v, width)) == v
  {
    if width > 0 {
      NumberOfBigEndian(v / 256, width - 1);
      assert BigEndian(v, width)[..width - 1] == BigEndian(v / 256, width - 1);
    }
  }

  function First(b: Bytes, n: int): Bytes {
    if 0 <= n <= |b| then b[..n] else b
  }

  function Behind(b: Bytes, n: int): Bytes {
    if 0 <= n <= |b| then b[n..] else []
  }

  lemma FirstAndBehind(a: Bytes, x: Bytes)
    ensures First(a + x, |a|) == a && Behind(a + x, |a|) == x
  {
  }

  /** A text field: the length of its encoding in two bytes, then the encoding. */
  function ReadText(b: Bytes): (Bytes, Bytes) {
    var n := Number(First(b, 2));
    (First(Behind(b, 2), n), Behind(Behind(b, 2), n))
  }

  function ReadNumber(b: Bytes, width: nat): (int, Bytes) {
    (Number(First(b, width)), Behind(b, width))
  }

  lemma ReadsText(s: Text, x: Bytes)
    requires Packable(s)
    ensures ReadText(Pack(s).value + x) == (Utf8(s), x)
  {
    var u := Utf8(s);
    var length := BigEndian(|u|, 2);
    Widths();
    NumberOfBigEndian(|u|, 2);
    Reassociate(length, u, x);
    FirstAndBehind(length, u + x);
    FirstAndBehind(u, x);
  }

  lemma ReadsNumber(v: nat, width: nat, x: Bytes)
    requires v < Power256(width)
    ensures ReadNumber(BigEndian(v, width) + x, width) == (v, x)
  {
    NumberOfBigEndian(v, width);
    FirstAndBehind(BigEndian(v, width), x);
  }

  /** The parts of a message as they are read from front to back. */
  datatype Parts = Parts(
    tag: Bytes, session: Bytes, challenge: Bytes, node: Bytes, key: Bytes,
    major: int, minor: int, issued: int, expires: int, digest: Bytes)

  function ReadTexts(b: Bytes): (Bytes, Bytes, Bytes, Bytes, Bytes) {
    var (session, b1) := ReadText(b);
    var (challenge, b2) := ReadText(b1);
    var (node, b3) := ReadText(b2);
    var (key, b4) := ReadText(b3);
    (session, challenge, node, key, b4)
  }

  function ReadNumbers(b: Bytes): (int, int, int, int, Bytes) {
    var (major, b1) := ReadNumber(b, 4);
    var (minor, b2) := ReadNumber(b1, 4);
    var (issued, b3) := ReadNumber(b2, 8);
    var (expires, digest) := ReadNumber(b3, 8);
    (major, minor, issued, expires, digest)
  }

  function ReadMessage(b: Bytes): Parts {
    var (session, challenge, node, key, rest) := ReadTexts(Behind(b, 24));
    var (major, minor, issued, expires, digest) := ReadNumbers(rest);
    Parts(First(b, 24), session, challenge, node, key, major, minor, issued, expires, digest)
  }

  lemma ReadsTexts(p: Text, q: Text, r: Text, s: Text, rest: Bytes)
    requires Packable(p) && Packable(q) && Packable(r) && Packable(s)
    ensures ReadTexts(Pack(p).value + (Pack(q).value + (Pack(r).value + (Pack(s).value + rest))))
         == (Utf8(p), Utf8(q), Utf8(r), Utf8(s), rest)
  {
    var b3 := Pack(s).value + rest;
    var b2 := Pack(r).value + b3;
    var b1 := Pack(q).value + b2;
    ReadsText(p, b1);
    ReadsText(q, b2);
    ReadsText(r, b3);
    ReadsText(s, rest);
  }

  lemma ReadsNumbers(m: nat, n: nat, i: nat, e: nat, rest: Bytes)
    requires m < Power256(4) && n < Power256(4) && i < Power256(8) && e < Power256(8)
    ensures ReadNumbers(BigEndian(m, 4) + (BigEndian(n, 4) + (BigEndian(i, 8) + (BigEndian(e, 8) + rest))))
         == (m, n, i, e, rest)
  {
    var b3 := BigEndian(e, 8) + rest;
    var b2 := BigEndian(i, 8) + b3;
    var b1 := BigEndian(n, 4) + b2;
    ReadsNumber(m, 4, b1);
    ReadsNumber(n, 4, b2);
    ReadsNumber(i, 8, b3);
    ReadsNumber(e, 8, rest);
  }

  lemma IntegersInRow(f: Signed)
    requires Unsigned32(f.major) && Unsigned32(f.minor) && Signed64(f.issuedAt) && Signed64(f.expiresAt)
    ensures Integers(f) + f.digest == BigEndian(f.major, 4) + (BigEndian(f.minor, 4) +
      (BigEndian(TwosComplement64(f.issuedAt), 8) + (BigEndian(TwosComplement64(f.expiresAt), 8) + f.digest)))
  {
    var m, n := BigEndian(f.major, 4), BigEndian(f.minor, 4);
    var i, e := BigEndian(TwosComplement64(f.issuedAt), 8), BigEndian(TwosComplement64(f.expiresAt), 8);
    Reassociate(i, e, f.digest);
    Reassociate(n, i + e, f.digest);
    Reassociate(m, n + (i + e), f.digest);
  }

  /** The tag in front of everything: the ASCII text and a zero byte. */
  lemma DomainExactly()
    ensures |DOMAIN| == 24 && (forall i :: 0 <= i < 23 ==> DOMAIN[i] == "ComputeMesh.NodeAuth.v1"[i] as int)
    ensures DOMAIN[23] == 0
  {
  }

  lemma TimeExactly(v: int)
    requires Signed64(v)
    ensures TwosComplement64(v) == v % 0x1_0000_0000_0000_0000
  {
  }

  /** What follows the tag. */
  lemma RestReadsBack(f: Signed)
    requires InRange(f)
    ensures ReadNumbers(Integers(f) + f.digest)
         == (f.major, f.minor, f.issuedAt % 0x1_0000_0000_0000_0000, f.expiresAt % 0x1_0000_0000_0000_0000, f.digest)
  {
    Widths();
    IntegersInRow(f);
    TimeExactly(f.issuedAt);
    TimeExactly(f.expiresAt);
    ReadsNumbers(f.major, f.minor, TwosComplement64(f.issuedAt), TwosComplement64(f.expiresAt), f.digest);
  }

  lemma TagReadsBack(tag: Bytes, b: Bytes)
    requires |tag| == 24
    ensures var (session, challenge, node, key, rest) := ReadTexts(b);
      var (major, minor, issued, expires, digest) := ReadNumbers(rest);
      ReadMessage(tag + b) == Parts(tag, session, challenge, node, key, major, minor, issued, expires, digest)
  {
    FirstAndBehind(tag, b);
  }

  lemma MessageIs(f: Signed)
    requires InRange(f)
    ensures SigningMessage(f).value == DOMAIN + (Pack(f.sessionId).value + (Pack(f.challenge).value +
      (Pack(f.nodeId).value + (Pack(f.keyId).value + (Integers(f) + f.digest)))))
  {
  }

  /** The signed bytes hold the tag, the four texts, the four numbers and the digest, in this order
      and nothing else; times before the epoch are written modulo two to the 64. */
  lemma MessageReadsBack(f: Signed)
    requires InRange(f)
    ensures ReadMessage(SigningMessage(f).value)
         == Parts(DOMAIN, Utf8(f.sessionId), Utf8(f.challenge), Utf8(f.nodeId), Utf8(f.keyId), f.major, f.minor,
                  f.issuedAt % 0x1_0000_0000_0000_0000, f.expiresAt % 0x1_0000_0000_0000_0000, f.digest)
  {
    MessageIs(f);
    RestReadsBack(f);
    ReadsTexts(f.sessionId, f.challenge, f.nodeId, f.keyId, Integers(f) + f.digest);
    TagReadsBack(DOMAIN, Pack(f.sessionId).value + (Pack(f.challenge).value +
      (Pack(f.nodeId).value + (Pack(f.keyId).value + (Integers(f) + f.digest)))));
  }
}
