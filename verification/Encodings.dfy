/**
 The byte encodings identity rests on: a CRL serial's map key (certrevocation/listindex.go), the
 pre-image of a pre-authorized code's store key (issuer/pre_authorized_code_key.go), unpadded base64url
 (RFC 4648 section 5) as Go reads it strictly, and the stateless c_nonce (issuer/stateless_nonce.go).
 */
module Encodings {
  import opened Wrappers

  newtype byte = x: int | 0 <= x < 256

  type Bytes = seq<byte>

  // ---- Numbers ----

  /** n's big-endian bytes, none of them leading zeros. */
  function Magnitude(n: nat): Bytes {
    if n == 0 then [] else Magnitude(n / 256) + [(n % 256) as byte]
  }

  function ValueOf(b: Bytes): nat {
    if b == [] then 0 else ValueOf(b[..|b| - 1]) * 256 + b[|b| - 1] as nat
  }

  lemma {:induction false} MagnitudeValue(n: nat)
    ensures ValueOf(Magnitude(n)) == n
  {
    if n > 0 {
      MagnitudeValue(n / 256);
      assert Magnitude(n)[..|Magnitude(n)| - 1] == Magnitude(n / 256);
    }
  }

  const PLUS: byte := 43
  const MINUS: byte := 45

  /** The key serial n is looked up by; -n, if other than n, has another. */
  function SerialKey(n: int): Bytes {
    [if n < 0 then MINUS else PLUS] + Magnitude(if n < 0 then -n else n)
  }

  lemma SerialKeyInjective(m: int, n: int)
    requires SerialKey(m) == SerialKey(n)
    ensures m == n
  {
    assert SerialKey(m)[0] == SerialKey(n)[0] && SerialKey(m)[1..] == SerialKey(n)[1..];
    MagnitudeValue(if m < 0 then -m else m);
    MagnitudeValue(if n < 0 then -n else n);
  }

  function Power256(width: nat): nat {
    if width == 0 then 1 else 256 * Power256(width - 1)
  }

  /** n in exactly width big-endian bytes. */
  function BigEndian(n: nat, width: nat): (b: Bytes)
    requires n < Power256(width)
    ensures |b| == width
  {
    if width == 0 then [] else BigEndian(n / 256, width - 1) + [(n % 256) as byte]
  }

  lemma {:induction false} BigEndianValue(n: nat, width: nat)
    requires n < Power256(width)
    ensures ValueOf(BigEndian(n, width)) == n
  {
    if width > 0 {
      BigEndianValue(n / 256, width - 1);
      assert BigEndian(n, width)[..width - 1] == BigEndian(n / 256, width - 1);
    }
  }

  lemma {:induction false} BigEndianOfValue(b: Bytes)
    ensures ValueOf(b) < Power256(|b|)
    ensures BigEndian(ValueOf(b), |b|) == b
  {
    if b != [] {
      BigEndianOfValue(b[..|b| - 1]);
      assert ValueOf(b) / 256 == ValueOf(b[..|b| - 1]);
      assert b == b[..|b| - 1] + [b[|b| - 1]];
    }
  }

  // ---- The pre-image of a pre-authorized code's key ----

  const COLON: byte := 58

  /** n's decimal digits in ASCII. */
  function Decimal(n: nat): (d: Bytes)
    ensures d != [] && forall i | 0 <= i < |d| :: 48 <= d[i] < 58
  {
    (if n < 10 then [] else Decimal(n / 10)) + [(48 + n % 10) as byte]
  }

  lemma {:induction false} DecimalInjective(m: nat, n: nat)
    requires Decimal(m) == Decimal(n)
    ensures m == n
  {
    var dm, dn := Decimal(m), Decimal(n);
    assert dm[|dm| - 1] == dn[|dn| - 1];
    assert dm[..|dm| - 1] == dn[..|dn| - 1];
    if m >= 10 && n >= 10 {
      DecimalInjective(m / 10, n / 10);
    }
  }

  /** A part as it's written into the hash: its length, a colon, itself. */
  function Part(s: Bytes): Bytes {
    Decimal(|s|) + [COLON] + s
  }

  function KeyPreimage(parts: seq<Bytes>): Bytes {
    if parts == [] then [] else Part(parts[0]) + KeyPreimage(parts[1..])
  }

  lemma PartDelimits(a: Bytes, x: Bytes, b: Bytes, y: Bytes)
    requires Part(a) + x == Part(b) + y
    ensures a == b && x == y
  {
    var da, db := Decimal(|a|), Decimal(|b|);
    var whole := Part(a) + x;
    assert whole[..|da|] == da && whole[|da|] == COLON;
    assert whole[..|db|] == db && whole[|db|] == COLON;
    assert |da| == |db|;
    DecimalInjective(|a|, |b|);
    assert whole[|da| + 1..][..|a|] == a && whole[|da| + 1..][..|a|] == b;
    assert whole[|da| + 1 + |a|..] == x && whole[|da| + 1 + |a|..] == y;
  }

  /** No two lists of as many parts, an owner and a code say, share a pre-image. */
  lemma {:induction false} KeyPreimageInjective(p: seq<Bytes>, q: seq<Bytes>)
    requires |p| == |q| && KeyPreimage(p) == KeyPreimage(q)
    ensures p == q
  {
    if p != [] {
      PartDelimits(p[0], KeyPreimage(p[1..]), q[0], KeyPreimage(q[1..]));
      KeyPreimageInjective(p[1..], q[1..]);
    }
  }

  /** What preAuthorizedCodeKey hashes, written part by part. */
  method WriteKeyPreimage(owner: Bytes, code: Bytes) returns (written: Bytes)
    ensures written == KeyPreimage([owner, code])
  {
    var parts := [owner, code];
    written := [];
    for k := 0 to |parts|
      invariant written + KeyPreimage(parts[k..]) == KeyPreimage(parts)
    {
      assert parts[k..][1..] == parts[k + 1..];
      ghost var before, rest := written, KeyPreimage(parts[k + 1..]);
      written := written + Decimal(|parts[k]|) + [COLON] + parts[k];
      assert written == before + Part(parts[k]);
      assert before + (Part(parts[k]) + rest) == (before + Part(parts[k])) + rest;
    }
  }

  // ---- base64url without padding ----

  function CharOf(v: nat): char
    requires v < 64
  {
    if v < 26 then 'A' + v as char
    else if v < 52 then 'a' + (v - 26) as char
    else if v < 62 then '0' + (v - 52) as char
    else if v == 62 then '-' else '_'
  }

  function SextetOf(c: char): (v: Option<nat>)
    ensures v.Some? ==> v.value < 64 && CharOf(v.value) == c
  {
    if 'A' <= c <= 'Z' then Some((c - 'A') as nat)
    else if 'a' <= c <= 'z' then Some(26 + (c - 'a') as nat)
    else if '0' <= c <= '9' then Some(52 + (c - '0') as nat)
    else if c == '-' then Some(62)
    else if c == '_' then Some(63)
    else None
  }

  lemma SextetOfChar(v: nat)
    requires v < 64
    ensures SextetOf(CharOf(v)) == Some(v)
  {
  }

  function Base64Url(b: Bytes): string {
    if b == [] then []
    else
      var b0 := b[0] as nat;
      if |b| == 1 then [CharOf(b0 / 4), CharOf(b0 % 4 * 16)]
      else
        var b1 := b[1] as nat;
        if |b| == 2 then [CharOf(b0 / 4), CharOf(b0 % 4 * 16 + b1 / 16), CharOf(b1 % 16 * 4)]
        else
          var b2 := b[2] as nat;
          [CharOf(b0 / 4), CharOf(b0 % 4 * 16 + b1 / 16), CharOf(b1 % 16 * 4 + b2 / 64), CharOf(b2 % 64)]
          + Base64Url(b[3..])
  }

  /** s's sextets, if every character of s has one. */
  function Sextets(s: string): (r: Option<seq<nat>>)
    ensures r.Some? ==> |r.value| == |s| && forall i | 0 <= i < |s| :: SextetOf(s[i]) == Some(r.value[i])
  {
    if s == [] then Some([])
    else
      match SextetOf(s[0])
      case None => None
      case Some(v) =>
        match Sextets(s[1..])
        case None => None
        case Some(rest) => Some([v] + rest)
  }

  function FirstByte(v0: nat, v1: nat): byte
    requires v0 < 64 && v1 < 64
  {
    (v0 * 4 + v1 / 16) as byte
  }

  function SecondByte(v1: nat, v2: nat): byte
    requires v1 < 64 && v2 < 64
  {
    (v1 % 16 * 16 + v2 / 4) as byte
  }

  function ThirdByte(v2: nat, v3: nat): byte
    requires v2 < 64 && v3 < 64
  {
    (v2 % 4 * 64 + v3) as byte
  }

  /** The bytes of sextets in groups of four, refusing a lone one and non-zero unused bits. */
  function Groups(v: seq<nat>): Option<Bytes>
    requires forall i | 0 <= i < |v| :: v[i] < 64
  {
    if v == [] then Some([])
    else if |v| == 1 then None
    else
      var b0 := FirstByte(v[0], v[1]);
      if |v| == 2 then if v[1] % 16 == 0 then Some([b0]) else None
      else
        var b1 := SecondByte(v[1], v[2]);
        if |v| == 3 then if v[2] % 4 == 0 then Some([b0, b1]) else None
        else
          var b2 := ThirdByte(v[2], v[3]);
          match Groups(v[4..])
          case None => None
          case Some(rest) => Some([b0, b1, b2] + rest)
  }

  predicate IsLineBreak(c: char) {
    c == '\r' || c == '\n'
  }

  /** s without carriage returns and line feeds, which Go's decoder skips. */
  function WithoutLineBreaks(s: string): string {
    if s == [] then []
    else (if IsLineBreak(s[0]) then [] else [s[0]]) + WithoutLineBreaks(s[1..])
  }

  /** Strict decoding: line breaks skipped, unused bits zero. */
  function DecodeStrict(s: string): Option<Bytes> {
    match Sextets(WithoutLineBreaks(s))
    case None => None
    case Some(v) => Groups(v)
  }

  function Quad(b0: nat, b1: nat, b2: nat): (v: seq<nat>)
    requires b0 < 256 && b1 < 256 && b2 < 256
    ensures |v| == 4 && forall i | 0 <= i < 4 :: v[i] < 64
  {
    [b0 / 4, b0 % 4 * 16 + b1 / 16, b1 % 16 * 4 + b2 / 64, b2 % 64]
  }

  function Pair(b0: nat): (v: seq<nat>)
    requires b0 < 256
    ensures |v| == 2 && v[0] < 64 && v[1] < 64
  {
    [b0 / 4, b0 % 4 * 16]
  }

  function Triple(b0: nat, b1: nat): (v: seq<nat>)
    requires b0 < 256 && b1 < 256
    ensures |v| == 3 && v[0] < 64 && v[1] < 64 && v[2] < 64
  {
    [b0 / 4, b0 % 4 * 16 + b1 / 16, b1 % 16 * 4]
  }

  function SextetsOf(b: Bytes): (v: seq<nat>)
    ensures forall i | 0 <= i < |v| :: v[i] < 64
  {
    if b == [] then []
    else if |b| == 1 then Pair(b[0] as nat)
    else if |b| == 2 then Triple(b[0] as nat, b[1] as nat)
    else Quad(b[0] as nat, b[1] as nat, b[2] as nat) + SextetsOf(b[3..])
  }

  lemma {:induction false} EncodingSextets(b: Bytes)
    ensures |Base64Url(b)| == |SextetsOf(b)|
    ensures forall i | 0 <= i < |Base64Url(b)| :: Base64Url(b)[i] == CharOf(SextetsOf(b)[i])
  {
    if |b| > 2 {
      EncodingSextets(b[3..]);
    }
  }

  lemma {:induction false} SextetsOfChars(s: string, v: seq<nat>)
    requires |s| == |v| && forall i | 0 <= i < |v| :: v[i] < 64 && s[i] == CharOf(v[i])
    ensures Sextets(s) == Some(v)
  {
    if s != [] {
      SextetOfChar(v[0]);
      SextetsOfChars(s[1..], v[1..]);
      assert v == [v[0]] + v[1..];
    }
  }

  lemma BytesOfSextets(b0: nat, b1: nat, b2: nat)
    requires b0 < 256 && b1 < 256 && b2 < 256
    ensures FirstByte(b0 / 4, b0 % 4 * 16 + b1 / 16) == b0 as byte
    ensures SecondByte(b0 % 4 * 16 + b1 / 16, b1 % 16 * 4 + b2 / 64) == b1 as byte
    ensures ThirdByte(b1 % 16 * 4 + b2 / 64, b2 % 64) == b2 as byte
  {
  }

  lemma SextetsOfBytes(v0: nat, v1: nat, v2: nat, v3: nat)
    requires v0 < 64 && v1 < 64 && v2 < 64 && v3 < 64
    ensures var b0, b1, b2 := FirstByte(v0, v1) as nat, SecondByte(v1, v2) as nat, ThirdByte(v2, v3) as nat;
            && b0 / 4 == v0 && b0 % 4 * 16 + b1 / 16 == v1
            && b1 % 16 * 4 + b2 / 64 == v2 && b2 % 64 == v3
  {
  }

  lemma GroupsOfQuad(b0: byte, b1: byte, b2: byte, rest: seq<nat>)
    requires forall i | 0 <= i < |rest| :: rest[i] < 64
    ensures var v := Quad(b0 as nat, b1 as nat, b2 as nat) + rest;
            Groups(v) == if Groups(rest).None? then None else Some([b0, b1, b2] + Groups(rest).value)
  {
    BytesOfSextets(b0 as nat, b1 as nat, b2 as nat);
    assert (Quad(b0 as nat, b1 as nat, b2 as nat) + rest)[4..] == rest;
  }

  lemma {:induction false} GroupsOfSextets(b: Bytes)
    ensures Groups(SextetsOf(b)) == Some(b)
  {
    if |b| > 2 {
      GroupsOfSextets(b[3..]);
      GroupsOfQuad(b[0], b[1], b[2], SextetsOf(b[3..]));
      assert b == [b[0], b[1], b[2]] + b[3..];
    } else if |b| > 0 {
      GroupsOfTail(b);
    }
  }

  lemma UnusedBits(b: nat)
    ensures b % 4 * 16 % 16 == 0 && b % 16 * 4 % 4 == 0
  {
  }

  lemma GroupsOfPair(v0: nat, v1: nat)
    requires v0 < 64 && v1 < 64 && v1 % 16 == 0
    ensures Groups([v0, v1]) == Some([FirstByte(v0, v1)])
  {
  }

  lemma GroupsOfTriple(v0: nat, v1: nat, v2: nat)
    requires v0 < 64 && v1 < 64 && v2 < 64 && v2 % 4 == 0
    ensures Groups([v0, v1, v2]) == Some([FirstByte(v0, v1), SecondByte(v1, v2)])
  {
  }

  lemma GroupsOfOneByte(b: byte)
    ensures Groups(Pair(b as nat)) == Some([b])
  {
    var b0 := b as nat;
    UnusedBits(b0);
    assert FirstByte(b0 / 4, b0 % 4 * 16) == b;
    GroupsOfPair(b0 / 4, b0 % 4 * 16);
  }

  lemma GroupsOfTwoBytes(b: byte, c: byte)
    ensures Groups(Triple(b as nat, c as nat)) == Some([b, c])
  {
    var b0, b1 := b as nat, c as nat;
    UnusedBits(b1);
    assert FirstByte(b0 / 4, b0 % 4 * 16 + b1 / 16) == b;
    assert SecondByte(b0 % 4 * 16 + b1 / 16, b1 % 16 * 4) == c;
    GroupsOfTriple(b0 / 4, b0 % 4 * 16 + b1 / 16, b1 % 16 * 4);
  }

  lemma GroupsOfTail(b: Bytes)
    requires 1 <= |b| <= 2
    ensures Groups(SextetsOf(b)) == Some(b)
  {
    hide Groups, Pair, Triple;
    if |b| == 1 {
      GroupsOfOneByte(b[0]);
      assert b == [b[0]];
    } else {
      GroupsOfTwoBytes(b[0], b[1]);
      assert b == [b[0], b[1]];
    }
  }

  lemma QuadOfBytes(v0: nat, v1: nat, v2: nat, v3: nat)
    requires v0 < 64 && v1 < 64 && v2 < 64 && v3 < 64
    ensures Quad(FirstByte(v0, v1) as nat, SecondByte(v1, v2) as nat, ThirdByte(v2, v3) as nat) == [v0, v1, v2, v3]
  {
    SextetsOfBytes(v0, v1, v2, v3);
  }

  lemma TripleOfBytes(v0: nat, v1: nat, v2: nat)
    requires v0 < 64 && v1 < 64 && v2 < 64 && v2 % 4 == 0
    ensures Triple(FirstByte(v0, v1) as nat, SecondByte(v1, v2) as nat) == [v0, v1, v2]
  {
    SextetsOfBytes(v0, v1, v2, 0);
  }

  lemma PairOfByte(v0: nat, v1: nat)
    requires v0 < 64 && v1 < 64 && v1 % 16 == 0
    ensures Pair(FirstByte(v0, v1) as nat) == [v0, v1]
  {
    SextetsOfBytes(v0, v1, 0, 0);
  }

  lemma {:induction false} SextetsOfGroups(v: seq<nat>)
    requires forall i | 0 <= i < |v| :: v[i] < 64
    requires Groups(v).Some?
    ensures SextetsOf(Groups(v).value) == v
  {
    hide FirstByte, SecondByte, ThirdByte, Pair, Triple, Quad;
    if |v| >= 4 {
      QuadOfBytes(v[0], v[1], v[2], v[3]);
      SextetsOfGroups(v[4..]);
      var b := Groups(v).value;
      assert b[3..] == Groups(v[4..]).value;
      assert v == [v[0], v[1], v[2], v[3]] + v[4..];
    } else if |v| == 3 {
      TripleOfBytes(v[0], v[1], v[2]);
      assert v == [v[0], v[1], v[2]];
    } else if |v| == 2 {
      PairOfByte(v[0], v[1]);
      assert v == [v[0], v[1]];
    }
  }

  lemma {:induction false} NoLineBreaks(s: string)
    requires forall i | 0 <= i < |s| :: !IsLineBreak(s[i])
    ensures WithoutLineBreaks(s) == s
  {
    if s != [] {
      NoLineBreaks(s[1..]);
    }
  }

  predicate IsBase64UrlChar(c: char) {
    SextetOf(c).Some?
  }

  lemma EncodingAlphabet(b: Bytes)
    ensures forall i | 0 <= i < |Base64Url(b)| :: IsBase64UrlChar(Base64Url(b)[i])
  {
    EncodingSextets(b);
    forall i | 0 <= i < |Base64Url(b)| ensures IsBase64UrlChar(Base64Url(b)[i]) {
      SextetOfChar(SextetsOf(b)[i]);
    }
  }

  /**
   Strict decoding undoes encoding and nothing else: a string decodes to b exactly when, without its
   line breaks, it is b's encoding. So of the strings without line breaks one alone decodes to b, and
   two strings that differ only in line breaks decode alike.
   */
  lemma DecodesExactly(s: string, b: Bytes)
    ensures DecodeStrict(s) == Some(b) <==> WithoutLineBreaks(s) == Base64Url(b)
  {
    EncodingSextets(b);
    if WithoutLineBreaks(s) == Base64Url(b) {
      SextetsOfChars(Base64Url(b), SextetsOf(b));
      GroupsOfSextets(b);
    }
    if DecodeStrict(s) == Some(b) {
      var v := Sextets(WithoutLineBreaks(s)).value;
      SextetsOfGroups(v);
    }
  }

  // ---- The stateless c_nonce ----

  /** HMAC-SHA256 under a key, whose tags are 32 bytes; nothing else of it matters here. */
  type Mac = (Bytes, Bytes) -> Bytes

  datatype OpenError = Malformed | ExpiryOutOfRange | Forged

  const STATELESS_PREFIX := "s1."
  const EXPIRY_BYTES: nat := 8
  const RANDOM_BYTES: nat := 16
  const TAG_BYTES: nat := 32
  const BODY_BYTES: nat := EXPIRY_BYTES + RANDOM_BYTES
  const MAX_UNIX_SECONDS: nat := 253402300799

  function AsciiBytes(s: string): Bytes {
    seq(|s|, i requires 0 <= i < |s| => (s[i] as nat % 256) as byte)
  }

  const DOMAIN: Bytes := AsciiBytes("oid4vcgo issuer c_nonce s1") + [0]

  /** What a tag is over: the domain, the owner, a zero and the body. */
  function TagPreimage(owner: Bytes, body: Bytes): Bytes {
    DOMAIN + owner + [0] + body
  }

  /** Bodies being of one length, no two owners and bodies share a pre-image. */
  lemma TagPreimageInjective(o: Bytes, b: Bytes, p: Bytes, c: Bytes)
    requires |b| == |c| == BODY_BYTES && TagPreimage(o, b) == TagPreimage(p, c)
    ensures o == p && b == c
  {
    var whole := TagPreimage(o, b);
    var end := |whole| - BODY_BYTES;
    assert whole[end..] == b && whole[end..] == c;
    assert whole[|DOMAIN|..end - 1] == o && whole[|DOMAIN|..end - 1] == p;
  }

  lemma ExpiryFits(expiry: nat)
    requires expiry <= MAX_UNIX_SECONDS
    ensures expiry < Power256(EXPIRY_BYTES)
  {
    assert Power256(4) == 4294967296;
    assert Power256(8) == 256 * (256 * (256 * (256 * Power256(4))));
  }

  /** A c_nonce for owner, tagged with key. */
  function StatelessNonce(mac: Mac, key: Bytes, owner: Bytes, expiry: nat, random: Bytes): string
    requires expiry <= MAX_UNIX_SECONDS
  {
    ExpiryFits(expiry);
    var body := BigEndian(expiry, EXPIRY_BYTES) + random;
    STATELESS_PREFIX + Base64Url(body + mac(key, TagPreimage(owner, body)))
  }

  predicate IsStateless(nonce: string) {
    STATELESS_PREFIX <= nonce
  }

  function TrimPrefix(nonce: string): string {
    if IsStateless(nonce) then nonce[|STATELESS_PREFIX|..] else nonce
  }

  function OpenBody(mac: Mac, keys: seq<Bytes>, owner: Bytes, body: Bytes, tag: Bytes): Result<nat, OpenError>
    requires |body| == BODY_BYTES
  {
    if keys == [] then Failure(Forged)
    else if tag == mac(keys[0], TagPreimage(owner, body)) then
      var expiry := ValueOf(body[..EXPIRY_BYTES]);
      if expiry > MAX_UNIX_SECONDS then Failure(ExpiryOutOfRange) else Success(expiry)
    else OpenBody(mac, keys[1..], owner, body, tag)
  }

  /** The expiry of a c_nonce one of keys tagged for owner. */
  function Open(mac: Mac, keys: seq<Bytes>, owner: Bytes, nonce: string): Result<nat, OpenError> {
    match DecodeStrict(TrimPrefix(nonce))
    case None => Failure(Malformed)
    case Some(raw) =>
      if |raw| != BODY_BYTES + TAG_BYTES then Failure(Malformed)
      else OpenBody(mac, keys, owner, raw[..BODY_BYTES], raw[BODY_BYTES..])
  }

  lemma {:induction false} OpenBodyMeaning(mac: Mac, keys: seq<Bytes>, owner: Bytes, body: Bytes, tag: Bytes)
    requires |body| == BODY_BYTES
    ensures var expiry := ValueOf(body[..EXPIRY_BYTES]);
            OpenBody(mac, keys, owner, body, tag) ==
            if !exists key | key in keys :: tag == mac(key, TagPreimage(owner, body)) then Failure(Forged)
            else if expiry > MAX_UNIX_SECONDS then Failure(ExpiryOutOfRange) else Success(expiry)
  {
    if keys != [] {
      OpenBodyMeaning(mac, keys[1..], owner, body, tag);
      assert keys == [keys[0]] + keys[1..];
    }
  }

  /** Opening undoes issuing, to the second, under any key set with the issuing key. */
  lemma OpenUndoesIssue(mac: Mac, keys: seq<Bytes>, key: Bytes, owner: Bytes, expiry: nat, random: Bytes)
    requires expiry <= MAX_UNIX_SECONDS && |random| == RANDOM_BYTES && key in keys
    requires forall message :: |mac(key, message)| == TAG_BYTES
    ensures Open(mac, keys, owner, StatelessNonce(mac, key, owner, expiry, random)) == Success(expiry)
  {
    ExpiryFits(expiry);
    var body := BigEndian(expiry, EXPIRY_BYTES) + random;
    var tag := mac(key, TagPreimage(owner, body));
    var encoded := Base64Url(body + tag);
    assert TrimPrefix(STATELESS_PREFIX + encoded) == encoded;
    EncodingAlphabet(body + tag);
    NoLineBreaks(encoded);
    DecodesExactly(encoded, body + tag);
    assert (body + tag)[..BODY_BYTES] == body && (body + tag)[BODY_BYTES..] == tag;
    OpenBodyMeaning(mac, keys, owner, body, tag);
    BigEndianValue(expiry, EXPIRY_BYTES);
    assert body[..EXPIRY_BYTES] == BigEndian(expiry, EXPIRY_BYTES);
  }

  /** Conversely, a stateless c_nonce without line breaks opens only if it is one of keys' for owner. */
  lemma OpensOnlyIssued(mac: Mac, keys: seq<Bytes>, owner: Bytes, nonce: string) returns (key: Bytes, random: Bytes)
    requires IsStateless(nonce) && Open(mac, keys, owner, nonce).Success?
    requires forall i | 0 <= i < |nonce| :: !IsLineBreak(nonce[i])
    ensures key in keys && |random| == RANDOM_BYTES
    ensures Open(mac, keys, owner, nonce).value <= MAX_UNIX_SECONDS
    ensures nonce == StatelessNonce(mac, key, owner, Open(mac, keys, owner, nonce).value, random)
  {
    var encoded := TrimPrefix(nonce);
    var raw := DecodeStrict(encoded).value;
    NoLineBreaks(encoded);
    DecodesExactly(encoded, raw);
    var body, tag := raw[..BODY_BYTES], raw[BODY_BYTES..];
    OpenBodyMeaning(mac, keys, owner, body, tag);
    key :| key in keys && tag == mac(key, TagPreimage(owner, body));
    random := body[EXPIRY_BYTES..];
    BigEndianOfValue(body[..EXPIRY_BYTES]);
    assert body == body[..EXPIRY_BYTES] + random && raw == body + tag;
    assert nonce == STATELESS_PREFIX + encoded;
  }

  /** A c_nonce a store holds, a random base64url identifier, never looks stateless. */
  lemma StoredNeverStateless(random: Bytes)
    ensures !IsStateless(Base64Url(random))
  {
    assert STATELESS_PREFIX[2] == '.' && !IsBase64UrlChar('.');
    EncodingAlphabet(random);
  }
}
