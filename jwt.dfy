/**
 * The session-token codec: a compact `header.body.signature` token in the
 * shape of RFC 7519, each segment base64url text (RFC 4648 section 5
 * alphabet) with the `=` padding removed, as in RFC 7515 section 2.
 * The signature is an HMAC of `header.body`; verification recomputes it and
 * compares strings. Nothing checks an expiry time.
 */
module Jwt {
  import opened Wrappers
  import opened NodeBuffer
  import JsString

  /** A JSON value as `JSON.parse` yields it; numbers are restricted to integers. */
  datatype Json =
    | JNull
    | JBool(b: bool)
    | JNum(n: int)
    | JStr(s: string)
    | JArr(items: seq<Json>)
    | JObj(fields: map<string, Json>)

  /** The signed object: `github_id`, `login`, `name`, `email`, `avatar_url` and any other keys. */
  type Payload = map<string, Json>

  /**
   * What the codec takes from outside: HMAC-SHA256 over (key bytes, message
   * bytes), `JSON.stringify`, and `JSON.parse` with None where it throws.
   */
  datatype Collaborators = Collaborators(
    hmacSha256: (seq<byte>, seq<byte>) -> seq<byte>,
    stringify: Json -> string,
    parse: string -> Option<Json>)

  /** HMAC-SHA256 digests are 32 bytes long. */
  ghost predicate DigestsAre32Bytes(env: Collaborators) {
    forall key, message :: |env.hmacSha256(key, message)| == 32
  }

  /** `JSON.stringify` writes non-empty text, and `JSON.parse` reads back whatever it wrote. */
  ghost predicate JsonRoundTrips(env: Collaborators) {
    forall v :: env.stringify(v) != [] && env.parse(env.stringify(v)) == Some(v)
  }

  /** `s.replace(/a/g, b)` for single characters. */
  function ReplaceAll(s: string, a: char, b: char): (r: string)
    ensures |r| == |s|
    ensures forall i :: 0 <= i < |s| ==> r[i] == if s[i] == a then b else s[i]
  {
    seq(|s|, i requires 0 <= i < |s| => if s[i] == a then b else s[i])
  }

  /** `s.replace(/c/g, "")` */
  function RemoveAll(s: string, c: char): (r: string)
    ensures c !in r
    ensures forall x :: x in r ==> x in s
  {
    if s == [] then [] else (if s[0] == c then [] else [s[0]]) + RemoveAll(s[1..], c)
  }

  /** The RFC 4648 section 5 alphabet: letters, digits, `-` and `_`. */
  predicate IsUrlSafe(c: char) {
    'A' <= c <= 'Z' || 'a' <= c <= 'z' || '0' <= c <= '9' || c == '-' || c == '_'
  }

  /** The standard alphabet with `+`/`/` turned into `-`/`_`. */
  function StdToUrl(s: string): string {
    ReplaceAll(ReplaceAll(s, '+', '-'), '/', '_')
  }

  /** `base64UrlEncode`: base64 of the UTF-8 bytes, URL-safe alphabet, padding stripped. */
  function Base64UrlEncode(str: string): (r: string)
    ensures forall i :: 0 <= i < |r| ==> IsUrlSafe(r[i])
    ensures '+' !in r && '/' !in r && '=' !in r && '.' !in r
  {
    var std := Encode(Utf8Encode(str));
    EncodeAlphabet(Utf8Encode(str));
    RemoveAll(StdToUrl(std), '=')
  }

  /** Base64 text uses the standard alphabet and `=` only. */
  lemma EncodeAlphabet(b: seq<byte>)
    ensures forall c :: c in StdToUrl(Encode(b)) ==> IsUrlSafe(c) || c == '='
  {
    var v := ToSextets(b);
    forall i | 0 <= i < |v| ensures IsUrlSafe(StdToUrl([StdChar(v[i])])[0]) {
    }
  }

  /** `-`/`_` back to `+`/`/`, the first step of `base64UrlDecode`. */
  function UrlToStd(s: string): (r: string)
    ensures |r| == |s| && '-' !in r && '_' !in r
    ensures forall i :: 0 <= i < |s| && s[i] == '-' ==> r[i] == '+'
    ensures forall i :: 0 <= i < |s| && s[i] == '_' ==> r[i] == '/'
    ensures forall i :: 0 <= i < |s| && s[i] != '-' && s[i] != '_' ==> r[i] == s[i]
  {
    ReplaceAll(ReplaceAll(s, '-', '+'), '_', '/')
  }

  /** How many `=` make a length a multiple of four. */
  function PadCount(n: nat): (k: nat)
    ensures k <= 3 && (n + k) % 4 == 0
  {
    (4 - n % 4) % 4
  }

  /** `s` padded with `=` to a multiple of four characters. */
  function Padded(s: string): (r: string)
    ensures |s| <= |r| <= |s| + 3 && |r| % 4 == 0
    ensures r[..|s|] == s && forall i :: |s| <= i < |r| ==> r[i] == '='
  {
    s + Repeat('=', PadCount(|s|))
  }

  /** The only padding of at most three characters that reaches a multiple of four. */
  lemma PadCountUnique(n: nat, k: nat)
    requires k <= 3 && (n + k) % 4 == 0
    ensures k == PadCount(n)
  {
  }

  /** The padding loop of `base64UrlDecode`. */
  method PadToQuartet(s: string) returns (padded: string)
    ensures |s| <= |padded| <= |s| + 3 && |padded| % 4 == 0
    ensures padded[..|s|] == s
    ensures forall i :: |s| <= i < |padded| ==> padded[i] == '='
    ensures padded == Padded(s)
  {
    padded := s;
    var added := 0;
    while |padded| % 4 != 0
      invariant 0 <= added <= PadCount(|s|)
      invariant |padded| == |s| + added
      invariant padded[..|s|] == s
      invariant forall i :: |s| <= i < |padded| ==> padded[i] == '='
      decreases PadCount(|s|) - added
    {
      padded := padded + "=";
      added := added + 1;
    }
    PadCountUnique(|s|, added);
    assert padded == Padded(s);
  }

  /** What `base64UrlDecode` returns for `str`. */
  function DecodedSegment(str: string): (text: string)
    ensures |text| <= |str|
  {
    SextetsIgnorePadding(UrlToStd(str), PadCount(|str|));
    Utf8Decode(Decode(Padded(UrlToStd(str))))
  }

  /** `base64UrlDecode`: never fails (Node's decoders are lenient). */
  method Base64UrlDecode(str: string) returns (text: string)
    ensures text == DecodedSegment(str)
  {
    var padded := PadToQuartet(UrlToStd(str));
    text := Utf8Decode(Decode(padded));
  }

  lemma {:induction false} RemoveAllAbsent(s: string, c: char)
    requires c !in s
    ensures RemoveAll(s, c) == s
  {
    if s != [] {
      RemoveAllAbsent(s[1..], c);
      assert [s[0]] + s[1..] == s;
    }
  }

  lemma {:induction false} RemoveAllPadding(s: string, n: nat, c: char)
    requires c !in s
    ensures RemoveAll(s + Repeat(c, n), c) == s
  {
    if s == [] {
      assert s + Repeat(c, n) == Repeat(c, n);
      RemoveAllRepeat(n, c);
    } else {
      assert (s + Repeat(c, n))[1..] == s[1..] + Repeat(c, n);
      RemoveAllPadding(s[1..], n, c);
      assert [s[0]] + s[1..] == s;
    }
  }

  lemma {:induction false} RemoveAllRepeat(n: nat, c: char)
    ensures RemoveAll(Repeat(c, n), c) == []
  {
    if n > 0 {
      assert Repeat(c, n)[1..] == Repeat(c, n - 1);
      RemoveAllRepeat(n - 1, c);
    }
  }

  /** The alphabet change leaves `=` padding where it is. */
  lemma StdToUrlKeepsPadding(data: string, k: nat)
    ensures StdToUrl(data + Repeat('=', k)) == StdToUrl(data) + Repeat('=', k)
  {
    var l := StdToUrl(data + Repeat('=', k));
    var r := StdToUrl(data) + Repeat('=', k);
    assert |l| == |r|;
    forall i | 0 <= i < |l| ensures l[i] == r[i] {
      if i < |data| {
        assert (data + Repeat('=', k))[i] == data[i];
      } else {
        assert (data + Repeat('=', k))[i] == '=';
      }
    }
  }

  /** Standard base64 characters survive the change to the URL-safe alphabet and back, and none is `=`. */
  lemma UrlAlphabetRestores(v: seq<sextet>)
    ensures UrlToStd(StdToUrl(Chars(v))) == Chars(v)
    ensures '=' !in StdToUrl(Chars(v))
  {
    var data := Chars(v);
    var u := StdToUrl(data);
    forall i | 0 <= i < |data| ensures UrlToStd(u)[i] == data[i] && u[i] != '=' {
      assert data[i] == StdChar(v[i]);
    }
    assert UrlToStd(u) == data;
  }

  /** The `=` count `Encode` appends is exactly what re-padding adds back. */
  lemma PadCountOfSextets(b: seq<byte>)
    ensures PadCount(|ToSextets(b)|) == if |b| % 3 == 0 then 0 else 3 - |b| % 3
  {
    PadCountOfGroups(|b|, |ToSextets(b)|);
  }

  lemma PadCountOfGroups(n: nat, len: nat)
    requires len == 4 * (n / 3) + (if n % 3 == 0 then 0 else n % 3 + 1)
    ensures PadCount(len) == if n % 3 == 0 then 0 else 3 - n % 3
  {
    QuartetLength(n, len);
    PadCountUnique(len, if n % 3 == 0 then 0 else 3 - n % 3);
  }

  /** Undoing the alphabet change and re-padding rebuilds exactly the base64 text. */
  lemma UrlSegmentRestores(b: seq<byte>)
    ensures Padded(UrlToStd(RemoveAll(StdToUrl(Encode(b)), '='))) == Encode(b)
  {
    var v := ToSextets(b);
    var k := if |b| % 3 == 0 then 0 else 3 - |b| % 3;
    var data := Chars(v);
    StdToUrlKeepsPadding(data, k);
    UrlAlphabetRestores(v);
    RemoveAllPadding(StdToUrl(data), k, '=');
    PadCountOfSextets(b);
  }

  /**
   * `base64UrlDecode(base64UrlEncode(s)) == s` for every well-formed string,
   * that is, every sequence of Unicode scalar values.
   */
  lemma Base64UrlRoundTrip(s: string)
    ensures DecodedSegment(Base64UrlEncode(s)) == s
  {
    UrlSegmentRestores(Utf8Encode(s));
    Base64RoundTrip(Utf8Encode(s));
    Utf8RoundTrip(s);
  }

  /**
   * `hmacSign`: the digest goes through a `"binary"` string and back through
   * UTF-8, so digest bytes of 0x80 and above are encoded as two bytes before
   * base64url; the result is not the RFC 7515 HS256 signature.
   */
  function HmacSign(message: string, secret: string, env: Collaborators): (r: string)
    ensures '.' !in r
  {
    Base64UrlEncode(Latin1(env.hmacSha256(Utf8Encode(secret), Utf8Encode(message))))
  }

  /** `JSON.stringify({ alg: "HS256", typ: "JWT" })` */
  const HeaderJson: string := "{\"alg\":\"HS256\",\"typ\":\"JWT\"}"

  /** The header segment, the same for every token. */
  function HeaderSegment(): (h: string)
    ensures '.' !in h
    ensures forall i :: 0 <= i < |h| ==> IsUrlSafe(h[i])
  {
    Base64UrlEncode(HeaderJson)
  }

  /** Every token's header segment decodes to the fixed `{"alg":"HS256","typ":"JWT"}`. */
  lemma HeaderSegmentDecodes()
    ensures DecodedSegment(HeaderSegment()) == HeaderJson
  {
    Base64UrlRoundTrip(HeaderJson);
  }

  /** `{ ...payload, iat }`: the payload with `iat` set, replacing any `iat` it had. */
  function Claims(payload: Payload, iat: int): (c: Payload)
    ensures c.Keys == payload.Keys + {"iat"}
    ensures c["iat"] == JNum(iat)
    ensures forall k :: k in payload && k != "iat" ==> c[k] == payload[k]
  {
    payload["iat" := JNum(iat)]
  }

  /** The body segment decodes to the JSON text of the claims. */
  lemma BodySegmentDecodes(payload: Payload, iat: int, env: Collaborators)
    ensures DecodedSegment(BodySegment(payload, iat, env)) == env.stringify(JObj(Claims(payload, iat)))
  {
    Base64UrlRoundTrip(env.stringify(JObj(Claims(payload, iat))));
  }

  /** The body segment for a payload signed at time `iat` (seconds). */
  function BodySegment(payload: Payload, iat: int, env: Collaborators): (b: string)
    ensures '.' !in b
    ensures forall i :: 0 <= i < |b| ==> IsUrlSafe(b[i])
  {
    Base64UrlEncode(env.stringify(JObj(Claims(payload, iat))))
  }

  /** `createJWT`, with the clock reading `iat` and the signing secret as parameters. */
  function CreateJwt(payload: Payload, iat: int, secret: string, env: Collaborators): (token: string)
    ensures JsString.Split(token, '.') ==
      [HeaderSegment(), BodySegment(payload, iat, env),
       HmacSign(HeaderSegment() + "." + BodySegment(payload, iat, env), secret, env)]
  {
    var header := HeaderSegment();
    var body := BodySegment(payload, iat, env);
    var signature := HmacSign(header + "." + body, secret, env);
    ThreeSegments(header, body, signature);
    header + "." + body + "." + signature
  }

  /** Three dot-free segments joined by dots split back into those three. */
  lemma ThreeSegments(a: string, b: string, c: string)
    requires '.' !in a && '.' !in b && '.' !in c
    ensures JsString.Split(a + "." + b + "." + c, '.') == [a, b, c]
  {
    JsString.SplitPiece(c, '.');
    JsString.SplitAfterPiece(b, c, '.');
    assert a + "." + b + "." + c == a + ['.'] + (b + ['.'] + c);
    JsString.SplitAfterPiece(a, b + ['.'] + c, '.');
  }

  /** `verifyJWT`: the parsed body, or None. */
  function VerifyJwt(token: string, secret: string, env: Collaborators): (r: Option<Json>)
    ensures r.Some? ==>
      var parts := JsString.Split(token, '.');
      && |parts| >= 3 && parts[0] != [] && parts[1] != [] && parts[2] != []
      && parts[2] == HmacSign(parts[0] + "." + parts[1], secret, env)
      && env.parse(DecodedSegment(parts[1])) == r
    ensures r != Some(JNull)
  {
    var parts := JsString.Split(token, '.');
    if |parts| < 3 || parts[0] == [] || parts[1] == [] || parts[2] == [] then
      None
    else if parts[2] != HmacSign(parts[0] + "." + parts[1], secret, env) then
      None
    else
      match env.parse(DecodedSegment(parts[1]))
      // `JSON.parse("null")` is null, which the caller cannot tell from a rejection
      case Some(JNull) => None
      case other => other
  }

  /** A token with fewer than three segments, or an empty one among the first three, is rejected. */
  lemma MissingSegmentRejected(token: string, secret: string, env: Collaborators)
    requires var parts := JsString.Split(token, '.');
      |parts| < 3 || parts[0] == [] || parts[1] == [] || parts[2] == []
    ensures VerifyJwt(token, secret, env) == None
  {
  }

  /** A third segment other than the recomputed HMAC of the first two is rejected. */
  lemma BadSignatureRejected(token: string, secret: string, env: Collaborators)
    requires var parts := JsString.Split(token, '.');
      |parts| >= 3 && parts[2] != HmacSign(parts[0] + "." + parts[1], secret, env)
    ensures VerifyJwt(token, secret, env) == None
  {
  }

  /** Only the first three segments are read: more segments after them change nothing. */
  lemma TrailingSegmentsIgnored(token: string, secret: string, env: Collaborators)
    requires |JsString.Split(token, '.')| >= 3
    ensures var parts := JsString.Split(token, '.');
      VerifyJwt(token, secret, env) == VerifyJwt(parts[0] + "." + parts[1] + "." + parts[2], secret, env)
  {
    var parts := JsString.Split(token, '.');
    ThreeSegments(parts[0], parts[1], parts[2]);
  }

  /** Round trip: a token made by `CreateJwt` verifies, under the same secret, to the signed claims. */
  lemma CreateThenVerify(payload: Payload, iat: int, secret: string, env: Collaborators)
    requires JsonRoundTrips(env) && DigestsAre32Bytes(env)
    ensures VerifyJwt(CreateJwt(payload, iat, secret, env), secret, env) == Some(JObj(Claims(payload, iat)))
  {
    HeaderSegmentNonEmpty();
    SignedBodyVerifies(HeaderSegment(), JObj(Claims(payload, iat)), secret, env);
  }

  lemma HeaderSegmentNonEmpty()
    ensures HeaderSegment() != []
  {
    var h := HeaderJson;
    NonEmptySegment(h);
  }

  /** Any non-empty header with a body that encodes a non-null value verifies to that value. */
  lemma SignedBodyVerifies(header: string, value: Json, secret: string, env: Collaborators)
    requires JsonRoundTrips(env) && DigestsAre32Bytes(env)
    requires header != [] && '.' !in header && value != JNull
    ensures var body := Base64UrlEncode(env.stringify(value));
      VerifyJwt(header + "." + body + "." + HmacSign(header + "." + body, secret, env), secret, env) == Some(value)
  {
    var body := Base64UrlEncode(env.stringify(value));
    var digest := env.hmacSha256(Utf8Encode(secret), Utf8Encode(header + "." + body));
    var signature := HmacSign(header + "." + body, secret, env);
    ThreeSegments(header, body, signature);
    Base64UrlRoundTrip(env.stringify(value));
    NonEmptySegment(env.stringify(value));
    assert |digest| == 32;
    NonEmptySegment(Latin1(digest));
  }

  /** A non-empty text encodes to a non-empty segment. */
  lemma NonEmptySegment(s: string)
    requires s != []
    ensures Base64UrlEncode(s) != []
  {
    Base64UrlRoundTrip(s);
  }

  /** `createJwt` joins the fixed header, the body segment and their signature with dots. */
  lemma CreateJwtJoins(payload: Payload, iat: int, secret: string, env: Collaborators)
    ensures CreateJwt(payload, iat, secret, env) ==
      HeaderSegment() + "." + BodySegment(payload, iat, env) + "."
      + HmacSign(HeaderSegment() + "." + BodySegment(payload, iat, env), secret, env)
  {
  }

  /** Dot-free header and body followed by anything but their recomputed signature are rejected. */
  lemma TamperedSignatureRejected(header: string, body: string, signature: string, secret: string, env: Collaborators)
    requires '.' !in header && '.' !in body && '.' !in signature
    requires signature != HmacSign(header + "." + body, secret, env)
    ensures VerifyJwt(header + "." + body + "." + signature, secret, env) == None
  {
    ThreeSegments(header, body, signature);
  }

  /** A token made with one secret is rejected under another whose HMAC of the same `header.body` differs. */
  lemma OtherSecretRejected(payload: Payload, iat: int, secret: string, other: string, env: Collaborators)
    requires var signed := HeaderSegment() + "." + BodySegment(payload, iat, env);
      HmacSign(signed, secret, env) != HmacSign(signed, other, env)
    ensures VerifyJwt(CreateJwt(payload, iat, secret, env), other, env) == None
  {
    var header, body := HeaderSegment(), BodySegment(payload, iat, env);
    CreateJwtJoins(payload, iat, secret, env);
    TamperedSignatureRejected(header, body, HmacSign(header + "." + body, secret, env), other, env);
  }

  /** Replacing the signature of a genuine token with any other text is rejected. */
  lemma ForgedSignatureRejected(payload: Payload, iat: int, secret: string, forged: string, env: Collaborators)
    requires '.' !in forged
    requires forged != HmacSign(HeaderSegment() + "." + BodySegment(payload, iat, env), secret, env)
    ensures VerifyJwt(HeaderSegment() + "." + BodySegment(payload, iat, env) + "." + forged, secret, env) == None
  {
    TamperedSignatureRejected(HeaderSegment(), BodySegment(payload, iat, env), forged, secret, env);
  }
}
