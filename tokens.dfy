/** Compact signed tokens: the JWS compact serialisation of section 7.1 of RFC 7515 with
    HS256 (section 3.2 of RFC 7518) and the `iat` / `exp` claims of sections 4.1.6 and
    4.1.4 of RFC 7519, as `signToken` and `verifyToken` build and check them. */
module Tokens {
  import opened Common
  import opened Strings
  import opened Base64Url
  import opened SafeCompare

  /** A JSON value. Numbers are the integers the token claims use. */
  datatype Json =
    | JNull
    | JBool(b: bool)
    | JNumber(n: int)
    | JString(s: string)
    | JArray(items: seq<Json>)
    | JObject(fields: map<string, Json>)

  /** `JSON.stringify` followed by UTF-8 encoding, and UTF-8 decoding followed by
      `JSON.parse`, where None stands for a parse that throws. */
  datatype JsonCodec = JsonCodec(stringify: Json -> seq<byte>, parse: seq<byte> -> Option<Json>)

  /** What the module relies on: parsing what was stringified gives the value back. */
  ghost predicate RoundTrips(json: JsonCodec)
  {
    forall v :: json.parse(json.stringify(v)) == Some(v)
  }

  /** `crypto.createHmac('sha256', secret).update(data).digest()`, taken as given. */
  type Hmac = (string, string) -> seq<byte>

  /** Seven days, in seconds. */
  const DefaultTtl: int := 60 * 60 * 24 * 7

  /** `Math.floor(Date.now() / 1000)`: Dafny's division by a positive divisor rounds down. */
  function UnixSeconds(nowMs: int): int
  {
    nowMs / 1000
  }

  /** `Number(opts.expiresInSeconds ?? 604800)`. */
  function Ttl(expiresInSeconds: Option<int>): int
  {
    if expiresInSeconds.Some? then expiresInSeconds.value else DefaultTtl
  }

  const Header := JObject(map["alg" := JString("HS256"), "typ" := JString("JWT")])

  /** `{ ...payload, iat, exp }`: the payload's fields, with `iat` and `exp` set last so that
      they win over same-named payload fields. */
  function Claims(payload: map<string, Json>, iat: int, exp: int): (body: map<string, Json>)
    ensures body.Keys == payload.Keys + {"iat", "exp"}
    ensures body["iat"] == JNumber(iat) && body["exp"] == JNumber(exp)
    ensures forall k :: k in payload && k != "iat" && k != "exp" ==> body[k] == payload[k]
  {
    payload["iat" := JNumber(iat)]["exp" := JNumber(exp)]
  }

  /** `${headerB64}.${payloadB64}.${sigB64}` with the signature over the first two segments. */
  function Assemble(hmac: Hmac, secret: string, headerB64: string, payloadB64: string): string
  {
    var data := headerB64 + "." + payloadB64;
    data + "." + Encode(hmac(secret, data))
  }

  /** The body `signToken` signs when called at `nowMs`. */
  function TokenBody(payload: map<string, Json>, expiresInSeconds: Option<int>, nowMs: int): Json
  {
    var iat := UnixSeconds(nowMs);
    JObject(Claims(payload, iat, iat + Ttl(expiresInSeconds)))
  }

  /** `signToken` (src/utils/security.js:59-78), issued at `nowMs`. */
  function SignToken(
    hmac: Hmac, json: JsonCodec, payload: map<string, Json>, secret: string,
    expiresInSeconds: Option<int>, nowMs: int): string
  {
    var body := TokenBody(payload, expiresInSeconds, nowMs);
    Assemble(hmac, secret, Encode(json.stringify(Header)), Encode(json.stringify(body)))
  }

  /** The tagged failures of `verifyToken`, in the order it checks for them. */
  datatype TokenError = MissingToken | BadFormat | BadSignature | BadPayload | Expired

  function ErrorCode(e: TokenError): string
  {
    match e
    case MissingToken => "missing_token"
    case BadFormat => "bad_format"
    case BadSignature => "bad_signature"
    case BadPayload => "bad_payload"
    case Expired => "expired"
  }

  datatype Verified = Ok(payload: Json) | Fail(error: TokenError)

  /** `typeof payload?.exp === 'number' && payload.exp < nowSeconds`. */
  predicate HasExpired(payload: Json, nowSeconds: int)
  {
    payload.JObject? && "exp" in payload.fields && payload.fields["exp"].JNumber? &&
    payload.fields["exp"].n < nowSeconds
  }

  /** The checks after the signature (src/utils/security.js:92-104): parse the payload
      segment, then compare a numeric `exp` with the clock. */
  function CheckPayload(json: JsonCodec, payloadB64: string, nowMs: int): (r: Verified)
    ensures r.Ok? <==>
      json.parse(Decode(Str(payloadB64))).Some? &&
      !HasExpired(json.parse(Decode(Str(payloadB64))).value, UnixSeconds(nowMs))
    ensures r.Ok? ==> json.parse(Decode(Str(payloadB64))) == Some(r.payload)
    ensures r.Fail? ==> r.error == BadPayload || r.error == Expired
  {
    match json.parse(Decode(Str(payloadB64)))
    case None => Fail(BadPayload)
    case Some(payload) =>
      if HasExpired(payload, UnixSeconds(nowMs)) then Fail(Expired) else Ok(payload)
  }

  /** `verifyToken` (src/utils/security.js:80-105), checked at `nowMs`. A success means the
      third segment decodes to exactly the HMAC of the first two, the second segment
      parses to the returned payload, and that payload has not expired. */
  function VerifyToken(hmac: Hmac, json: JsonCodec, token: Arg, secret: string, nowMs: int)
    : (r: Verified)
    ensures r.Ok? ==>
      token.Str? && |Split(token.s, '.')| == 3 &&
      var parts := Split(token.s, '.');
      Decode(Str(parts[2])) == hmac(secret, parts[0] + "." + parts[1]) &&
      json.parse(Decode(Str(parts[1]))) == Some(r.payload) &&
      !HasExpired(r.payload, UnixSeconds(nowMs))
  {
    match token
    case NonString => Fail(MissingToken)
    case Str(t) =>
      var parts := Split(t, '.');
      if |parts| != 3 then Fail(BadFormat)
      else
        var data := parts[0] + "." + parts[1];
        var expectedSig := hmac(secret, data);
        var providedSig := Decode(Str(parts[2]));
        if |providedSig| != |expectedSig| then Fail(BadSignature)
        else if !ConstantTimeEquals(expectedSig, providedSig) then Fail(BadSignature)
        else CheckPayload(json, parts[1], nowMs)
  }

  /** The checks come in a fixed order, and each failure is reported only when every
      earlier check passed. */
  lemma VerifyOrder(hmac: Hmac, json: JsonCodec, token: Arg, secret: string, nowMs: int)
    ensures var r := VerifyToken(hmac, json, token, secret, nowMs);
      (r == Fail(MissingToken) <==> token.NonString?) &&
      (token.Str? ==>
        var parts := Split(token.s, '.');
        (r == Fail(BadFormat) <==> |parts| != 3) &&
        (|parts| == 3 ==>
          var sigOk := Decode(Str(parts[2])) == hmac(secret, parts[0] + "." + parts[1]);
          var parsed := json.parse(Decode(Str(parts[1])));
          (r == Fail(BadSignature) <==> !sigOk) &&
          (r == Fail(BadPayload) <==> sigOk && parsed.None?) &&
          (r == Fail(Expired) <==>
             sigOk && parsed.Some? && HasExpired(parsed.value, UnixSeconds(nowMs)))))
  {
  }

  /** A token made of any header segment, a payload segment and the HMAC of the two has a
      verdict that depends on the payload segment alone: the header, and its `alg`,
      is never looked at. */
  lemma HeaderNotInspected(
    hmac: Hmac, json: JsonCodec, secret: string, headerB64: string, payloadB64: string, nowMs: int)
    requires '.' !in headerB64 && '.' !in payloadB64
    ensures VerifyToken(hmac, json, Str(Assemble(hmac, secret, headerB64, payloadB64)), secret, nowMs)
         == CheckPayload(json, payloadB64, nowMs)
  {
    var data := headerB64 + "." + payloadB64;
    var sig := hmac(secret, data);
    EncodeAlphabet(sig);
    SplitThree(headerB64, payloadB64, Encode(sig), '.');
    DecodeEncode(sig);
  }

  /** A signed token has exactly three `.`-separated segments, all in the URL-safe alphabet:
      the encoded header, the encoded body, and the encoded HMAC of the first two. */
  lemma SignedShape(
    hmac: Hmac, json: JsonCodec, payload: map<string, Json>, secret: string,
    expiresInSeconds: Option<int>, nowMs: int)
    ensures var parts := Split(SignToken(hmac, json, payload, secret, expiresInSeconds, nowMs), '.');
      |parts| == 3 &&
      parts[0] == Encode(json.stringify(Header)) &&
      parts[1] == Encode(json.stringify(TokenBody(payload, expiresInSeconds, nowMs))) &&
      parts[2] == Encode(hmac(secret, parts[0] + "." + parts[1])) &&
      forall k, i :: 0 <= k < 3 && 0 <= i < |parts[k]| ==> IsUrlChar(parts[k][i])
  {
    AssembledShape(hmac, secret, json.stringify(Header),
                   json.stringify(TokenBody(payload, expiresInSeconds, nowMs)));
  }

  lemma AssembledShape(hmac: Hmac, secret: string, h: seq<byte>, p: seq<byte>)
    ensures var parts := Split(Assemble(hmac, secret, Encode(h), Encode(p)), '.');
      |parts| == 3 && parts[0] == Encode(h) && parts[1] == Encode(p) &&
      parts[2] == Encode(hmac(secret, parts[0] + "." + parts[1])) &&
      forall k, i :: 0 <= k < 3 && 0 <= i < |parts[k]| ==> IsUrlChar(parts[k][i])
  {
    var sig := hmac(secret, Encode(h) + "." + Encode(p));
    EncodeAlphabet(h);
    EncodeAlphabet(p);
    EncodeAlphabet(sig);
    SplitThree(Encode(h), Encode(p), Encode(sig), '.');
    var parts := [Encode(h), Encode(p), Encode(sig)];
    assert forall k, i :: 0 <= k < 3 && 0 <= i < |parts[k]| ==> IsUrlChar(parts[k][i]) by {
      forall k, i | 0 <= k < 3 && 0 <= i < |parts[k]| ensures IsUrlChar(parts[k][i]) {
        if k == 0 {} else if k == 1 {} else {}
      }
    }
  }

  /** Round trip: a token signed at `issuedMs` with a sound JSON codec verifies under the same
      secret at `nowMs` exactly while `now <= iat + ttl` (in whole seconds), giving back the
      payload's fields with `iat` and `exp` added; afterwards it is `expired`. */
  lemma SignThenVerify(
    hmac: Hmac, json: JsonCodec, payload: map<string, Json>, secret: string,
    expiresInSeconds: Option<int>, issuedMs: int, nowMs: int)
    requires RoundTrips(json)
    ensures var iat := UnixSeconds(issuedMs);
      var exp := iat + Ttl(expiresInSeconds);
      VerifyToken(hmac, json, Str(SignToken(hmac, json, payload, secret, expiresInSeconds, issuedMs)),
                  secret, nowMs)
        == if UnixSeconds(nowMs) <= exp then Ok(JObject(Claims(payload, iat, exp))) else Fail(Expired)
  {
    var body := TokenBody(payload, expiresInSeconds, issuedMs);
    var headerB64 := Encode(json.stringify(Header));
    var payloadB64 := Encode(json.stringify(body));
    EncodeAlphabet(json.stringify(Header));
    EncodeAlphabet(json.stringify(body));
    HeaderNotInspected(hmac, json, secret, headerB64, payloadB64, nowMs);
    DecodeEncode(json.stringify(body));
    assert json.parse(json.stringify(body)) == Some(body);
  }

  /** `verifyToken` asks only for three segments; empty ones get past the format check. */
  lemma EmptySegmentsPassFormat(hmac: Hmac, json: JsonCodec, sigB64: string, secret: string, nowMs: int)
    requires '.' !in sigB64
    ensures VerifyToken(hmac, json, Str(".." + sigB64), secret, nowMs) != Fail(BadFormat)
  {
    assert ".." + sigB64 == "" + "." + "" + "." + sigB64;
    SplitThree("", "", sigB64, '.');
  }
}
