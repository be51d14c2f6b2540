/** Session tokens (`functions/lib/jwt.ts`): HS256 JSON Web Tokens of three base64url parts,
    header, payload and signature, joined by dots. JSON is not modelled: the header's text and
    the payload's serialisation and parsing are parameters. Times are milliseconds on the clock
    and whole seconds in the payload. */
module Jwt {
  import opened Wrappers
  import opened Base64Url
  import opened Hmac
  import Text
  import Js

  /** What the caller of `signJwt` supplies. */
  datatype Claims = Claims(sub: string, email: string, name: string, avatarUrl: Option<string>)

  /** `JwtPayload`: the claims with the issue and expiry times in seconds. */
  datatype Payload = Payload(sub: string, email: string, name: string, avatarUrl: Option<string>, iat: int, exp: int)

  /** `JSON.stringify` of the header and of a payload, and `JSON.parse` of a payload (`None`
      where it throws). */
  datatype Json = Json(header: string, stringify: Payload -> string, parse: string -> Option<Payload>)

  /** A week in seconds, the default lifetime. */
  const DefaultLifetime: int := 60 * 60 * 24 * 7

  /** `Math.floor(Date.now() / 1000)`. */
  function NowSecs(nowMs: int): (s: int)
    ensures s * 1000 <= nowMs < s * 1000 + 1000
  {
    Js.FloorDiv(nowMs, 1000)
  }

  /** The payload `signJwt` signs: issued now, expiring `expiresInSecs` later (a week by default). */
  function FullPayload(claims: Claims, nowMs: int, expiresInSecs: Option<int>): (p: Payload)
    ensures p.iat == NowSecs(nowMs)
    ensures p.exp == p.iat + (if expiresInSecs.Some? then expiresInSecs.value else 604800)
    ensures Claims(p.sub, p.email, p.name, p.avatarUrl) == claims
  {
    var now := NowSecs(nowMs);
    var lifetime := if expiresInSecs.Some? then expiresInSecs.value else DefaultLifetime;
    Payload(claims.sub, claims.email, claims.name, claims.avatarUrl, now, now + lifetime)
  }

  /** The first two parts of a signed token: the encoded header, then one dot, then the encoded
      payload, and no other dot. */
  function SigningInput(c: Crypto, json: Json, payload: Payload): (s: string)
    ensures var h := Encode(c.utf8(json.header));
      |s| > |h| && s[..|h|] == h && s[|h|] == '.' &&
      s[|h| + 1..] == Encode(c.utf8(json.stringify(payload))) &&
      forall i :: 0 <= i < |s| && s[i] == '.' ==> i == |h|
  {
    var h, b := Encode(c.utf8(json.header)), Encode(c.utf8(json.stringify(payload)));
    Text.JoinedAt(h, b, '.');
    h + "." + b
  }

  /** `signJwt`: header, payload and the signature over the first two, in base64url, joined by dots. */
  function SignJwt(c: Crypto, json: Json, claims: Claims, secret: string, expiresInSecs: Option<int>, nowMs: int)
    : (token: string)
    ensures var input := SigningInput(c, json, FullPayload(claims, nowMs, expiresInSecs));
      token == input + "." + SignHmac(c, input, secret)
  {
    var input := SigningInput(c, json, FullPayload(claims, nowMs, expiresInSecs));
    var signature := c.hmac(c.utf8(secret), c.utf8(input));
    input + "." + Encode(signature)
  }

  /** A signed token splits on its dots into exactly the header, the payload and the signature. */
  lemma SignedTokenParts(c: Crypto, json: Json, claims: Claims, secret: string, expiresInSecs: Option<int>, nowMs: int)
    ensures var payload := FullPayload(claims, nowMs, expiresInSecs);
      var input := SigningInput(c, json, payload);
      Text.Split(SignJwt(c, json, claims, secret, expiresInSecs, nowMs), '.') ==
        [Encode(c.utf8(json.header)), Encode(c.utf8(json.stringify(payload))), SignHmac(c, input, secret)]
  {
    var payload := FullPayload(claims, nowMs, expiresInSecs);
    var h := Encode(c.utf8(json.header));
    var b := Encode(c.utf8(json.stringify(payload)));
    var s := SignHmac(c, SigningInput(c, json, payload), secret);
    assert '.' !in h && '.' !in b by {
      forall i | 0 <= i < |h| ensures h[i] != '.' {
      }
      forall i | 0 <= i < |b| ensures b[i] != '.' {
      }
    }
    assert '.' !in s by {
      forall i | 0 <= i < |s| ensures s[i] != '.' {
      }
    }
    Text.SplitThree(h, b, s, '.');
  }

  /** How `verifyJwt` ends: with the payload, with `null`, or by throwing. */
  datatype Verdict = Accepted(payload: Payload) | Refused | Throws

  /** `verifyJwt`: `null` unless there are exactly three parts and the signature matches; it throws
      when a part does not decode or the payload does not parse; `null` when `exp` is already in
      the past, so a token is still good in the second it expires. */
  function VerifyJwt(c: Crypto, json: Json, token: string, secret: string, nowMs: int): (r: Verdict)
    ensures |Text.Split(token, '.')| != 3 ==> r == Refused
    ensures r.Accepted? ==>
      var parts := Text.Split(token, '.');
      |parts| == 3 && Decode(parts[2]).Some? &&
      TagMatches(c, c.utf8(secret), Decode(parts[2]).value, c.utf8(parts[0] + "." + parts[1])) &&
      r.payload.exp >= NowSecs(nowMs)
  {
    var parts := Text.Split(token, '.');
    if |parts| != 3 then Refused
    else
      var signature := Decode(parts[2]);
      if signature.None? then Throws
      else if !TagMatches(c, c.utf8(secret), signature.value, c.utf8(parts[0] + "." + parts[1])) then Refused
      else
        var body := Decode(parts[1]);
        if body.None? then Throws
        else
          var payload := json.parse(c.utf8Decode(body.value));
          if payload.None? then Throws
          else if payload.value.exp < NowSecs(nowMs) then Refused
          else Accepted(payload.value)
  }

  /** `verifyJwt` on a token whose three parts decode, whose signature matches and whose payload
      parses: the payload, unless it has expired. */
  lemma VerifyWellFormed(c: Crypto, json: Json, token: string, secret: string, nowMs: int, p: Payload)
    requires var parts := Text.Split(token, '.');
      |parts| == 3 && Decode(parts[2]).Some? && Decode(parts[1]).Some? &&
      TagMatches(c, c.utf8(secret), Decode(parts[2]).value, c.utf8(parts[0] + "." + parts[1])) &&
      json.parse(c.utf8Decode(Decode(parts[1]).value)) == Some(p)
    ensures VerifyJwt(c, json, token, secret, nowMs) == if NowSecs(nowMs) <= p.exp then Accepted(p) else Refused
  {
  }

  /** A token signed with a secret verifies under it, giving back the signed payload, up to and
      including the second it expires, and is refused after. This needs JSON and UTF-8 to undo
      each other on the payload. */
  lemma SignThenVerify(c: Crypto, json: Json, claims: Claims, secret: string, expiresInSecs: Option<int>,
                       signedMs: int, checkedMs: int)
    requires var p := FullPayload(claims, signedMs, expiresInSecs);
      json.parse(c.utf8Decode(c.utf8(json.stringify(p)))) == Some(p)
    ensures var p := FullPayload(claims, signedMs, expiresInSecs);
      VerifyJwt(c, json, SignJwt(c, json, claims, secret, expiresInSecs, signedMs), secret, checkedMs) ==
        if NowSecs(checkedMs) <= p.exp then Accepted(p) else Refused
  {
    var p := FullPayload(claims, signedMs, expiresInSecs);
    SignedPartsDecode(c, json, claims, secret, expiresInSecs, signedMs);
    VerifyWellFormed(c, json, SignJwt(c, json, claims, secret, expiresInSecs, signedMs), secret, checkedMs, p);
  }

  /** The parts of a signed token decode: the payload to the bytes of its serialisation, the
      signature to the tag over the first two parts, which are the signing input again. */
  lemma SignedPartsDecode(c: Crypto, json: Json, claims: Claims, secret: string, expiresInSecs: Option<int>,
                          signedMs: int)
    ensures var p := FullPayload(claims, signedMs, expiresInSecs);
      var parts := Text.Split(SignJwt(c, json, claims, secret, expiresInSecs, signedMs), '.');
      |parts| == 3 && Decode(parts[1]) == Some(c.utf8(json.stringify(p))) &&
      Decode(parts[2]) == Some(c.hmac(c.utf8(secret), c.utf8(parts[0] + "." + parts[1])))
  {
    var p := FullPayload(claims, signedMs, expiresInSecs);
    var input := SigningInput(c, json, p);
    var parts := Text.Split(SignJwt(c, json, claims, secret, expiresInSecs, signedMs), '.');
    var bytes := c.utf8(json.stringify(p));
    var h, b, sig := Encode(c.utf8(json.header)), Encode(bytes), SignHmac(c, input, secret);
    assert Decode(b) == Some(bytes);
    assert Decode(sig) == Some(c.hmac(c.utf8(secret), c.utf8(input)));
    assert input == h + "." + b;
    SignedTokenParts(c, json, claims, secret, expiresInSecs, signedMs);
    assert parts == [h, b, sig];
    assert parts[0] == h && parts[1] == b && parts[2] == sig;
  }
}
