/** HMAC signing of strings (`functions/lib/hmac.ts`, and the identical pair at the end of
    `functions/lib/jwt.ts`). The cryptography and the text encoding are not modelled: they are the
    `Crypto` parameter, with verification defined as WebCrypto defines it for HMAC, recomputing
    the tag and comparing. */
module Hmac {
  import opened Wrappers
  import opened Base64Url

  /** The primitives the server code calls: `TextEncoder.encode`, `TextDecoder.decode`, and
      HMAC-SHA-256 under a raw key. */
  datatype Crypto = Crypto(
    utf8: string -> seq<byte>,
    utf8Decode: seq<byte> -> string,
    hmac: (seq<byte>, seq<byte>) -> seq<byte>)

  /** `crypto.subtle.verify` for HMAC: the tag over the data under the key equals the signature. */
  predicate TagMatches(c: Crypto, key: seq<byte>, signature: seq<byte>, data: seq<byte>) {
    c.hmac(key, data) == signature
  }

  /** `signHmac`: the base64url text of the tag over the data, keyed by the secret. */
  function SignHmac(c: Crypto, data: string, secret: string): (sig: string)
    ensures Decode(sig) == Some(c.hmac(c.utf8(secret), c.utf8(data)))
    ensures forall i :: 0 <= i < |sig| ==> sig[i] != '+' && sig[i] != '/' && sig[i] != '=' && sig[i] != '.'
  {
    var tag := c.hmac(c.utf8(secret), c.utf8(data));
    Encode(tag)
  }

  /** `verifyHmac`: decodes the signature, then checks the tag. `None` where decoding throws. */
  function VerifyHmac(c: Crypto, data: string, sig: string, secret: string): (r: Option<bool>)
    ensures r.None? <==> Decode(sig).None?
    ensures r.Some? ==> (r.value <==> TagMatches(c, c.utf8(secret), Decode(sig).value, c.utf8(data)))
  {
    var bytes := Decode(sig);
    if bytes.None? then None else Some(TagMatches(c, c.utf8(secret), bytes.value, c.utf8(data)))
  }

  /** What is signed verifies, under the same secret, for the same data. */
  lemma SignThenVerify(c: Crypto, data: string, secret: string)
    ensures VerifyHmac(c, data, SignHmac(c, data, secret), secret) == Some(true)
  {
  }

  /** A signature made for other data, or under another secret, is refused whenever the tags
      differ. */
  lemma OtherTagRefused(c: Crypto, data: string, other: string, secret: string, otherSecret: string)
    requires c.hmac(c.utf8(otherSecret), c.utf8(other)) != c.hmac(c.utf8(secret), c.utf8(data))
    ensures VerifyHmac(c, data, SignHmac(c, other, otherSecret), secret) == Some(false)
  {
  }
}
