/**
 The cryptographic and JSON library calls, as parameters: nothing is assumed about them
 except what a lemma asks for in its `requires`.
 */
module Crypto {
  import opened Prelude
  import opened Encoding
  import opened Records

  const DIGEST_LENGTH := 32

  /** A SHA-256 or HMAC-SHA256 output. */
  type Digest = bs: Bytes | |bs| == DIGEST_LENGTH witness seq(DIGEST_LENGTH, _ => 0)

  type Hash = Bytes -> Digest

  datatype Suite = Suite(
    sha: Hash,
    hmac: (Bytes, Bytes) -> Digest,             // key, data
    publicKey: Bytes -> Bytes,                  // Ed25519 private key to public key
    sign: (Bytes, Bytes) -> Bytes,              // private key, message
    accepts: (Bytes, Bytes, Bytes) -> bool,     // public key, signature, message
    canonical: Payload -> Option<Bytes>)        // json.dumps(...).encode(); None when it raises

  /** A signature made with a private key is accepted under its public key, and is not empty. */
  ghost predicate HonestSignatures(c: Suite) {
    forall key, message ::
      c.sign(key, message) != [] && c.accepts(c.publicKey(key), c.sign(key, message), message)
  }

  /** Canonical JSON with sorted string keys loses nothing. */
  ghost predicate InjectivePayloads(c: Suite) {
    forall p, q :: c.canonical(p).Some? && c.canonical(p) == c.canonical(q) ==> p == q
  }

  /** HMAC-SHA256 with a seal key, plain SHA-256 without one. */
  function Seal(c: Suite, key: Option<Bytes>, data: Bytes): Digest {
    match key
    case None => c.sha(data)
    case Some(k) => c.hmac(k, data)
  }

  /** Two different inputs, one hashed in each of two computations, with one digest. */
  ghost predicate Collision(h: Hash, xs: set<Bytes>, ys: set<Bytes>) {
    exists x, y :: x in xs && y in ys && x != y && h(x) == h(y)
  }

  lemma CollisionWithin(h: Hash, xs: set<Bytes>, ys: set<Bytes>, xs': set<Bytes>, ys': set<Bytes>)
    requires Collision(h, xs, ys) && xs <= xs' && ys <= ys'
    ensures Collision(h, xs', ys')
  {
  }

  /** `sign_message`: the hex of the Ed25519 signature over the UTF-8 message. */
  function SignHex(c: Suite, key: Bytes, message: string): string {
    ToHex(c.sign(key, Utf8(message)))
  }

  /** `verify_signature`: a signature that is not hex, or does not verify, is refused. */
  predicate SignatureHolds(c: Suite, signature: string, message: string, publicKey: Bytes) {
    match FromHex(signature)
    case None => false
    case Some(bs) => c.accepts(publicKey, bs, Utf8(message))
  }

  lemma HonestSignatureHolds(c: Suite, key: Bytes, message: string)
    requires HonestSignatures(c)
    ensures SignatureHolds(c, SignHex(c, key, message), message, c.publicKey(key))
    ensures SignHex(c, key, message) != ""
  {
    HexRoundTrip(c.sign(key, Utf8(message)));
  }
}
