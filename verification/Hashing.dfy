/** The hash of a record: a seal over its previous hash and its canonical payload. */
module Hashing {
  import opened Prelude
  import opened Encoding
  import opened Records
  import opened Crypto

  const SEPARATOR: byte := 0

  /** The bytes that are sealed; None when `encode("ascii")` or `json.dumps` raises. */
  function HashInput(c: Suite, r: Record): Option<Bytes> {
    if !IsAscii(r.prevHash) then None
    else match c.canonical(PayloadOf(r))
      case None => None
      case Some(payload) => Some(Utf8(r.prevHash) + [SEPARATOR] + payload)
  }

  /** `compute_record_hash`. */
  function RecordHash(c: Suite, r: Record, key: Option<Bytes>): (hash: Option<string>)
    ensures hash.Some? ==> |hash.value| == 2 * DIGEST_LENGTH && IsLowerHex(hash.value) && IsAscii(hash.value)
  {
    match HashInput(c, r)
    case None => None
    case Some(data) =>
      HexRoundTrip(Seal(c, key, data));
      LowerHexIsLower(ToHex(Seal(c, key, data)));
      Some(ToHex(Seal(c, key, data)))
  }

  /** The stored hash, byte for byte: SHA-256, or HMAC-SHA256 under a key, of the previous hash, a zero
      byte and the canonical JSON of the seven fields; nothing when either part cannot be encoded. */
  lemma RecordHashBytes(c: Suite, r: Record, key: Bytes)
    ensures var json := c.canonical(Payload(r.seqNo, r.timestamp, r.actor, r.action, r.subject, r.metadata, r.prevHash));
            if IsAscii(r.prevHash) && json.Some? then
              && RecordHash(c, r, None) == Some(ToHex(c.sha(Utf8(r.prevHash) + [0] + json.value)))
              && RecordHash(c, r, Some(key)) == Some(ToHex(c.hmac(key, Utf8(r.prevHash) + [0] + json.value)))
            else
              RecordHash(c, r, None).None? && RecordHash(c, r, Some(key)).None?
  {
  }

  /** The fields that are not hashed play no part, and the others no part but through their values. */
  lemma HashDependsOnFields(c: Suite, r: Record, s: Record, key: Option<Bytes>)
    requires SameFields(r, s)
    ensures HashInput(c, r) == HashInput(c, s) && RecordHash(c, r, key) == RecordHash(c, s, key)
  {
    PayloadKeepsFields(r, s);
  }

  /** A record of one log and a record of another hash to the same string from different bytes. */
  ghost predicate RecordCollision(c: Suite, r: Record, key: Option<Bytes>, s: Record, key': Option<Bytes>) {
    && HashInput(c, r).Some? && HashInput(c, s).Some?
    && HashInput(c, r) != HashInput(c, s)
    && Seal(c, key, HashInput(c, r).value) == Seal(c, key', HashInput(c, s).value)
  }

  /** With 64-character previous hashes the sealed bytes parse in one way only. */
  lemma HashInputParses(c: Suite, r: Record, s: Record)
    requires InjectivePayloads(c)
    requires |r.prevHash| == |s.prevHash| == 2 * DIGEST_LENGTH
    requires HashInput(c, r).Some? && HashInput(c, r) == HashInput(c, s)
    ensures SameFields(r, s)
  {
    PayloadKeepsFields(r, s);
    AsciiIsOneByteEach(r.prevHash);
    AsciiIsOneByteEach(s.prevHash);
    var x, y := HashInput(c, r).value, HashInput(c, s).value;
    assert x[2 * DIGEST_LENGTH + 1..] == c.canonical(PayloadOf(r)).value;
    assert y[2 * DIGEST_LENGTH + 1..] == c.canonical(PayloadOf(s)).value;
  }

  /** Equal hashes mean equal hashed fields, or a collision between the two sealed inputs. */
  lemma SameHashSamePayload(c: Suite, r: Record, key: Option<Bytes>, s: Record, key': Option<Bytes>)
    requires InjectivePayloads(c)
    requires |r.prevHash| == |s.prevHash| == 2 * DIGEST_LENGTH
    requires RecordHash(c, r, key).Some? && RecordHash(c, r, key) == RecordHash(c, s, key')
    ensures SameFields(r, s) || RecordCollision(c, r, key, s, key')
  {
    HexInjective(Seal(c, key, HashInput(c, r).value), Seal(c, key', HashInput(c, s).value));
    if HashInput(c, r) == HashInput(c, s) {
      HashInputParses(c, r, s);
    }
  }
}
