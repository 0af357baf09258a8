/** The audit record, and which of its fields the hash covers. */
module Records {
  /** A metadata value; `Foreign` stands for a Python object that `json.dumps` refuses. */
  datatype Json =
    | Null
    | Boolean(b: bool)
    | Number(literal: string)
    | Text(s: string)
    | List(items: seq<Json>)
    | Object(fields: map<string, Json>)
    | Foreign(repr: string)

  type Metadata = map<string, Json>

  function Repeat(ch: char, n: nat): (s: string)
    ensures |s| == n && forall i :: 0 <= i < n ==> s[i] == ch
  {
    if n == 0 then "" else [ch] + Repeat(ch, n - 1)
  }

  const GENESIS_HASH: string := Repeat('0', 64)

  datatype Record = Record(
    seqNo: int,
    timestamp: string,
    actor: string,
    action: string,
    subject: string,
    metadata: Metadata,
    prevHash: string,
    hash: string,
    keyId: string,
    signerId: string,
    signature: string)

  /** The hashed fields. */
  datatype Payload = Payload(
    seqNo: int,
    ts: string,
    actor: string,
    action: string,
    subject: string,
    meta: Metadata,
    prev: string)

  /** `to_payload_dict`: everything except hash, key id, signer id and signature. */
  function PayloadOf(r: Record): Payload {
    Payload(r.seqNo, r.timestamp, r.actor, r.action, r.subject, r.metadata, r.prevHash)
  }

  /** What two records with one hash must agree on. */
  predicate SameFields(r: Record, s: Record) {
    && r.seqNo == s.seqNo && r.timestamp == s.timestamp
    && r.actor == s.actor && r.action == s.action && r.subject == s.subject
    && r.metadata == s.metadata && r.prevHash == s.prevHash
  }

  /** The payload keeps every one of them, each in its own place. */
  lemma PayloadKeepsFields(r: Record, s: Record)
    ensures PayloadOf(r) == PayloadOf(s) <==> SameFields(r, s)
  {
  }

  function Hashes(rs: seq<Record>): (hs: seq<string>)
    ensures |hs| == |rs|
    ensures forall i :: 0 <= i < |rs| ==> hs[i] == rs[i].hash
  {
    seq(|rs|, i requires 0 <= i < |rs| => rs[i].hash)
  }
}
