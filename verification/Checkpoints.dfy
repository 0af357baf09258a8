/** Checkpoints: the signed message, making, saving and loading an anchor. */
module Checkpoints {
  import opened Prelude
  import opened Encoding
  import opened Records
  import opened Crypto

  datatype Checkpoint = Checkpoint(
    seqNo: int,
    hash: string,
    keyId: string,
    timestamp: string,
    signature: string,
    merkleRoot: string,
    signerId: string,
    signatureEd25519: string)

  datatype LoadError = MissingPublicKey | MissingSealKey | SignatureMismatch

  /** `checkpoint_message`: the root is appended only when there is one. */
  function Message(seqNo: int, hash: string, keyId: string, merkleRoot: string): string {
    var data := Dec(seqNo) + ":" + hash + ":" + keyId;
    if merkleRoot == "" then data else data + ":" + merkleRoot
  }

  function MessageOf(cp: Checkpoint): string {
    Message(cp.seqNo, cp.hash, cp.keyId, cp.merkleRoot)
  }

  /** `_signature`: the HMAC over the message, in hex. */
  function HmacOf(c: Suite, key: Bytes, message: string): string {
    ToHex(c.hmac(key, Utf8(message)))
  }

  /** `make_checkpoint`; an absent or empty seal key leaves the HMAC out. */
  function Make(c: Suite, r: Record, sealKey: Option<Bytes>, merkleRoot: string,
                signingKey: Option<Bytes>, signerId: string): Checkpoint
  {
    var message := Message(r.seqNo, r.hash, r.keyId, merkleRoot);
    var hmac := if sealKey.Some? && sealKey.value != [] then HmacOf(c, sealKey.value, message) else "";
    var ed25519 := if signingKey.Some? then SignHex(c, signingKey.value, message) else "";
    Checkpoint(r.seqNo, r.hash, r.keyId, r.timestamp, hmac, merkleRoot,
               if ed25519 != "" then signerId else "", ed25519)
  }

  /** A checkpoint file: the members that are always written, and the optional ones. */
  datatype File = File(
    version: int, seqNo: int, hash: string, keyId: string, ts: string, sig: string,
    merkleRoot: Option<string>, signerId: Option<string>, signatureEd25519: Option<string>)

  /** `save_checkpoint`. */
  function Save(cp: Checkpoint): File {
    var signed := cp.signatureEd25519 != "";
    File(if signed then 3 else if cp.merkleRoot != "" then 2 else 1,
         cp.seqNo, cp.hash, cp.keyId, cp.timestamp, cp.signature,
         if cp.merkleRoot != "" then Some(cp.merkleRoot) else None,
         if signed then Some(cp.signerId) else None,
         if signed then Some(cp.signatureEd25519) else None)
  }

  function OrEmpty(s: Option<string>): string {
    match s case None => "" case Some(v) => v
  }

  /** The checkpoint a file spells out, before any signature is checked. */
  function Read(f: File): Checkpoint {
    Checkpoint(f.seqNo, f.hash, f.keyId, f.ts, f.sig,
               OrEmpty(f.merkleRoot), OrEmpty(f.signerId), OrEmpty(f.signatureEd25519))
  }

  /** `load_checkpoint`: an Ed25519 signature is checked first and makes the HMAC moot. */
  function Load(c: Suite, f: File, sealKey: Option<Bytes>, publicKey: Option<Bytes>)
    : Result<Checkpoint, LoadError>
  {
    var cp := Read(f);
    if cp.signatureEd25519 != "" then
      if publicKey.None? then Err(MissingPublicKey)
      else if !SignatureHolds(c, cp.signatureEd25519, MessageOf(cp), publicKey.value) then Err(SignatureMismatch)
      else Ok(cp)
    else if cp.signature != "" then
      if sealKey.None? then Err(MissingSealKey)
      else if cp.signature != HmacOf(c, sealKey.value, MessageOf(cp)) then Err(SignatureMismatch)
      else Ok(cp)
    else Ok(cp)
  }

  // ------------------------------------------------------------- theorems

  predicate NoColon(s: string) {
    ':' !in s
  }

  /** A text before the first colon is read back from a message in one way. */
  lemma {:induction false} CutAtFirstColon(a: string, x: string, b: string, y: string)
    requires NoColon(a) && NoColon(b) && a + ":" + x == b + ":" + y
    ensures a == b && x == y
  {
    var s, t := a + ":" + x, b + ":" + y;
    assert s[0] == if a == "" then ':' else a[0];
    assert t[0] == if b == "" then ':' else b[0];
    if a == "" {
      assert x == s[1..] && y == t[1..];
    } else {
      assert s[1..] == a[1..] + ":" + x && t[1..] == b[1..] + ":" + y;
      CutAtFirstColon(a[1..], x, b[1..], y);
      assert a == [a[0]] + a[1..] && b == [b[0]] + b[1..];
    }
  }

  /** So is a text after the last colon. */
  lemma {:induction false} CutAtLastColon(a: string, x: string, b: string, y: string)
    requires NoColon(x) && NoColon(y) && a + ":" + x == b + ":" + y
    ensures a == b && x == y
  {
    var s, t := a + ":" + x, b + ":" + y;
    assert s[|s| - 1] == if x == "" then ':' else x[|x| - 1];
    assert t[|t| - 1] == if y == "" then ':' else y[|y| - 1];
    if x == "" {
      assert a == s[..|s| - 1] && b == t[..|t| - 1];
    } else {
      var x', y' := x[..|x| - 1], y[..|y| - 1];
      assert s[..|s| - 1] == a + ":" + x' && t[..|t| - 1] == b + ":" + y';
      CutAtLastColon(a, x', b, y');
      assert x == x' + [x[|x| - 1]] && y == y' + [y[|y| - 1]];
    }
  }

  lemma DecHasNoColon(n: int)
    ensures NoColon(Dec(n))
  {
  }

  /** What follows `seq:hash:` in a message. */
  function Tail(keyId: string, merkleRoot: string): string {
    if merkleRoot == "" then keyId else keyId + ":" + merkleRoot
  }

  lemma MessageSplits(seqNo: int, hash: string, keyId: string, root: string)
    ensures Message(seqNo, hash, keyId, root) == Dec(seqNo) + ":" + (hash + ":" + Tail(keyId, root))
  {
  }

  /** One anchor's key id swallows the other's root: the only ambiguity of the message. */
  predicate Swallows(keyId: string, root: string, keyId': string, root': string) {
    root == "" && root' != "" && keyId == keyId' + ":" + root'
  }

  lemma SwallowingNeedsColon(keyId: string, root: string, keyId': string, root': string)
    ensures Swallows(keyId, root, keyId', root') ==> !NoColon(keyId)
  {
    if Swallows(keyId, root, keyId', root') {
      assert keyId[|keyId'|] == ':';
    }
  }

  /**
   Exactly when two anchors with colon-free hashes and roots sign the same bytes: the four
   fields agree, or one key id ends in ":" and the other's root.
   */
  lemma SameMessageIff(a: Checkpoint, b: Checkpoint)
    requires NoColon(a.hash) && NoColon(b.hash) && NoColon(a.merkleRoot) && NoColon(b.merkleRoot)
    ensures Utf8(MessageOf(a)) == Utf8(MessageOf(b)) <==>
            && a.seqNo == b.seqNo && a.hash == b.hash
            && ((a.keyId == b.keyId && a.merkleRoot == b.merkleRoot)
                || Swallows(a.keyId, a.merkleRoot, b.keyId, b.merkleRoot)
                || Swallows(b.keyId, b.merkleRoot, a.keyId, a.merkleRoot))
  {
    MessageSplits(a.seqNo, a.hash, a.keyId, a.merkleRoot);
    MessageSplits(b.seqNo, b.hash, b.keyId, b.merkleRoot);
    if Utf8(MessageOf(a)) == Utf8(MessageOf(b)) {
      Utf8Injective(MessageOf(a), MessageOf(b));
      var ta, tb := Tail(a.keyId, a.merkleRoot), Tail(b.keyId, b.merkleRoot);
      DecHasNoColon(a.seqNo);
      DecHasNoColon(b.seqNo);
      CutAtFirstColon(Dec(a.seqNo), a.hash + ":" + ta, Dec(b.seqNo), b.hash + ":" + tb);
      DecInjective(a.seqNo, b.seqNo);
      CutAtFirstColon(a.hash, ta, b.hash, tb);
      if a.merkleRoot != "" && b.merkleRoot != "" {
        CutAtLastColon(a.keyId, a.merkleRoot, b.keyId, b.merkleRoot);
      }
    }
  }

  /** With colon-free key ids a message is decoded in one way. */
  lemma MessageDecodesUniquely(a: Checkpoint, b: Checkpoint)
    requires NoColon(a.hash) && NoColon(a.keyId) && NoColon(a.merkleRoot)
    requires NoColon(b.hash) && NoColon(b.keyId) && NoColon(b.merkleRoot)
    requires Utf8(MessageOf(a)) == Utf8(MessageOf(b))
    ensures a.seqNo == b.seqNo && a.hash == b.hash && a.keyId == b.keyId && a.merkleRoot == b.merkleRoot
  {
    SameMessageIff(a, b);
    SwallowingNeedsColon(a.keyId, a.merkleRoot, b.keyId, b.merkleRoot);
    SwallowingNeedsColon(b.keyId, b.merkleRoot, a.keyId, a.merkleRoot);
  }

  /** The ambiguity is real: a key id with a colon signs the bytes of another anchor. */
  lemma ColonInKeyIdIsAmbiguous(hash: string, root: string)
    requires root != ""
    ensures Message(0, hash, "k:" + root, "") == Message(0, hash, "k", root)
  {
    assert "k:" + root == "k" + ":" + root;
  }

  /** A made checkpoint that is saved loads back unchanged with the keys that made it. */
  lemma SavedCheckpointLoads(c: Suite, r: Record, sealKey: Option<Bytes>, root: string,
                             signingKey: Option<Bytes>, signerId: string)
    requires HonestSignatures(c)
    ensures var cp := Make(c, r, sealKey, root, signingKey, signerId);
            var publicKey := if signingKey.Some? then Some(c.publicKey(signingKey.value)) else None;
            Load(c, Save(cp), sealKey, publicKey) == Ok(cp)
  {
    if signingKey.Some? {
      HonestSignatureHolds(c, signingKey.value, Message(r.seqNo, r.hash, r.keyId, root));
    }
  }

  /** What a made anchor says: the record's own values, the root, and for each key that is there the
      signature over seq:hash:key_id[:root]. */
  lemma MadeAnchorIsOfRecord(c: Suite, r: Record, sealKey: Option<Bytes>, root: string,
                             signingKey: Option<Bytes>, signerId: string)
    ensures var cp := Make(c, r, sealKey, root, signingKey, signerId);
            var text := Dec(r.seqNo) + ":" + r.hash + ":" + r.keyId + if root == "" then "" else ":" + root;
            && cp.seqNo == r.seqNo && cp.hash == r.hash && cp.keyId == r.keyId
            && cp.timestamp == r.timestamp && cp.merkleRoot == root
            && (cp.signature == if sealKey.Some? && sealKey.value != [] then ToHex(c.hmac(sealKey.value, Utf8(text))) else "")
            && (cp.signatureEd25519 == if signingKey.Some? then ToHex(c.sign(signingKey.value, Utf8(text))) else "")
            && (cp.signerId == if cp.signatureEd25519 != "" then signerId else "")
  {
    MessageSplits(r.seqNo, r.hash, r.keyId, root);
    assert Message(r.seqNo, r.hash, r.keyId, root)
           == Dec(r.seqNo) + ":" + r.hash + ":" + r.keyId + if root == "" then "" else ":" + root;
  }

  /** A saved file has the version of its contents and reads back as what was saved, unless a signer is
      named without a signature. */
  lemma SavedReadsBackIff(cp: Checkpoint)
    ensures Read(Save(cp)) == cp <==> cp.signatureEd25519 != "" || cp.signerId == ""
    ensures Save(cp).version == 3 <==> cp.signatureEd25519 != ""
    ensures Save(cp).version == 1 <==> cp.signatureEd25519 == "" && cp.merkleRoot == ""
    ensures Save(cp).version in {1, 2, 3}
  {
  }

  /** Exactly which files load: an Ed25519 signature must hold under a public key that is given, or
      else an HMAC must be the seal key's; a file with neither always does. */
  lemma LoadsIff(c: Suite, f: File, sealKey: Option<Bytes>, publicKey: Option<Bytes>)
    ensures var cp, r := Read(f), Load(c, f, sealKey, publicKey);
            && (r.Ok? <==>
                  if cp.signatureEd25519 != "" then
                    publicKey.Some? && FromHex(cp.signatureEd25519).Some?
                    && c.accepts(publicKey.value, FromHex(cp.signatureEd25519).value, Utf8(MessageOf(cp)))
                  else cp.signature == "" || (sealKey.Some? && cp.signature == ToHex(c.hmac(sealKey.value, Utf8(MessageOf(cp))))))
            && (r == Err(MissingPublicKey) <==> cp.signatureEd25519 != "" && publicKey.None?)
            && (r == Err(MissingSealKey) <==> cp.signatureEd25519 == "" && cp.signature != "" && sealKey.None?)
            && (r.Ok? ==> r.value == cp)
  {
  }

  /** A file with the HMAC of a sealed log's anchor, whatever else it says, does not load without the
      seal key, and loads with it exactly when its own message has that HMAC. */
  lemma SealedAnchorNeedsItsKey(c: Suite, r: Record, key: Bytes, root: string, signerId: string,
                                f: File, publicKey: Option<Bytes>)
    requires key != [] && f.sig == Save(Make(c, r, Some(key), root, None, signerId)).sig
    requires OrEmpty(f.signatureEd25519) == ""
    ensures Load(c, f, None, publicKey) == Err(MissingSealKey)
    ensures Load(c, f, Some(key), publicKey).Ok? <==>
            c.hmac(key, Utf8(MessageOf(Read(f)))) == c.hmac(key, Utf8(Message(r.seqNo, r.hash, r.keyId, root)))
  {
    var genuine, own := c.hmac(key, Utf8(Message(r.seqNo, r.hash, r.keyId, root))), c.hmac(key, Utf8(MessageOf(Read(f))));
    MadeAnchorIsOfRecord(c, r, Some(key), root, None, signerId);
    assert |ToHex(genuine)| == 2 * DIGEST_LENGTH && f.sig != "";
    if ToHex(genuine) == ToHex(own) {
      HexInjective(genuine, own);
    }
  }

  /** Without keys only an unsigned file loads, and loading never changes what the file says. */
  lemma SignedAnchorNeverLoadsUnverified(c: Suite, f: File, sealKey: Option<Bytes>, publicKey: Option<Bytes>)
    ensures Load(c, f, None, None).Ok? <==> f.sig == "" && OrEmpty(f.signatureEd25519) == ""
    ensures Load(c, f, sealKey, publicKey).Ok? ==> Load(c, f, sealKey, publicKey).value == Read(f)
  {
  }

  /** Someone with only the public key can load a signed checkpoint; no one else can. */
  lemma SignedCheckpointNeedsOnlyPublicKey(c: Suite, r: Record, sealKey: Option<Bytes>, root: string,
                                           signingKey: Bytes, signerId: string, anyKey: Option<Bytes>)
    requires HonestSignatures(c)
    ensures var cp := Make(c, r, sealKey, root, Some(signingKey), signerId);
            && Load(c, Save(cp), None, Some(c.publicKey(signingKey))) == Ok(cp)
            && Load(c, Save(cp), anyKey, None) == Err(MissingPublicKey)
  {
    HonestSignatureHolds(c, signingKey, Message(r.seqNo, r.hash, r.keyId, root));
  }

  /** Under one seal key, an accepted HMAC anchor signs the bytes of the genuine anchor with
      that HMAC, or two different messages share an HMAC. */
  lemma LoadedHmacAnchorIsGenuine(c: Suite, f: File, sealKey: Bytes, publicKey: Option<Bytes>, genuine: Checkpoint)
    requires Load(c, f, Some(sealKey), publicKey).Ok? && OrEmpty(f.signatureEd25519) == ""
    requires f.sig != "" && f.sig == HmacOf(c, sealKey, MessageOf(genuine))
    requires NoColon(f.hash) && NoColon(f.keyId) && NoColon(OrEmpty(f.merkleRoot))
    requires NoColon(genuine.hash) && NoColon(genuine.keyId) && NoColon(genuine.merkleRoot)
    ensures var cp := Read(f);
            || (cp.seqNo == genuine.seqNo && cp.hash == genuine.hash
                && cp.keyId == genuine.keyId && cp.merkleRoot == genuine.merkleRoot)
            || (Utf8(MessageOf(cp)) != Utf8(MessageOf(genuine))
                && c.hmac(sealKey, Utf8(MessageOf(cp))) == c.hmac(sealKey, Utf8(MessageOf(genuine))))
  {
    var cp := Read(f);
    HexInjective(c.hmac(sealKey, Utf8(MessageOf(cp))), c.hmac(sealKey, Utf8(MessageOf(genuine))));
    if Utf8(MessageOf(cp)) == Utf8(MessageOf(genuine)) {
      MessageDecodesUniquely(cp, genuine);
    }
  }
}
