/** Proof that a request comes from the owner of a peer ID. Clock readings and the allowed
    skew are nanoseconds, the signed timestamp is whole seconds. */
module Authn {
  import opened Wrappers
  import opened SignedText
  import opened Discovery

  /** `signature` is the text as received. */
  datatype SignedAuth = SignedAuth(peerID: string, pubKey: Option<Key>, timestamp: int, signature: string)

  /** How peer IDs are derived from keys, and how signature texts decode and encode. */
  datatype Encoding = Encoding(idOf: Key -> string,
                               sigOf: string -> Option<Signature>,
                               sigText: Signature -> string)

  ghost predicate GoodEncoding(e: Encoding) {
    && (forall k :: Plain(e.idOf(k)))
    && (forall s :: e.sigOf(e.sigText(s)) == Some(s))
  }

  datatype AuthError = BadPublicKey | PeerIDMismatch | OutsideWindow | BadSignature | VerificationFailed

  function Sign(e: Encoding, key: Key, action: string, ts: int): SignedAuth {
    var sig := Signature(key, AuthnText(action, e.idOf(key), ts / SECOND));
    SignedAuth(e.idOf(key), Some(key), ts / SECOND, e.sigText(sig))
  }

  function Abs(x: int): int {
    if x < 0 then -x else x
  }

  predicate InWindow(timestamp: int, now: int, maxSkew: int) {
    Abs(now - timestamp * SECOND) <= maxSkew
  }

  function Verify(e: Encoding, log: SignatureLog, a: SignedAuth, action: string, now: int, maxSkew: int): Result<(), AuthError> {
    if a.pubKey.None? then Err(AuthError.BadPublicKey)
    else if e.idOf(a.pubKey.value) != a.peerID then Err(PeerIDMismatch)
    else if !InWindow(a.timestamp, now, maxSkew) then Err(OutsideWindow)
    else if e.sigOf(a.signature).None? then Err(AuthError.BadSignature)
    else if !Verifies(log, a.pubKey.value, AuthnText(action, a.peerID, a.timestamp), e.sigOf(a.signature).value) then
      Err(AuthError.VerificationFailed)
    else Ok(())
  }

  /** An honest request verifies exactly while the clock is within the skew of its
      whole-second timestamp. */
  lemma SignThenVerify(e: Encoding, log: SignatureLog, key: Key, action: string, ts: int, now: int, maxSkew: int)
    requires GoodEncoding(e) && (key, AuthnText(action, e.idOf(key), ts / SECOND)) in log
    ensures Verify(e, log, Sign(e, key, action, ts), action, now, maxSkew).Ok?
       <==> Abs(now - (ts - ts % SECOND)) <= maxSkew
  {
    assert ts / SECOND * SECOND == ts - ts % SECOND;
  }

  /** A signature that verifies twice was made by one key for one action, peer and timestamp,
      however its text was written each time. */
  lemma OneSignatureOneRequest(e: Encoding, log: SignatureLog, log': SignatureLog,
                               a: SignedAuth, action: string, now: int, a': SignedAuth, action': string, now': int, maxSkew: int)
    requires GoodEncoding(e) && e.sigOf(a.signature) == e.sigOf(a'.signature)
    requires Verify(e, log, a, action, now, maxSkew).Ok? && Verify(e, log', a', action', now', maxSkew).Ok?
    ensures action == action' && a' == a.(signature := a'.signature)
  {
    AuthnTextIsUnambiguous(action, a.peerID, a.timestamp, action', a'.peerID, a'.timestamp);
  }

  /** An accepted request was signed, for this action and timestamp, by the one key its peer ID
      is derived from: no other key can speak for it. */
  lemma OwnerSigned(e: Encoding, log: SignatureLog, a: SignedAuth, action: string, now: int, maxSkew: int, owner: Key)
    requires forall k, k' :: e.idOf(k) == e.idOf(k') ==> k == k'
    requires Verify(e, log, a, action, now, maxSkew).Ok? && a.peerID == e.idOf(owner)
    ensures (owner, AuthnText(action, e.idOf(owner), a.timestamp)) in log
    ensures now - maxSkew <= a.timestamp * SECOND <= now + maxSkew
  {
    assert a.pubKey.value == owner;
  }

  /** A signature that authenticates a request never verifies in a discovery object. */
  lemma RequestIsNotAnObject(e: Encoding, digest: string -> string, log: SignatureLog, a: SignedAuth, action: string,
                             now: int, maxSkew: int, s: Signed, key: Key, typ: string, now': int, floor: nat)
    requires Verify(e, log, a, action, now, maxSkew).Ok? && s.signature == e.sigOf(a.signature)
    ensures Discovery.Verify(digest, log, s, key, typ, now', floor).Err?
  {
    PurposesAreDisjoint(s.typ, s.serial, s.issuedAt, s.expiresAt, s.epoch, digest(s.payload),
                        action, a.peerID, a.timestamp);
  }
}
