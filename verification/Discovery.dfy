/** The signed envelope of the discovery plane over ideal signatures: a log holds every
    (key, text) pair ever signed, and a signature verifies only if its pair is in the log.
    Clock readings are nanoseconds; the envelope carries whole seconds. */
module Discovery {
  import opened Wrappers
  import opened SignedText

  /** The canonical encoding of a public key. */
  type Key = string

  datatype Signature = Signature(signer: Key, text: string)

  type SignatureLog = set<(Key, string)>

  const SECOND := 1_000_000_000

  const TYPE_DIRECTORY := "directory"
  const TYPE_RELAY := "relay"
  const TYPE_BOOTSTRAP := "bootstrap"
  const TYPE_ISSUER_CERT := "issuer-cert"
  const TYPE_MEMBER_CERT := "member-cert"
  const TYPE_NODE_RECORD := "node-record"

  datatype Meta = Meta(typ: string, serial: nat, issuedAt: int, expiresAt: int, epoch: nat)

  /** `pubKey` and `signature` are None when their text does not decode. */
  datatype Signed = Signed(typ: string, serial: nat, issuedAt: int, expiresAt: int, epoch: nat,
                           payload: string, pubKey: Option<Key>, signature: Option<Signature>)

  /** Bytes off the wire: None when they do not parse as an envelope. */
  type Wire = Option<Signed>

  datatype VerifyError =
    | WrongType | BelowFloor | Expired | BadPublicKey | NotPinnedKey | BadSignature | VerificationFailed

  /** The encoded payload hash: separator-free and collision-free. */
  ghost predicate GoodDigest(digest: string -> string) {
    && (forall p :: Plain(digest(p)))
    && (forall p, q :: digest(p) == digest(q) ==> p == q)
  }

  function Text(digest: string -> string, s: Signed): string {
    DiscoveryText(s.typ, s.serial, s.issuedAt, s.expiresAt, s.epoch, digest(s.payload))
  }

  predicate Verifies(log: SignatureLog, key: Key, text: string, sig: Signature) {
    sig == Signature(key, text) && (key, text) in log
  }

  function Sign(digest: string -> string, key: Key, m: Meta, payload: string): Signed {
    var issued, expires := m.issuedAt / SECOND, m.expiresAt / SECOND;
    var text := DiscoveryText(m.typ, m.serial, issued, expires, m.epoch, digest(payload));
    Signed(m.typ, m.serial, issued, expires, m.epoch, payload, Some(key), Some(Signature(key, text)))
  }

  /** The log after `key` has signed `s`. */
  function Logged(digest: string -> string, log: SignatureLog, key: Key, s: Signed): SignatureLog {
    log + {(key, Text(digest, s))}
  }

  function Verify(digest: string -> string, log: SignatureLog, s: Signed,
                  expected: Key, typ: string, now: int, floor: nat): Result<string, VerifyError>
  {
    if s.typ != typ then Err(WrongType)
    else if s.serial < floor then Err(BelowFloor)
    else if now > s.expiresAt * SECOND then Err(Expired)
    else if s.pubKey.None? then Err(BadPublicKey)
    else if s.pubKey.value != expected then Err(NotPinnedKey)
    else if s.signature.None? then Err(BadSignature)
    else if !Verifies(log, expected, Text(digest, s), s.signature.value) then Err(VerificationFailed)
    else Ok(s.payload)
  }

  /** A freshly signed object verifies under the signer's key and its own type exactly until
      it expires (to the second) and down to its own serial. */
  lemma SignThenVerify(digest: string -> string, log: SignatureLog, key: Key, m: Meta, payload: string,
                       typ: string, now: int, floor: nat)
    ensures var s := Sign(digest, key, m, payload);
            var r := Verify(digest, Logged(digest, log, key, s), s, key, typ, now, floor);
            && (r.Ok? <==> typ == m.typ && floor <= m.serial && now <= m.expiresAt - m.expiresAt % SECOND)
            && (r.Ok? ==> r.value == payload)
  {
    assert m.expiresAt / SECOND * SECOND == m.expiresAt - m.expiresAt % SECOND;
  }

  /** One signature serves one type, serial, validity, epoch and payload: whatever two
      envelopes it verifies in are the same object. */
  lemma OneSignatureOneObject(digest: string -> string, log: SignatureLog, s: Signed, s': Signed,
                              key: Key, typ: string, now: int, floor: nat,
                              key': Key, typ': string, now': int, floor': nat)
    requires GoodDigest(digest) && s.signature == s'.signature
    requires Verify(digest, log, s, key, typ, now, floor).Ok? && Verify(digest, log, s', key', typ', now', floor').Ok?
    ensures s == s' && key == key' && typ == typ'
  {
    DiscoveryTextIsUnambiguous(s.typ, s.serial, s.issuedAt, s.expiresAt, s.epoch, digest(s.payload),
                               s'.typ, s'.serial, s'.issuedAt, s'.expiresAt, s'.epoch, digest(s'.payload));
  }
}
