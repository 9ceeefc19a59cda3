/** The credential chain: an offline root certifies issuers, issuers certify members,
    members sign their own node records. */
module Membership {
  import opened Wrappers
  import opened Discovery
  import opened SignedText

  type Role = string

  const MEMBER: Role := "member"
  const EXIT: Role := "exit"

  datatype IssuerCert = IssuerCert(v: int, issuerKey: string, issuerID: string, roles: seq<Role>)

  datatype Cert = Cert(v: int, subject: string, issuerID: string, roles: seq<Role>)

  /** `generation` comes from the envelope, not from the payload. */
  datatype NodeRecord = NodeRecord(v: int, subject: string, roles: seq<Role>, addrs: seq<string>, region: string,
                                   generation: nat)

  /** JSON, key text and payload hashing. A reader yields None where decoding fails; one text
      may be readable as several payloads. `peerKey` is the key inside a peer ID, if any. */
  datatype Codec = Codec(digest: string -> string,
                         writeIssuer: IssuerCert -> string, readIssuer: string -> Option<IssuerCert>,
                         writeCert: Cert -> string, readCert: string -> Option<Cert>,
                         writeRecord: NodeRecord -> string, readRecord: string -> Option<NodeRecord>,
                         encodeKey: Key -> string, decodeKey: string -> Option<Key>,
                         peerKey: string -> Option<Key>)

  ghost predicate GoodCodec(c: Codec) {
    && GoodDigest(c.digest)
    && (forall x :: c.readIssuer(c.writeIssuer(x)) == Some(x))
    && (forall x :: c.readCert(c.writeCert(x)) == Some(x))
    && (forall x :: c.readRecord(c.writeRecord(x)) == Some(x.(generation := 0)))
    && (forall k :: c.decodeKey(c.encodeKey(k)) == Some(k))
  }

  datatype ChainError =
    | IssuerNotEnvelope | IssuerRejected(why: VerifyError) | IssuerEpoch | IssuerPayload | IssuerKey
    | MemberNotEnvelope | MemberRejected(why: VerifyError) | MemberEpoch | MemberPayload
    | SubjectMismatch | IssuerIDMismatch | RolesExceedIssuer
    | BadSubject | RecordNotEnvelope | RecordRejected(why: VerifyError) | RecordPayload
    | RecordSubjectMismatch | RolesExceedCert

  // -------------------------------------------------------------------- roles

  predicate Subset(want: seq<Role>, allowed: seq<Role>) {
    forall r :: r in want ==> r in allowed
  }

  method RolesSubsetOf(want: seq<Role>, allowed: seq<Role>) returns (ok: bool)
    ensures ok <==> Subset(want, allowed)
  {
    var granted: set<Role> := {};
    for i := 0 to |allowed|
      invariant granted == set k | 0 <= k < i :: allowed[k]
    {
      granted := granted + {allowed[i]};
    }
    for i := 0 to |want|
      invariant forall k :: 0 <= k < i ==> want[k] in allowed
    {
      if want[i] !in granted {
        assert want[i] in want && want[i] !in allowed;
        return false;
      }
    }
    return true;
  }

  // ------------------------------------------------------------------ signing

  function SignIssuerCert(c: Codec, root: Key, issuerPub: Key, issuerID: string, roles: seq<Role>,
                          issued: int, expires: int, serial: nat, epoch: nat): Signed
  {
    Sign(c.digest, root, Meta(TYPE_ISSUER_CERT, serial, issued, expires, epoch),
         c.writeIssuer(IssuerCert(1, c.encodeKey(issuerPub), issuerID, roles)))
  }

  function SignMemberCert(c: Codec, issuer: Key, subject: string, issuerID: string, roles: seq<Role>,
                          issued: int, expires: int, serial: nat, epoch: nat): Signed
  {
    Sign(c.digest, issuer, Meta(TYPE_MEMBER_CERT, serial, issued, expires, epoch),
         c.writeCert(Cert(1, subject, issuerID, roles)))
  }

  function SignNodeRecord(c: Codec, node: Key, rec: NodeRecord, issued: int, expires: int, generation: nat): Signed {
    Sign(c.digest, node, Meta(TYPE_NODE_RECORD, generation, issued, expires, 0), c.writeRecord(rec))
  }

  // ------------------------------------------------------------- verification

  /** What the issuer's envelope says once it has verified under the root. */
  function VerifyIssuer(c: Codec, log: SignatureLog, root: Key, issuerSigned: Wire, now: int, minEpoch: nat)
    : Result<(IssuerCert, Key), ChainError>
  {
    if issuerSigned.None? then Err(IssuerNotEnvelope)
    else
      var env := issuerSigned.value;
      var v := Verify(c.digest, log, env, root, TYPE_ISSUER_CERT, now, 0);
      if v.Err? then Err(IssuerRejected(v.error))
      else if env.epoch < minEpoch then Err(IssuerEpoch)
      else if c.readIssuer(v.value).None? then Err(IssuerPayload)
      else
        var ic := c.readIssuer(v.value).value;
        if c.decodeKey(ic.issuerKey).None? then Err(IssuerKey)
        else Ok((ic, c.decodeKey(ic.issuerKey).value))
  }

  function VerifyMemberCert(c: Codec, log: SignatureLog, root: Key, subject: string,
                            memberSigned: Wire, issuerSigned: Wire, now: int, minEpoch: nat): Result<Cert, ChainError>
  {
    var i := VerifyIssuer(c, log, root, issuerSigned, now, minEpoch);
    if i.Err? then Err(i.error)
    else if memberSigned.None? then Err(MemberNotEnvelope)
    else
      var (ic, issuerKey) := i.value;
      var env := memberSigned.value;
      var v := Verify(c.digest, log, env, issuerKey, TYPE_MEMBER_CERT, now, 0);
      if v.Err? then Err(MemberRejected(v.error))
      else if env.epoch < minEpoch then Err(MemberEpoch)
      else if c.readCert(v.value).None? then Err(MemberPayload)
      else
        var mc := c.readCert(v.value).value;
        if mc.subject != subject then Err(SubjectMismatch)
        else if mc.issuerID != ic.issuerID then Err(IssuerIDMismatch)
        else if !Subset(mc.roles, ic.roles) then Err(RolesExceedIssuer)
        else Ok(mc)
  }

  function VerifyNodeRecord(c: Codec, log: SignatureLog, root: Key, subject: string,
                            recordSigned: Wire, memberCert: Wire, issuerCert: Wire,
                            now: int, minEpoch: nat, genFloor: nat): Result<(NodeRecord, Cert), ChainError>
  {
    var m := VerifyMemberCert(c, log, root, subject, memberCert, issuerCert, now, minEpoch);
    if m.Err? then Err(m.error)
    else if c.peerKey(subject).None? then Err(BadSubject)
    else if recordSigned.None? then Err(RecordNotEnvelope)
    else
      var env := recordSigned.value;
      var v := Verify(c.digest, log, env, c.peerKey(subject).value, TYPE_NODE_RECORD, now, genFloor);
      if v.Err? then Err(RecordRejected(v.error))
      else if c.readRecord(v.value).None? then Err(RecordPayload)
      else
        var rec := c.readRecord(v.value).value.(generation := env.serial);
        if rec.subject != subject then Err(RecordSubjectMismatch)
        else if !Subset(rec.roles, m.value.roles) then Err(RolesExceedCert)
        else Ok((rec, m.value))
  }

  /** What a record that verifies rests on. */
  lemma RecordCarriesCert(c: Codec, log: SignatureLog, root: Key, subject: string, recordSigned: Wire, memberCert: Wire,
                          issuerCert: Wire, now: int, minEpoch: nat, genFloor: nat)
    requires VerifyNodeRecord(c, log, root, subject, recordSigned, memberCert, issuerCert, now, minEpoch, genFloor).Ok?
    ensures var (rec, cert) := VerifyNodeRecord(c, log, root, subject, recordSigned, memberCert, issuerCert,
                                                now, minEpoch, genFloor).value;
            && VerifyMemberCert(c, log, root, subject, memberCert, issuerCert, now, minEpoch) == Ok(cert)
            && rec.subject == subject && rec.generation >= genFloor && Subset(rec.roles, cert.roles)
  {}

  /** A record that verifies was signed, with its generation and payload, by its subject's key. */
  lemma RecordIsLogged(c: Codec, log: SignatureLog, root: Key, subject: string, recordSigned: Wire, memberCert: Wire,
                       issuerCert: Wire, now: int, minEpoch: nat, genFloor: nat)
    requires VerifyNodeRecord(c, log, root, subject, recordSigned, memberCert, issuerCert, now, minEpoch, genFloor).Ok?
    ensures recordSigned.Some? && c.peerKey(subject).Some?
    ensures VerifyNodeRecord(c, log, root, subject, recordSigned, memberCert, issuerCert,
                             now, minEpoch, genFloor).value.1.subject == subject
    ensures var env := recordSigned.value;
            (c.peerKey(subject).value, DiscoveryText(TYPE_NODE_RECORD, env.serial, env.issuedAt, env.expiresAt, env.epoch,
                                                     c.digest(env.payload))) in log
  {
    hide DiscoveryText, VerifyIssuer;
  }

  // ---------------------------------------------------------------- round trip

  /** Certificates as the root and an issuer sign them verify for their subject exactly when
      neither has expired, both meet the epoch floor, the issuer IDs agree and the issuer was
      granted every role it passes on. */
  lemma SignedChainVerifies(c: Codec, log: SignatureLog, root: Key, issuer: Key, subject: string,
                            issuerID: string, granted: seq<Role>, issued: int, expires: int, serial: nat, epoch: nat,
                            issuerID': string, roles: seq<Role>, issued': int, expires': int, serial': nat, epoch': nat,
                            now: int, minEpoch: nat)
    requires GoodCodec(c)
    requires var ic := SignIssuerCert(c, root, issuer, issuerID, granted, issued, expires, serial, epoch);
             var mc := SignMemberCert(c, issuer, subject, issuerID', roles, issued', expires', serial', epoch');
             (root, Text(c.digest, ic)) in log && (issuer, Text(c.digest, mc)) in log
    ensures var ic := SignIssuerCert(c, root, issuer, issuerID, granted, issued, expires, serial, epoch);
            var mc := SignMemberCert(c, issuer, subject, issuerID', roles, issued', expires', serial', epoch');
            var r := VerifyMemberCert(c, log, root, subject, Some(mc), Some(ic), now, minEpoch);
            && (r.Ok? <==> && now <= expires - expires % SECOND && now <= expires' - expires' % SECOND
                           && minEpoch <= epoch && minEpoch <= epoch'
                           && issuerID' == issuerID && Subset(roles, granted))
            && (r.Ok? ==> r.value == Cert(1, subject, issuerID, roles))
  {
    var ic := SignIssuerCert(c, root, issuer, issuerID, granted, issued, expires, serial, epoch);
    var mc := SignMemberCert(c, issuer, subject, issuerID', roles, issued', expires', serial', epoch');
    assert log + {(root, Text(c.digest, ic))} == log && log + {(issuer, Text(c.digest, mc))} == log;
    SignThenVerify(c.digest, log, root, Meta(TYPE_ISSUER_CERT, serial, issued, expires, epoch),
                   c.writeIssuer(IssuerCert(1, c.encodeKey(issuer), issuerID, granted)), TYPE_ISSUER_CERT, now, 0);
    SignThenVerify(c.digest, log, issuer, Meta(TYPE_MEMBER_CERT, serial', issued', expires', epoch'),
                   c.writeCert(Cert(1, subject, issuerID', roles)), TYPE_MEMBER_CERT, now, 0);
  }

  /** A record as its node signs it verifies, under a chain that verifies, exactly when it is
      unexpired, at or above the floor, about its signer, and within the certified roles. */
  lemma SignedRecordVerifies(c: Codec, log: SignatureLog, root: Key, node: Key, subject: string,
                             rec: NodeRecord, issued: int, expires: int, generation: nat,
                             memberCert: Wire, issuerCert: Wire, now: int, minEpoch: nat, genFloor: nat)
    requires GoodCodec(c) && c.peerKey(subject) == Some(node)
    requires (node, Text(c.digest, SignNodeRecord(c, node, rec, issued, expires, generation))) in log
    requires VerifyMemberCert(c, log, root, subject, memberCert, issuerCert, now, minEpoch).Ok?
    ensures var r := VerifyNodeRecord(c, log, root, subject,
                       Some(SignNodeRecord(c, node, rec, issued, expires, generation)),
                       memberCert, issuerCert, now, minEpoch, genFloor);
            var cert := VerifyMemberCert(c, log, root, subject, memberCert, issuerCert, now, minEpoch).value;
            && (r.Ok? <==> now <= expires - expires % SECOND && genFloor <= generation
                           && rec.subject == subject && Subset(rec.roles, cert.roles))
            && (r.Ok? ==> r.value == (rec.(generation := generation), cert))
  {
    var s := SignNodeRecord(c, node, rec, issued, expires, generation);
    assert log + {(node, Text(c.digest, s))} == log;
    SignThenVerify(c.digest, log, node, Meta(TYPE_NODE_RECORD, generation, issued, expires, 0),
                   c.writeRecord(rec), TYPE_NODE_RECORD, now, genFloor);
  }
}
