/** Safety of the credential chain over whole runs, with an adversary that signs anything
    under its own keys and presents any envelopes. The honest keys are the offline root's
    and the coordinator's issuer key; they may also serve other purposes, and may coincide. */
module CredentialRuns {
  import opened Wrappers
  import opened SignedText
  import opened Discovery
  import opened Membership
  import Invite
  import Admission
  import Lifetimes

  /** The fixed setting of a run. */
  datatype Setting = Setting(codec: Codec, root: Key, issuer: Key)

  /** `certified` collects the payloads the root has certified; `past` holds the store as it was
      before each event so far, which is what a restart may find saved. */
  datatype World = World(log: SignatureLog, store: Invite.Store, memberSerial: nat, certified: set<IssuerCert>,
                         past: seq<Invite.Store>)

  datatype Event =
    /** The root certifies some key as issuer: any key, roles and issuer ID. */
    | Certify(issuerPub: Key, issuerID: string, roles: seq<Role>, issued: int, expires: int, serial: nat, epoch: nat)
    /** A join request that passed authentication; the coordinator's configured issuer ID. */
    | JoinPeer(code: string, peerID: string, founding: bool, issuerID: string, now: int)
    /** Seeding and minting; and a join while no issuer is configured. */
    | Manage(e: Admission.Event)
    /** The coordinator restarts from the snapshot saved before event `k`. */
    | Restart(k: nat)
    /** An honest key signs a discovery object of a type it does not issue credentials with. */
    | SignObject(key: Key, typ: string, serial: nat, issued: int, expires: int, epoch: nat, payload: string)
    /** An honest key authenticates a request. */
    | SignRequest(key: Key, action: string, peerID: string, ts: int)
    /** The adversary signs any text with any key that is not honest. */
    | Forge(key: Key, text: string)

  const MEMBER_CERT_TTL := 30 * 24 * 3600 * SECOND

  /** What the coordinator signs for an admitted peer: always exactly the member role. */
  function IssueMemberCert(w: Setting, subject: string, issuerID: string, now: int, serial: nat): Signed {
    SignMemberCert(w.codec, w.issuer, subject, issuerID, [MEMBER], now, now + MEMBER_CERT_TTL, serial, 0)
  }

  function AfterJoin(w: Setting, s: World, e: Event): World
    requires e.JoinPeer?
  {
    var admitted := if e.code == "" && e.founding then Invite.Bootstrap(s.store, e.peerID, e.now)
                    else Invite.Redeem(s.store, e.code, e.peerID, e.now);
    if admitted.0.Err? then s.(store := admitted.1)
    else
      var cert := IssueMemberCert(w, e.peerID, e.issuerID, e.now, s.memberSerial + 1);
      World(Logged(w.codec.digest, s.log, w.issuer, cert), admitted.1, s.memberSerial + 1, s.certified, s.past)
  }

  /** What an event does, but for remembering the store before it. */
  function Effect(w: Setting, s: World, e: Event): World {
    match e
    case Certify(issuerPub, issuerID, roles, issued, expires, serial, epoch) =>
      var cert := SignIssuerCert(w.codec, w.root, issuerPub, issuerID, roles, issued, expires, serial, epoch);
      s.(log := Logged(w.codec.digest, s.log, w.root, cert),
         certified := s.certified + {IssuerCert(1, w.codec.encodeKey(issuerPub), issuerID, roles)})
    case JoinPeer(_, _, _, _, _) => AfterJoin(w, s, e)
    case Manage(a) => s.(store := Admission.Step(s.store, a))
    case Restart(k) => s.(store := Invite.Reload(Saved(s, k)), memberSerial := 0)
    case SignObject(key, typ, serial, issued, expires, epoch, payload) =>
      if typ == TYPE_MEMBER_CERT || typ == TYPE_ISSUER_CERT then s
      else s.(log := s.log + {(key, DiscoveryText(typ, serial, issued, expires, epoch, w.codec.digest(payload)))})
    case SignRequest(key, action, peerID, ts) => s.(log := s.log + {(key, AuthnText(action, peerID, ts))})
    case Forge(key, text) => if key == w.root || key == w.issuer then s else s.(log := s.log + {(key, text)})
  }

  function Saved(s: World, k: nat): Invite.Store {
    if k < |s.past| then s.past[k] else s.store
  }

  function Step(w: Setting, s: World, e: Event): World {
    Effect(w, s, e).(past := s.past + [s.store])
  }

  function Run(w: Setting, es: seq<Event>): World {
    if es == [] then World({}, Invite.EMPTY, 0, {}, []) else Step(w, Run(w, es[..|es| - 1]), es[|es| - 1])
  }

  // ---------------------------------------------------------------- invariants

  /** The coordinator has the peer admitted, or had at some earlier moment. */
  ghost predicate AdmittedSometime(s: World, subject: string) {
    subject in s.store.admissions || exists i :: 0 <= i < |s.past| && subject in s.past[i].admissions
  }

  /** What the issuer key's signature on a member certificate with this payload vouches for. */
  ghost predicate Vouches(w: Setting, s: World, payload: string) {
    exists subject, issuerID ::
      payload == w.codec.writeCert(Cert(1, subject, issuerID, [MEMBER])) && AdmittedSometime(s, subject)
  }

  ghost predicate MembersAreAdmitted(w: Setting, s: World) {
    forall serial: nat, issued, expires, epoch: nat, payload ::
      (w.issuer, DiscoveryText(TYPE_MEMBER_CERT, serial, issued, expires, epoch, w.codec.digest(payload))) in s.log
      ==> epoch == 0 && Vouches(w, s, payload)
  }

  ghost predicate IssuersAreCertified(w: Setting, s: World) {
    forall serial: nat, issued, expires, epoch: nat, payload ::
      (w.root, DiscoveryText(TYPE_ISSUER_CERT, serial, issued, expires, epoch, w.codec.digest(payload))) in s.log
      ==> exists ic :: ic in s.certified && payload == w.codec.writeIssuer(ic)
  }

  /** Two discovery texts of different types or payloads differ. */
  lemma SameTextSameObject(w: Setting, typ: string, serial: nat, issued: int, expires: int, epoch: nat, payload: string,
                           typ': string, serial': nat, issued': int, expires': int, epoch': nat, payload': string)
    requires GoodCodec(w.codec)
    requires DiscoveryText(typ, serial, issued, expires, epoch, w.codec.digest(payload))
          == DiscoveryText(typ', serial', issued', expires', epoch', w.codec.digest(payload'))
    ensures typ == typ' && payload == payload' && epoch == epoch'
  {
    DiscoveryTextIsUnambiguous(typ, serial, issued, expires, epoch, w.codec.digest(payload),
                               typ', serial', issued', expires', epoch', w.codec.digest(payload'));
  }

  /** Whatever is forgotten, it was so once. */
  lemma SometimeStays(w: Setting, s: World, e: Event, subject: string)
    requires AdmittedSometime(s, subject)
    ensures AdmittedSometime(Step(w, s, e), subject)
  {
    var past := Step(w, s, e).past;
    if subject in s.store.admissions {
      assert past[|s.past|] == s.store;
    } else {
      var i :| 0 <= i < |s.past| && subject in s.past[i].admissions;
      assert past[i] == s.past[i];
    }
  }

  lemma VouchesStays(w: Setting, s: World, e: Event, payload: string)
    requires Vouches(w, s, payload)
    ensures Vouches(w, Step(w, s, e), payload)
  {
    var subject, issuerID :| payload == w.codec.writeCert(Cert(1, subject, issuerID, [MEMBER])) && AdmittedSometime(s, subject);
    SometimeStays(w, s, e, subject);
  }

  /** The one text a step may add to the log. */
  function Added(w: Setting, s: World, e: Event): (Key, string) {
    match e
    case Certify(issuerPub, issuerID, roles, issued, expires, serial, epoch) =>
      (w.root, Text(w.codec.digest, SignIssuerCert(w.codec, w.root, issuerPub, issuerID, roles, issued, expires, serial, epoch)))
    case JoinPeer(_, peerID, _, issuerID, now) =>
      (w.issuer, Text(w.codec.digest, IssueMemberCert(w, peerID, issuerID, now, s.memberSerial + 1)))
    case Manage(_) => (w.root, "")
    case Restart(_) => (w.root, "")
    case SignObject(key, typ, serial, issued, expires, epoch, payload) =>
      (key, DiscoveryText(typ, serial, issued, expires, epoch, w.codec.digest(payload)))
    case SignRequest(key, action, peerID, ts) => (key, AuthnText(action, peerID, ts))
    case Forge(key, text) => (key, text)
  }

  /** What holds of the step when it does add its text. */
  predicate MayAdd(w: Setting, s': World, e: Event) {
    match e
    case JoinPeer(_, peerID, _, _, _) => peerID in s'.store.admissions
    case Manage(_) => false
    case Restart(_) => false
    case SignObject(_, typ, _, _, _, _, _) => typ != TYPE_MEMBER_CERT && typ != TYPE_ISSUER_CERT
    case Forge(key, _) => key != w.root && key != w.issuer
    case Certify(issuerPub, issuerID, roles, _, _, _, _) =>
      IssuerCert(1, w.codec.encodeKey(issuerPub), issuerID, roles) in s'.certified
    case SignRequest(_, _, _, _) => true
  }

  lemma OnlyAdded(w: Setting, s: World, e: Event)
    ensures var s' := Step(w, s, e);
            s'.log == s.log || (s'.log == s.log + {Added(w, s, e)} && MayAdd(w, s', e))
  {}

  /** If the text a step adds is the text of an object of this type, signed by an honest key,
      then the step was the one that issues such objects, for this payload. */
  lemma AddedObject(w: Setting, s: World, s': World, e: Event, key: Key,
                    typ: string, serial: nat, issued: int, expires: int, epoch: nat, payload: string)
    requires GoodCodec(w.codec) && MayAdd(w, s', e) && (key == w.root || key == w.issuer)
    requires typ == TYPE_MEMBER_CERT || typ == TYPE_ISSUER_CERT
    requires Added(w, s, e) == (key, DiscoveryText(typ, serial, issued, expires, epoch, w.codec.digest(payload)))
    ensures typ == TYPE_MEMBER_CERT ==> e.JoinPeer? && epoch == 0 && payload == w.codec.writeCert(Cert(1, e.peerID, e.issuerID, [MEMBER]))
    ensures typ == TYPE_ISSUER_CERT ==>
              e.Certify? && payload == w.codec.writeIssuer(IssuerCert(1, w.codec.encodeKey(e.issuerPub), e.issuerID, e.roles))
  {
    match e
    case Certify(_, _, _, _, _, _, _) => AddedCertify(w, s, e, key, typ, serial, issued, expires, epoch, payload);
    case JoinPeer(_, _, _, _, _) => AddedJoin(w, s, e, key, typ, serial, issued, expires, epoch, payload);
    case SignObject(_, t, n, i, x, ep, p) =>
      SameTextSameObject(w, t, n, i, x, ep, p, typ, serial, issued, expires, epoch, payload);
    case SignRequest(_, action, peerID, ts) =>
      PurposesAreDisjoint(typ, serial, issued, expires, epoch, w.codec.digest(payload), action, peerID, ts);
    case _ =>
  }

  lemma SignedObject(w: Setting, key: Key, m: Meta, p: string,
                     typ: string, serial: nat, issued: int, expires: int, epoch: nat, payload: string)
    requires GoodCodec(w.codec)
    requires Text(w.codec.digest, Sign(w.codec.digest, key, m, p))
          == DiscoveryText(typ, serial, issued, expires, epoch, w.codec.digest(payload))
    ensures typ == m.typ && payload == p && epoch == m.epoch
  {
    SameTextSameObject(w, m.typ, m.serial, m.issuedAt / SECOND, m.expiresAt / SECOND, m.epoch, p,
                       typ, serial, issued, expires, epoch, payload);
  }

  lemma AddedCertify(w: Setting, s: World, e: Event, key: Key,
                     typ: string, serial: nat, issued: int, expires: int, epoch: nat, payload: string)
    requires GoodCodec(w.codec) && e.Certify?
    requires Added(w, s, e) == (key, DiscoveryText(typ, serial, issued, expires, epoch, w.codec.digest(payload)))
    ensures typ == TYPE_ISSUER_CERT
         && payload == w.codec.writeIssuer(IssuerCert(1, w.codec.encodeKey(e.issuerPub), e.issuerID, e.roles))
  {
    SignedObject(w, w.root, Meta(TYPE_ISSUER_CERT, e.serial, e.issued, e.expires, e.epoch),
      w.codec.writeIssuer(IssuerCert(1, w.codec.encodeKey(e.issuerPub), e.issuerID, e.roles)),
      typ, serial, issued, expires, epoch, payload);
  }

  lemma IssuedIsSigned(w: Setting, subject: string, issuerID: string, now: int, serial: nat)
    ensures IssueMemberCert(w, subject, issuerID, now, serial)
         == Sign(w.codec.digest, w.issuer, Meta(TYPE_MEMBER_CERT, serial, now, now + MEMBER_CERT_TTL, 0),
                 w.codec.writeCert(Cert(1, subject, issuerID, [MEMBER])))
  {}

  lemma AddedJoin(w: Setting, s: World, e: Event, key: Key,
                  typ: string, serial: nat, issued: int, expires: int, epoch: nat, payload: string)
    requires GoodCodec(w.codec) && e.JoinPeer?
    requires Added(w, s, e) == (key, DiscoveryText(typ, serial, issued, expires, epoch, w.codec.digest(payload)))
    ensures typ == TYPE_MEMBER_CERT && epoch == 0 && payload == w.codec.writeCert(Cert(1, e.peerID, e.issuerID, [MEMBER]))
  {
    assert Added(w, s, e).1 == Text(w.codec.digest, IssueMemberCert(w, e.peerID, e.issuerID, e.now, s.memberSerial + 1));
    IssuedIsSigned(w, e.peerID, e.issuerID, e.now, s.memberSerial + 1);
    SignedObject(w, w.issuer, Meta(TYPE_MEMBER_CERT, s.memberSerial + 1, e.now, e.now + MEMBER_CERT_TTL, 0),
      w.codec.writeCert(Cert(1, e.peerID, e.issuerID, [MEMBER])), typ, serial, issued, expires, epoch, payload);
  }

  lemma StepKeepsMembers(w: Setting, s: World, e: Event)
    requires GoodCodec(w.codec) && MembersAreAdmitted(w, s)
    ensures MembersAreAdmitted(w, Step(w, s, e))
  {
    var s' := Step(w, s, e);
    forall serial: nat, issued, expires, epoch: nat, payload
      | (w.issuer, DiscoveryText(TYPE_MEMBER_CERT, serial, issued, expires, epoch, w.codec.digest(payload))) in s'.log
      ensures epoch == 0 && Vouches(w, s', payload)
    {
      var text := DiscoveryText(TYPE_MEMBER_CERT, serial, issued, expires, epoch, w.codec.digest(payload));
      OnlyAdded(w, s, e);
      if (w.issuer, text) in s.log {
        assert Vouches(w, s, payload);
        VouchesStays(w, s, e, payload);
      } else {
        AddedObject(w, s, s', e, w.issuer, TYPE_MEMBER_CERT, serial, issued, expires, epoch, payload);
      }
    }
  }

  lemma StepKeepsIssuers(w: Setting, s: World, e: Event)
    requires GoodCodec(w.codec) && IssuersAreCertified(w, s)
    ensures IssuersAreCertified(w, Step(w, s, e))
  {
    var s' := Step(w, s, e);
    forall serial: nat, issued, expires, epoch: nat, payload
      | (w.root, DiscoveryText(TYPE_ISSUER_CERT, serial, issued, expires, epoch, w.codec.digest(payload))) in s'.log
      ensures exists ic :: ic in s'.certified && payload == w.codec.writeIssuer(ic)
    {
      if (w.root, DiscoveryText(TYPE_ISSUER_CERT, serial, issued, expires, epoch, w.codec.digest(payload))) !in s.log {
        OnlyAdded(w, s, e);
        AddedObject(w, s, s', e, w.root, TYPE_ISSUER_CERT, serial, issued, expires, epoch, payload);
      }
    }
  }

  lemma {:induction false} RunIsSafe(w: Setting, es: seq<Event>)
    requires GoodCodec(w.codec)
    ensures MembersAreAdmitted(w, Run(w, es)) && IssuersAreCertified(w, Run(w, es))
  {
    if es != [] {
      RunIsSafe(w, es[..|es| - 1]);
      StepKeepsMembers(w, Run(w, es[..|es| - 1]), es[|es| - 1]);
      StepKeepsIssuers(w, Run(w, es[..|es| - 1]), es[|es| - 1]);
    }
  }

  // ------------------------------------------------------------------- results

  /** What a chain that verifies says about the log. */
  lemma VerifiedChainIsLogged(w: Setting, log: SignatureLog, subject: string,
                              memberSigned: Wire, issuerSigned: Wire, now: int, minEpoch: nat)
    requires VerifyMemberCert(w.codec, log, w.root, subject, memberSigned, issuerSigned, now, minEpoch).Ok?
    ensures issuerSigned.Some? && memberSigned.Some?
    ensures VerifyIssuer(w.codec, log, w.root, issuerSigned, now, minEpoch).Ok?
    ensures var (ic, key) := VerifyIssuer(w.codec, log, w.root, issuerSigned, now, minEpoch).value;
            var cert := VerifyMemberCert(w.codec, log, w.root, subject, memberSigned, issuerSigned, now, minEpoch).value;
            var (i, m) := (issuerSigned.value, memberSigned.value);
      && (w.root, DiscoveryText(TYPE_ISSUER_CERT, i.serial, i.issuedAt, i.expiresAt, i.epoch, w.codec.digest(i.payload))) in log
      && (key, DiscoveryText(TYPE_MEMBER_CERT, m.serial, m.issuedAt, m.expiresAt, m.epoch, w.codec.digest(m.payload))) in log
      && w.codec.readIssuer(i.payload) == Some(ic) && w.codec.decodeKey(ic.issuerKey) == Some(key)
      && w.codec.readCert(m.payload) == Some(cert)
      && cert.subject == subject && cert.issuerID == ic.issuerID && Subset(cert.roles, ic.roles)
  {}

  /** In any run, a member certificate that verifies through the coordinator's issuer key,
      in whatever envelopes, names a peer this coordinator admitted, though a restart may have
      forgotten it since, and grants no role but member; and it verifies at revocation floor 0
      only. */
  lemma NoEscalationThroughCoordinator(w: Setting, es: seq<Event>, subject: string,
                                       memberSigned: Wire, issuerSigned: Wire, now: int, minEpoch: nat)
    requires GoodCodec(w.codec)
    requires VerifyMemberCert(w.codec, Run(w, es).log, w.root, subject, memberSigned, issuerSigned, now, minEpoch).Ok?
    requires VerifyIssuer(w.codec, Run(w, es).log, w.root, issuerSigned, now, minEpoch).value.1 == w.issuer
    ensures AdmittedSometime(Run(w, es), subject)
    ensures VerifyMemberCert(w.codec, Run(w, es).log, w.root, subject, memberSigned, issuerSigned, now, minEpoch).value.roles
         == [MEMBER]
    ensures minEpoch == 0
  {
    RunIsSafe(w, es);
    VerifiedChainIsLogged(w, Run(w, es).log, subject, memberSigned, issuerSigned, now, minEpoch);
    assert Vouches(w, Run(w, es), memberSigned.value.payload);
  }

  /** The issuer certificate is for `key`, bears the member certificate's issuer ID, and lists
      every role certified. */
  predicate Backs(w: Setting, ic: IssuerCert, key: Key, cert: Cert) {
    w.codec.decodeKey(ic.issuerKey) == Some(key) && ic.issuerID == cert.issuerID && Subset(cert.roles, ic.roles)
  }

  /** In any run, the issuer certificate of a chain that verifies was made by the root, for
      the very key that signed the member certificate, and lists every certified role. */
  lemma ChainTracesToRoot(w: Setting, es: seq<Event>, subject: string,
                          memberSigned: Wire, issuerSigned: Wire, now: int, minEpoch: nat)
    requires GoodCodec(w.codec)
    requires VerifyMemberCert(w.codec, Run(w, es).log, w.root, subject, memberSigned, issuerSigned, now, minEpoch).Ok?
    ensures var cert := VerifyMemberCert(w.codec, Run(w, es).log, w.root, subject, memberSigned, issuerSigned, now, minEpoch).value;
            var key := VerifyIssuer(w.codec, Run(w, es).log, w.root, issuerSigned, now, minEpoch).value.1;
            exists ic :: ic in Run(w, es).certified && Backs(w, ic, key, cert)
  {
    RunIsSafe(w, es);
    VerifiedChainIsLogged(w, Run(w, es).log, subject, memberSigned, issuerSigned, now, minEpoch);
    var ic :| ic in Run(w, es).certified && issuerSigned.value.payload == w.codec.writeIssuer(ic);
  }

  /** In any run, a node record that verifies with the exit role rests on the root's certificate
      for the very key that signed the chain's member certificate: it carries the chain's issuer
      ID, lists exit and every other certified role, and is for a key other than the
      coordinator's, even if the root granted exit to the coordinator's key as well. */
  lemma ExitTracesToOtherIssuer(w: Setting, es: seq<Event>, subject: string, recordSigned: Wire,
                                memberSigned: Wire, issuerSigned: Wire, now: int, minEpoch: nat, genFloor: nat)
    requires GoodCodec(w.codec)
    requires var r := VerifyNodeRecord(w.codec, Run(w, es).log, w.root, subject, recordSigned, memberSigned, issuerSigned,
                                       now, minEpoch, genFloor);
             r.Ok? && EXIT in r.value.0.roles
    ensures VerifyIssuer(w.codec, Run(w, es).log, w.root, issuerSigned, now, minEpoch).Ok?
    ensures var key := VerifyIssuer(w.codec, Run(w, es).log, w.root, issuerSigned, now, minEpoch).value.1;
            var cert := VerifyMemberCert(w.codec, Run(w, es).log, w.root, subject, memberSigned, issuerSigned, now, minEpoch).value;
            && key != w.issuer && EXIT in cert.roles
            && exists ic :: ic in Run(w, es).certified && Backs(w, ic, key, cert)
  {
    var log := Run(w, es).log;
    var cert := VerifyMemberCert(w.codec, log, w.root, subject, memberSigned, issuerSigned, now, minEpoch).value;
    var key := VerifyIssuer(w.codec, log, w.root, issuerSigned, now, minEpoch).value.1;
    assert EXIT in cert.roles && EXIT != MEMBER;
    if key == w.issuer {
      NoEscalationThroughCoordinator(w, es, subject, memberSigned, issuerSigned, now, minEpoch);
    }
    ChainTracesToRoot(w, es, subject, memberSigned, issuerSigned, now, minEpoch);
  }

  /** The join request is admitted: by the founder's door or by an invite. */
  predicate Admitted(s: World, e: Event)
    requires e.JoinPeer?
  {
    if e.code == "" && e.founding then Invite.Bootstrap(s.store, e.peerID, e.now).0.Ok?
    else Invite.Redeem(s.store, e.code, e.peerID, e.now).0.Ok?
  }

  lemma AdmittedIsSigned(w: Setting, s: World, e: Event)
    requires e.JoinPeer? && Admitted(s, e)
    ensures (w.issuer, Text(w.codec.digest, IssueMemberCert(w, e.peerID, e.issuerID, e.now, s.memberSerial + 1)))
         in Step(w, s, e).log
    ensures s.log <= Step(w, s, e).log
  {
    hide SignMemberCert, Invite.Bootstrap, Invite.Redeem;
  }

  /** The other half: a peer that joins holds a chain that verifies exactly while neither
      certificate has expired, the root's certificate for the coordinator grants membership, and
      the revocation floor is still 0, the epoch that the coordinator signs with. */
  lemma JoinedPeerIsCertified(w: Setting, s: World, e: Event, issued: int, expires: int, serial: nat, epoch: nat,
                              granted: seq<Role>, now: int, minEpoch: nat)
    requires GoodCodec(w.codec) && e.JoinPeer? && Admitted(s, e)
    requires (w.root, Text(w.codec.digest,
                SignIssuerCert(w.codec, w.root, w.issuer, e.issuerID, granted, issued, expires, serial, epoch))) in s.log
    ensures var r := VerifyMemberCert(w.codec, Step(w, s, e).log, w.root, e.peerID,
                       Some(IssueMemberCert(w, e.peerID, e.issuerID, e.now, s.memberSerial + 1)),
                       Some(SignIssuerCert(w.codec, w.root, w.issuer, e.issuerID, granted, issued, expires, serial, epoch)),
                       now, minEpoch);
            && (r.Ok? <==> && now <= expires - expires % SECOND
                           && now <= e.now + 30 * 24 * 3600 * SECOND - (e.now + 30 * 24 * 3600 * SECOND) % SECOND
                           && MEMBER in granted && minEpoch == 0)
            && (r.Ok? ==> r.value == Cert(1, e.peerID, e.issuerID, ["member"]))
  {
    var log := Step(w, s, e).log;
    AdmittedIsSigned(w, s, e);
    SignedChainVerifies(w.codec, log, w.root, w.issuer, e.peerID,
      e.issuerID, granted, issued, expires, serial, epoch,
      e.issuerID, [MEMBER], e.now, e.now + MEMBER_CERT_TTL, s.memberSerial + 1, 0, now, minEpoch);
    assert Subset([MEMBER], granted) <==> MEMBER in granted by {
      assert [MEMBER][0] == MEMBER;
    }
    hide VerifyMemberCert, Step, SignIssuerCert, Text;
  }

  /** What an event means for the admission store. */
  function ActOf(e: Event): Lifetimes.Act {
    match e
    case JoinPeer(code, peerID, founding, _, now) => Lifetimes.Do(Admission.Join(code, peerID, founding, now))
    case Manage(a) => Lifetimes.Do(a)
    case Restart(k) => Lifetimes.Revert(k)
    case _ => Lifetimes.Idle
  }

  function Acts(es: seq<Event>): seq<Lifetimes.Act> {
    seq(|es|, i requires 0 <= i < |es| => ActOf(es[i]))
  }

  /** The store of the run is that of the acts, now and before each event. */
  ghost predicate LifeOf(s: World, acts: seq<Lifetimes.Act>) {
    && s.store == Lifetimes.StoreAfter(acts) && |s.past| == |acts|
    && forall n :: 0 <= n < |acts| ==> s.past[n] == Lifetimes.StoreAfter(acts[..n])
  }

  /** The store of a credential run, at each moment of it, is the store of its admission acts. */
  lemma {:induction false} StoreIsAdmissionLife(w: Setting, es: seq<Event>)
    ensures LifeOf(Run(w, es), Acts(es))
  {
    if es != [] {
      var init, last := es[..|es| - 1], es[|es| - 1];
      assert es == init + [last];
      StoreIsAdmissionLife(w, init);
      LifeMore(w, init, last);
    }
  }

  lemma LifeMore(w: Setting, es: seq<Event>, e: Event)
    requires LifeOf(Run(w, es), Acts(es))
    ensures LifeOf(Run(w, es + [e]), Acts(es + [e]))
  {
    hide Effect, Invite.Reload, Lifetimes.StoreAfter, Admission.Step;
    var s, acts := Run(w, es), Acts(es);
    RunMore(w, es, e);
    assert Acts(es + [e]) == acts + [ActOf(e)];
    Lifetimes.ActMore(acts, ActOf(e));
    StoreStep(w, s, e);
    assert acts[..|acts|] == acts;
    forall n | 0 <= n < |acts| + 1 ensures (s.past + [s.store])[n] == Lifetimes.StoreAfter((acts + [ActOf(e)])[..n]) {
      assert (acts + [ActOf(e)])[..n] == acts[..n];
    }
  }

  lemma RunMore(w: Setting, es: seq<Event>, e: Event)
    ensures Run(w, es + [e]) == Step(w, Run(w, es), e)
  {
    assert (es + [e])[..|es + [e]| - 1] == es;
  }

  lemma StoreStep(w: Setting, s: World, e: Event)
    ensures Step(w, s, e).past == s.past + [s.store]
    ensures Step(w, s, e).store == match ActOf(e)
                                   case Do(a) => Admission.Step(s.store, a)
                                   case Idle => s.store
                                   case Revert(k) => Invite.Reload(Saved(s, k))
  {}

  /** A chain that verifies through the coordinator's key leads back to a voucher: at some moment
      of the run its subject was linked, through earlier and earlier admissions, to the founder
      or to an operator. */
  lemma CertifiedMemberIsVouchedFor(w: Setting, es: seq<Event>, subject: string,
                                    memberSigned: Wire, issuerSigned: Wire, now: int, minEpoch: nat)
    requires GoodCodec(w.codec)
    requires VerifyMemberCert(w.codec, Run(w, es).log, w.root, subject, memberSigned, issuerSigned, now, minEpoch).Ok?
    requires VerifyIssuer(w.codec, Run(w, es).log, w.root, issuerSigned, now, minEpoch).value.1 == w.issuer
    ensures exists n: nat, path :: n <= |es| && Lifetimes.VouchedBy(Acts(es)[..n], subject, path)
  {
    NoEscalationThroughCoordinator(w, es, subject, memberSigned, issuerSigned, now, minEpoch);
    SometimeWasVouchedFor(w, es, subject);
  }

  lemma SometimeWasVouchedFor(w: Setting, es: seq<Event>, subject: string)
    requires AdmittedSometime(Run(w, es), subject)
    ensures exists n: nat, path :: n <= |es| && Lifetimes.VouchedBy(Acts(es)[..n], subject, path)
  {
    StoreIsAdmissionLife(w, es);
    assert Acts(es)[..|es|] == Acts(es);
    var n: nat := |es|;
    if subject !in Run(w, es).store.admissions {
      n :| 0 <= n < |Run(w, es).past| && subject in Run(w, es).past[n].admissions;
    }
    Lifetimes.PresentIsVouchedFor(Acts(es)[..n], subject);
  }
}
