/** The coordinator's guarded steps, over the stores they guard. */
module Coordinator {
  import opened Wrappers
  import opened SignedText
  import opened Discovery
  import opened Membership
  import Authn
  import Replay
  import Invite
  import Admission
  import Anomaly
  import CredentialRuns
  import ClientRuns

  const DIRECTORY_TTL := 24 * 3600 * SECOND

  datatype JoinResponse = JoinResponse(issuer: string, memberCert: Option<Signed>, issuerCert: Option<string>)

  datatype Refusal =
    | Unauthorized(why: Replay.AuthError) | TooManyIdentities | NotAdmitted(reason: Invite.Error)
    | BadMaxUses | OnlyMembers | NoRandomness

  /** The founder's door or an invite. */
  function Door(s: Invite.Store, code: string, founding: bool, peerID: string, now: int): Result<string, Invite.Error> {
    if code == "" && founding then Invite.Bootstrap(s, peerID, now).0 else Invite.Redeem(s, code, peerID, now).0
  }

  /** A join step of the credential run, in two cases: nothing is signed, or one certificate. */
  lemma JoinStep(w: CredentialRuns.Setting, s: CredentialRuns.World, code: string, peerID: string, founding: bool,
                 issuerID: string, now: int)
    ensures var after := CredentialRuns.AfterJoin(w, s, CredentialRuns.JoinPeer(code, peerID, founding, issuerID, now));
            var store := Admission.Step(s.store, Admission.Join(code, peerID, founding, now));
            var cert := SignMemberCert(w.codec, w.issuer, peerID, issuerID, [MEMBER], now,
                                       now + CredentialRuns.MEMBER_CERT_TTL, s.memberSerial + 1, 0);
            after == if Door(s.store, code, founding, peerID, now).Err? then s.(store := store)
                     else CredentialRuns.World(Logged(w.codec.digest, s.log, w.issuer, cert), store,
                                               s.memberSerial + 1, s.certified, s.past)
  {
    hide SignMemberCert, Logged, Invite.Bootstrap, Invite.Redeem;
  }

  class Server {
    const codec: Codec
    const encoding: Authn.Encoding
    const invites: Invite.InviteStore
    var sybil: Anomaly.Detector?
    var seenSigs: Replay.Table
    var founding: bool
    var issuerKey: Option<Key>
    var issuerCert: string
    var issuerID: string
    var memberSerial: nat
    var signKey: Option<Key>
    var dirSerial: nat
    var relaySerial: nat
    /** Every signature made so far by anyone: what verification consults in this model. */
    var log: SignatureLog

    constructor (codec: Codec, encoding: Authn.Encoding, invites: Invite.InviteStore)
      ensures this.codec == codec && this.encoding == encoding && this.invites == invites
      ensures sybil == null && seenSigs == map[] && !founding && issuerKey == None && signKey == None
      ensures memberSerial == dirSerial == relaySerial == 0 && log == {}
    {
      this.codec, this.encoding, this.invites := codec, encoding, invites;
      sybil, seenSigs, founding := null, map[], false;
      issuerKey, issuerCert, issuerID, memberSerial := None, "", "", 0;
      signKey, dirSerial, relaySerial := None, 0, 0;
      log := {};
    }

    // ------------------------------------------------------- request checking

    method SeenSignature(sig: string, now: int) returns (seen: bool)
      modifies this`seenSigs
      ensures (seen, seenSigs) == Replay.SeenStep(old(seenSigs), sig, now)
    {
      if sig in seenSigs && now < seenSigs[sig] {
        return true;
      }
      seenSigs := seenSigs[sig := now + Replay.MAX_SKEW];
      ghost var all := seenSigs;
      if |seenSigs| > 1 {
        var todo := seenSigs.Keys;
        while todo != {}
          invariant todo <= all.Keys
          invariant forall s :: s in seenSigs <==> s in all && (s in todo || now < all[s])
          invariant forall s :: s in seenSigs ==> seenSigs[s] == all[s]
          decreases todo
        {
          var s :| s in todo;
          if !(now < seenSigs[s]) {
            seenSigs := seenSigs - {s};
          }
          todo := todo - {s};
        }
      }
      assert seenSigs == Replay.Prune(all, now);
      return false;
    }

    method CheckAuth(a: Replay.Attempt) returns (r: Result<(), Replay.AuthError>)
      modifies this`seenSigs
      ensures (r, seenSigs) == Replay.CheckStep(encoding, log, old(seenSigs), a)
    {
      if a.auth.peerID != a.claimed {
        return Err(Replay.PeerMismatch);
      }
      var v := Authn.Verify(encoding, log, a.auth, a.action, a.now, Replay.MAX_SKEW);
      if v.Err? {
        return Err(Replay.Rejected(v.error));
      }
      var seen := SeenSignature(a.auth.signature, a.now);
      if seen {
        return Err(Replay.Replayed);
      }
      return Ok(());
    }

    // ------------------------------------------------------------------- join

    method IssueMemberCert(subject: string, now: int) returns (cert: Option<Signed>)
      modifies this`memberSerial, this`log
      ensures issuerKey.None? ==> cert == None && memberSerial == old(memberSerial) && log == old(log)
      ensures issuerKey.Some? ==>
                && memberSerial == old(memberSerial) + 1
                && cert == Some(SignMemberCert(codec, issuerKey.value, subject, issuerID, [MEMBER], now,
                                               now + CredentialRuns.MEMBER_CERT_TTL, memberSerial, 0))
                && log == Logged(codec.digest, old(log), issuerKey.value, cert.value)
    {
      if issuerKey.None? {
        return None;
      }
      memberSerial := memberSerial + 1;
      var s := SignMemberCert(codec, issuerKey.value, subject, issuerID, [MEMBER], now,
                              now + CredentialRuns.MEMBER_CERT_TTL, memberSerial, 0);
      log := Logged(codec.digest, log, issuerKey.value, s);
      return Some(s);
    }

    /** What an admitted peer is answered once the step is done: who vouched for it, and with an
        issuer configured the certificate of the present serial and the issuer's own. */
    ghost function Response(peerID: string, now: int): JoinResponse
      requires peerID in invites.admissions
      reads this, invites
    {
      var issuer := invites.admissions[peerID].issuer;
      if issuerKey.None? then JoinResponse(issuer, None, None)
      else
        JoinResponse(issuer,
                     Some(SignMemberCert(codec, issuerKey.value, peerID, issuerID, [MEMBER], now,
                                         now + CredentialRuns.MEMBER_CERT_TTL, memberSerial, 0)),
                     Some(issuerCert))
    }

    /** Through the founder's door or by an invite: one join step of the admission run. */
    method Enter(code: string, peerID: string, now: int) returns (r: Result<string, Invite.Error>)
      modifies invites
      ensures r == Door(old(invites.View()), code, founding, peerID, now)
      ensures invites.View() == Admission.Step(old(invites.View()), Admission.Join(code, peerID, founding, now))
      ensures r.Ok? <==> peerID in invites.admissions
      ensures r.Ok? ==> r.value == invites.admissions[peerID].issuer
      ensures r.Err? ==> invites.View() == old(invites.View())
    {
      if code == "" && founding {
        r := invites.BootstrapFounder(peerID, now);
      } else {
        r := invites.RedeemInvite(code, peerID, now);
      }
    }

    /** The admission itself: exactly one join step of the admission run and of the credential run,
        there with a certificate if an issuer is configured and without one otherwise. */
    method Admit(code: string, peerID: string, now: int, ghost root: Key, ghost certified: set<IssuerCert>,
                 ghost past: seq<Invite.Store>)
      returns (r: Result<JoinResponse, Refusal>)
      modifies this`memberSerial, this`log, invites
      ensures invites.View() == Admission.Step(old(invites.View()), Admission.Join(code, peerID, founding, now))
      ensures r.Ok? <==> peerID in invites.admissions
      ensures r.Ok? ==> r.value == Response(peerID, now)
      ensures r.Err? ==> r.error.NotAdmitted?
                         && Door(old(invites.View()), code, founding, peerID, now) == Err(r.error.reason)
                         && log == old(log) && memberSerial == old(memberSerial)
                         && invites.View() == old(invites.View())
      ensures issuerKey.None? ==>
                && log == old(log) && memberSerial == old(memberSerial)
                && forall issuer: Key ::
                     CredentialRuns.World(log, invites.View(), memberSerial, certified, past)
                     == CredentialRuns.Effect(CredentialRuns.Setting(codec, root, issuer),
                          CredentialRuns.World(old(log), old(invites.View()), old(memberSerial), certified, past),
                          CredentialRuns.Manage(Admission.Join(code, peerID, founding, now)))
      ensures issuerKey.Some? ==>
                CredentialRuns.World(log, invites.View(), memberSerial, certified, past)
                == CredentialRuns.AfterJoin(CredentialRuns.Setting(codec, root, issuerKey.value),
                     CredentialRuns.World(old(log), old(invites.View()), old(memberSerial), certified, past),
                     CredentialRuns.JoinPeer(code, peerID, founding, issuerID, now))
    {
      if issuerKey.Some? {
        JoinStep(CredentialRuns.Setting(codec, root, issuerKey.value),
                 CredentialRuns.World(log, invites.View(), memberSerial, certified, past), code, peerID, founding, issuerID, now);
      }
      var admitted := Enter(code, peerID, now);
      if admitted.Err? {
        return Err(NotAdmitted(admitted.error));
      }
      var cert := IssueMemberCert(peerID, now);
      return Ok(JoinResponse(admitted.value, cert, if cert.Some? then Some(issuerCert) else None));
    }

    /** Is the source flagged after this observation? */
    method Flagged(clientIP: string, peerID: string, now: int) returns (flagged: bool)
      modifies if sybil == null then {} else {sybil}
      ensures sybil == null ==> !flagged
      ensures sybil != null ==>
                (flagged, sybil.seen) == Anomaly.ObserveStep(sybil.config, old(sybil.seen), clientIP, peerID, now)
    {
      flagged := false;
      if sybil != null {
        flagged := sybil.Observe(clientIP, peerID, now);
      }
    }

    /** The request passes authentication and is not flagged as one of too many identities. */
    ghost predicate Passes(a: Replay.Attempt, clientIP: string)
      reads this, sybil
    {
      && Replay.CheckStep(encoding, log, seenSigs, a).0.Ok?
      && (sybil != null ==>
            !Anomaly.ObserveStep(sybil.config, sybil.seen, clientIP, a.claimed, a.now).0)
    }

    /** A request that does not pass admits nobody and signs nothing; one that passes is exactly
        one join step of the runs. */
    method HandleJoin(code: string, peerID: string, auth: Authn.SignedAuth, clientIP: string, now: int,
                      ghost root: Key, ghost certified: set<IssuerCert>, ghost past: seq<Invite.Store>)
      returns (r: Result<JoinResponse, Refusal>)
      modifies this`seenSigs, this`memberSerial, this`log, invites, if sybil == null then {} else {sybil}
      ensures seenSigs == old(Replay.CheckStep(encoding, log, seenSigs, Replay.Attempt(auth, "join", peerID, now)).1)
      ensures r.Err? && r.error.Unauthorized? <==>
                old(Replay.CheckStep(encoding, log, seenSigs, Replay.Attempt(auth, "join", peerID, now)).0.Err?)
      ensures !old(Passes(Replay.Attempt(auth, "join", peerID, now), clientIP)) ==>
                && r.Err? && !r.error.NotAdmitted?
                && invites.View() == old(invites.View()) && log == old(log) && memberSerial == old(memberSerial)
      ensures old(Passes(Replay.Attempt(auth, "join", peerID, now), clientIP)) ==>
                && invites.View() == Admission.Step(old(invites.View()), Admission.Join(code, peerID, founding, now))
                && (r.Ok? <==> peerID in invites.admissions)
                && (r.Ok? ==> r.value == Response(peerID, now))
                && (r.Err? ==> r.error.NotAdmitted?)
                && (issuerKey.None? ==> log == old(log) && memberSerial == old(memberSerial))
                && (issuerKey.Some? ==>
                      CredentialRuns.World(log, invites.View(), memberSerial, certified, past)
                      == CredentialRuns.AfterJoin(CredentialRuns.Setting(codec, root, issuerKey.value),
                           CredentialRuns.World(old(log), old(invites.View()), old(memberSerial), certified, past),
                           CredentialRuns.JoinPeer(code, peerID, founding, issuerID, now)))
    {
      ghost var passes := Passes(Replay.Attempt(auth, "join", peerID, now), clientIP);
      var checked := CheckAuth(Replay.Attempt(auth, "join", peerID, now));
      if checked.Err? {
        return Err(Unauthorized(checked.error));
      }
      var flagged := Flagged(clientIP, peerID, now);
      assert passes == !flagged;
      if flagged {
        return Err(TooManyIdentities);
      }
      r := Admit(code, peerID, now, root, certified, past);
    }

    // ---------------------------------------------------------------- inviting

    /** The number of uses asked for is part of what the caller signs. */
    static function Minting(auth: Authn.SignedAuth, maxUses: int, now: int): Replay.Attempt {
      Replay.Attempt(auth, "invite/create:" + SignedDecimal(maxUses), auth.peerID, now)
    }

    ghost predicate MayAsk(auth: Authn.SignedAuth, maxUses: int, now: int)
      reads this
    {
      1 <= maxUses <= 1000 && Replay.CheckStep(encoding, log, seenSigs, Minting(auth, maxUses, now)).0.Ok?
    }

    /** The first code drawn that is not in use; running out of draws stands for a failing source
        of randomness. */
    method DrawCode(draws: seq<string>) returns (code: Option<string>)
      ensures code.None? <==> forall d :: d in draws ==> d in invites.invites
      ensures code.Some? ==>
                exists i :: 0 <= i < |draws| && draws[i] == code.value && code.value !in invites.invites
                            && forall k :: 0 <= k < i ==> draws[k] in invites.invites
    {
      for i := 0 to |draws|
        invariant forall k :: 0 <= k < i ==> draws[k] in invites.invites
      {
        if draws[i] !in invites.invites {
          return Some(draws[i]);
        }
      }
      return None;
    }

    /** `draws` are the random codes drawn, in order. A request that passes is exactly one mint step of the admission run. */
    method HandleCreateInvite(maxUses: int, auth: Authn.SignedAuth, draws: seq<string>, now: int)
      returns (r: Result<string, Refusal>)
      requires forall d :: d in draws ==> d != ""
      modifies this`seenSigs, invites
      ensures r == Err(BadMaxUses) <==> !(1 <= maxUses <= 1000)
      ensures r == Err(BadMaxUses) ==> seenSigs == old(seenSigs)
      ensures r != Err(BadMaxUses) ==> seenSigs == old(Replay.CheckStep(encoding, log, seenSigs, Minting(auth, maxUses, now)).1)
      ensures r.Err? && r.error.Unauthorized? <==>
                1 <= maxUses <= 1000 && old(Replay.CheckStep(encoding, log, seenSigs, Minting(auth, maxUses, now)).0.Err?)
      ensures r == Err(OnlyMembers) <==> old(MayAsk(auth, maxUses, now)) && auth.peerID !in old(invites.admissions)
      ensures r.Ok? || r == Err(NoRandomness) <==> old(MayAsk(auth, maxUses, now)) && auth.peerID in old(invites.admissions)
      ensures r == Err(NoRandomness) ==> forall d :: d in draws ==> d in old(invites.invites)
      ensures r.Ok? ==>
                && r.value in draws && r.value !in old(invites.invites)
                && invites.View() == Admission.Step(old(invites.View()), Admission.Mint(auth.peerID, r.value, maxUses))
                && invites.View() == Invite.Create(old(invites.View()), r.value, auth.peerID, maxUses)
                && Admission.Registers(old(invites.View()), Admission.Mint(auth.peerID, r.value, maxUses),
                                       r.value, auth.peerID, maxUses)
      ensures r.Err? ==> invites.View() == old(invites.View())
    {
      if maxUses < 1 || maxUses > 1000 {
        return Err(BadMaxUses);
      }
      var checked := CheckAuth(Minting(auth, maxUses, now));
      if checked.Err? {
        return Err(Unauthorized(checked.error));
      }
      if auth.peerID !in invites.admissions {
        return Err(OnlyMembers);
      }
      var code := DrawCode(draws);
      if code.None? {
        return Err(NoRandomness);
      }
      invites.CreateInvite(code.value, auth.peerID, maxUses);
      return Ok(code.value);
    }

    // ----------------------------------------------------------------- signing

    /** The next publication of the directory, as the clients' runs see it. */
    method SignDirectory(payload: string, now: int) returns (r: Option<Signed>)
      modifies this`dirSerial, this`log
      ensures signKey.None? ==> r == None && dirSerial == old(dirSerial) && log == old(log)
      ensures signKey.Some? ==>
                && dirSerial == old(dirSerial) + 1
                && r == Some(ClientRuns.Published(ClientRuns.Setting(codec.digest, signKey.value, TYPE_DIRECTORY),
                                                  dirSerial, payload, now, DIRECTORY_TTL))
                && log == Logged(codec.digest, old(log), signKey.value, r.value)
                && r.value.typ == "directory" && r.value.serial == dirSerial && r.value.payload == payload
                && r.value.expiresAt == (now + 24 * 3600 * SECOND) / SECOND
    {
      if signKey.None? {
        return None;
      }
      dirSerial := dirSerial + 1;
      var s := Sign(codec.digest, signKey.value, Meta(TYPE_DIRECTORY, dirSerial, now, now + DIRECTORY_TTL, 0), payload);
      log := Logged(codec.digest, log, signKey.value, s);
      return Some(s);
    }

    /** The relay's own counter, under the same key: a different type, so neither kind of object
        can stand in for the other. */
    method SignRelay(payload: string, now: int) returns (r: Option<Signed>)
      modifies this`relaySerial, this`log
      ensures signKey.None? ==> r == None && relaySerial == old(relaySerial) && log == old(log)
      ensures signKey.Some? ==>
                && relaySerial == old(relaySerial) + 1
                && r == Some(ClientRuns.Published(ClientRuns.Setting(codec.digest, signKey.value, TYPE_RELAY),
                                                  relaySerial, payload, now, DIRECTORY_TTL))
                && log == Logged(codec.digest, old(log), signKey.value, r.value)
                && r.value.typ == "relay" && r.value.serial == relaySerial && r.value.payload == payload
                && r.value.expiresAt == (now + 24 * 3600 * SECOND) / SECOND
    {
      if signKey.None? {
        return None;
      }
      relaySerial := relaySerial + 1;
      var s := Sign(codec.digest, signKey.value, Meta(TYPE_RELAY, relaySerial, now, now + DIRECTORY_TTL, 0), payload);
      log := Logged(codec.digest, log, signKey.value, s);
      return Some(s);
    }
  }
}
