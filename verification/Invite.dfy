/** Admission by invite: the store of invite codes and of who was admitted by whom.
    Times are nanoseconds; a persisted admission keeps whole seconds. */
module Invite {
  import opened Wrappers

  datatype Invite = Invite(issuer: string, maxUses: int, uses: int)

  datatype Admission = Admission(peerID: string, code: string, issuer: string, at: int)

  datatype Error = UnknownInvite | InviteExhausted | BootstrapClosed

  datatype Store = Store(invites: map<string, Invite>, admissions: map<string, Admission>)

  datatype AdmissionRecord = AdmissionRecord(peerID: string, code: string, issuer: string, unix: int)

  const EMPTY := Store(map[], map[])
  const SECOND := 1_000_000_000

  function Create(s: Store, code: string, issuer: string, maxUses: int): Store {
    s.(invites := s.invites[code := Invite(issuer, maxUses, 0)])
  }

  function Redeem(s: Store, code: string, peerID: string, now: int): (Result<string, Error>, Store) {
    if peerID in s.admissions then (Ok(s.admissions[peerID].issuer), s)
    else if code !in s.invites then (Err(UnknownInvite), s)
    else
      var inv := s.invites[code];
      if inv.uses >= inv.maxUses then (Err(InviteExhausted), s)
      else
        (Ok(inv.issuer),
         Store(s.invites[code := inv.(uses := inv.uses + 1)],
               s.admissions[peerID := Admission(peerID, code, inv.issuer, now)]))
  }

  function Bootstrap(s: Store, peerID: string, now: int): (Result<string, Error>, Store) {
    if peerID in s.admissions then (Ok(s.admissions[peerID].issuer), s)
    else if |s.admissions| != 0 then (Err(BootstrapClosed), s)
    else (Ok(peerID), s.(admissions := s.admissions[peerID := Admission(peerID, "", peerID, now)]))
  }

  function ToRecord(a: Admission): AdmissionRecord {
    AdmissionRecord(a.peerID, a.code, a.issuer, a.at / SECOND) // both floor: the divisor is positive
  }

  function FromRecord(r: AdmissionRecord): Admission {
    Admission(r.peerID, r.code, r.issuer, r.unix * SECOND)
  }

  function Records(s: Store): map<string, AdmissionRecord> {
    map p | p in s.admissions :: ToRecord(s.admissions[p])
  }

  function Import(s: Store, inv: map<string, Invite>, adm: map<string, AdmissionRecord>): Store {
    Store(s.invites + inv, s.admissions + map p | p in adm :: FromRecord(adm[p]))
  }

  /** A restart: what was exported is imported into an empty store. */
  function Reload(s: Store): Store {
    Import(EMPTY, s.invites, Records(s))
  }

  function WholeSecond(a: Admission): Admission {
    a.(at := a.at - a.at % SECOND)
  }

  lemma RecordRoundTrip(a: Admission)
    ensures FromRecord(ToRecord(a)) == WholeSecond(a)
    ensures ToRecord(WholeSecond(a)) == ToRecord(a)
  {
    assert a.at == a.at / SECOND * SECOND + a.at % SECOND;
    assert (a.at / SECOND * SECOND) / SECOND == a.at / SECOND;
  }

  lemma ReloadedAdmission(s: Store, p: string)
    requires p in s.admissions
    ensures Reload(s).admissions.Keys == s.admissions.Keys
    ensures Reload(s).admissions[p] == WholeSecond(s.admissions[p])
  {
    hide WholeSecond, ToRecord, FromRecord;
    RecordRoundTrip(s.admissions[p]);
  }

  lemma WholeSecondTwice(a: Admission)
    ensures WholeSecond(WholeSecond(a)) == WholeSecond(a)
  {}

  /** A restart loses nothing but fractions of a second, and a second one loses nothing. */
  lemma ReloadIsFaithful(s: Store)
    ensures Reload(s).invites == s.invites
    ensures Reload(s).admissions == map p | p in s.admissions :: WholeSecond(s.admissions[p])
    ensures Reload(Reload(s)) == Reload(s)
  {
    ReloadedInvites(s);
    ReloadedInvites(Reload(s));
    ReloadedKeys(s);
    ReloadedKeys(Reload(s));
    hide Reload, WholeSecond;
    forall p | p in s.admissions
      ensures Reload(s).admissions[p] == WholeSecond(s.admissions[p]) == Reload(Reload(s)).admissions[p]
    {
      ReloadedAdmission(s, p);
      ReloadedAdmission(Reload(s), p);
      WholeSecondTwice(s.admissions[p]);
    }
    assert Reload(Reload(s)).admissions == Reload(s).admissions;
  }

  lemma ReloadedInvites(s: Store)
    ensures Reload(s).invites == s.invites
  {}

  lemma ReloadedKeys(s: Store)
    ensures Reload(s).admissions.Keys == s.admissions.Keys
  {}

  class InviteStore {
    var invites: map<string, Invite>
    var admissions: map<string, Admission>

    ghost function View(): Store
      reads this
    {
      Store(invites, admissions)
    }

    constructor ()
      ensures View() == EMPTY
    {
      invites := map[];
      admissions := map[];
    }

    method CreateInvite(code: string, issuer: string, maxUses: int)
      modifies this
      ensures View() == Create(old(View()), code, issuer, maxUses)
      ensures invites == old(invites)[code := Invite(issuer, maxUses, 0)] && admissions == old(admissions)
    {
      invites := invites[code := Invite(issuer, maxUses, 0)];
    }

    method RedeemInvite(code: string, peerID: string, now: int) returns (r: Result<string, Error>)
      modifies this
      ensures (r, View()) == Redeem(old(View()), code, peerID, now)
    {
      if peerID in admissions {
        return Ok(admissions[peerID].issuer);
      }
      if code !in invites {
        return Err(UnknownInvite);
      }
      var inv := invites[code];
      if inv.uses >= inv.maxUses {
        return Err(InviteExhausted);
      }
      inv := inv.(uses := inv.uses + 1);
      invites := invites[code := inv];
      admissions := admissions[peerID := Admission(peerID, code, inv.issuer, now)];
      return Ok(inv.issuer);
    }

    method BootstrapFounder(peerID: string, now: int) returns (r: Result<string, Error>)
      modifies this
      ensures (r, View()) == Bootstrap(old(View()), peerID, now)
    {
      if peerID in admissions {
        return Ok(admissions[peerID].issuer);
      }
      if |admissions| != 0 {
        return Err(BootstrapClosed);
      }
      admissions := admissions[peerID := Admission(peerID, "", peerID, now)];
      return Ok(peerID);
    }

    method Export() returns (inv: map<string, Invite>, adm: map<string, AdmissionRecord>)
      ensures inv == invites && adm == Records(View())
    {
      inv, adm := map[], map[];
      var codes := invites.Keys;
      while codes != {}
        invariant codes <= invites.Keys && inv == map c | c in invites && c !in codes :: invites[c]
        decreases codes
      {
        var c :| c in codes;
        inv := inv[c := invites[c]];
        codes := codes - {c};
      }
      var peers := admissions.Keys;
      while peers != {}
        invariant peers <= admissions.Keys && inv == invites
        invariant adm == map p | p in admissions && p !in peers :: ToRecord(admissions[p])
        decreases peers
      {
        var p :| p in peers;
        adm := adm[p := ToRecord(admissions[p])];
        peers := peers - {p};
      }
    }

    method ImportRecords(inv: map<string, Invite>, adm: map<string, AdmissionRecord>)
      modifies this
      ensures View() == Import(old(View()), inv, adm)
      ensures invites == old(invites) + inv && admissions.Keys == old(admissions).Keys + adm.Keys
      ensures forall p :: p in admissions ==>
                admissions[p] == if p in adm then Admission(adm[p].peerID, adm[p].code, adm[p].issuer, adm[p].unix * 1_000_000_000)
                                 else old(admissions)[p]
    {
      ImportInvites(inv);
      ImportAdmissions(adm);
    }

    method ImportInvites(inv: map<string, Invite>)
      modifies this`invites
      ensures invites == old(invites) + inv
    {
      var codes := inv.Keys;
      while codes != {}
        invariant codes <= inv.Keys
        invariant invites.Keys == old(invites).Keys + (inv.Keys - codes)
        invariant forall c :: c in invites ==>
                    invites[c] == if c in inv && c !in codes then inv[c] else old(invites)[c]
        decreases codes
      {
        var c :| c in codes;
        invites := invites[c := inv[c]];
        codes := codes - {c};
      }
    }

    method ImportAdmissions(adm: map<string, AdmissionRecord>)
      modifies this`admissions
      ensures admissions == old(admissions) + map p | p in adm :: FromRecord(adm[p])
    {
      var peers := adm.Keys;
      while peers != {}
        invariant peers <= adm.Keys
        invariant admissions.Keys == old(admissions).Keys + (adm.Keys - peers)
        invariant forall p :: p in admissions ==>
                    admissions[p] == if p in adm && p !in peers then FromRecord(adm[p]) else old(admissions)[p]
        decreases peers
      {
        var p :| p in peers;
        admissions := admissions[p := FromRecord(adm[p])];
        peers := peers - {p};
      }
    }
  }
}
