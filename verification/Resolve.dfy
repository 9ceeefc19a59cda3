/** Two-layer discovery: fetch and verify each candidate's node record, drop the revoked, and
    refuse equivocating subjects across repeated calls. */
module Resolve {
  import opened Wrappers
  import opened Discovery
  import opened SignedText
  import opened Membership
  import opened Equivocation
  import CredentialRuns

  /** What a candidate answers; `live` says that it answered and signed the fresh nonce. */
  datatype Candidate = Candidate(id: string, live: bool, record: Wire, memberCert: Wire, issuerCert: Wire)

  datatype Setting = Setting(codec: Codec, log: SignatureLog, root: Key, self: string, now: int,
                             minEpoch: nat, genFloor: nat, safe: seq<string> -> seq<string>,
                             checkpoint: Option<Checkpoint>)

  datatype Checkpoint = Checkpoint(revokedSubjects: seq<string>, revokedIssuers: seq<string>,
                                   thisUpdate: int, maxStaleness: int) {
    predicate Revokes(cert: Cert) {
      cert.subject in revokedSubjects || cert.issuerID in revokedIssuers
    }

    predicate Stale(now: int) {
      now / SECOND > thisUpdate + maxStaleness
    }
  }

  datatype VerifiedExit = VerifiedExit(record: NodeRecord, cert: Cert,
                                       authorized: bool, eligible: bool, recommended: bool, reachable: bool)

  /** The verified record with only its dial-safe addresses, or None. */
  function Fetch(w: Setting, c: Candidate): Option<(NodeRecord, Cert)> {
    if !c.live then None
    else
      var v := VerifyNodeRecord(w.codec, w.log, w.root, c.id, c.record, c.memberCert, c.issuerCert,
                                w.now, w.minEpoch, w.genFloor);
      if v.Err? || w.safe(v.value.0.addrs) == [] then None
      else Some((v.value.0.(addrs := w.safe(v.value.0.addrs)), v.value.1))
  }

  function Stale(w: Setting): bool {
    w.checkpoint.Some? && w.checkpoint.value.Stale(w.now)
  }

  /** Fetched and not revoked. */
  function Unrevoked(w: Setting, c: Candidate): Option<(NodeRecord, Cert)> {
    if c.id == w.self then None
    else
      var f := Fetch(w, c);
      if f.Some? && w.checkpoint.Some? && w.checkpoint.value.Revokes(f.value.1) then None else f
  }

  function Observed(w: Setting, c: Candidate): Observation
    requires Unrevoked(w, c).Some?
  {
    Observation(Unrevoked(w, c).value.1.subject,
                Some(Fingerprint(c.record.value.serial, w.codec.digest(c.record.value.payload))))
  }

  function Report(w: Setting, c: Candidate): VerifiedExit
    requires Unrevoked(w, c).Some?
  {
    VerifiedExit(Unrevoked(w, c).value.0, Unrevoked(w, c).value.1, true, !Stale(w), false, true)
  }

  /** Without a guard every record is accepted. */
  ghost function Judge(window: Option<nat>, s: State, o: Observation): (Verdict, State) {
    if window.None? then (Accepted, s) else ObserveStep(window.value, s, o)
  }

  /** The results, and the state the guard is left in. */
  ghost function Resolved(w: Setting, window: Option<nat>, s: State, cs: seq<Candidate>): (seq<VerifiedExit>, State) {
    if cs == [] then ([], s)
    else
      var (out, s1) := Resolved(w, window, s, cs[..|cs| - 1]);
      var c := cs[|cs| - 1];
      if Unrevoked(w, c).None? then (out, s1)
      else
        var (verdict, s2) := Judge(window, s1, Observed(w, c));
        (if verdict.Accepted? then out + [Report(w, c)] else out, s2)
  }

  ghost function WindowOf(equiv: EquivocationGuard?): Option<nat> {
    if equiv == null then None else Some(equiv.window)
  }

  ghost function StateOf(equiv: EquivocationGuard?): State
    reads equiv
  {
    if equiv == null then EMPTY else equiv.View()
  }

  lemma UnrevokedIsVerified(w: Setting, c: Candidate)
    requires Unrevoked(w, c).Some?
    ensures c.id != w.self
    ensures var (rec, cert) := Unrevoked(w, c).value;
            && VerifyMemberCert(w.codec, w.log, w.root, c.id, c.memberCert, c.issuerCert, w.now, w.minEpoch) == Ok(cert)
            && rec.subject == c.id && rec.generation >= w.genFloor && Subset(rec.roles, cert.roles)
            && VerifyNodeRecord(w.codec, w.log, w.root, c.id, c.record, c.memberCert, c.issuerCert,
                                w.now, w.minEpoch, w.genFloor).Ok?
            && VerifyNodeRecord(w.codec, w.log, w.root, c.id, c.record, c.memberCert, c.issuerCert,
                                w.now, w.minEpoch, w.genFloor).value.0.roles == rec.roles
            && (w.checkpoint.Some? ==> !w.checkpoint.value.Revokes(cert))
  {
    hide VerifyNodeRecord, VerifyMemberCert;
    RecordCarriesCert(w.codec, w.log, w.root, c.id, c.record, c.memberCert, c.issuerCert, w.now, w.minEpoch, w.genFloor);
  }

  lemma {:induction false} ComesFrom(w: Setting, window: Option<nat>, s: State, cs: seq<Candidate>, x: VerifiedExit)
    returns (c: Candidate)
    requires x in Resolved(w, window, s, cs).0
    ensures c in cs && Unrevoked(w, c).Some? && x == Report(w, c)
  {
    hide Unrevoked, Judge, Report;
    c := cs[|cs| - 1];
    if x in Resolved(w, window, s, cs[..|cs| - 1]).0 {
      c := ComesFrom(w, window, s, cs[..|cs| - 1], x);
    }
  }

  /** What one call shows the guard. */
  function Observations(w: Setting, cs: seq<Candidate>): seq<Observation> {
    if cs == [] then []
    else
      var init, c := Observations(w, cs[..|cs| - 1]), cs[|cs| - 1];
      if Unrevoked(w, c).Some? then init + [Observed(w, c)] else init
  }

  lemma {:induction false} GuardRun(w: Setting, window: nat, s: State, cs: seq<Candidate>)
    ensures Resolved(w, Some(window), s, cs).1 == Run(window, s, Observations(w, cs))
  {
    if cs != [] {
      var init := Observations(w, cs[..|cs| - 1]);
      GuardRun(w, window, s, cs[..|cs| - 1]);
      if |Observations(w, cs)| > |init| {
        assert Observations(w, cs)[..|init|] == init;
      }
    }
  }

  /** A subject isolated before a call appears in none of its results, and so in none of any
      later call's. */
  lemma {:induction false} IsolatedNeverResolved(w: Setting, window: nat, s: State, cs: seq<Candidate>, subject: string)
    requires subject in s.isolated
    ensures subject in Resolved(w, Some(window), s, cs).1.isolated
    ensures forall x :: x in Resolved(w, Some(window), s, cs).0 ==> x.cert.subject != subject
  {
    if cs != [] {
      IsolatedNeverResolved(w, window, s, cs[..|cs| - 1], subject);
      var c := cs[|cs| - 1];
      if Unrevoked(w, c).Some? {
        IsolationIsPermanent(window, Resolved(w, Some(window), s, cs[..|cs| - 1]).1, [], subject);
      }
    }
  }

  // ------------------------------------------------------------ said outright

  /** The candidate is not ourselves, signed the nonce, verifies as `rec` under `cert` with an
      address that is safe to dial, and neither its subject nor its issuer is revoked. */
  predicate Passes(w: Setting, c: Candidate, rec: NodeRecord, cert: Cert) {
    && c.id != w.self && c.live && c.record.Some?
    && VerifyNodeRecord(w.codec, w.log, w.root, c.id, c.record, c.memberCert, c.issuerCert,
                        w.now, w.minEpoch, w.genFloor) == Ok((rec, cert))
    && w.safe(rec.addrs) != []
    && (w.checkpoint.Some? ==> cert.subject !in w.checkpoint.value.revokedSubjects
                               && cert.issuerID !in w.checkpoint.value.revokedIssuers)
  }

  ghost predicate Qualifies(w: Setting, c: Candidate) {
    exists rec, cert :: Passes(w, c, rec, cert)
  }

  /** The revocation information, if there is any, is not older than it may be. */
  predicate Fresh(w: Setting) {
    w.checkpoint.Some? ==> w.now / 1_000_000_000 <= w.checkpoint.value.thisUpdate + w.checkpoint.value.maxStaleness
  }

  /** The verified record with only the addresses that are safe to dial, and the certificate:
      authorised and reachable, never recommended, eligible if the revocation information is fresh. */
  function ReportOf(w: Setting, rec: NodeRecord, cert: Cert): VerifiedExit {
    VerifiedExit(rec.(addrs := w.safe(rec.addrs)), cert, true, Fresh(w), false, true)
  }

  ghost predicate ReportedFor(w: Setting, c: Candidate, x: VerifiedExit) {
    exists rec, cert :: Passes(w, c, rec, cert) && x == ReportOf(w, rec, cert)
  }

  /** What the guard is shown of the candidate: its subject, and which payload it signed at which generation. */
  ghost predicate ShownFor(w: Setting, c: Candidate, o: Observation) {
    exists rec, cert ::
      Passes(w, c, rec, cert)
      && o == Observation(cert.subject, Some(Fingerprint(c.record.value.serial, w.codec.digest(c.record.value.payload))))
  }

  /** `seen` is what the guard is shown of the candidates, one observation for each that qualifies. */
  ghost predicate Sees(w: Setting, cs: seq<Candidate>, seen: seq<Observation>)
    decreases |cs|
  {
    if cs == [] then seen == []
    else
      var init, c := cs[..|cs| - 1], cs[|cs| - 1];
      if Qualifies(w, c) then seen != [] && Sees(w, init, seen[..|seen| - 1]) && ShownFor(w, c, seen[|seen| - 1])
      else Sees(w, init, seen)
  }

  /** With a guard, a candidate that qualifies is also accepted by it, after what it was shown before. */
  ghost predicate GuardAccepts(w: Setting, window: Option<nat>, s: State, cs: seq<Candidate>, j: nat)
    requires j < |cs|
  {
    window.Some? ==>
      exists seen, o :: Sees(w, cs[..j], seen) && ShownFor(w, cs[j], o) && TakesNext(window.value, s, seen, o)
  }

  ghost predicate TakesNext(window: nat, s: State, seen: seq<Observation>, o: Observation) {
    ObserveStep(window, Run(window, s, seen), o).0 == Accepted
  }

  ghost predicate Takes(w: Setting, window: Option<nat>, s: State, cs: seq<Candidate>, j: nat)
    requires j < |cs|
  {
    Qualifies(w, cs[j]) && GuardAccepts(w, window, s, cs, j)
  }

  /** `out` reports the candidates at `at`, in their order: those that qualify and that the guard, if
      there is one, accepts. */
  ghost predicate Selects(w: Setting, window: Option<nat>, s: State, cs: seq<Candidate>, at: seq<nat>, out: seq<VerifiedExit>) {
    && InOrder(at, |cs|) && Reported(w, cs, at, out) && Chosen(w, window, s, cs, at)
  }

  ghost predicate InOrder(at: seq<nat>, end: nat) {
    (forall i :: 0 <= i < |at| ==> at[i] < end) && forall i, j :: 0 <= i < j < |at| ==> at[i] < at[j]
  }

  lemma InOrderMore(at: seq<nat>, n: nat)
    requires InOrder(at, n)
    ensures InOrder(at + [n], n + 1) && InOrder(at, n + 1) && n !in at
  {}

  ghost predicate Reported(w: Setting, cs: seq<Candidate>, at: seq<nat>, out: seq<VerifiedExit>) {
    |at| == |out| && forall i :: 0 <= i < |at| ==> at[i] < |cs| && ReportedFor(w, cs[at[i]], out[i])
  }

  ghost predicate Chosen(w: Setting, window: Option<nat>, s: State, cs: seq<Candidate>, at: seq<nat>) {
    forall j :: 0 <= j < |cs| ==> (j in at <==> Takes(w, window, s, cs, j))
  }

  lemma QualifiesExactly(w: Setting, c: Candidate)
    ensures Unrevoked(w, c).Some? <==> Qualifies(w, c)
    ensures forall rec, cert :: Passes(w, c, rec, cert) ==>
              Unrevoked(w, c) == Some((rec.(addrs := w.safe(rec.addrs)), cert)) && Report(w, c) == ReportOf(w, rec, cert)
    ensures Unrevoked(w, c).Some? ==> ReportedFor(w, c, Report(w, c))
    ensures Unrevoked(w, c).Some? ==> forall o :: ShownFor(w, c, o) <==> o == Observed(w, c)
  {
    var v := VerifyNodeRecord(w.codec, w.log, w.root, c.id, c.record, c.memberCert, c.issuerCert, w.now, w.minEpoch, w.genFloor);
    if v.Ok? {
      RecordWasThere(w, c);
    }
    hide VerifyNodeRecord;
    if Unrevoked(w, c).Some? {
      assert Passes(w, c, v.value.0, v.value.1);
    }
  }

  lemma RecordWasThere(w: Setting, c: Candidate)
    requires VerifyNodeRecord(w.codec, w.log, w.root, c.id, c.record, c.memberCert, c.issuerCert, w.now, w.minEpoch, w.genFloor).Ok?
    ensures c.record.Some?
  {}

  /** One more candidate adds one observation if it qualifies. */
  lemma ObservationsMore(w: Setting, cs: seq<Candidate>)
    requires cs != []
    ensures var init, c := cs[..|cs| - 1], cs[|cs| - 1];
      && (Qualifies(w, c) <==> Unrevoked(w, c).Some?)
      && Observations(w, cs) == Observations(w, init) + (if Unrevoked(w, c).Some? then [Observed(w, c)] else [])
      && (Unrevoked(w, c).Some? ==> forall o :: ShownFor(w, c, o) <==> o == Observed(w, c))
  {
    QualifiesExactly(w, cs[|cs| - 1]);
    hide Unrevoked, Observed, Qualifies, ShownFor, Report, ReportOf;
  }

  lemma SeesMore(w: Setting, cs: seq<Candidate>, seen: seq<Observation>)
    requires cs != []
    ensures var init, c := cs[..|cs| - 1], cs[|cs| - 1];
      Sees(w, cs, seen) <==>
        if Qualifies(w, c) then seen != [] && Sees(w, init, seen[..|seen| - 1]) && ShownFor(w, c, seen[|seen| - 1])
        else Sees(w, init, seen)
  {
    hide Qualifies, ShownFor;
  }

  lemma NothingSeen(w: Setting, seen: seq<Observation>)
    ensures Sees(w, [], seen) <==> seen == Observations(w, [])
  {}

  lemma {:induction false} SeesObservations(w: Setting, cs: seq<Candidate>, seen: seq<Observation>)
    ensures Sees(w, cs, seen) <==> seen == Observations(w, cs)
    decreases |cs|
  {
    hide *;
    if cs == [] {
      NothingSeen(w, seen);
    } else {
      var init, c := cs[..|cs| - 1], cs[|cs| - 1];
      ObservationsMore(w, cs);
      SeesMore(w, cs, seen);
      if Qualifies(w, c) && seen != [] {
        SeesObservations(w, init, seen[..|seen| - 1]);
        assert seen == seen[..|seen| - 1] + [seen[|seen| - 1]];
      } else {
        SeesObservations(w, init, seen);
      }
    }
  }

  lemma GuardAcceptsExactly(w: Setting, window: Option<nat>, s: State, cs: seq<Candidate>, j: nat)
    requires j < |cs| && Unrevoked(w, cs[j]).Some?
    ensures GuardAccepts(w, window, s, cs, j) <==>
              Judge(window, Resolved(w, window, s, cs[..j]).1, Observed(w, cs[j])).0 == Accepted
  {
    if window.Some? {
      var os, o := Observations(w, cs[..j]), Observed(w, cs[j]);
      QualifiesExactly(w, cs[j]);
      GuardRun(w, window.value, s, cs[..j]);
      hide ObserveStep, Run, Unrevoked, Observed, ShownFor, Sees, Observations, Resolved, Report, ReportOf;
      SeesObservations(w, cs[..j], os);
      assert TakesNext(window.value, s, os, o) ==> GuardAccepts(w, window, s, cs, j);
      if GuardAccepts(w, window, s, cs, j) {
        var seen, o' :| Sees(w, cs[..j], seen) && ShownFor(w, cs[j], o') && TakesNext(window.value, s, seen, o');
        SeesObservations(w, cs[..j], seen);
      }
    }
  }

  lemma ResolvedMore(w: Setting, window: Option<nat>, s: State, cs: seq<Candidate>)
    requires cs != []
    ensures var n := |cs| - 1;
            var out := Resolved(w, window, s, cs[..n]).0;
            Resolved(w, window, s, cs).0 ==
              if Takes(w, window, s, cs, n) then out + [Report(w, cs[n])] else out
    ensures Takes(w, window, s, cs, |cs| - 1) ==>
              Unrevoked(w, cs[|cs| - 1]).Some? && ReportedFor(w, cs[|cs| - 1], Report(w, cs[|cs| - 1]))
  {
    var n := |cs| - 1;
    QualifiesExactly(w, cs[n]);
    hide Unrevoked, Qualifies, GuardAccepts, Report, ReportOf, Judge, ReportedFor;
    if Unrevoked(w, cs[n]).Some? {
      GuardAcceptsExactly(w, window, s, cs, n);
    }
  }

  lemma TakesInPrefix(w: Setting, window: Option<nat>, s: State, cs: seq<Candidate>, n: nat, j: nat)
    requires j < n <= |cs|
    ensures Takes(w, window, s, cs[..n], j) <==> Takes(w, window, s, cs, j)
  {
    assert cs[..n][..j] == cs[..j];
  }

  lemma ReportedMore(w: Setting, cs: seq<Candidate>, at: seq<nat>, out: seq<VerifiedExit>, report: Option<VerifiedExit>)
    requires cs != [] && Reported(w, cs[..|cs| - 1], at, out)
    requires report.Some? ==> ReportedFor(w, cs[|cs| - 1], report.value)
    ensures Reported(w, cs, if report.Some? then at + [|cs| - 1] else at,
                     if report.Some? then out + [report.value] else out)
  {
    hide ReportedFor;
    var n := |cs| - 1;
    var at', out' := if report.Some? then at + [n] else at, if report.Some? then out + [report.value] else out;
    forall i | 0 <= i < |at'| ensures at'[i] < |cs| && ReportedFor(w, cs[at'[i]], out'[i]) {
      if i < |at| {
        assert ReportedFor(w, cs[..n][at[i]], out[i]);
      }
    }
  }

  lemma ChosenMore(w: Setting, window: Option<nat>, s: State, cs: seq<Candidate>, at: seq<nat>)
    requires cs != [] && Chosen(w, window, s, cs[..|cs| - 1], at) && |cs| - 1 !in at
    ensures Chosen(w, window, s, cs, if Takes(w, window, s, cs, |cs| - 1) then at + [|cs| - 1] else at)
  {
    hide Takes;
    var n := |cs| - 1;
    forall j | 0 <= j < n ensures j in at <==> Takes(w, window, s, cs, j) {
      TakesInPrefix(w, window, s, cs, n, j);
      assert j in at <==> Takes(w, window, s, cs[..n], j);
    }
  }

  /** One more candidate. */
  lemma SelectsMore(w: Setting, window: Option<nat>, s: State, cs: seq<Candidate>, at: seq<nat>, out: seq<VerifiedExit>,
                    report: Option<VerifiedExit>)
    requires cs != [] && Selects(w, window, s, cs[..|cs| - 1], at, out)
    requires report.Some? <==> Takes(w, window, s, cs, |cs| - 1)
    requires report.Some? ==> ReportedFor(w, cs[|cs| - 1], report.value)
    ensures Selects(w, window, s, cs, if report.Some? then at + [|cs| - 1] else at,
                    if report.Some? then out + [report.value] else out)
  {
    hide Takes, ReportedFor, Reported, Chosen, InOrder;
    InOrderMore(at, |cs| - 1);
    ReportedMore(w, cs, at, out, report);
    ChosenMore(w, window, s, cs, at);
  }

  lemma NothingSelected(w: Setting, window: Option<nat>, s: State)
    ensures Selects(w, window, s, [], [], Resolved(w, window, s, []).0)
  {
    hide Takes, ReportedFor;
  }

  /** For all candidates: what is resolved, without a guard or with one, is what qualifies and is
      accepted, in the order of the candidates. */
  lemma {:induction false} ResolvedExactly(w: Setting, window: Option<nat>, s: State, cs: seq<Candidate>) returns (at: seq<nat>)
    ensures Selects(w, window, s, cs, at, Resolved(w, window, s, cs).0)
    decreases |cs|
  {
    hide *;
    at := [];
    if cs == [] {
      NothingSelected(w, window, s);
    } else {
      var n := |cs| - 1;
      at := ResolvedExactly(w, window, s, cs[..n]);
      ResolvedMore(w, window, s, cs);
      if Takes(w, window, s, cs, n) {
        SelectsMore(w, window, s, cs, at, Resolved(w, window, s, cs[..n]).0, Some(Report(w, cs[n])));
        at := at + [n];
      } else {
        SelectsMore(w, window, s, cs, at, Resolved(w, window, s, cs[..n]).0, None);
      }
    }
  }

  /** Every result reports a candidate that is not ourselves, was live, verified at or above the
      floor with an address that is safe to dial, and is not revoked; it is never recommended, and
      eligible exactly when the revocation information is fresh. */
  lemma ResultsAreVerified(w: Setting, window: Option<nat>, s: State, cs: seq<Candidate>, x: VerifiedExit)
    requires x in Resolved(w, window, s, cs).0
    ensures exists c :: c in cs && ReportedFor(w, c, x) && x.record.subject == c.id
    ensures x.record.generation >= w.genFloor && Subset(x.record.roles, x.cert.roles) && x.record.addrs != []
    ensures x.authorized && x.reachable && !x.recommended && (x.eligible <==> Fresh(w))
  {
    hide Unrevoked, Resolved, VerifyNodeRecord, VerifyMemberCert;
    var c := ComesFrom(w, window, s, cs, x);
    UnrevokedIsVerified(w, c);
    QualifiesExactly(w, c);
  }

  method ResolveExits(w: Setting, cs: seq<Candidate>, equiv: EquivocationGuard?)
    returns (out: seq<VerifiedExit>, ghost at: seq<nat>, ghost seen: seq<Observation>)
    modifies equiv
    ensures Selects(w, WindowOf(equiv), old(StateOf(equiv)), cs, at, out)
    ensures Sees(w, cs, seen) && (equiv != null ==> equiv.View() == Run(equiv.window, old(equiv.View()), seen))
    ensures (out, StateOf(equiv)) == Resolved(w, WindowOf(equiv), old(StateOf(equiv)), cs)
  {
    var stale := w.checkpoint.Some? && w.checkpoint.value.Stale(w.now);
    out := [];
    for i := 0 to |cs|
      invariant (out, StateOf(equiv)) == Resolved(w, WindowOf(equiv), old(StateOf(equiv)), cs[..i])
    {
      var c := cs[i];
      assert cs[..i + 1][..i] == cs[..i];
      if c.id == w.self {
        continue;
      }
      var f := Fetch(w, c);
      if f.None? {
        continue;
      }
      if w.checkpoint.Some? && w.checkpoint.value.Revokes(f.value.1) {
        continue;
      }
      if equiv != null {
        var verdict := equiv.Observe(
          Observation(f.value.1.subject, Some(Fingerprint(c.record.value.serial, w.codec.digest(c.record.value.payload)))));
        if !verdict.Accepted? {
          continue;
        }
      }
      out := out + [VerifiedExit(f.value.0, f.value.1, true, !stale, false, true)];
    }
    assert cs[..|cs|] == cs;
    at := ResolvedExactly(w, WindowOf(equiv), old(StateOf(equiv)), cs);
    seen := Observations(w, cs);
    SeesObservations(w, cs, seen);
    if equiv != null {
      GuardRun(w, equiv.window, old(equiv.View()), cs);
    }
  }

  // ------------------------------------------------------------- honest nodes

  /** One call of the resolver; all calls share the guard. */
  datatype Call = Call(w: Setting, cs: seq<Candidate>)

  /** The guard after the calls. */
  ghost function After(window: nat, calls: seq<Call>): State {
    if calls == [] then EMPTY
    else
      var last := calls[|calls| - 1];
      Resolved(last.w, Some(window), After(window, calls[..|calls| - 1]), last.cs).1
  }

  function Shown(calls: seq<Call>): seq<Observation> {
    if calls == [] then []
    else Shown(calls[..|calls| - 1]) + Observations(calls[|calls| - 1].w, calls[|calls| - 1].cs)
  }

  lemma {:induction false} AfterIsRun(window: nat, calls: seq<Call>)
    ensures After(window, calls) == Run(window, EMPTY, Shown(calls))
  {
    hide Run, Resolved, Observations;
    if calls == [] {
      NothingRun(window);
    } else {
      var init, last := calls[..|calls| - 1], calls[|calls| - 1];
      AfterIsRun(window, init);
      GuardRun(last.w, window, After(window, init), last.cs);
      RunSplits(window, EMPTY, Shown(init), Observations(last.w, last.cs));
    }
  }

  lemma NothingRun(window: nat)
    ensures Run(window, EMPTY, []) == EMPTY
  {}

  /** The key has signed a node record of this generation with this payload digest. */
  ghost predicate SignedRecord(log: SignatureLog, key: Key, generation: nat, hash: string) {
    exists issued, expires, epoch: nat ::
      (key, DiscoveryText(TYPE_NODE_RECORD, generation, issued, expires, epoch, hash)) in log
  }

  /** The node's key signs one payload per generation, whatever else it signs and however often. */
  ghost predicate HonestNode(c: Codec, log: SignatureLog, subject: string) {
    c.peerKey(subject).Some? &&
    forall generation: nat, hash, hash' ::
      && SignedRecord(log, c.peerKey(subject).value, generation, hash)
      && SignedRecord(log, c.peerKey(subject).value, generation, hash')
      ==> hash == hash'
  }

  /** What the guard is shown about a subject is what that subject's key has signed. */
  ghost predicate Backed(c: Codec, log: SignatureLog, o: Observation) {
    && o.mark.Some? && c.peerKey(o.subject).Some?
    && SignedRecord(log, c.peerKey(o.subject).value, o.mark.value.generation, o.mark.value.hash)
  }

  /** The calls use one codec and verify against signatures of one log. */
  ghost predicate Within(w: Setting, c: Codec, log: SignatureLog) {
    w.codec == c && w.log <= log
  }

  lemma ObservedIsBacked(w: Setting, x: Candidate, c: Codec, log: SignatureLog)
    requires Within(w, c, log) && Unrevoked(w, x).Some?
    ensures Backed(c, log, Observed(w, x)) && Observed(w, x).subject == x.id
  {
    hide DiscoveryText, VerifyNodeRecord;
    RecordIsLogged(w.codec, w.log, w.root, x.id, x.record, x.memberCert, x.issuerCert, w.now, w.minEpoch, w.genFloor);
  }

  lemma {:induction false} ObservationsAreBacked(w: Setting, cs: seq<Candidate>, c: Codec, log: SignatureLog)
    requires Within(w, c, log)
    ensures forall o :: o in Observations(w, cs) ==> Backed(c, log, o)
  {
    hide Unrevoked, Observed, Backed;
    if cs != [] {
      ObservationsAreBacked(w, cs[..|cs| - 1], c, log);
      if Unrevoked(w, cs[|cs| - 1]).Some? {
        ObservedIsBacked(w, cs[|cs| - 1], c, log);
      }
    }
  }

  lemma {:induction false} ShownIsBacked(calls: seq<Call>, c: Codec, log: SignatureLog)
    requires forall i :: 0 <= i < |calls| ==> Within(calls[i].w, c, log)
    ensures forall o :: o in Shown(calls) ==> Backed(c, log, o)
  {
    hide Observations, Backed, Within;
    if calls != [] {
      ShownIsBacked(calls[..|calls| - 1], c, log);
      ObservationsAreBacked(calls[|calls| - 1].w, calls[|calls| - 1].cs, c, log);
    }
  }

  lemma HonestShowsOnePayload(c: Codec, log: SignatureLog, os: seq<Observation>, subject: string)
    requires HonestNode(c, log, subject) && forall o :: o in os ==> Backed(c, log, o)
    ensures OnePayloadPerGeneration(os, subject)
  {
    hide SignedRecord;
    forall i, j | && 0 <= i < |os| && 0 <= j < |os| && os[i].subject == subject == os[j].subject
                  && os[i].mark.Some? && os[j].mark.Some?
                  && os[i].mark.value.generation == os[j].mark.value.generation
      ensures os[i].mark == os[j].mark
    {
      assert Backed(c, log, os[i]) && Backed(c, log, os[j]);
    }
  }

  /** Over any sequence of calls, whatever the candidates answer and replay: a node whose key signs
      one payload per generation is never isolated. */
  lemma HonestNodeIsNeverIsolated(window: nat, calls: seq<Call>, c: Codec, log: SignatureLog, subject: string)
    requires HonestNode(c, log, subject) && forall i :: 0 <= i < |calls| ==> Within(calls[i].w, c, log)
    ensures subject !in After(window, calls).isolated
  {
    hide After, Run, Shown, Backed, OnePayloadPerGeneration, HonestNode;
    AfterIsRun(window, calls);
    ShownIsBacked(calls, c, log);
    HonestShowsOnePayload(c, log, Shown(calls), subject);
    HonestIsNeverIsolated(window, Shown(calls), subject);
  }

  lemma {:induction false} ResultsGrow(w: Setting, window: Option<nat>, s: State, cs: seq<Candidate>, k: nat)
    requires k <= |cs|
    ensures Resolved(w, window, s, cs[..k]).0 <= Resolved(w, window, s, cs).0
    decreases |cs|
  {
    hide Unrevoked, Judge, Report, Observed;
    if k == |cs| {
      assert cs[..k] == cs;
    } else {
      assert cs[..|cs| - 1][..k] == cs[..k];
      ResultsGrow(w, window, s, cs[..|cs| - 1], k);
    }
  }

  /** And after any such calls it is resolved: each candidate of the next call that bears its ID, is
      live, verifies unrevoked and has an address that is safe to dial is among the results. */
  lemma HonestNodeIsResolved(window: nat, calls: seq<Call>, c: Codec, log: SignatureLog, subject: string,
                             w: Setting, cs: seq<Candidate>, n: nat, rec: NodeRecord, cert: Cert)
    requires HonestNode(c, log, subject) && forall i :: 0 <= i < |calls| ==> Within(calls[i].w, c, log)
    requires Within(w, c, log) && n < |cs| && cs[n].id == subject && Passes(w, cs[n], rec, cert)
    ensures ReportOf(w, rec, cert) in Resolved(w, Some(window), After(window, calls), cs).0
  {
    hide *;
    var init, x := cs[..n], cs[n];
    PassesIsUnrevoked(w, x, rec, cert);
    var os := Shown(calls) + Observations(w, init);
    StateIsRun(window, calls, w, init);
    assert forall o :: o in os ==> Backed(c, log, o) by {
      ShownIsBacked(calls, c, log);
      ObservationsAreBacked(w, init, c, log);
    }
    ObservedIsBacked(w, x, c, log);
    HonestIsAcceptedNext(window, c, log, os, Observed(w, x));
    assert cs[..n + 1] == init + [x];
    ResolvedNext(w, window, After(window, calls), init, x);
    ResultsGrow(w, Some(window), After(window, calls), cs, n + 1);
  }

  lemma PassesIsUnrevoked(w: Setting, c: Candidate, rec: NodeRecord, cert: Cert)
    requires Passes(w, c, rec, cert)
    ensures Unrevoked(w, c).Some? && Report(w, c) == ReportOf(w, rec, cert)
  {
    hide Passes, Unrevoked, Report, ReportOf;
    QualifiesExactly(w, c);
  }

  lemma StateIsRun(window: nat, calls: seq<Call>, w: Setting, cs: seq<Candidate>)
    ensures Resolved(w, Some(window), After(window, calls), cs).1
         == Run(window, EMPTY, Shown(calls) + Observations(w, cs))
  {
    hide *;
    AfterIsRun(window, calls);
    GuardRun(w, window, After(window, calls), cs);
    RunSplits(window, EMPTY, Shown(calls), Observations(w, cs));
  }

  lemma HonestIsAcceptedNext(window: nat, c: Codec, log: SignatureLog, os: seq<Observation>, o: Observation)
    requires HonestNode(c, log, o.subject) && Backed(c, log, o) && forall p :: p in os ==> Backed(c, log, p)
    ensures ObserveStep(window, Run(window, EMPTY, os), o).0 == Accepted
  {
    hide ObserveStep, Run, HonestNode;
    HonestShowsOnePayload(c, log, os, o.subject);
    HonestShowsOnePayload(c, log, os + [o], o.subject);
    HonestIsNeverIsolated(window, os, o.subject);
    HonestIsAccepted(window, os, o);
  }

  lemma ResolvedNext(w: Setting, window: nat, s: State, cs: seq<Candidate>, x: Candidate)
    requires Unrevoked(w, x).Some?
    requires ObserveStep(window, Resolved(w, Some(window), s, cs).1, Observed(w, x)).0 == Accepted
    ensures Report(w, x) in Resolved(w, Some(window), s, cs + [x]).0
  {
    hide Unrevoked, Report, Observed, ObserveStep;
    assert (cs + [x])[..|cs + [x]| - 1] == cs;
    var out := Resolved(w, Some(window), s, cs).0;
    assert Resolved(w, Some(window), s, cs + [x]).0 == out + [Report(w, x)];
  }

  // -------------------------------------------------------------- exit authority

  /** The system that the resolver looks at is a run of the credential system. */
  ghost predicate Watches(w: Setting, cw: CredentialRuns.Setting, es: seq<CredentialRuns.Event>) {
    GoodCodec(cw.codec) && w.codec == cw.codec && w.root == cw.root && w.log == CredentialRuns.Run(cw, es).log
  }

  /** The candidate's chain goes through a key other than the coordinator's, and the root made
      `ic` for that key. */
  predicate RestsOn(cw: CredentialRuns.Setting, w: Setting, c: Candidate, ic: IssuerCert, cert: Cert) {
    var v := VerifyIssuer(w.codec, w.log, w.root, c.issuerCert, w.now, w.minEpoch);
    v.Ok? && v.value.1 != cw.issuer && CredentialRuns.Backs(cw, ic, v.value.1, cert)
  }

  lemma UnrevokedExitIsRootAuthorised(cw: CredentialRuns.Setting, es: seq<CredentialRuns.Event>, w: Setting, c: Candidate)
    requires Watches(w, cw, es) && Unrevoked(w, c).Some? && EXIT in Unrevoked(w, c).value.0.roles
    ensures EXIT in Unrevoked(w, c).value.1.roles
    ensures exists ic :: ic in CredentialRuns.Run(cw, es).certified && RestsOn(cw, w, c, ic, Unrevoked(w, c).value.1)
  {
    hide VerifyNodeRecord, VerifyMemberCert, Unrevoked, VerifyIssuer;
    UnrevokedIsVerified(w, c);
    CredentialRuns.ExitTracesToOtherIssuer(cw, es, c.id, c.record, c.memberCert, c.issuerCert,
                                           w.now, w.minEpoch, w.genFloor);
    var cert := Unrevoked(w, c).value.1;
    var key := VerifyIssuer(w.codec, w.log, w.root, c.issuerCert, w.now, w.minEpoch).value.1;
    var ic :| ic in CredentialRuns.Run(cw, es).certified && CredentialRuns.Backs(cw, ic, key, cert);
    assert RestsOn(cw, w, c, ic, cert);
  }

  /** In a run of the credential system, a resolved exit that advertises the exit role comes from
      a candidate whose own chain rests on the root's grant of exit to the key that signed its
      certificate, a key other than the coordinator's. */
  lemma ResolvedExitIsRootAuthorised(cw: CredentialRuns.Setting, es: seq<CredentialRuns.Event>,
                                     w: Setting, window: Option<nat>, s: State, cs: seq<Candidate>, x: VerifiedExit)
    requires Watches(w, cw, es) && x in Resolved(w, window, s, cs).0 && EXIT in x.record.roles
    ensures EXIT in x.cert.roles
    ensures exists c, ic :: c in cs && c.id == x.record.subject && ic in CredentialRuns.Run(cw, es).certified
                            && RestsOn(cw, w, c, ic, x.cert)
  {
    var c := ComesFrom(w, window, s, cs, x);
    UnrevokedIsVerified(w, c);
    UnrevokedExitIsRootAuthorised(cw, es, w, c);
  }
}
