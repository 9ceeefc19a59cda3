/** Whole runs of the admission side of the coordinator: seeding and minting invites,
    joining, and restarting from a snapshot. */
module Admission {
  import opened Wrappers
  import opened Invite

  const MAX_MINTED_USES := 1000

  datatype Event =
    | Seed(code: string, issuer: string, uses: int)           // at start, from the operator's flags
    | Mint(caller: string, code: string, maxUses: int)        // an authenticated caller
    | Join(code: string, peerID: string, founding: bool, now: int)
    | Restart

  /** Who may do what: the guards of the start-up code and of the two handlers. */
  function Step(s: Store, e: Event): Store {
    match e
    case Seed(code, issuer, uses) =>
      if code != "" && code !in s.invites then Create(s, code, issuer, uses) else s
    case Mint(caller, code, maxUses) =>
      if 1 <= maxUses <= MAX_MINTED_USES && caller in s.admissions && code != "" && code !in s.invites then
        Create(s, code, caller, maxUses)
      else s
    case Join(code, peerID, founding, now) =>
      if code == "" && founding then Bootstrap(s, peerID, now).1 else Redeem(s, code, peerID, now).1
    case Restart => Reload(s)
  }

  function Run(es: seq<Event>): Store {
    if es == [] then EMPTY else Step(Run(es[..|es| - 1]), es[|es| - 1])
  }

  // ---------------------------------------------------------- conserved uses

  function AdmittedWith(s: Store, code: string): set<string> {
    set p | p in s.admissions && s.admissions[p].code == code
  }

  /** Every use of the code is one recorded admission. */
  ghost predicate CodeBalances(s: Store, c: string)
    requires c in s.invites
  {
    && s.invites[c].uses == |AdmittedWith(s, c)|
    && (s.invites[c].uses == 0 || s.invites[c].uses <= s.invites[c].maxUses)
  }

  /** An admission by code carries the issuer that the code was made by, any other its own name. */
  ghost predicate AdmissionTraces(s: Store, p: string)
    requires p in s.admissions
  {
    var a := s.admissions[p];
    && a.peerID == p
    && (a.code != "" ==> a.code in s.invites && a.issuer == s.invites[a.code].issuer)
    && (a.code == "" ==> a.issuer == p)
  }

  ghost predicate Books(s: Store) {
    && "" !in s.invites
    && (forall c :: c in s.invites ==> CodeBalances(s, c))
    && (forall p :: p in s.admissions ==> AdmissionTraces(s, p))
  }

  lemma CreateKeepsBooks(s: Store, code: string, issuer: string, maxUses: int)
    requires Books(s) && code != "" && code !in s.invites
    ensures Books(Create(s, code, issuer, maxUses))
  {
    var s' := Create(s, code, issuer, maxUses);
    assert AdmittedWith(s', code) == {};
    forall c | c in s.invites ensures AdmittedWith(s', c) == AdmittedWith(s, c) {}
  }

  /** Without the look-up that both callers make first: registering a code, new or not, keeps
      the books exactly when nobody was admitted with it. */
  lemma CreateKeepsBooksExactly(s: Store, code: string, issuer: string, maxUses: int)
    requires Books(s) && code != ""
    ensures Books(Create(s, code, issuer, maxUses)) <==> AdmittedWith(s, code) == {}
  {
    var s' := Create(s, code, issuer, maxUses);
    forall c ensures AdmittedWith(s', c) == AdmittedWith(s, c) {}
    assert |AdmittedWith(s', code)| == 0 <==> AdmittedWith(s', code) == {};
    if AdmittedWith(s, code) == {} {
      forall p | p in s.admissions ensures s.admissions[p].code != code {
        assert p !in AdmittedWith(s, code);
      }
    } else {
      assert s'.invites[code].uses == 0;
    }
  }

  /** The store after admitting `peerID` with `code`. */
  function Admitting(s: Store, code: string, peerID: string, now: int): Store
    requires code in s.invites
  {
    var inv := s.invites[code];
    Store(s.invites[code := inv.(uses := inv.uses + 1)],
          s.admissions[peerID := Admission(peerID, code, inv.issuer, now)])
  }

  lemma AdmittingBalances(s: Store, code: string, peerID: string, now: int, c: string)
    requires code in s.invites && c in s.invites && peerID !in s.admissions && CodeBalances(s, c)
    requires s.invites[code].uses < s.invites[code].maxUses
    ensures CodeBalances(Admitting(s, code, peerID, now), c)
  {
    var s' := Admitting(s, code, peerID, now);
    if c == code {
      assert AdmittedWith(s', c) == AdmittedWith(s, c) + {peerID};
    } else {
      assert AdmittedWith(s', c) == AdmittedWith(s, c);
    }
  }

  lemma RedeemKeepsBooks(s: Store, code: string, peerID: string, now: int)
    requires Books(s)
    ensures Books(Redeem(s, code, peerID, now).1)
  {
    if peerID !in s.admissions && code in s.invites && s.invites[code].uses < s.invites[code].maxUses {
      assert Redeem(s, code, peerID, now).1 == Admitting(s, code, peerID, now);
      AdmittingKeepsBooks(s, code, peerID, now);
    }
  }

  lemma AdmittingKeepsBooks(s: Store, code: string, peerID: string, now: int)
    requires Books(s) && code in s.invites && peerID !in s.admissions && s.invites[code].uses < s.invites[code].maxUses
    ensures Books(Admitting(s, code, peerID, now))
  {
    hide CodeBalances;
    var s' := Admitting(s, code, peerID, now);
    forall c | c in s'.invites ensures CodeBalances(s', c) {
      AdmittingBalances(s, code, peerID, now, c);
    }
    forall p | p in s'.admissions ensures AdmissionTraces(s', p) {
      if p != peerID {
        assert AdmissionTraces(s, p);
      }
    }
  }

  lemma BootstrapKeepsBooks(s: Store, peerID: string, now: int)
    requires Books(s)
    ensures Books(Bootstrap(s, peerID, now).1)
  {
    var s' := Bootstrap(s, peerID, now).1;
    forall c | c in s.invites ensures AdmittedWith(s', c) == AdmittedWith(s, c) {}
  }

  lemma ReloadKeepsBooks(s: Store)
    requires Books(s)
    ensures Books(Reload(s))
  {
    ReloadIsFaithful(s);
    forall c | c in s.invites ensures AdmittedWith(Reload(s), c) == AdmittedWith(s, c) {}
  }

  /** Along every run each code's uses equals the number of admissions recorded with it and
      never exceeds its maximum; an admission without a code vouches for itself. */
  lemma {:induction false} InvitesAreConserved(es: seq<Event>)
    ensures Books(Run(es))
  {
    if es != [] {
      var s := Run(es[..|es| - 1]);
      InvitesAreConserved(es[..|es| - 1]);
      match es[|es| - 1]
      case Seed(code, issuer, uses) =>
        if code != "" && code !in s.invites { CreateKeepsBooks(s, code, issuer, uses); }
      case Mint(caller, code, maxUses) =>
        if code != "" && code !in s.invites { CreateKeepsBooks(s, code, caller, maxUses); }
      case Join(code, peerID, founding, now) =>
        RedeemKeepsBooks(s, code, peerID, now);
        BootstrapKeepsBooks(s, peerID, now);
      case Restart =>
        ReloadKeepsBooks(s);
    }
  }

  /** Joining again changes nothing and names the same issuer, by whichever door. */
  lemma RejoinIsFree(s: Store, code: string, peerID: string, founding: bool, now: int)
    requires peerID in s.admissions
    ensures Step(s, Join(code, peerID, founding, now)) == s
    ensures Redeem(s, code, peerID, now).0 == Bootstrap(s, peerID, now).0 == Ok(s.admissions[peerID].issuer)
  {}

  /** In the present table, a code has admitted at most maxUses peers. */
  lemma {:induction false} CodeAdmitsAtMost(es: seq<Event>, code: string)
    requires code in Run(es).invites && Run(es).invites[code].maxUses >= 0
    ensures |AdmittedWith(Run(es), code)| <= Run(es).invites[code].maxUses
  {
    InvitesAreConserved(es);
  }

  // ------------------------------------------------ what the maker asked for

  /** `e` asks for `code` to admit `n` peers in `issuer`'s name, and may: the operator always, a
      caller that is admitted within limits, and nobody under a name that is taken. */
  predicate Registers(s: Store, e: Event, code: string, issuer: string, n: int) {
    && code != "" && code !in s.invites
    && (|| e == Seed(code, issuer, n)
        || (e == Mint(issuer, code, n) && 1 <= n <= 1000 && issuer in s.admissions))
  }

  /** The `i`-th event of the run registered `code`. */
  predicate RegisteredAt(es: seq<Event>, i: nat, code: string, issuer: string, n: int) {
    i < |es| && Registers(Run(es[..i]), es[i], code, issuer, n)
  }

  /** The store holds `code` with the terms asked for. */
  predicate HasTerms(s: Store, code: string, issuer: string, n: int) {
    code in s.invites && s.invites[code].issuer == issuer && s.invites[code].maxUses == n
  }

  lemma RegisteringSetsTerms(s: Store, e: Event, code: string, issuer: string, n: int)
    requires Registers(s, e, code, issuer, n)
    ensures HasTerms(Step(s, e), code, issuer, n)
  {}

  lemma StepKeepsTerms(s: Store, e: Event, code: string, issuer: string, n: int)
    requires HasTerms(s, code, issuer, n)
    ensures HasTerms(Step(s, e), code, issuer, n)
  {
    ReloadIsFaithful(s);
    hide Reload;
  }

  /** Only a registration brings a code into the store. */
  lemma StepRegisters(s: Store, e: Event, code: string)
    requires code !in s.invites && code in Step(s, e).invites
    ensures exists issuer, n :: Registers(s, e, code, issuer, n)
  {
    ReloadIsFaithful(s);
    hide Reload;
    if e.Seed? {
      assert Registers(s, e, code, e.issuer, e.uses);
    } else if e.Mint? {
      assert Registers(s, e, code, e.caller, e.maxUses);
    }
  }

  lemma {:induction false} TermsAreKept(es: seq<Event>, i: nat, code: string, issuer: string, n: int)
    requires RegisteredAt(es, i, code, issuer, n)
    ensures HasTerms(Run(es), code, issuer, n)
  {
    hide Step, Registers, HasTerms;
    var init, last := es[..|es| - 1], es[|es| - 1];
    if i == |init| {
      RegisteringSetsTerms(Run(init), last, code, issuer, n);
    } else {
      assert init[..i] == es[..i];
      TermsAreKept(init, i, code, issuer, n);
      StepKeepsTerms(Run(init), last, code, issuer, n);
    }
  }

  /** After any run a code is known if and only if some event of the run registered it. */
  lemma {:induction false} KnownExactly(es: seq<Event>, code: string)
    ensures code in Run(es).invites <==> exists i: nat, issuer, n :: RegisteredAt(es, i, code, issuer, n)
  {
    hide Step, Registers;
    if i: nat, issuer, n :| RegisteredAt(es, i, code, issuer, n) {
      TermsAreKept(es, i, code, issuer, n);
    }
    if code in Run(es).invites {
      var init, last := es[..|es| - 1], es[|es| - 1];
      if code in Run(init).invites {
        KnownExactly(init, code);
        var i: nat, issuer, n :| RegisteredAt(init, i, code, issuer, n);
        assert es[..i] == init[..i];
        assert RegisteredAt(es, i, code, issuer, n);
      } else {
        StepRegisters(Run(init), last, code);
        var issuer, n :| Registers(Run(init), last, code, issuer, n);
        assert RegisteredAt(es, |init|, code, issuer, n);
      }
    }
  }

  /** However a run goes on after an event registered `code` for `n` peers in `issuer`'s name, it
      admits at most that many, and each of them names `issuer`. */
  lemma AdmitsAtMostAsked(es: seq<Event>, i: nat, code: string, issuer: string, n: int)
    requires RegisteredAt(es, i, code, issuer, n)
    ensures |AdmittedWith(Run(es), code)| <= if n < 0 then 0 else n
    ensures forall p :: p in AdmittedWith(Run(es), code) ==> Run(es).admissions[p].issuer == issuer
  {
    TermsAreKept(es, i, code, issuer, n);
    InvitesAreConserved(es);
    hide Run;
    assert CodeBalances(Run(es), code);
    forall p | p in AdmittedWith(Run(es), code) ensures Run(es).admissions[p].issuer == issuer {
      assert AdmissionTraces(Run(es), p);
    }
  }

  /** A peer not yet admitted that joins with that code is let in if and only if fewer than the
      number asked for have been; what is recorded is the peer, the code, who asked for it and
      the moment. */
  lemma JoinIsAnsweredAsAsked(es: seq<Event>, i: nat, code: string, issuer: string, n: int, p: string, founding: bool, now: int)
    requires RegisteredAt(es, i, code, issuer, n) && p !in Run(es).admissions
    ensures var admitted := Run(es + [Join(code, p, founding, now)]).admissions;
            var room := |AdmittedWith(Run(es), code)| < n;
            && Redeem(Run(es), code, p, now).0 == (if room then Ok(issuer) else Err(InviteExhausted))
            && admitted == (if room then Run(es).admissions[p := Admission(p, code, issuer, now)] else Run(es).admissions)
  {
    TermsAreKept(es, i, code, issuer, n);
    InvitesAreConserved(es);
    RunMore(es, Join(code, p, founding, now));
    hide Run;
    assert CodeBalances(Run(es), code);
  }

  /** With a code that no event registered nobody gets in by an invite. */
  lemma JoinIsRefusedUnasked(es: seq<Event>, code: string, p: string, founding: bool, now: int)
    requires p !in Run(es).admissions && !(code == "" && founding)
    requires forall i: nat, issuer, n :: !RegisteredAt(es, i, code, issuer, n)
    ensures Redeem(Run(es), code, p, now).0 == Err(UnknownInvite)
    ensures Run(es + [Join(code, p, founding, now)]) == Run(es)
  {
    KnownExactly(es, code);
    RunMore(es, Join(code, p, founding, now));
    hide Run;
  }

  /** The founder's door lets a newcomer in if and only if nobody was admitted before, by any door. */
  lemma FounderIsAdmittedExactly(es: seq<Event>, p: string, now: int)
    requires p !in Run(es).admissions
    ensures var admitted := Run(es + [Join("", p, true, now)]).admissions;
            && Bootstrap(Run(es), p, now).0 == (if Order(es) == [] then Ok(p) else Err(BootstrapClosed))
            && admitted == (if Order(es) == [] then map[p := Admission(p, "", p, now)] else Run(es).admissions)
  {
    RunIsVouched(es);
    RunMore(es, Join("", p, true, now));
    NobodyAdmitted(Run(es), Order(es), Operators(es));
    hide Run;
  }

  lemma NobodyAdmitted(s: Store, order: seq<string>, operators: set<string>)
    requires Vouched(s, order, operators)
    ensures order == [] <==> s.admissions == map[]
    ensures s.admissions == map[] <==> |s.admissions| == 0
  {
    if order != [] {
      assert order[0] in s.admissions;
    }
    if p :| p in s.admissions {
      assert p in order;
    }
  }

  // -------------------------------------------------------- who vouched for whom

  /** The issuers the operator seeded. */
  function Operators(es: seq<Event>): set<string> {
    set i | 0 <= i < |es| && es[i].Seed? :: es[i].issuer
  }

  /** The peers in the order of their admission. */
  function Order(es: seq<Event>): seq<string> {
    if es == [] then []
    else
      var init, last := es[..|es| - 1], es[|es| - 1];
      if last.Join? && last.peerID in Run(es).admissions && last.peerID !in Run(init).admissions then
        Order(init) + [last.peerID]
      else Order(init)
  }

  ghost predicate Founder(s: Store, p: string) {
    p in s.admissions && s.admissions[p].code == "" && s.admissions[p].issuer == p
  }

  /** `order` lists the admitted peers once each; every invite was made by an operator or by
      a listed peer; every peer was admitted as founder, first of all, or vouched for by an
      operator or by a peer listed before it. */
  ghost predicate Vouched(s: Store, order: seq<string>, operators: set<string>) {
    && (forall i, j :: 0 <= i < j < |order| ==> order[i] != order[j])
    && (forall p :: p in s.admissions <==> p in order)
    && (forall c :: c in s.invites ==> s.invites[c].issuer in operators || s.invites[c].issuer in order)
    && (forall i :: 0 <= i < |order| ==> VouchedAt(s, order, operators, i))
  }

  ghost predicate VouchedAt(s: Store, order: seq<string>, operators: set<string>, i: nat)
    requires i < |order|
  {
    order[i] in s.admissions &&
    var a := s.admissions[order[i]];
    if a.code == "" then i == 0 && a.issuer == order[i]
    else a.issuer in operators || a.issuer in order[..i]
  }

  lemma VouchedGrows(s: Store, s': Store, order: seq<string>, peerID: string, operators: set<string>)
    requires Books(s) && Vouched(s, order, operators) && peerID !in s.admissions
    requires s'.admissions.Keys == s.admissions.Keys + {peerID}
    requires forall p :: p in s.admissions ==> s'.admissions[p] == s.admissions[p]
    requires s'.invites.Keys == s.invites.Keys
    requires forall c :: c in s.invites ==> s'.invites[c].issuer == s.invites[c].issuer
    requires var a := s'.admissions[peerID];
      if a.code == "" then order == [] && a.issuer == peerID
      else a.code in s.invites && a.issuer == s.invites[a.code].issuer
    ensures Vouched(s', order + [peerID], operators)
  {
    var order' := order + [peerID];
    forall i | 0 <= i < |order'| ensures VouchedAt(s', order', operators, i) {
      if i < |order| {
        assert VouchedAt(s, order, operators, i);
        assert order'[..i] == order[..i];
      } else {
        assert order'[..i] == order;
      }
    }
    forall p ensures p in s'.admissions <==> p in order' {
      assert p in order' <==> p in order || p == peerID;
    }
  }

  lemma VouchedMoreOperators(s: Store, order: seq<string>, operators: set<string>, more: set<string>)
    requires Vouched(s, order, operators) && operators <= more
    ensures Vouched(s, order, more)
  {
    forall i | 0 <= i < |order| ensures VouchedAt(s, order, more, i) {
      assert VouchedAt(s, order, operators, i);
    }
  }

  lemma VouchedAfterCreate(s: Store, order: seq<string>, operators: set<string>, code: string, issuer: string, maxUses: int)
    requires Vouched(s, order, operators) && (issuer in operators || issuer in s.admissions)
    ensures Vouched(Create(s, code, issuer, maxUses), order, operators)
  {
    var s' := Create(s, code, issuer, maxUses);
    forall i | 0 <= i < |order| ensures VouchedAt(s', order, operators, i) {
      assert VouchedAt(s, order, operators, i);
    }
  }

  lemma VouchedAfterReload(s: Store, order: seq<string>, operators: set<string>)
    requires Vouched(s, order, operators)
    ensures Vouched(Reload(s), order, operators)
  {
    ReloadIsFaithful(s);
    forall i | 0 <= i < |order| ensures VouchedAt(Reload(s), order, operators, i) {
      assert VouchedAt(s, order, operators, i);
    }
  }

  lemma VouchedAfterJoin(s: Store, order: seq<string>, operators: set<string>, e: Event)
    requires Books(s) && Vouched(s, order, operators) && e.Join?
    requires e.peerID !in s.admissions && e.peerID in Step(s, e).admissions
    ensures Vouched(Step(s, e), order + [e.peerID], operators)
  {
    NobodyAdmitted(s, order, operators);
    JoinAdds(s, e);
    hide Vouched, Books, Step;
    VouchedGrows(s, Step(s, e), order, e.peerID, operators);
  }

  /** What a join that admits changes. */
  lemma JoinAdds(s: Store, e: Event)
    requires "" !in s.invites && e.Join? && e.peerID !in s.admissions && e.peerID in Step(s, e).admissions
    ensures var t := Step(s, e);
      && t.admissions.Keys == s.admissions.Keys + {e.peerID} && t.invites.Keys == s.invites.Keys
      && (forall p :: p in s.admissions ==> t.admissions[p] == s.admissions[p])
      && (forall c :: c in s.invites ==> t.invites[c].issuer == s.invites[c].issuer)
      && (if t.admissions[e.peerID].code == "" then s.admissions == map[] && t.admissions[e.peerID].issuer == e.peerID
          else t.admissions[e.peerID].code in s.invites
               && t.admissions[e.peerID].issuer == s.invites[t.admissions[e.peerID].code].issuer)
  {}

  lemma {:induction false} RunIsVouched(es: seq<Event>)
    ensures Vouched(Run(es), Order(es), Operators(es))
  {
    if es != [] {
      var init, last := es[..|es| - 1], es[|es| - 1];
      var s, order, operators := Run(init), Order(init), Operators(es);
      RunIsVouched(init);
      InvitesAreConserved(init);
      assert Operators(init) <= operators by {
        forall i | 0 <= i < |init| ensures init[i] == es[i] {}
      }
      VouchedMoreOperators(s, order, Operators(init), operators);
      match last
      case Seed(code, issuer, uses) =>
        assert issuer in operators;
        VouchedAfterCreate(s, order, operators, code, issuer, uses);
      case Mint(caller, code, maxUses) =>
        if caller in s.admissions { VouchedAfterCreate(s, order, operators, code, caller, maxUses); }
      case Join(code, peerID, founding, now) =>
        if peerID !in s.admissions && peerID in Run(es).admissions {
          VouchedAfterJoin(s, order, operators, last);
        }
      case Restart =>
        VouchedAfterReload(s, order, operators);
    }
  }

  /** Each peer in `path` was vouched for by the next. */
  ghost predicate Climbs(s: Store, path: seq<string>) {
    && path != []
    && (forall k :: 0 <= k < |path| ==> path[k] in s.admissions)
    && (forall k :: 0 <= k < |path| - 1 ==> s.admissions[path[k]].issuer == path[k + 1])
  }

  /** The path meets the peers in reverse order of admission. */
  ghost predicate Descends(order: seq<string>, path: seq<string>) {
    exists at: seq<nat> ::
      && |at| == |path|
      && (forall k :: 0 <= k < |path| ==> at[k] < |order| && order[at[k]] == path[k])
      && (forall k :: 0 <= k < |path| - 1 ==> at[k + 1] < at[k])
  }

  lemma {:induction false} ClimbFrom(s: Store, order: seq<string>, operators: set<string>, i: nat)
    returns (path: seq<string>, at: seq<nat>)
    requires Vouched(s, order, operators) && i < |order|
    ensures Climbs(s, path) && path[0] == order[i]
    ensures |at| == |path| && at[0] == i
    ensures forall k :: 0 <= k < |path| ==> at[k] < |order| && order[at[k]] == path[k]
    ensures forall k :: 0 <= k < |path| - 1 ==> at[k + 1] < at[k]
    ensures var top := path[|path| - 1]; Founder(s, top) || s.admissions[top].issuer in operators
  {
    assert VouchedAt(s, order, operators, i);
    var issuer := s.admissions[order[i]].issuer;
    if Founder(s, order[i]) || issuer in operators {
      path, at := [order[i]], [i];
    } else {
      var j :| 0 <= j < i && order[j] == issuer;
      var path', at' := ClimbFrom(s, order, operators, j);
      path, at := [order[i]] + path', [i] + at';
    }
  }

  /** In every reachable state, restarts included, following the issuers from any admitted
      peer meets strictly earlier-admitted peers and ends at the founder or at a peer vouched
      for by an operator-seeded invite. */
  lemma VouchingIsWellFounded(es: seq<Event>, p: string)
    requires p in Run(es).admissions
    ensures exists path ::
      && Climbs(Run(es), path) && path[0] == p && Descends(Order(es), path)
      && (var top := path[|path| - 1];
          Founder(Run(es), top) || Run(es).admissions[top].issuer in Operators(es))
  {
    RunIsVouched(es);
    var order := Order(es);
    var i :| 0 <= i < |order| && order[i] == p;
    var path, at := ClimbFrom(Run(es), order, Operators(es), i);
    assert Descends(order, path);
  }

  /** There is at most one founder, and it was the first peer admitted. */
  lemma {:induction false} SingleFounder(es: seq<Event>, p: string)
    requires p in Run(es).admissions && Run(es).admissions[p].code == ""
    ensures Founder(Run(es), p) && Order(es) != [] && Order(es)[0] == p
  {
    RunIsVouched(es);
    var i :| 0 <= i < |Order(es)| && Order(es)[i] == p;
    assert VouchedAt(Run(es), Order(es), Operators(es), i);
  }

  // ------------------------------------------------------------- no cycles

  /** The name reached by following the issuer `n` times, stopping at a name not admitted. */
  function Up(s: Store, p: string, n: nat): string
    decreases n
  {
    if n == 0 || p !in s.admissions then p else Up(s, s.admissions[p].issuer, n - 1)
  }

  /** No operator-seeded issuer is the ID of a peer that joins. */
  ghost predicate OperatorsAreNotPeers(es: seq<Event>) {
    forall i, j :: 0 <= i < |es| && 0 <= j < |es| && es[i].Seed? && es[j].Join? ==> es[i].issuer != es[j].peerID
  }

  lemma {:induction false} AdmittedJoined(es: seq<Event>, p: string)
    requires p in Run(es).admissions
    ensures exists j :: 0 <= j < |es| && es[j].Join? && es[j].peerID == p
  {
    hide Step;
    var init := es[..|es| - 1];
    if p in Run(init).admissions {
      AdmittedJoined(init, p);
      var j :| 0 <= j < |init| && init[j].Join? && init[j].peerID == p;
      assert es[j].Join? && es[j].peerID == p;
    } else {
      StepAdmits(Run(init), es[|es| - 1], p);
      assert es[|es| - 1].Join? && es[|es| - 1].peerID == p;
    }
  }

  lemma StepAdmits(s: Store, e: Event, p: string)
    requires p !in s.admissions && p in Step(s, e).admissions
    ensures e.Join? && e.peerID == p
  {
    ReloadIsFaithful(s);
    hide Reload;
  }

  lemma {:induction false} UpGoesEarlier(s: Store, order: seq<string>, operators: set<string>, i: nat, n: nat)
    requires Vouched(s, order, operators) && operators !! s.admissions.Keys && i < |order|
    ensures Up(s, order[i], n) in operators || Up(s, order[i], n) in order[..i + 1]
    ensures n > 0 && !Founder(s, order[i]) ==> Up(s, order[i], n) != order[i]
    decreases n
  {
    assert VouchedAt(s, order, operators, i);
    var issuer := s.admissions[order[i]].issuer;
    if n > 0 && !Founder(s, order[i]) {
      if issuer in operators {
        assert Up(s, issuer, n - 1) == issuer;
      } else {
        var j :| 0 <= j < i && order[j] == issuer;
        UpGoesEarlier(s, order, operators, j, n - 1);
        assert order[..j + 1] <= order[..i];
        assert order[i] !in order[..i];
      }
    } else if n > 0 {
      UpGoesEarlier(s, order, operators, i, n - 1);
    }
  }

  // ------------------------------------------------- which joins close a cycle

  lemma {:induction false} UpAdds(s: Store, p: string, a: nat, b: nat)
    ensures Up(s, p, a + b) == Up(s, Up(s, p, a), b)
    decreases a
  {
    if a > 0 && p in s.admissions {
      UpAdds(s, s.admissions[p].issuer, a - 1, b);
    }
  }

  /** `t` admits whoever `s` admits, vouched for by the same. */
  ghost predicate Extends(s: Store, t: Store) {
    forall p :: p in s.admissions ==>
      p in t.admissions && t.admissions[p].issuer == s.admissions[p].issuer && t.admissions[p].code == s.admissions[p].code
  }

  /** A climb that stays among the admitted is the same in every later store. */
  lemma {:induction false} UpStays(s: Store, t: Store, p: string, n: nat)
    requires Extends(s, t) && Up(s, p, n) in s.admissions
    ensures Up(t, p, n) == Up(s, p, n)
    decreases n
  {
    if n > 0 {
      UpStays(s, t, s.admissions[p].issuer, n - 1);
    }
  }

  /** After `k` steps both climbs from `q` are at `p`. */
  predicate BothMeet(s: Store, t: Store, q: string, p: string, k: nat) {
    Up(s, q, k) == p && Up(t, q, k) == p
  }

  /** `t` is `s` with one more peer, `p`. */
  ghost predicate AddsOne(s: Store, t: Store, p: string) {
    Extends(s, t) && t.admissions.Keys == s.admissions.Keys + {p} && p !in s.admissions
  }

  /** A climb that does not meet the newcomer is the same before and after. */
  lemma {:induction false} UpBefore(s: Store, t: Store, p: string, q: string, n: nat)
    requires AddsOne(s, t, p)
    ensures Up(t, q, n) == Up(s, q, n) || exists k: nat :: k <= n && BothMeet(s, t, q, p, k)
    decreases n
  {
    if q == p {
      assert BothMeet(s, t, q, p, 0);
    } else if n > 0 && q in s.admissions {
      var issuer := s.admissions[q].issuer;
      UpBefore(s, t, p, issuer, n - 1);
      if Up(t, issuer, n - 1) != Up(s, issuer, n - 1) {
        var k: nat :| k <= n - 1 && BothMeet(s, t, issuer, p, k);
        assert BothMeet(s, t, q, p, k + 1);
      }
    }
  }

  /** Going `n` steps up from itself the peer is met again. */
  predicate ComesBack(s: Store, p: string, n: nat) {
    n > 0 && Up(s, p, n) == p
  }

  /** `n` steps up from `q` is `p`. */
  predicate Reaches(s: Store, q: string, p: string, n: nat) {
    Up(s, q, n) == p
  }

  /** Admitting `p` vouched for by `issuer` closes a cycle through `p` exactly when `issuer`
      climbed to `p` before. */
  lemma NewcomerCycle(s: Store, t: Store, p: string)
    requires AddsOne(s, t, p)
    ensures (exists n: nat :: ComesBack(t, p, n)) <==> (exists n: nat :: Reaches(s, t.admissions[p].issuer, p, n))
  {
    var issuer := t.admissions[p].issuer;
    if n: nat :| ComesBack(t, p, n) {
      assert Up(t, issuer, n - 1) == p;
      UpBefore(s, t, p, issuer, n - 1);
      if Up(s, issuer, n - 1) == p {
        assert Reaches(s, issuer, p, n - 1);
      } else {
        var k: nat :| k <= n - 1 && BothMeet(s, t, issuer, p, k);
        assert Reaches(s, issuer, p, k);
      }
    }
    if n: nat :| Reaches(s, issuer, p, n) {
      UpBefore(s, t, p, issuer, n);
      if Up(t, issuer, n) == p {
        assert ComesBack(t, p, n + 1);
      } else {
        var k: nat :| k <= n && BothMeet(s, t, issuer, p, k);
        assert ComesBack(t, p, k + 1);
      }
    }
  }

  /** A climb that leaves the admitted does so within as many steps as there are admitted. */
  lemma {:induction false} UpIsBounded(s: Store, q: string, n: nat)
    requires Up(s, q, n) !in s.admissions
    ensures Up(s, q, |s.admissions|) == Up(s, q, n)
    decreases |s.admissions|
  {
    if q in s.admissions {
      var issuer, less := s.admissions[q].issuer, s.(admissions := s.admissions - {q});
      assert n > 0;
      NeverBack(s, q, n);
      UpWithout(s, q, issuer, n - 1);
      UpIsBounded(less, issuer, n - 1);
      assert |less.admissions| == |s.admissions| - 1 by {
        assert less.admissions.Keys == s.admissions.Keys - {q};
      }
      UpWithout(s, q, issuer, |less.admissions|);
    }
  }

  /** If the climb from `q` leaves the admitted, it never comes back to `q`. */
  lemma {:induction false} NeverBack(s: Store, q: string, n: nat)
    requires q in s.admissions && Up(s, q, n) !in s.admissions
    ensures forall k: nat :: k > 0 ==> Up(s, q, k) != q
    decreases n
  {
    forall k: nat | k > 0 ensures Up(s, q, k) != q {
      if Up(s, q, k) == q {
        if k <= n {
          UpAdds(s, q, k, n - k);
          NeverBack(s, q, n - k);
        } else {
          UpAdds(s, q, n, k - n);
        }
      }
    }
  }

  /** A climb that never meets `q` is the same without `q`. */
  lemma {:induction false} UpWithout(s: Store, q: string, from: string, n: nat)
    requires q in s.admissions && from == s.admissions[q].issuer
    requires forall k: nat :: k > 0 ==> Up(s, q, k) != q
    ensures Up(s.(admissions := s.admissions - {q}), from, n) == Up(s, from, n)
  {
    if Up(s.(admissions := s.admissions - {q}), from, n) != Up(s, from, n) {
      var m := FirstMeeting(s, q, from, n);
      assert Up(s, q, m + 1) == q;
    }
  }

  lemma {:induction false} FirstMeeting(s: Store, q: string, from: string, n: nat) returns (m: nat)
    requires Up(s.(admissions := s.admissions - {q}), from, n) != Up(s, from, n)
    ensures Up(s, from, m) == q
    decreases n
  {
    if from == q {
      m := 0;
    } else {
      m := FirstMeeting(s, q, s.admissions[from].issuer, n - 1);
      m := m + 1;
    }
  }

  /** A join that admits by code. */
  predicate AdmitsByCode(s: Store, e: Event) {
    e.Join? && e.peerID !in s.admissions && !(e.code == "" && e.founding) && Redeem(s, e.code, e.peerID, e.now).0.Ok?
  }

  /** The guard, checked before the join: does the code's issuer climb to the joiner's own ID?
      As many steps as there are admitted peers decide it. */
  predicate ClosesCycle(s: Store, e: Event) {
    AdmitsByCode(s, e) && Up(s, s.invites[e.code].issuer, |s.admissions|) == e.peerID
  }

  /** One join by code: the joiner is reached again by climbing from itself exactly when the
      code's issuer climbed to its ID before. */
  lemma JoinClosesCycleExactly(s: Store, code: string, p: string, now: int)
    requires p !in s.admissions && Redeem(s, code, p, now).0.Ok?
    ensures (exists n: nat :: ComesBack(Redeem(s, code, p, now).1, p, n))
       <==> Up(s, s.invites[code].issuer, |s.admissions|) == p
  {
    NewcomerCycle(s, Redeem(s, code, p, now).1, p);
    var issuer := s.invites[code].issuer;
    if n: nat :| Reaches(s, issuer, p, n) {
      UpIsBounded(s, issuer, n);
    }
    if Up(s, issuer, |s.admissions|) == p {
      assert Reaches(s, issuer, p, |s.admissions|);
    }
  }

  /** Nobody but the founder is reached again by climbing from itself. */
  ghost predicate Acyclic(s: Store) {
    forall p, n: nat :: p in s.admissions && ComesBack(s, p, n) ==> Founder(s, p)
  }

  lemma RestartExtends(s: Store)
    ensures Extends(s, Reload(s)) && Reload(s).admissions.Keys == s.admissions.Keys
  {
    hide Reload;
    ReloadIsFaithful(s);
  }

  lemma StepExtends(s: Store, e: Event)
    ensures Extends(s, Step(s, e))
  {
    hide Reload;
    RestartExtends(s);
  }

  /** A cycle that was there stays there. */
  lemma CyclesStay(s: Store, t: Store)
    requires Extends(s, t) && Acyclic(t)
    ensures Acyclic(s)
  {
    forall p, n: nat | p in s.admissions && ComesBack(s, p, n) ensures Founder(s, p) {
      UpStays(s, t, p, n);
      assert ComesBack(t, p, n);
    }
  }

  /** Admitting one peer adds no cycle but one through that peer. */
  lemma NewCycleIsNewcomers(s: Store, t: Store, p: string)
    requires AddsOne(s, t, p) && Acyclic(s)
    requires (exists n: nat :: ComesBack(t, p, n)) ==> Founder(t, p)
    ensures Acyclic(t)
  {
    forall q, n: nat | q in t.admissions && ComesBack(t, q, n) ensures Founder(t, q) {
      if q != p {
        UpBefore(s, t, p, q, n);
        if Up(s, q, n) == q {
          assert ComesBack(s, q, n);
        } else {
          var k: nat :| k <= n && BothMeet(s, t, q, p, k);
          UpAdds(t, q, k, n - k);
          UpAdds(t, p, n - k, k);
          assert ComesBack(t, p, n);
          FounderStays(t, p, n - k);
        }
      }
    }
  }

  lemma {:induction false} FounderStays(s: Store, p: string, n: nat)
    requires Founder(s, p)
    ensures Up(s, p, n) == p
    decreases n
  {
    if n > 0 {
      FounderStays(s, p, n - 1);
    }
  }

  lemma CodeJoinIsAcyclicExactly(s: Store, e: Event)
    requires Books(s) && AdmitsByCode(s, e)
    ensures Acyclic(Step(s, e)) <==> Acyclic(s) && !ClosesCycle(s, e)
  {
    var t := Step(s, e);
    JoinClosesCycleExactly(s, e.code, e.peerID, e.now);
    assert !Founder(t, e.peerID);
    if Acyclic(t) {
      CyclesStay(s, t);
    }
    if Acyclic(s) && !ClosesCycle(s, e) {
      NewCycleIsNewcomers(s, t, e.peerID);
    }
  }

  /** A join that admits the founder. */
  predicate AdmitsFounder(s: Store, e: Event) {
    e.Join? && e.peerID !in s.admissions && e.code == "" && e.founding && Bootstrap(s, e.peerID, e.now).0.Ok?
  }

  lemma FounderJoinIsAcyclic(s: Store, e: Event)
    requires AdmitsFounder(s, e)
    ensures Acyclic(Step(s, e)) <==> Acyclic(s)
  {
    var t := Step(s, e);
    if Acyclic(t) {
      CyclesStay(s, t);
    }
    if Acyclic(s) {
      assert Founder(t, e.peerID);
      NewCycleIsNewcomers(s, t, e.peerID);
    }
  }

  lemma SameAdmissionsAcyclic(s: Store, t: Store)
    requires Extends(s, t) && t.admissions.Keys == s.admissions.Keys
    ensures Acyclic(t) <==> Acyclic(s)
  {
    if Acyclic(t) {
      CyclesStay(s, t);
    }
    if Acyclic(s) {
      CyclesStay(t, s);
    }
  }

  lemma OtherStepKeepsAdmissions(s: Store, e: Event)
    requires !AdmitsByCode(s, e) && !AdmitsFounder(s, e)
    ensures Extends(s, Step(s, e)) && Step(s, e).admissions.Keys == s.admissions.Keys
  {
    hide Reload;
    RestartExtends(s);
    if !e.Restart? {
      assert Step(s, e).admissions == s.admissions;
    }
  }

  /** One step of a run keeps it free of cycles exactly when it does not meet the guard. */
  lemma StepIsAcyclicExactly(s: Store, e: Event)
    requires Books(s)
    ensures Acyclic(Step(s, e)) <==> Acyclic(s) && !ClosesCycle(s, e)
  {
    if AdmitsByCode(s, e) {
      CodeJoinIsAcyclicExactly(s, e);
    } else if AdmitsFounder(s, e) {
      FounderJoinIsAcyclic(s, e);
    } else {
      OtherStepKeepsAdmissions(s, e);
      SameAdmissionsAcyclic(s, Step(s, e));
    }
  }

  /** Some admitting join of the run met the guard. */
  ghost predicate SomeJoinClosesCycle(es: seq<Event>) {
    exists k :: 0 <= k < |es| && ClosesCycle(Run(es[..k]), es[k])
  }

  lemma SomeJoinMore(es: seq<Event>, e: Event)
    ensures SomeJoinClosesCycle(es + [e]) <==> SomeJoinClosesCycle(es) || ClosesCycle(Run(es), e)
  {
    var all := es + [e];
    assert all[..|es|] == es && all[|es|] == e;
    forall k | 0 <= k < |es| ensures all[..k] == es[..k] && all[k] == es[k] {}
    if SomeJoinClosesCycle(es) {
      var k :| 0 <= k < |es| && ClosesCycle(Run(es[..k]), es[k]);
      assert ClosesCycle(Run(all[..k]), all[k]);
    } else if ClosesCycle(Run(es), e) {
      assert ClosesCycle(Run(all[..|es|]), all[|es|]);
    }
  }

  lemma RunMore(es: seq<Event>, e: Event)
    ensures Run(es + [e]) == Step(Run(es), e)
  {
    assert (es + [e])[..|es + [e]| - 1] == es;
  }

  /** After any run, nobody but the founder is reached again by climbing from itself if and only
      if no join of the run was by a code whose issuer climbed to the joiner's own ID. */
  lemma {:induction false} VouchingIsAcyclicExactly(es: seq<Event>)
    ensures Acyclic(Run(es)) <==> !SomeJoinClosesCycle(es)
  {
    if es != [] {
      var init, last := es[..|es| - 1], es[|es| - 1];
      assert es == init + [last];
      VouchingIsAcyclicExactly(init);
      AcyclicMore(init, last);
    }
  }

  lemma AcyclicMore(es: seq<Event>, e: Event)
    requires Acyclic(Run(es)) <==> !SomeJoinClosesCycle(es)
    ensures Acyclic(Run(es + [e])) <==> !SomeJoinClosesCycle(es + [e])
  {
    RunMore(es, e);
    SomeJoinMore(es, e);
    InvitesAreConserved(es);
    StepIsAcyclicExactly(Run(es), e);
  }

  /** A simple premise that suffices, though a run may break it and have no cycle: no seeded
      issuer is the ID of a peer that joins. */
  lemma VouchingIsAcyclic(es: seq<Event>)
    requires OperatorsAreNotPeers(es)
    ensures Acyclic(Run(es))
  {
    RunIsVouched(es);
    var order := Order(es);
    forall q | q in Operators(es) ensures q !in Run(es).admissions {
      if q in Run(es).admissions { AdmittedJoined(es, q); }
    }
    forall p, n: nat | p in Run(es).admissions && ComesBack(Run(es), p, n) ensures Founder(Run(es), p) {
      var i :| 0 <= i < |order| && order[i] == p;
      UpGoesEarlier(Run(es), order, Operators(es), i, n);
    }
  }

  /** A run that meets the guard: an operator seeds an invite in a peer's own name, and that
      peer, who is not the founder, vouches for itself. */
  lemma SeededPeerVouchesForItself()
    ensures var es := [Seed("welcome", "alice", 1), Join("welcome", "alice", false, 0)];
      SomeJoinClosesCycle(es) && !Acyclic(Run(es))
  {
    var seed, join := Seed("welcome", "alice", 1), Join("welcome", "alice", false, 0);
    var es := [seed, join];
    assert es[..1] == [seed] && [seed][..0] == [];
    assert Run([seed]) == Create(EMPTY, "welcome", "alice", 1);
    assert ClosesCycle(Run(es[..1]), es[1]);
    VouchingIsAcyclicExactly(es);
  }

  /** A run that breaks the simple premise and has no cycle: the invite in the founder's name is
      used by somebody else. */
  lemma FounderMayBeSeeded()
    ensures var es := [Join("", "alice", true, 0), Seed("welcome", "alice", 1), Join("welcome", "bob", false, 0)];
      !OperatorsAreNotPeers(es) && "bob" in Run(es).admissions && Acyclic(Run(es))
  {
    var found, seed, join := Join("", "alice", true, 0), Seed("welcome", "alice", 1), Join("welcome", "bob", false, 0);
    var es := [found, seed, join];
    assert es[1].issuer == es[0].peerID;
    assert es[..0] == [] && es[..1] == [found] && es[..2] == [found, seed];
    assert [found][..0] == [] && [found, seed][..1] == [found] && es[..2][..1] == [found];
    var s1 := Step(EMPTY, found);
    assert Run(es[..1]) == s1;
    var s2 := Step(s1, seed);
    assert Run(es[..2]) == s2;
    assert Run(es) == Step(s2, join);
    FounderStays(s2, "alice", |s2.admissions|);
    VouchingIsAcyclicExactly(es);
  }
}
