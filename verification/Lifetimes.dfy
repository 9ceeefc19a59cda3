/** The coordinator over restarts. A restart reloads a snapshot saved at any earlier moment, as
    a save may fail, land out of order, or be switched off; what was admitted in between is
    then forgotten by the store, though not by the world. */
module Lifetimes {
  import opened Wrappers
  import opened Invite
  import opened Admission

  datatype Act =
    | Do(e: Event)
    /** Something that does not touch the store. */
    | Idle
    /** Restart from the snapshot saved after the first `k` acts; 0 is a restart with none. */
    | Revert(k: nat)

  /** The moment reverted to: no later than now. */
  function Back(k: nat, n: nat): (r: nat)
    ensures r <= n
  {
    if k <= n then k else n
  }

  function StoreAfter(acts: seq<Act>): Store
    decreases |acts|
  {
    if acts == [] then EMPTY
    else
      var init, last := acts[..|acts| - 1], acts[|acts| - 1];
      match last
      case Do(e) => Step(StoreAfter(init), e)
      case Idle => StoreAfter(init)
      case Revert(k) => Reload(StoreAfter(acts[..Back(k, |init|)]))
  }

  /** The events that the present store remembers. */
  function Timeline(acts: seq<Act>): seq<Event>
    decreases |acts|
  {
    if acts == [] then []
    else
      var init, last := acts[..|acts| - 1], acts[|acts| - 1];
      match last
      case Do(e) => Timeline(init) + [e]
      case Idle => Timeline(init)
      case Revert(k) => Timeline(acts[..Back(k, |init|)]) + [Restart]
  }

  /** Whatever was reverted, the store is that of a run that restarts only from its present
      state: so what holds of those runs holds of the present store. */
  lemma {:induction false} StoreIsTimelineRun(acts: seq<Act>)
    ensures StoreAfter(acts) == Run(Timeline(acts))
    decreases |acts|
  {
    if acts != [] {
      var init, last := acts[..|acts| - 1], acts[|acts| - 1];
      match last
      case Do(e) =>
        StoreIsTimelineRun(init);
        RunMore(Timeline(init), e);
      case Idle =>
        StoreIsTimelineRun(init);
      case Revert(k) =>
        StoreIsTimelineRun(acts[..Back(k, |init|)]);
        RunMore(Timeline(acts[..Back(k, |init|)]), Restart);
    }
  }

  /** Whoever is admitted at present is vouched for, by earlier and earlier admissions that the
      store still remembers, up to the founder or an operator. */
  lemma PresentIsVouchedFor(acts: seq<Act>, p: string)
    requires p in StoreAfter(acts).admissions
    ensures exists path :: VouchedBy(acts, p, path)
  {
    StoreIsTimelineRun(acts);
    VouchingIsWellFounded(Timeline(acts), p);
    var path :| && Climbs(Run(Timeline(acts)), path) && path[0] == p && Descends(Order(Timeline(acts)), path)
                && (var top := path[|path| - 1];
                    Founder(Run(Timeline(acts)), top) || Run(Timeline(acts)).admissions[top].issuer in Operators(Timeline(acts)));
    assert VouchedBy(acts, p, path);
  }

  ghost predicate VouchedBy(acts: seq<Act>, p: string, path: seq<string>) {
    && Climbs(StoreAfter(acts), path) && path[0] == p && Descends(Order(Timeline(acts)), path)
    && (var top := path[|path| - 1];
        Founder(StoreAfter(acts), top) || StoreAfter(acts).admissions[top].issuer in Operators(Timeline(acts)))
  }

  /** The present store has no cycle but the founder's own exactly when no join that it still
      remembers met the guard. */
  lemma PresentIsAcyclicExactly(acts: seq<Act>)
    ensures Acyclic(StoreAfter(acts)) <==> !SomeJoinClosesCycle(Timeline(acts))
  {
    StoreIsTimelineRun(acts);
    VouchingIsAcyclicExactly(Timeline(acts));
  }

  // ------------------------------------------------------------------ history

  /** The peers that some moment's store held as admitted with `code`. */
  function EverAdmittedWith(acts: seq<Act>, code: string): set<string> {
    if acts == [] then {}
    else EverAdmittedWith(acts[..|acts| - 1], code) + AdmittedWith(StoreAfter(acts), code)
  }

  lemma PresentWasEver(acts: seq<Act>, code: string)
    ensures AdmittedWith(StoreAfter(acts), code) <= EverAdmittedWith(acts, code)
  {}

  /** Admitted with the code once, and no longer known. */
  function Forgotten(acts: seq<Act>, code: string): set<string> {
    EverAdmittedWith(acts, code) - AdmittedWith(StoreAfter(acts), code)
  }

  lemma ActMore(acts: seq<Act>, a: Act)
    ensures a.Do? ==> StoreAfter(acts + [a]) == Step(StoreAfter(acts), a.e)
    ensures a.Idle? ==> StoreAfter(acts + [a]) == StoreAfter(acts)
    ensures a.Revert? ==> StoreAfter(acts + [a]) == Reload(StoreAfter(acts[..Back(a.k, |acts|)]))
    ensures forall code :: EverAdmittedWith(acts + [a], code) == EverAdmittedWith(acts, code) + AdmittedWith(StoreAfter(acts + [a]), code)
  {
    assert (acts + [a])[..|acts + [a]| - 1] == acts;
    if a.Revert? {
      assert (acts + [a])[..Back(a.k, |acts|)] == acts[..Back(a.k, |acts|)];
    }
  }

  /** Whoever was ever admitted with the code is counted in its uses or forgotten. */
  lemma HistorySplits(acts: seq<Act>, code: string)
    requires code in StoreAfter(acts).invites
    ensures |EverAdmittedWith(acts, code)| == StoreAfter(acts).invites[code].uses + |Forgotten(acts, code)|
    ensures var inv := StoreAfter(acts).invites[code]; inv.uses == 0 || inv.uses <= inv.maxUses
    ensures code != ""
  {
    StoreIsTimelineRun(acts);
    InvitesAreConserved(Timeline(acts));
    assert CodeBalances(StoreAfter(acts), code);
    PresentWasEver(acts, code);
    var present, forgotten := AdmittedWith(StoreAfter(acts), code), Forgotten(acts, code);
    assert EverAdmittedWith(acts, code) == present + forgotten;
    assert |present + forgotten| == |present| + |forgotten|;
  }

  /** No restart has lost a peer admitted with `code`. */
  predicate NothingLost(acts: seq<Act>, code: string) {
    acts == []
    || (&& NothingLost(acts[..|acts| - 1], code)
        && AdmittedWith(StoreAfter(acts[..|acts| - 1]), code) <= AdmittedWith(StoreAfter(acts), code))
  }

  lemma StepKeepsAdmitted(s: Store, e: Event, code: string)
    ensures AdmittedWith(s, code) <= AdmittedWith(Step(s, e), code)
  {
    StepExtends(s, e);
  }

  lemma {:induction false} LostNothingForgotNothing(acts: seq<Act>, code: string)
    requires NothingLost(acts, code)
    ensures Forgotten(acts, code) == {}
  {
    if acts != [] {
      LostNothingForgotNothing(acts[..|acts| - 1], code);
    }
  }

  /** The `i`-th event that the store remembers registered `code` for `n` peers. */
  ghost predicate Asked(acts: seq<Act>, i: nat, code: string, n: nat) {
    exists issuer :: RegisteredAt(Timeline(acts), i, code, issuer, n)
  }

  lemma AskedIsKept(acts: seq<Act>, i: nat, code: string, n: nat)
    requires Asked(acts, i, code, n)
    ensures code in StoreAfter(acts).invites && StoreAfter(acts).invites[code].maxUses == n
  {
    var issuer :| RegisteredAt(Timeline(acts), i, code, issuer, n);
    StoreIsTimelineRun(acts);
    TermsAreKept(Timeline(acts), i, code, issuer, n);
  }

  /** Without such a loss the number asked for holds over the whole life of the code. */
  lemma WholeLifeWithoutLoss(acts: seq<Act>, i: nat, code: string, n: nat)
    requires Asked(acts, i, code, n) && NothingLost(acts, code)
    ensures |EverAdmittedWith(acts, code)| <= n
  {
    hide StoreAfter, Asked, Forgotten, EverAdmittedWith;
    AskedIsKept(acts, i, code, n);
    LostNothingForgotNothing(acts, code);
    assert |Forgotten(acts, code)| == 0;
    HistorySplits(acts, code);
  }

  // --------------------------------------------- which codes can over-admit

  /** The events, none of which goes back. */
  function Done(more: seq<Event>): seq<Act> {
    seq(|more|, i requires 0 <= i < |more| => Do(more[i]))
  }

  lemma DoneMore(acts: seq<Act>, e: Event, more: seq<Event>)
    ensures acts + Done([e] + more) == acts + [Do(e)] + Done(more)
  {
    assert Done([e] + more) == [Do(e)] + Done(more);
  }

  lemma DoKeeps(acts: seq<Act>, e: Event, code: string)
    requires code in StoreAfter(acts).invites
    ensures var acts' := acts + [Do(e)];
      && code in StoreAfter(acts').invites
      && StoreAfter(acts').invites[code].maxUses == StoreAfter(acts).invites[code].maxUses
      && (Forgotten(acts, code) == {} ==> Forgotten(acts', code) == {})
  {
    ActMore(acts, Do(e));
    var inv := StoreAfter(acts).invites[code];
    StepKeepsTerms(StoreAfter(acts), e, code, inv.issuer, inv.maxUses);
    StepKeepsAdmitted(StoreAfter(acts), e, code);
    hide StoreAfter, Step;
  }

  /** Without a loss nothing is forgotten, so the uses count everybody. */
  lemma {:induction false} NothingForgottenNothingOver(acts: seq<Act>, more: seq<Event>, code: string)
    requires code in StoreAfter(acts).invites && StoreAfter(acts).invites[code].maxUses >= 0 && Forgotten(acts, code) == {}
    ensures |EverAdmittedWith(acts + Done(more), code)| <= StoreAfter(acts).invites[code].maxUses
    decreases |more|
  {
    hide StoreAfter, Forgotten, EverAdmittedWith;
    if more == [] {
      assert acts + Done(more) == acts;
      HistorySplits(acts, code);
    } else {
      assert [more[0]] + more[1..] == more;
      DoneMore(acts, more[0], more[1..]);
      DoKeeps(acts, more[0], code);
      NothingForgottenNothingOver(acts + [Do(more[0])], more[1..], code);
    }
  }

  /** A newcomer to the history uses the code once more, and whoever is forgotten stays so. */
  lemma NewcomerCounts(acts: seq<Act>, code: string, p: string)
    requires code in StoreAfter(acts).invites && code != ""
    requires StoreAfter(acts).invites[code].uses < StoreAfter(acts).invites[code].maxUses
    requires p !in StoreAfter(acts).admissions && p !in EverAdmittedWith(acts, code)
    ensures var s, acts' := StoreAfter(acts), acts + [Do(Join(code, p, false, 0))];
      && code in StoreAfter(acts').invites
      && StoreAfter(acts').invites[code] == s.invites[code].(uses := s.invites[code].uses + 1)
      && Forgotten(acts', code) == Forgotten(acts, code)
  {
    hide StoreAfter, Step, AdmittedWith;
    ActMore(acts, Do(Join(code, p, false, 0)));
    NewcomerJoins(StoreAfter(acts), code, p);
    PresentWasEver(acts, code);
  }

  lemma NewcomerJoins(s: Store, code: string, p: string)
    requires code in s.invites && code != "" && s.invites[code].uses < s.invites[code].maxUses && p !in s.admissions
    ensures var t := Step(s, Join(code, p, false, 0));
      && code in t.invites && t.invites[code] == s.invites[code].(uses := s.invites[code].uses + 1)
      && AdmittedWith(t, code) == AdmittedWith(s, code) + {p}
  {}

  /** With somebody forgotten, filling the code up with newcomers admits too many. */
  lemma {:induction false} FillUp(acts: seq<Act>, code: string) returns (more: seq<Event>)
    requires code in StoreAfter(acts).invites && StoreAfter(acts).invites[code].maxUses >= 0 && Forgotten(acts, code) != {}
    ensures |EverAdmittedWith(acts + Done(more), code)| > StoreAfter(acts).invites[code].maxUses
    decreases StoreAfter(acts).invites[code].maxUses - StoreAfter(acts).invites[code].uses
  {
    hide StoreAfter, EverAdmittedWith, Forgotten;
    var inv := StoreAfter(acts).invites[code];
    HistorySplits(acts, code);
    if inv.uses >= inv.maxUses {
      more := [];
      assert acts + Done(more) == acts;
    } else {
      var p := NewName(StoreAfter(acts).admissions.Keys + EverAdmittedWith(acts, code));
      var join := Join(code, p, false, 0);
      NewcomerCounts(acts, code, p);
      more := FillUp(acts + [Do(join)], code);
      DoneMore(acts, join, more);
      more := [join] + more;
    }
  }

  /** After any acts: a code can still come to admit more peers over its whole life than were
      asked for, with no further loss, if and only if somebody it admitted is forgotten now. */
  lemma OverAdmitsExactly(acts: seq<Act>, i: nat, code: string, n: nat)
    requires Asked(acts, i, code, n)
    ensures (exists more :: |EverAdmittedWith(acts + Done(more), code)| > n)
       <==> Forgotten(acts, code) != {}
  {
    hide StoreAfter, EverAdmittedWith, Forgotten, Asked;
    AskedIsKept(acts, i, code, n);
    if Forgotten(acts, code) == {} {
      forall more ensures |EverAdmittedWith(acts + Done(more), code)| <= n {
        NothingForgottenNothingOver(acts, more, code);
      }
    } else {
      var more := FillUp(acts, code);
    }
  }

  /** Somebody is forgotten after such a restart: a code for one peer admits two, when the coordinator restarts from
      the snapshot that was saved before the first. */
  lemma RevertedCodeAdmitsTwo()
    ensures var acts := [Do(Seed("one", "op", 1)), Do(Join("one", "alice", false, 0)), Revert(1), Do(Join("one", "bob", false, 0))];
      && "one" in StoreAfter(acts).invites && StoreAfter(acts).invites["one"].maxUses == 1
      && EverAdmittedWith(acts, "one") == {"alice", "bob"}
  {
    var seed, alice, bob := Do(Seed("one", "op", 1)), Do(Join("one", "alice", false, 0)), Do(Join("one", "bob", false, 0));
    var a0: seq<Act> := [];
    var a1, a2 := a0 + [seed], a0 + [seed] + [alice];
    var a3 := a2 + [Revert(1)];
    ActMore(a0, seed);
    ActMore(a1, alice);
    ActMore(a2, Revert(1));
    ActMore(a3, bob);
    assert a3[..1] == a1;
    ReloadIsFaithful(StoreAfter(a1));
    assert a3 + [bob] == [seed, alice, Revert(1), bob];
    assert AdmittedWith(StoreAfter(a1), "one") == {} == AdmittedWith(StoreAfter(a3), "one");
    assert AdmittedWith(StoreAfter(a2), "one") == {"alice"};
    assert AdmittedWith(StoreAfter(a3 + [bob]), "one") == {"bob"};
  }
}
