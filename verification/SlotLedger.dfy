/** The concurrency ledger of an exit: who holds how many slots. Each lock-protected region
    is one step, so a run is any interleaving of authorisations and releases. */
module SlotLedger {
  import opened Wrappers

  /** 0 or less means unlimited. */
  datatype Caps = Caps(maxConns: int, maxPerRequester: int)

  datatype Grant = Grant(requester: string, released: bool)

  /** `grants` is the history of everything ever granted. */
  datatype State = State(active: int, perReq: map<string, int>, grants: seq<Grant>)

  datatype Full = TooManyConns | TooManyRequesterConns

  const EMPTY := State(0, map[], [])

  function Get(m: map<string, int>, k: string): int {
    if k in m then m[k] else 0
  }

  function Acquire(c: Caps, s: State, requester: string): (Option<Full>, State) {
    if c.maxConns > 0 && s.active >= c.maxConns then (Some(TooManyConns), s)
    else if c.maxPerRequester > 0 && Get(s.perReq, requester) >= c.maxPerRequester then (Some(TooManyRequesterConns), s)
    else
      (None, State(s.active + 1, s.perReq[requester := Get(s.perReq, requester) + 1],
                   s.grants + [Grant(requester, false)]))
  }

  function Drop(m: map<string, int>, k: string): map<string, int> {
    var n := Get(m, k) - 1;
    if n <= 0 then m - {k} else m[k := n]
  }

  /** Calling the release function of grant `k`: only the first call does anything. */
  function Release(s: State, k: nat): State {
    if k >= |s.grants| || s.grants[k].released then s
    else
      State(s.active - 1, Drop(s.perReq, s.grants[k].requester), s.grants[k := s.grants[k].(released := true)])
  }

  // -------------------------------------------------------------------- runs

  datatype Event = Authorise(requester: string) | CallRelease(grant: nat)

  function Step(c: Caps, s: State, e: Event): State {
    match e
    case Authorise(requester) => Acquire(c, s, requester).1
    case CallRelease(k) => Release(s, k)
  }

  function Run(c: Caps, s: State, es: seq<Event>): State {
    if es == [] then s else Step(c, Run(c, s, es[..|es| - 1]), es[|es| - 1])
  }

  /** Slots granted and not yet released. */
  function Live(grants: seq<Grant>): nat {
    if grants == [] then 0
    else Live(grants[..|grants| - 1]) + (if grants[|grants| - 1].released then 0 else 1)
  }

  function LiveFor(grants: seq<Grant>, requester: string): nat {
    if grants == [] then 0
    else
      var last := grants[|grants| - 1];
      LiveFor(grants[..|grants| - 1], requester) + (if last.requester == requester && !last.released then 1 else 0)
  }

  ghost function Total(m: map<string, int>): int {
    if m == map[] then 0
    else
      var k :| k in m;
      m[k] + Total(m - {k})
  }

  lemma {:induction false} TotalPicks(m: map<string, int>, k: string)
    requires k in m
    ensures Total(m) == m[k] + Total(m - {k})
    decreases |m|
  {
    var j :| j in m && Total(m) == m[j] + Total(m - {j});
    if j != k {
      TotalPicks(m - {j}, k);
      TotalPicks(m - {k}, j);
      assert m - {j} - {k} == m - {k} - {j};
    }
  }

  lemma TotalSet(m: map<string, int>, k: string, v: int)
    ensures Total(m[k := v]) == Total(m) - Get(m, k) + v
  {
    TotalPicks(m[k := v], k);
    assert m[k := v] - {k} == m - {k};
    if k in m {
      TotalPicks(m, k);
    } else {
      assert m - {k} == m;
    }
  }

  lemma TotalDrop(m: map<string, int>, k: string)
    requires k in m && m[k] >= 1
    ensures Total(Drop(m, k)) == Total(m) - 1
  {
    TotalPicks(m, k);
    if m[k] > 1 {
      TotalSet(m, k, m[k] - 1);
    }
  }

  lemma {:induction false} LiveReleased(grants: seq<Grant>, k: nat, requester: string)
    requires k < |grants| && !grants[k].released
    ensures var after := grants[k := grants[k].(released := true)];
      && Live(after) == Live(grants) - 1
      && LiveFor(after, requester) == LiveFor(grants, requester) - (if grants[k].requester == requester then 1 else 0)
  {
    var n, after := |grants| - 1, grants[k := grants[k].(released := true)];
    if k == n {
      assert after[..n] == grants[..n];
    } else {
      assert after[..n] == grants[..n][k := grants[k].(released := true)];
      LiveReleased(grants[..n], k, requester);
    }
  }

  /** The books balance: the active count is the number of live slots and the sum of the
      per-requester entries; the entries are exactly the positive live counts; and no cap is
      exceeded. */
  ghost predicate Balanced(c: Caps, s: State) {
    && s.active == Live(s.grants) == Total(s.perReq)
    && (forall r :: Get(s.perReq, r) == LiveFor(s.grants, r))
    && (forall r :: r in s.perReq ==> s.perReq[r] >= 1)
    && (c.maxConns > 0 ==> s.active <= c.maxConns)
    && (c.maxPerRequester > 0 ==> forall r :: r in s.perReq ==> s.perReq[r] <= c.maxPerRequester)
  }

  lemma AcquireKeepsBalance(c: Caps, s: State, requester: string)
    requires Balanced(c, s)
    ensures Balanced(c, Acquire(c, s, requester).1)
  {
    var s' := Acquire(c, s, requester).1;
    if s' != s {
      TotalSet(s.perReq, requester, Get(s.perReq, requester) + 1);
      assert s'.grants[..|s.grants|] == s.grants;
      forall r ensures Get(s'.perReq, r) == LiveFor(s'.grants, r) {
        assert Get(s.perReq, r) == LiveFor(s.grants, r);
      }
    }
  }

  lemma ReleaseKeepsBalance(c: Caps, s: State, k: nat)
    requires Balanced(c, s)
    ensures Balanced(c, Release(s, k))
  {
    var s' := Release(s, k);
    if s' != s {
      var id := s.grants[k].requester;
      assert Get(s.perReq, id) == LiveFor(s.grants, id);
      LiveReleased(s.grants, k, id);
      TotalDrop(s.perReq, id);
      forall r ensures Get(s'.perReq, r) == LiveFor(s'.grants, r) {
        assert Get(s.perReq, r) == LiveFor(s.grants, r);
        LiveReleased(s.grants, k, r);
      }
    }
  }

  /** Under any interleaving of authorisations and releases, each release called any number
      of times, the books balance. */
  lemma {:induction false} RunIsBalanced(c: Caps, es: seq<Event>)
    ensures Balanced(c, Run(c, EMPTY, es))
  {
    if es != [] {
      var s := Run(c, EMPTY, es[..|es| - 1]);
      RunIsBalanced(c, es[..|es| - 1]);
      match es[|es| - 1]
      case Authorise(requester) => AcquireKeepsBalance(c, s, requester);
      case CallRelease(k) => ReleaseKeepsBalance(c, s, k);
    }
  }

  /** Once everything granted has been released, nothing is left in the ledger. */
  lemma AllReleasedIsEmpty(c: Caps, es: seq<Event>)
    requires forall k :: 0 <= k < |Run(c, EMPTY, es).grants| ==> Run(c, EMPTY, es).grants[k].released
    ensures Run(c, EMPTY, es).active == 0 && Run(c, EMPTY, es).perReq == map[]
  {
    var s := Run(c, EMPTY, es);
    RunIsBalanced(c, es);
    forall r ensures r !in s.perReq {
      NoneLive(s.grants, r);
      assert Get(s.perReq, r) == LiveFor(s.grants, r);
    }
    assert s.perReq.Keys == {};
  }

  lemma {:induction false} NoneLive(grants: seq<Grant>, requester: string)
    requires forall k :: 0 <= k < |grants| ==> grants[k].released
    ensures Live(grants) == 0 && LiveFor(grants, requester) == 0
  {
    if grants != [] {
      NoneLive(grants[..|grants| - 1], requester);
    }
  }

  /** Releasing again, at once or after anything else, changes nothing. */
  lemma {:induction false} ReleaseIsOnce(c: Caps, s: State, k: nat, es: seq<Event>)
    requires k < |s.grants|
    ensures Release(Run(c, Release(s, k), es), k) == Run(c, Release(s, k), es)
    ensures k < |Run(c, Release(s, k), es).grants| && Run(c, Release(s, k), es).grants[k].released
  {
    if es != [] {
      ReleaseIsOnce(c, s, k, es[..|es| - 1]);
    }
  }

  /** A slot is refused exactly when a configured cap is already reached by live slots, the
      overall cap first; a slot granted is one more live slot of the requester, added at the end. */
  lemma RefusedExactly(c: Caps, es: seq<Event>, requester: string)
    ensures var grants := Run(c, EMPTY, es).grants;
      var (full, after) := Acquire(c, Run(c, EMPTY, es), requester);
      && (full == Some(TooManyConns) <==> c.maxConns > 0 && Live(grants) == c.maxConns)
      && (full == Some(TooManyRequesterConns) <==>
            !(c.maxConns > 0 && Live(grants) == c.maxConns)
            && c.maxPerRequester > 0 && LiveFor(grants, requester) == c.maxPerRequester)
      && after.grants == if full.None? then grants + [Grant(requester, false)] else grants
  {
    var s := Run(c, EMPTY, es);
    RunIsBalanced(c, es);
    assert Get(s.perReq, requester) == LiveFor(s.grants, requester);
  }
}
