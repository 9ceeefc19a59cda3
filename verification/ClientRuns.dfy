/** The rollback floors of a pinned client under any interleaving of concurrent fetches.
    A fetch reads the floor, verifies what it got against the floor it read, and then raises
    the floor; other fetches run in between. The three floors (directory, relay, bootstrap
    list) work alike, so the object type is a parameter. A bootstrap refresh also puts its
    list in use, and a directory fetch its body into the cache file, in a step of its own after
    it raised the floor. */
module ClientRuns {
  import opened Wrappers
  import opened SignedText
  import opened Discovery

  datatype Setting = Setting(digest: string -> string, pinned: Key, typ: string)

  /** One fetch: the floor it read, the commits made before it began, the body that verified and
      the serial it may commit, whether it goes on to put that body in use, and how far it got. */
  datatype Fetch = Fetch(floor: nat, before: nat, body: Wire, passed: Option<nat>, writes: bool, raised: bool, replaced: bool)

  datatype Commit = Commit(id: nat, serial: nat)

  /** `published` is the publisher's own serial counter; `kept` is the body put in use last (the
      list in use, or what is in the cache file) and `inUse` its serial, 0 at the start. */
  datatype State = State(floor: nat, inUse: nat, kept: Wire, fetches: map<nat, Fetch>, commits: seq<Commit>,
                         log: SignatureLog, published: nat)

  datatype Event =
    /** The publisher signs the next object of the type, within one lifetime of its counter. */
    | Publish(payload: string, now: int, ttl: int)
    /** The pinned key signs something else. */
    | SignOther(typ: string, serial: nat, issued: int, expires: int, epoch: nat, payload: string)
    | SignRequest(action: string, peerID: string, ts: int)
    /** Anyone else signs anything. */
    | Forge(key: Key, text: string)
    | ReadFloor(id: nat)
    /** The bytes may come live, from the cache, after a self-heal, or from an attacker. A fetch
        that is served from the cache, or that cannot write it, puts nothing in use. */
    | Check(id: nat, bytes: Wire, now: int, writes: bool)
    | RaiseFloor(id: nat)
    /** A fetch that has raised the floor puts its body in use, whatever the floor is by now. */
    | Replace(id: nat)
    /** The client starts anew: the floor is lost, and what was in use unless it is in a file. */
    | Restart(keeps: bool)

  const START := State(0, 0, None, map[], [], {}, 0)

  function Max(a: nat, b: nat): nat {
    if a > b then a else b
  }

  function Published(w: Setting, serial: nat, payload: string, now: int, ttl: int): Signed {
    Sign(w.digest, w.pinned, Meta(w.typ, serial, now, now + ttl, 0), payload)
  }

  /** What a fetch that read `floor` makes of the bytes: the serial it will commit. */
  function Passing(w: Setting, log: SignatureLog, bytes: Wire, now: int, floor: nat): Option<nat> {
    if bytes.Some? && Verify(w.digest, log, bytes.value, w.pinned, w.typ, now, floor).Ok? then Some(bytes.value.serial)
    else None
  }

  function Checked(w: Setting, log: SignatureLog, f: Fetch, bytes: Wire, now: int, writes: bool): Fetch {
    var passed := Passing(w, log, bytes, now, f.floor);
    f.(passed := passed, body := if passed.Some? then bytes else None, writes := writes)
  }

  function Raised(s: State, id: nat): State
    requires id in s.fetches && s.fetches[id].passed.Some?
  {
    var f := s.fetches[id];
    s.(floor := Max(s.floor, f.passed.value), fetches := s.fetches[id := f.(raised := true)],
       commits := s.commits + [Commit(id, f.passed.value)])
  }

  function Step(w: Setting, s: State, e: Event): State {
    match e
    case Publish(payload, now, ttl) =>
      s.(log := Logged(w.digest, s.log, w.pinned, Published(w, s.published + 1, payload, now, ttl)),
         published := s.published + 1)
    case SignOther(typ, serial, issued, expires, epoch, payload) =>
      if typ == w.typ then s
      else s.(log := s.log + {(w.pinned, DiscoveryText(typ, serial, issued, expires, epoch, w.digest(payload)))})
    case SignRequest(action, peerID, ts) => s.(log := s.log + {(w.pinned, AuthnText(action, peerID, ts))})
    case Forge(key, text) => if key == w.pinned then s else s.(log := s.log + {(key, text)})
    case ReadFloor(id) =>
      if id in s.fetches then s
      else s.(fetches := s.fetches[id := Fetch(s.floor, |s.commits|, None, None, false, false, false)])
    case Check(id, bytes, now, writes) =>
      if id !in s.fetches || s.fetches[id].passed.Some? then s
      else s.(fetches := s.fetches[id := Checked(w, s.log, s.fetches[id], bytes, now, writes)])
    case RaiseFloor(id) =>
      if Raises(s, id) then Raised(s, id) else s
    case Replace(id) =>
      if !Replaces(s, id) then s
      else
        var f := s.fetches[id];
        s.(inUse := f.passed.value, kept := f.body, fetches := s.fetches[id := f.(replaced := true)])
    case Restart(keeps) =>
      if keeps then s.(floor := 0, fetches := map[], commits := [])
      else s.(floor := 0, inUse := 0, kept := None, fetches := map[], commits := [])
  }

  /** The fetch has verified and not yet raised the floor. */
  predicate Raises(s: State, id: nat) {
    id in s.fetches && s.fetches[id].passed.Some? && !s.fetches[id].raised
  }

  /** The fetch has raised the floor and not yet put its body in use, as it will. */
  predicate Replaces(s: State, id: nat) {
    && id in s.fetches && s.fetches[id].passed.Some? && s.fetches[id].writes
    && s.fetches[id].raised && !s.fetches[id].replaced
  }

  function Run(w: Setting, es: seq<Event>): State {
    if es == [] then START else Step(w, Run(w, es[..|es| - 1]), es[|es| - 1])
  }

  lemma RunMore(w: Setting, es: seq<Event>, e: Event)
    ensures Run(w, es + [e]) == Step(w, Run(w, es), e)
  {
    assert (es + [e])[..|es + [e]| - 1] == es;
  }

  /** The highest serial committed, 0 if none. */
  function Highest(commits: seq<Commit>): nat {
    if commits == [] then 0 else Max(Highest(commits[..|commits| - 1]), commits[|commits| - 1].serial)
  }

  lemma HighestMore(commits: seq<Commit>, c: Commit)
    ensures Highest(commits + [c]) == Max(Highest(commits), c.serial)
  {
    assert (commits + [c])[..|commits|] == commits;
  }

  predicate AllAtMost(commits: seq<Commit>, bound: nat) {
    forall m :: 0 <= m < |commits| ==> commits[m].serial <= bound
  }

  lemma {:induction false} HighestAtMost(commits: seq<Commit>, bound: nat)
    ensures Highest(commits) <= bound <==> AllAtMost(commits, bound)
  {
    if commits != [] {
      var init, last := commits[..|commits| - 1], commits[|commits| - 1];
      HighestAtMost(init, bound);
      assert AllAtMost(commits, bound) <==> AllAtMost(init, bound) && last.serial <= bound by {
        forall m | 0 <= m < |init| ensures init[m] == commits[m] {}
      }
    }
  }

  // -------------------------------------------------------------- invariants

  ghost predicate FetchIsHonest(f: Fetch, floor: nat, commits: seq<Commit>) {
    && f.before <= |commits| && f.floor == Highest(commits[..f.before])
    && (f.passed.Some? ==> f.floor <= f.passed.value)
    && (f.raised ==> f.passed.Some? && f.passed.value <= floor)
    && (f.replaced ==> f.raised)
  }

  ghost predicate CommitIsHonest(s: State, m: nat)
    requires m < |s.commits|
  {
    s.commits[m].id in s.fetches && s.fetches[s.commits[m].id].passed == Some(s.commits[m].serial)
  }

  ghost predicate FloorsAreHonest(s: State) {
    && s.floor == Highest(s.commits)
    && (forall id :: id in s.fetches ==> FetchIsHonest(s.fetches[id], s.floor, s.commits))
    && (forall m :: 0 <= m < |s.commits| ==> CommitIsHonest(s, m))
  }

  lemma FetchStaysHonest(f: Fetch, floor: nat, commits: seq<Commit>, c: Commit)
    requires FetchIsHonest(f, floor, commits)
    ensures FetchIsHonest(f, Max(floor, c.serial), commits + [c])
  {
    assert (commits + [c])[..f.before] == commits[..f.before];
  }

  lemma ReadKeepsFloors(w: Setting, s: State, id: nat)
    requires FloorsAreHonest(s)
    ensures FloorsAreHonest(Step(w, s, ReadFloor(id)))
  {
    var s' := Step(w, s, ReadFloor(id));
    assert s.commits[..|s.commits|] == s.commits;
    forall m | 0 <= m < |s'.commits| ensures CommitIsHonest(s', m) {
      assert CommitIsHonest(s, m);
    }
  }

  lemma CheckKeepsFloors(w: Setting, s: State, id: nat, bytes: Wire, now: int, writes: bool)
    requires FloorsAreHonest(s)
    ensures FloorsAreHonest(Step(w, s, Check(id, bytes, now, writes)))
  {
    if id in s.fetches && s.fetches[id].passed.None? {
      var f := s.fetches[id];
      PassingExactly(w, s.log, bytes, now, f.floor);
      NewFetchKeepsFloors(s, id, Checked(w, s.log, f, bytes, now, writes));
    }
  }

  /** Replacing a fetch that has committed nothing by an honest one. */
  lemma NewFetchKeepsFloors(s: State, id: nat, f: Fetch)
    requires FloorsAreHonest(s) && id in s.fetches && s.fetches[id].passed.None? && FetchIsHonest(f, s.floor, s.commits)
    ensures FloorsAreHonest(s.(fetches := s.fetches[id := f]))
  {
    var s' := s.(fetches := s.fetches[id := f]);
    forall m | 0 <= m < |s'.commits| ensures CommitIsHonest(s', m) {
      assert CommitIsHonest(s, m);
    }
  }

  lemma RaiseKeepsFloors(s: State, id: nat)
    requires FloorsAreHonest(s) && id in s.fetches && s.fetches[id].passed.Some?
    ensures FloorsAreHonest(Raised(s, id))
  {
    var s', c := Raised(s, id), Commit(id, s.fetches[id].passed.value);
    HighestMore(s.commits, c);
    forall k | k in s'.fetches ensures FetchIsHonest(s'.fetches[k], s'.floor, s'.commits) {
      FetchStaysHonest(s.fetches[k], s.floor, s.commits, c);
    }
    forall m | 0 <= m < |s'.commits| ensures CommitIsHonest(s', m) {
      if m < |s.commits| {
        assert CommitIsHonest(s, m);
        assert s'.commits[m] == s.commits[m];
      }
    }
  }

  lemma ReplaceKeepsFloors(w: Setting, s: State, id: nat)
    requires FloorsAreHonest(s) && Replaces(s, id)
    ensures FloorsAreHonest(Step(w, s, Replace(id)))
  {
    var s' := Step(w, s, Replace(id));
    assert FetchIsHonest(s.fetches[id], s.floor, s.commits);
    forall m | 0 <= m < |s'.commits| ensures CommitIsHonest(s', m) {
      assert CommitIsHonest(s, m);
    }
  }

  /** Steps that sign leave the floors alone. */
  lemma SigningKeepsFloors(w: Setting, s: State, e: Event)
    requires FloorsAreHonest(s) && (e.Publish? || e.SignOther? || e.SignRequest? || e.Forge?)
    ensures FloorsAreHonest(Step(w, s, e))
  {
    var s' := Step(w, s, e);
    assert s' == s.(log := s'.log, published := s'.published);
    forall m | 0 <= m < |s'.commits| ensures CommitIsHonest(s', m) {
      assert CommitIsHonest(s, m);
    }
  }

  lemma StepKeepsFloors(w: Setting, s: State, e: Event)
    requires FloorsAreHonest(s)
    ensures FloorsAreHonest(Step(w, s, e))
  {
    match e
    case ReadFloor(id) => ReadKeepsFloors(w, s, id);
    case Check(id, bytes, now, writes) => CheckKeepsFloors(w, s, id, bytes, now, writes);
    case RaiseFloor(id) =>
      if Raises(s, id) { RaiseKeepsFloors(s, id); }
    case Replace(id) =>
      if Replaces(s, id) { ReplaceKeepsFloors(w, s, id); }
    case Restart(_) =>
    case _ => SigningKeepsFloors(w, s, e);
  }

  lemma {:induction false} RunKeepsFloors(w: Setting, es: seq<Event>)
    ensures FloorsAreHonest(Run(w, es))
  {
    if es != [] {
      RunKeepsFloors(w, es[..|es| - 1]);
      StepKeepsFloors(w, Run(w, es[..|es| - 1]), es[|es| - 1]);
    }
  }

  /** In every interleaving the floor is exactly the highest serial committed since the client
      started. */
  lemma {:induction false} FloorIsHighestCommitted(w: Setting, es: seq<Event>)
    ensures Run(w, es).floor == Highest(Run(w, es).commits)
  {
    RunKeepsFloors(w, es);
  }

  /** A fetch that nothing interrupts commits exactly what passes at the floor it finds, and
      leaves the floor at that serial. */
  lemma UninterruptedFetch(w: Setting, s: State, id: nat, bytes: Wire, now: int, writes: bool)
    requires id !in s.fetches
    ensures var s' := Step(w, Step(w, Step(w, s, ReadFloor(id)), Check(id, bytes, now, writes)), RaiseFloor(id));
            var passed := Passing(w, s.log, bytes, now, s.floor);
            && s'.floor == (if passed.Some? then passed.value else s.floor)
            && s'.commits == (if passed.Some? then s.commits + [Commit(id, passed.value)] else s.commits)
  {
    var s1 := Step(w, s, ReadFloor(id));
    var s2 := Step(w, s1, Check(id, bytes, now, writes));
    PassingExactly(w, s.log, bytes, now, s.floor);
    assert s1.fetches[id].floor == s.floor && s2.fetches[id].passed == Passing(w, s.log, bytes, now, s.floor);
  }

  lemma StepRaisesOnly(w: Setting, s: State, e: Event)
    ensures s.log <= Step(w, s, e).log
    ensures !e.Restart? ==> s.floor <= Step(w, s, e).floor && s.commits <= Step(w, s, e).commits
  {}

  lemma OneMoreRaisesOnly(w: Setting, es: seq<Event>, e: Event)
    requires !e.Restart?
    ensures Run(w, es).floor <= Run(w, es + [e]).floor && Run(w, es).commits <= Run(w, es + [e]).commits
  {
    hide Run, Step;
    RunMore(w, es, e);
    StepRaisesOnly(w, Run(w, es), e);
  }

  /** While the client runs the floor never drops and a commit is never forgotten. */
  lemma {:induction false} FloorNeverDrops(w: Setting, es: seq<Event>, more: seq<Event>)
    requires forall i :: 0 <= i < |more| ==> !more[i].Restart?
    ensures Run(w, es).floor <= Run(w, es + more).floor
    ensures Run(w, es).commits <= Run(w, es + more).commits
    decreases |more|
  {
    hide Run;
    if more == [] {
      assert es + more == es;
    } else {
      var init, last := more[..|more| - 1], more[|more| - 1];
      assert es + more == es + init + [last];
      FloorNeverDrops(w, es, init);
      OneMoreRaisesOnly(w, es + init, last);
    }
  }

  /** A fetch that begins after another has committed commits a serial at least as high,
      wherever the bytes of either came from and whatever ran in between. */
  lemma {:induction false} LaterFetchIsNotOlder(w: Setting, es: seq<Event>, m: nat, n: nat)
    requires var s := Run(w, es);
             m < |s.commits| && n < |s.commits| && s.commits[n].id in s.fetches
             && m < s.fetches[s.commits[n].id].before
    ensures Run(w, es).commits[m].serial <= Run(w, es).commits[n].serial
  {
    RunKeepsFloors(w, es);
    LaterCommitIsNotOlder(Run(w, es), m, n);
  }

  lemma LaterCommitIsNotOlder(s: State, m: nat, n: nat)
    requires FloorsAreHonest(s) && m < |s.commits| && n < |s.commits| && s.commits[n].id in s.fetches
    requires m < s.fetches[s.commits[n].id].before
    ensures s.commits[m].serial <= s.commits[n].serial
  {
    var f := s.fetches[s.commits[n].id];
    assert CommitIsHonest(s, n) && FetchIsHonest(f, s.floor, s.commits);
    HighestAtMost(s.commits[..f.before], f.floor);
    assert s.commits[..f.before][m] == s.commits[m];
  }

  // ---------------------------------------------------- against the publisher

  /** The pinned key has signed no object of the type beyond the publisher's counter. */
  ghost predicate SignedWithin(w: Setting, log: SignatureLog, published: nat) {
    forall serial: nat, issued, expires, epoch: nat, payload ::
      (w.pinned, DiscoveryText(w.typ, serial, issued, expires, epoch, w.digest(payload))) in log
      ==> 1 <= serial <= published
  }

  /** No fetch and no floor is beyond it either. */
  ghost predicate FloorsWithin(s: State) {
    && s.floor <= s.published
    && (forall id :: id in s.fetches ==>
          && s.fetches[id].floor <= s.published
          && (s.fetches[id].passed.Some? ==> s.fetches[id].passed.value <= s.published))
  }

  lemma PublishedText(w: Setting, n: nat, p: string, now: int, ttl: int,
                      serial: nat, issued: int, expires: int, epoch: nat, payload: string)
    requires GoodDigest(w.digest)
    requires Text(w.digest, Published(w, n, p, now, ttl))
          == DiscoveryText(w.typ, serial, issued, expires, epoch, w.digest(payload))
    ensures serial == n
  {
    var o := Published(w, n, p, now, ttl);
    DiscoveryTextIsUnambiguous(o.typ, o.serial, o.issuedAt, o.expiresAt, o.epoch, w.digest(p),
                               w.typ, serial, issued, expires, epoch, w.digest(payload));
  }

  lemma OtherText(w: Setting, typ: string, n: nat, i: int, x: int, ep: nat, p: string,
                  serial: nat, issued: int, expires: int, epoch: nat, payload: string)
    requires GoodDigest(w.digest)
    requires DiscoveryText(typ, n, i, x, ep, w.digest(p))
          == DiscoveryText(w.typ, serial, issued, expires, epoch, w.digest(payload))
    ensures typ == w.typ
  {
    DiscoveryTextIsUnambiguous(typ, n, i, x, ep, w.digest(p), w.typ, serial, issued, expires, epoch, w.digest(payload));
  }

  /** The one pair a step may add to the log. */
  function Adds(w: Setting, s: State, e: Event): set<(Key, string)> {
    match e
    case Publish(payload, now, ttl) => {(w.pinned, Text(w.digest, Published(w, s.published + 1, payload, now, ttl)))}
    case SignOther(typ, serial, issued, expires, epoch, payload) =>
      if typ == w.typ then {} else {(w.pinned, DiscoveryText(typ, serial, issued, expires, epoch, w.digest(payload)))}
    case SignRequest(action, peerID, ts) => {(w.pinned, AuthnText(action, peerID, ts))}
    case Forge(key, text) => if key == w.pinned then {} else {(key, text)}
    case _ => {}
  }

  lemma StepAdds(w: Setting, s: State, e: Event)
    ensures Step(w, s, e).log == s.log + Adds(w, s, e)
    ensures Step(w, s, e).published == if e.Publish? then s.published + 1 else s.published
  {}

  /** A text the pinned key adds to the log is an object of the type only when published. */
  lemma NewTextIsPublished(w: Setting, s: State, e: Event, serial: nat, issued: int, expires: int, epoch: nat, payload: string)
    requires GoodDigest(w.digest)
    requires (w.pinned, DiscoveryText(w.typ, serial, issued, expires, epoch, w.digest(payload))) in Adds(w, s, e)
    ensures e.Publish? && serial == s.published + 1
  {
    hide DiscoveryText, AuthnText, Published;
    match e
    case Publish(p, now, ttl) =>
      PublishedText(w, s.published + 1, p, now, ttl, serial, issued, expires, epoch, payload);
    case SignOther(typ, n, i, x, ep, p) => OtherText(w, typ, n, i, x, ep, p, serial, issued, expires, epoch, payload);
    case SignRequest(action, peerID, ts) =>
      PurposesAreDisjoint(w.typ, serial, issued, expires, epoch, w.digest(payload), action, peerID, ts);
    case _ =>
  }

  lemma StepKeepsSigned(w: Setting, s: State, e: Event)
    requires GoodDigest(w.digest) && SignedWithin(w, s.log, s.published)
    ensures SignedWithin(w, Step(w, s, e).log, Step(w, s, e).published)
  {
    StepAdds(w, s, e);
    forall serial: nat, issued, expires, epoch: nat, payload
      | (w.pinned, DiscoveryText(w.typ, serial, issued, expires, epoch, w.digest(payload))) in s.log + Adds(w, s, e)
      ensures 1 <= serial <= if e.Publish? then s.published + 1 else s.published
    {
      if (w.pinned, DiscoveryText(w.typ, serial, issued, expires, epoch, w.digest(payload))) in Adds(w, s, e) {
        NewTextIsPublished(w, s, e, serial, issued, expires, epoch, payload);
      }
    }
  }

  lemma PassesWithin(w: Setting, log: SignatureLog, published: nat, bytes: Wire, now: int, floor: nat)
    requires SignedWithin(w, log, published) && Passing(w, log, bytes, now, floor).Some?
    ensures Passing(w, log, bytes, now, floor).value <= published
  {
    var b := bytes.value;
    assert (w.pinned, DiscoveryText(w.typ, b.serial, b.issuedAt, b.expiresAt, b.epoch, w.digest(b.payload))) in log;
  }

  lemma StepKeepsWithin(w: Setting, s: State, e: Event)
    requires SignedWithin(w, s.log, s.published) && FloorsWithin(s)
    ensures FloorsWithin(Step(w, s, e))
  {
    if e.Check? && e.id in s.fetches && Passing(w, s.log, e.bytes, e.now, s.fetches[e.id].floor).Some? {
      PassesWithin(w, s.log, s.published, e.bytes, e.now, s.fetches[e.id].floor);
    }
  }

  lemma {:induction false} RunStaysWithin(w: Setting, es: seq<Event>)
    requires GoodDigest(w.digest)
    ensures SignedWithin(w, Run(w, es).log, Run(w, es).published) && FloorsWithin(Run(w, es))
  {
    if es != [] {
      var s, last := Run(w, es[..|es| - 1]), es[|es| - 1];
      RunStaysWithin(w, es[..|es| - 1]);
      StepKeepsSigned(w, s, last);
      StepKeepsWithin(w, s, last);
    }
  }

  /** What the publisher signs next passes above every floor within its counter. */
  lemma NextPasses(w: Setting, s: State, payload: string, now: int, ttl: int, at: int, floor: nat)
    requires at <= now + ttl - (now + ttl) % SECOND && floor <= s.published + 1
    ensures Passing(w, Step(w, s, Publish(payload, now, ttl)).log,
                    Some(Published(w, s.published + 1, payload, now, ttl)), at, floor) == Some(s.published + 1)
  {
    SignThenVerify(w.digest, s.log, w.pinned, Meta(w.typ, s.published + 1, now, now + ttl, 0), payload, w.typ, at, floor);
  }

  /** Rollback protection never locks the publisher out: within one lifetime of its counter,
      whatever was replayed, forged or interleaved before, what it signs next passes every
      fetch already begun or begun later, until it expires. */
  lemma {:induction false} NextPublicationIsAccepted(w: Setting, es: seq<Event>, payload: string, now: int, ttl: int, id: nat, at: int)
    requires GoodDigest(w.digest) && at <= now + ttl - (now + ttl) % SECOND
    ensures var s, s' := Run(w, es), Run(w, es + [Publish(payload, now, ttl)]);
      var floor := if id in s.fetches then s.fetches[id].floor else s'.floor;
      Passing(w, s'.log, Some(Published(w, s'.published, payload, now, ttl)), at, floor) == Some(s'.published)
  {
    var s, e := Run(w, es), Publish(payload, now, ttl);
    RunMore(w, es, e);
    RunStaysWithin(w, es);
    StepAdds(w, s, e);
    NextPasses(w, s, payload, now, ttl, at, if id in s.fetches then s.fetches[id].floor else s.floor);
  }

  // ------------------------------------------------------ putting a body in use

  /** What the code does not check again when it puts a body in use: is its serial still the
      floor? */
  predicate StillCurrent(s: State, id: nat) {
    Replaces(s, id) && s.fetches[id].passed.value == s.floor
  }

  /** The re-check can be made from the history alone: no commit so far, of a fetch that ended or
      of one still under way, has a higher serial. */
  lemma StillCurrentExactly(w: Setting, es: seq<Event>, id: nat)
    requires Replaces(Run(w, es), id)
    ensures StillCurrent(Run(w, es), id) <==> AllAtMost(Run(w, es).commits, Run(w, es).fetches[id].passed.value)
  {
    RunKeepsFloors(w, es);
    StillCurrentIn(Run(w, es), id);
  }

  lemma StillCurrentIn(s: State, id: nat)
    requires FloorsAreHonest(s) && Replaces(s, id)
    ensures StillCurrent(s, id) <==> AllAtMost(s.commits, s.fetches[id].passed.value)
  {
    assert FetchIsHonest(s.fetches[id], s.floor, s.commits);
    HighestAtMost(s.commits, s.fetches[id].passed.value);
  }

  /** The latest replacement since the client started, if any, passed the re-check. */
  predicate LatestPassed(w: Setting, es: seq<Event>) {
    if es == [] then true
    else
      var init, last := es[..|es| - 1], es[|es| - 1];
      if last.Restart? then true
      else if last.Replace? && Replaces(Run(w, init), last.id) then StillCurrent(Run(w, init), last.id)
      else LatestPassed(w, init)
  }

  /** A fetch raises the floor above what is in use. */
  predicate Overtakes(s: State, e: Event) {
    e.RaiseFloor? && Raises(s, e.id) && s.fetches[e.id].passed.value > s.inUse
  }

  /** Since the latest replacement or start, no fetch has overtaken what is in use. */
  predicate NotOvertaken(w: Setting, es: seq<Event>) {
    if es == [] then true
    else
      var init, last := es[..|es| - 1], es[|es| - 1];
      if last.Restart? || (last.Replace? && Replaces(Run(w, init), last.id)) then true
      else !Overtakes(Run(w, init), last) && NotOvertaken(w, init)
  }

  /** The same, of the fetches that put nothing in use themselves. */
  predicate NotOvertakenUnwritten(w: Setting, es: seq<Event>) {
    if es == [] then true
    else
      var init, last := es[..|es| - 1], es[|es| - 1];
      if last.Restart? || (last.Replace? && Replaces(Run(w, init), last.id)) then true
      else !(Overtakes(Run(w, init), last) && !Run(w, init).fetches[last.id].writes) && NotOvertakenUnwritten(w, init)
  }

  /** Nothing newer than what is in use has been committed since the client started. */
  predicate Current(s: State) {
    s.floor <= s.inUse
  }

  lemma ReplaceEffect(w: Setting, s: State, id: nat)
    requires FloorsAreHonest(s) && Replaces(s, id)
    ensures Step(w, s, Replace(id)).inUse == s.fetches[id].passed.value <= s.floor == Step(w, s, Replace(id)).floor
    ensures Current(Step(w, s, Replace(id))) <==> StillCurrent(s, id)
  {
    assert FetchIsHonest(s.fetches[id], s.floor, s.commits);
  }

  /** Any other step but a restart leaves what is in use alone, and makes it outdated only by
      overtaking it. */
  lemma OtherEffect(w: Setting, s: State, e: Event)
    requires !(e.Replace? && Replaces(s, e.id)) && !e.Restart?
    ensures Current(Step(w, s, e)) <==> Current(s) && !Overtakes(s, e)
  {}

  /** In every run, right after a replacement and at any later moment, restarts included: what is
      in use is the newest committed exactly when the latest replacement passed the re-check and
      no fetch has overtaken it since. */
  lemma {:induction false} ListIsCurrentExactly(w: Setting, es: seq<Event>)
    ensures Current(Run(w, es)) <==> LatestPassed(w, es) && NotOvertaken(w, es)
  {
    hide Step;
    if es != [] {
      var init, last := es[..|es| - 1], es[|es| - 1];
      var s := Run(w, init);
      ListIsCurrentExactly(w, init);
      RunKeepsFloors(w, init);
      if last.Restart? {
        RestartEffect(w, s, last.keeps);
      } else if last.Replace? && Replaces(s, last.id) {
        ReplaceEffect(w, s, last.id);
      } else {
        OtherEffect(w, s, last);
      }
    }
  }

  lemma RestartEffect(w: Setting, s: State, keeps: bool)
    ensures Current(Step(w, s, Restart(keeps))) && forall id :: !Replaces(Step(w, s, Restart(keeps)), id)
  {}

  lemma StepStaysAtFloor(w: Setting, s: State, e: Event)
    requires FloorsAreHonest(s) && s.inUse <= s.floor && (e.Restart? ==> !e.keeps)
    ensures Step(w, s, e).inUse <= Step(w, s, e).floor
  {
    if e.Replace? && Replaces(s, e.id) {
      ReplaceEffect(w, s, e.id);
    }
  }

  /** What is in use and not in a file is never ahead of the floor, so being current is being the
      body at the floor. */
  lemma {:induction false} CurrentIsAtFloor(w: Setting, es: seq<Event>)
    requires forall i :: 0 <= i < |es| && es[i].Restart? ==> !es[i].keeps
    ensures Run(w, es).inUse <= Run(w, es).floor
  {
    hide Step;
    if es != [] {
      var init, last := es[..|es| - 1], es[|es| - 1];
      CurrentIsAtFloor(w, init);
      RunKeepsFloors(w, init);
      StepStaysAtFloor(w, Run(w, init), last);
    }
  }

  /** One replacement, after any run: its body is then the newest accepted one exactly when
      nothing higher had been committed by then. */
  lemma ReplaceIsCurrentExactly(w: Setting, es: seq<Event>, id: nat)
    requires Replaces(Run(w, es), id)
    ensures Run(w, es + [Replace(id)]).inUse == Run(w, es + [Replace(id)]).floor
       <==> AllAtMost(Run(w, es).commits, Run(w, es).fetches[id].passed.value)
  {
    RunKeepsFloors(w, es);
    RunMore(w, es, Replace(id));
    ReplaceEffect(w, Run(w, es), id);
    StillCurrentIn(Run(w, es), id);
  }

  /** A writer that overtakes is pending afterwards, and only replacing or a restart ends that. */
  lemma StepKeepsPending(w: Setting, s: State, e: Event)
    requires FloorsAreHonest(s) && !(e.Replace? && Replaces(s, e.id)) && !e.Restart?
    ensures Overtakes(s, e) && s.fetches[e.id].writes ==> Replaces(Step(w, s, e), e.id)
    ensures forall id :: Replaces(s, id) ==> Replaces(Step(w, s, e), id)
  {
    if Overtakes(s, e) {
      assert FetchIsHonest(s.fetches[e.id], s.floor, s.commits);
    }
  }

  lemma {:induction false} OvertakenIsPending(w: Setting, es: seq<Event>)
    ensures NotOvertaken(w, es) ==> NotOvertakenUnwritten(w, es)
    ensures !NotOvertaken(w, es) && NotOvertakenUnwritten(w, es) ==> exists id :: Replaces(Run(w, es), id)
  {
    hide Step;
    if es != [] {
      var init, last := es[..|es| - 1], es[|es| - 1];
      var s := Run(w, init);
      OvertakenIsPending(w, init);
      RunKeepsFloors(w, init);
      if !last.Restart? && !(last.Replace? && Replaces(s, last.id)) {
        StepKeepsPending(w, s, last);
        if !NotOvertaken(w, init) && NotOvertakenUnwritten(w, init) {
          var id :| Replaces(s, id);
          assert Replaces(Run(w, es), id);
        } else if Overtakes(s, last) && s.fetches[last.id].writes {
          assert Replaces(Run(w, es), last.id);
        }
      }
    }
  }

  /** Once every fetch that puts its body in use has done so, the newest committed body is in use
      exactly when the latest replacement passed the re-check and no fetch that put nothing in
      use has overtaken it since. */
  lemma SettledListIsCurrentExactly(w: Setting, es: seq<Event>)
    requires forall id :: !Replaces(Run(w, es), id)
    ensures Current(Run(w, es)) <==> LatestPassed(w, es) && NotOvertakenUnwritten(w, es)
  {
    OvertakenIsPending(w, es);
    ListIsCurrentExactly(w, es);
  }

  /** Every fetch of the run puts its body in use if it passes, as a bootstrap refresh does. */
  ghost predicate AllWrite(es: seq<Event>) {
    forall i :: 0 <= i < |es| && es[i].Check? ==> es[i].writes
  }

  ghost predicate Writers(s: State) {
    forall id :: id in s.fetches && s.fetches[id].passed.Some? ==> s.fetches[id].writes
  }

  lemma StepKeepsWriters(w: Setting, s: State, e: Event)
    requires Writers(s) && (e.Check? ==> e.writes)
    ensures Writers(Step(w, s, e))
  {
    hide Passing;
  }

  lemma {:induction false} WritersWrite(w: Setting, es: seq<Event>)
    requires AllWrite(es)
    ensures Writers(Run(w, es)) && NotOvertakenUnwritten(w, es)
  {
    hide Step;
    if es != [] {
      var init, last := es[..|es| - 1], es[|es| - 1];
      assert AllWrite(init);
      WritersWrite(w, init);
      StepKeepsWriters(w, Run(w, init), last);
    }
  }

  /** For bootstrap refreshes: once all have finished, the newest accepted list is in use exactly
      when the latest replacement passed the re-check. */
  lemma SettledRefreshesExactly(w: Setting, es: seq<Event>)
    requires AllWrite(es) && forall i :: 0 <= i < |es| && es[i].Restart? ==> !es[i].keeps
    requires forall id :: !Replaces(Run(w, es), id)
    ensures Run(w, es).inUse == Run(w, es).floor <==> LatestPassed(w, es)
  {
    WritersWrite(w, es);
    CurrentIsAtFloor(w, es);
    SettledListIsCurrentExactly(w, es);
  }

  // ---------------------------------------------------------- reading it again

  /** The pinned key signed this object of the type. */
  predicate Genuine(w: Setting, log: SignatureLog, s: Signed) {
    && s.typ == w.typ && s.pubKey == Some(w.pinned) && s.signature.Some?
    && Verifies(log, w.pinned, Text(w.digest, s), s.signature.value)
  }

  lemma PassingExactly(w: Setting, log: SignatureLog, bytes: Wire, now: int, floor: nat)
    ensures Passing(w, log, bytes, now, floor).Some?
       <==> bytes.Some? && Genuine(w, log, bytes.value) && floor <= bytes.value.serial && now <= bytes.value.expiresAt * SECOND
    ensures Passing(w, log, bytes, now, floor).Some? ==> floor <= Passing(w, log, bytes, now, floor).value == bytes.value.serial
  {}

  ghost predicate FetchIsGenuine(w: Setting, log: SignatureLog, f: Fetch) {
    f.passed.Some? ==> f.body.Some? && f.passed.value == f.body.value.serial && Genuine(w, log, f.body.value)
  }

  /** What is in use once passed under the pinned key, and so did what is about to be. */
  ghost predicate KeptIsGenuine(w: Setting, s: State) {
    && (if s.kept.Some? then s.kept.value.serial == s.inUse && Genuine(w, s.log, s.kept.value) else s.inUse == 0)
    && (forall id :: id in s.fetches ==> FetchIsGenuine(w, s.log, s.fetches[id]))
  }

  lemma GenuineStays(w: Setting, log: SignatureLog, more: SignatureLog, s: Signed)
    requires Genuine(w, log, s) && log <= more
    ensures Genuine(w, more, s)
  {}

  lemma StepKeepsGenuine(w: Setting, s: State, e: Event)
    requires KeptIsGenuine(w, s)
    ensures KeptIsGenuine(w, Step(w, s, e))
  {
    var s' := Step(w, s, e);
    StepRaisesOnly(w, s, e);
    if s.kept.Some? { GenuineStays(w, s.log, s'.log, s.kept.value); }
    forall id | id in s'.fetches ensures FetchIsGenuine(w, s'.log, s'.fetches[id]) {
      if id in s.fetches {
        assert FetchIsGenuine(w, s.log, s.fetches[id]);
        if s.fetches[id].passed.Some? { GenuineStays(w, s.log, s'.log, s.fetches[id].body.value); }
        if e.Check? && e.id == id { PassingExactly(w, s.log, e.bytes, e.now, s.fetches[id].floor); }
      }
    }
    if e.Replace? && Replaces(s, e.id) {
      assert FetchIsGenuine(w, s.log, s.fetches[e.id]);
    }
  }

  lemma {:induction false} RunKeepsGenuine(w: Setting, es: seq<Event>)
    ensures KeptIsGenuine(w, Run(w, es))
  {
    if es != [] {
      RunKeepsGenuine(w, es[..|es| - 1]);
      StepKeepsGenuine(w, Run(w, es[..|es| - 1]), es[|es| - 1]);
    }
  }

  /** The cache file under any interleaving of its writers and readers, and over restarts of the
      client: what it holds passes exactly when nothing newer has been committed since the client
      started, and it has not expired. */
  lemma KeptPassesExactly(w: Setting, es: seq<Event>, now: int)
    ensures var s := Run(w, es);
            Passing(w, s.log, s.kept, now, s.floor).Some?
            <==> s.kept.Some? && Current(s) && now <= s.kept.value.expiresAt * SECOND
  {
    var s := Run(w, es);
    RunKeepsGenuine(w, es);
    PassingExactly(w, s.log, s.kept, now, s.floor);
  }

  /** With no writer left to run: exactly when the latest writer found its serial still the floor,
      no fetch has raised the floor above the file without writing it, and what was written has
      not expired. Fetches served from the file itself do no harm. */
  lemma SettledCachePassesExactly(w: Setting, es: seq<Event>, now: int)
    requires forall id :: !Replaces(Run(w, es), id)
    ensures var s := Run(w, es);
            Passing(w, s.log, s.kept, now, s.floor).Some?
            <==> s.kept.Some? && LatestPassed(w, es) && NotOvertakenUnwritten(w, es)
                 && now <= s.kept.value.expiresAt * SECOND
  {
    KeptPassesExactly(w, es, now);
    SettledListIsCurrentExactly(w, es);
  }

  /** A restart forgives: whatever is in the file passes then exactly until it expires, even if a
      newer body had been committed before and the file had stopped serving. */
  lemma RestartedCachePassesExactly(w: Setting, es: seq<Event>, now: int)
    ensures var s, s' := Run(w, es), Run(w, es + [Restart(true)]);
            && s'.kept == s.kept
            && (Passing(w, s'.log, s'.kept, now, s'.floor).Some?
                <==> s.kept.Some? && now <= s.kept.value.expiresAt * SECOND)
  {
    hide Run, Passing;
    RunMore(w, es, Restart(true));
    RunKeepsGenuine(w, es);
    PassingExactly(w, Run(w, es).log, Run(w, es).kept, now, 0);
  }

  /** A fetch served from the file leaves the file serving. */
  lemma CacheFetchKeepsServing(w: Setting, s: State, id: nat, now: int)
    requires KeptIsGenuine(w, s) && Current(s) && id !in s.fetches
    ensures Current(Step(w, Step(w, Step(w, s, ReadFloor(id)), Check(id, s.kept, now, false)), RaiseFloor(id)))
  {
    var s1 := Step(w, s, ReadFloor(id));
    var s2 := Step(w, s1, Check(id, s.kept, now, false));
    PassingExactly(w, s.log, s.kept, now, s.floor);
    assert s2.floor == s.floor && s2.inUse == s.inUse;
    OtherEffect(w, s2, RaiseFloor(id));
  }

  // ------------------------------------------------------------- a concrete run

  function Older(w: Setting): Signed {
    Published(w, 1, "old", 0, SECOND)
  }

  function Newer(w: Setting): Signed {
    Published(w, 2, "new", 0, SECOND)
  }

  /** Two publications, and two refreshes that each accept one of them. */
  function TwoRefreshes(w: Setting): seq<Event> {
    [Publish("old", 0, SECOND), Publish("new", 0, SECOND), ReadFloor(0), ReadFloor(1),
     Check(0, Some(Older(w)), 0, true), Check(1, Some(Newer(w)), 0, true)]
  }

  lemma BothPass(w: Setting)
    ensures var s := Run(w, TwoRefreshes(w));
      && s.floor == 0 && s.published == 2
      && s.fetches == map[0 := Fetch(0, 0, Some(Older(w)), Some(1), true, false, false),
                           1 := Fetch(0, 0, Some(Newer(w)), Some(2), true, false, false)]
  {
    var es := TwoRefreshes(w);
    assert es[..3] == es[..2] + [es[2]] && es[..4] == es[..3] + [es[3]];
    assert es[..5] == es[..4] + [es[4]] && es == es[..5] + [es[5]];
    BothPublished(w);
    RunMore(w, es[..2], es[2]);
    RunMore(w, es[..3], es[3]);
    RunMore(w, es[..4], es[4]);
    RunMore(w, es[..5], es[5]);
  }

  lemma BothPublished(w: Setting)
    ensures var s := Run(w, TwoRefreshes(w)[..2]);
      && s.floor == 0 && s.published == 2 && s.fetches == map[] && s.commits == []
      && Passing(w, s.log, Some(Older(w)), 0, 0) == Some(1)
      && Passing(w, s.log, Some(Newer(w)), 0, 0) == Some(2)
  {
    hide Passing, Published, DiscoveryText;
    var es := TwoRefreshes(w);
    assert es[..1] == [] + [es[0]] && es[..2] == es[..1] + [es[1]];
    RunMore(w, [], es[0]);
    var s1 := Step(w, START, es[0]);
    RunMore(w, es[..1], es[1]);
    NextPasses(w, START, "old", 0, SECOND, 0, 0);
    NextPasses(w, s1, "new", 0, SECOND, 0, 0);
    StaysPassing(w, s1.log, Step(w, s1, es[1]).log, Older(w));
  }

  lemma StaysPassing(w: Setting, log: SignatureLog, more: SignatureLog, s: Signed)
    requires Passing(w, log, Some(s), 0, 0).Some? && log <= more
    ensures Passing(w, more, Some(s), 0, 0) == Passing(w, log, Some(s), 0, 0)
  {}

  /** A whole run from the start, under every setting: the older refresh raises the floor first
      and replaces last, and its list stays in use below the floor with nothing left to run. */
  lemma OverlappingRefreshesCanRegress(w: Setting)
    ensures var s := Run(w, TwoRefreshes(w) + [RaiseFloor(0), RaiseFloor(1), Replace(1), Replace(0)]);
      && s.inUse == 1 && s.floor == 2 == s.published
      && forall id :: !Replaces(s, id)
  {
    var es := TwoRefreshes(w);
    BothPass(w);
    assert es + [RaiseFloor(0), RaiseFloor(1), Replace(1), Replace(0)]
        == es + [RaiseFloor(0)] + [RaiseFloor(1)] + [Replace(1)] + [Replace(0)];
    RunMore(w, es, RaiseFloor(0));
    RunMore(w, es + [RaiseFloor(0)], RaiseFloor(1));
    RunMore(w, es + [RaiseFloor(0)] + [RaiseFloor(1)], Replace(1));
    RunMore(w, es + [RaiseFloor(0)] + [RaiseFloor(1)] + [Replace(1)], Replace(0));
  }
}
