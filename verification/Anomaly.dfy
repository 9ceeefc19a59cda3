/** The sliding-window detector of sources that produce too many distinct identities.
    Times and the window are nanoseconds. */
module Anomaly {
  import opened Wrappers

  datatype Config = Config(window: int, threshold: int)

  /** identity -> last seen */
  type Identities = map<string, int>

  /** key -> identities */
  type Table = map<string, Identities>

  const SWEEP_AT: nat := 1024

  function Fresh(c: Config, ids: Identities, now: int): Identities {
    map id | id in ids && now - ids[id] <= c.window :: ids[id]
  }

  function PruneKey(c: Config, t: Table, key: string, now: int): Table {
    if key !in t then t
    else
      var ids := Fresh(c, t[key], now);
      if ids == map[] then t - {key} else t[key := ids]
  }

  function Sweep(c: Config, t: Table, now: int): Table {
    if |t| < SWEEP_AT then t
    else map k | k in t && Fresh(c, t[k], now) != map[] :: Fresh(c, t[k], now)
  }

  /** The identity is written into the key's own set. When the sweep has just deleted that
      set, the write goes to a set the table no longer holds. */
  function Write(t: Table, key: string, id: string, now: int): Table {
    if key in t then t[key := t[key][id := now]] else t
  }

  function ObserveStep(c: Config, t: Table, key: string, id: string, now: int): (bool, Table) {
    var t0 := if key in t then t else Sweep(c, t[key := map[]], now);
    var t1 := PruneKey(c, Write(t0, key, id, now), key, now);
    (Size(t1, key) >= c.threshold, t1)
  }

  function Size(t: Table, key: string): nat {
    if key in t then |t[key]| else 0
  }

  /** The table holds a sighting of this identity for this key, at `at`. */
  predicate Recorded(t: Table, key: string, id: string, at: int) {
    key in t && id in t[key] && t[key][id] == at
  }

  /** From 1024 keys on the sweep keeps exactly the sightings within the window, and no key without
      one; below that it keeps everything. */
  lemma SweptExactly(c: Config, t: Table, now: int)
    ensures |t| < 1024 ==> Sweep(c, t, now) == t
    ensures |t| >= 1024 ==>
              && (forall key, id, at :: Recorded(Sweep(c, t, now), key, id, at) <==> Recorded(t, key, id, at) && now - at <= c.window)
              && (forall key :: key in Sweep(c, t, now) ==> exists id, at :: Recorded(Sweep(c, t, now), key, id, at))
  {
    if |t| >= 1024 {
      var t' := Sweep(c, t, now);
      forall key, id, at ensures Recorded(t', key, id, at) <==> Recorded(t, key, id, at) && now - at <= c.window {
        if Recorded(t, key, id, at) && now - at <= c.window {
          assert id in Fresh(c, t[key], now);
        }
      }
      forall key | key in t' ensures exists id, at :: Recorded(t', key, id, at) {
        var id :| id in t'[key];
        assert Recorded(t', key, id, t'[key][id]);
      }
    }
  }

  class Detector {
    const config: Config
    var seen: Table

    constructor (window: int, threshold: int)
      ensures config == Config(window, threshold) && seen == map[]
    {
      config := Config(window, threshold);
      seen := map[];
    }

    method Observe(key: string, id: string, now: int) returns (flagged: bool)
      modifies this`seen
      ensures (flagged, seen) == ObserveStep(config, old(seen), key, id, now)
    {
      if key !in seen {
        seen := seen[key := map[]];
        PruneKeys(now);
      }
      if key in seen { // otherwise the sweep detached the set being written
        seen := seen[key := seen[key][id := now]];
      }
      PruneIdentities(key, now);
      flagged := (if key in seen then |seen[key]| else 0) >= config.threshold;
    }

    method Count(key: string, now: int) returns (n: nat)
      modifies this`seen
      ensures seen == PruneKey(config, old(seen), key, now)
      ensures n == Size(seen, key)
    {
      PruneIdentities(key, now);
      n := if key in seen then |seen[key]| else 0;
    }

    method PruneIdentities(key: string, now: int)
      modifies this`seen
      ensures seen == PruneKey(config, old(seen), key, now)
    {
      if key !in seen {
        return;
      }
      var ids := seen[key];
      var todo := ids.Keys;
      while todo != {}
        invariant todo <= seen[key].Keys
        invariant forall id :: id in ids <==>
                    id in seen[key] && (id in todo || now - seen[key][id] <= config.window)
        invariant forall id :: id in ids ==> ids[id] == seen[key][id]
        decreases todo
      {
        var id :| id in todo;
        if now - ids[id] > config.window {
          ids := ids - {id};
        }
        todo := todo - {id};
      }
      assert ids == Fresh(config, seen[key], now);
      seen := if ids == map[] then seen - {key} else seen[key := ids];
    }

    method PruneKeys(now: int)
      modifies this`seen
      ensures seen == Sweep(config, old(seen), now)
    {
      if |seen| < SWEEP_AT {
        return;
      }
      ghost var before := seen;
      var todo := seen.Keys;
      while todo != {}
        invariant todo <= before.Keys
        invariant forall k :: k in seen <==> k in before && (k in todo || Fresh(config, before[k], now) != map[])
        invariant forall k :: k in seen ==> seen[k] == if k in todo then before[k] else Fresh(config, before[k], now)
        decreases todo
      {
        var k :| k in todo;
        PruneIdentities(k, now);
        todo := todo - {k};
      }
    }
  }

  // --------------------------------------------------------------- reference

  datatype Observation = Observation(key: string, id: string, at: int)

  /** The distinct identities `key` produced within the window that ends at `now`. */
  function Distinct(c: Config, log: seq<Observation>, key: string, now: int): set<string> {
    set i | 0 <= i < |log| && log[i].key == key && now - log[i].at <= c.window :: log[i].id
  }

  ghost predicate Past(log: seq<Observation>, now: int) {
    forall i :: 0 <= i < |log| ==> log[i].at <= now
  }

  /** The table holds the last sighting of every identity still in the window, and
      nothing that the log does not. */
  ghost predicate Represents(c: Config, t: Table, log: seq<Observation>, now: int) {
    && (forall k, id :: k in t && id in t[k] ==> Observation(k, id, t[k][id]) in log)
    && (forall o :: o in log && now - o.at <= c.window ==> Sighted(t, o))
  }

  predicate Sighted(t: Table, o: Observation) {
    o.key in t && o.id in t[o.key] && o.at <= t[o.key][o.id]
  }

  /** At any later time the table's fresh identities are the log's distinct ones. */
  lemma CountIsDistinct(c: Config, t: Table, log: seq<Observation>, since: int, key: string, now: int)
    requires Represents(c, t, log, since) && since <= now
    ensures Size(PruneKey(c, t, key, now), key) == |Distinct(c, log, key, now)|
  {
    var ids := if key in t then Fresh(c, t[key], now) else map[];
    forall id | id in ids ensures id in Distinct(c, log, key, now) {
      var i :| 0 <= i < |log| && log[i] == Observation(key, id, t[key][id]);
    }
    forall id | id in Distinct(c, log, key, now) ensures id in ids {
      var i :| 0 <= i < |log| && log[i].key == key && now - log[i].at <= c.window && log[i].id == id;
      assert Sighted(t, log[i]);
    }
    assert ids.Keys == Distinct(c, log, key, now);
    assert |ids| == |ids.Keys|;
  }

  lemma PruneRepresents(c: Config, t: Table, log: seq<Observation>, key: string, now: int)
    requires Represents(c, t, log, now)
    ensures Represents(c, PruneKey(c, t, key, now), log, now)
  {
    var t' := PruneKey(c, t, key, now);
    forall o | o in log && now - o.at <= c.window ensures Sighted(t', o) {
      assert Sighted(t, o);
      if o.key == key {
        assert o.id in Fresh(c, t[key], now);
      }
    }
  }

  lemma SweepRepresents(c: Config, t: Table, log: seq<Observation>, now: int)
    requires Represents(c, t, log, now)
    ensures Represents(c, Sweep(c, t, now), log, now)
  {
    var t' := Sweep(c, t, now);
    forall o | o in log && now - o.at <= c.window ensures Sighted(t', o) {
      assert Sighted(t, o);
      assert o.id in Fresh(c, t[o.key], now);
    }
  }

  /** The sweep fires on a key that was not there. */
  predicate Lost(t: Table, key: string) {
    key !in t && |t| + 1 >= SWEEP_AT
  }

  function Kept(t: Table, log: seq<Observation>, o: Observation): seq<Observation> {
    if Lost(t, o.key) then log else log + [o]
  }

  lemma LostIsDropped(c: Config, t: Table, key: string, id: string, now: int)
    requires Lost(t, key)
    ensures key !in ObserveStep(c, t, key, id, now).1
    ensures ObserveStep(c, t, key, id, now).1 == Sweep(c, t[key := map[]], now)
  {
    var inserted := t[key := map[]];
    assert |inserted| == |t| + 1 by {
      assert inserted.Keys == t.Keys + {key};
    }
    assert Fresh(c, inserted[key], now) == map[];
  }

  lemma WriteRepresents(c: Config, t: Table, log: seq<Observation>, o: Observation)
    requires Represents(c, t, log, o.at) && Past(log, o.at) && o.key in t
    ensures Represents(c, Write(t, o.key, o.id, o.at), log + [o], o.at)
  {
    var t' := Write(t, o.key, o.id, o.at);
    forall k, id | k in t' && id in t'[k] ensures Observation(k, id, t'[k][id]) in log + [o] {
      if k == o.key && id == o.id {
        assert (log + [o])[|log|] == Observation(k, id, t'[k][id]);
      } else {
        assert Observation(k, id, t[k][id]) in log;
      }
    }
    forall p | p in log + [o] && o.at - p.at <= c.window ensures Sighted(t', p) {
      if p in log {
        assert Sighted(t, p);
        var i :| 0 <= i < |log| && log[i] == p;
      }
    }
  }

  /** Inserting an empty set changes nothing the log can see. */
  lemma InsertRepresents(c: Config, t: Table, log: seq<Observation>, key: string, now: int)
    requires Represents(c, t, log, now) && key !in t
    ensures Represents(c, t[key := map[]], log, now)
  {
    forall o | o in log && now - o.at <= c.window ensures Sighted(t[key := map[]], o) {
      assert Sighted(t, o);
    }
  }

  lemma Later(c: Config, t: Table, log: seq<Observation>, since: int, now: int)
    requires Represents(c, t, log, since) && since <= now
    ensures Represents(c, t, log, now)
  {}

  /** One observation: the answer counts exactly the distinct identities in the window of
      the observations kept so far, and the table keeps representing those. */
  lemma StepRepresents(c: Config, t: Table, log: seq<Observation>, since: int, o: Observation)
    requires Represents(c, t, log, since) && since <= o.at && Past(log, o.at)
    ensures Represents(c, ObserveStep(c, t, o.key, o.id, o.at).1, Kept(t, log, o), o.at)
    ensures ObserveStep(c, t, o.key, o.id, o.at).0
         == (|Distinct(c, Kept(t, log, o), o.key, o.at)| >= c.threshold)
  {
    Later(c, t, log, since, o.at);
    if o.key !in t {
      InsertRepresents(c, t, log, o.key, o.at);
      SweepRepresents(c, t[o.key := map[]], log, o.at);
    }
    if Lost(t, o.key) {
      LostIsDropped(c, t, o.key, o.id, o.at);
      CountIsDistinct(c, t, log, since, o.key, o.at);
    } else {
      KeptRepresents(c, t, if o.key in t then t else Sweep(c, t[o.key := map[]], o.at), log, o);
    }
  }

  /** The write goes into a set the table holds. */
  lemma KeptRepresents(c: Config, t: Table, t0: Table, log: seq<Observation>, o: Observation)
    requires Represents(c, t0, log, o.at) && Past(log, o.at) && !Lost(t, o.key)
    requires t0 == if o.key in t then t else Sweep(c, t[o.key := map[]], o.at)
    ensures Represents(c, ObserveStep(c, t, o.key, o.id, o.at).1, log + [o], o.at)
    ensures ObserveStep(c, t, o.key, o.id, o.at).0 == (|Distinct(c, log + [o], o.key, o.at)| >= c.threshold)
  {
    assert |t[o.key := map[]]| <= |t| + 1 by {
      assert t[o.key := map[]].Keys == t.Keys + {o.key};
    }
    var t1 := Write(t0, o.key, o.id, o.at);
    assert o.key in t0;
    hide Represents, Distinct, Fresh, Sweep, Write;
    WriteRepresents(c, t0, log, o);
    PruneRepresents(c, t1, log + [o], o.key, o.at);
    CountIsDistinct(c, t1, log + [o], o.at, o.key, o.at);
  }

  /** The table represents the full log after the step exactly when the sweep did not fire
      on a new key. */
  lemma ObservationKeptExactly(c: Config, t: Table, log: seq<Observation>, since: int, o: Observation)
    requires c.window >= 0 && Represents(c, t, log, since) && since <= o.at && Past(log, o.at)
    ensures Represents(c, ObserveStep(c, t, o.key, o.id, o.at).1, log + [o], o.at) <==> !Lost(t, o.key)
  {
    StepRepresents(c, t, log, since, o);
    if Lost(t, o.key) {
      LostIsDropped(c, t, o.key, o.id, o.at);
      assert (log + [o])[|log|] == o && !Sighted(ObserveStep(c, t, o.key, o.id, o.at).1, o);
    }
  }

  // -------------------------------------------------------------------- runs

  ghost predicate Chronological(os: seq<Observation>) {
    forall i, j :: 0 <= i < j < |os| ==> os[i].at <= os[j].at
  }

  function Run(c: Config, os: seq<Observation>): Table {
    if os == [] then map[]
    else
      var last := os[|os| - 1];
      ObserveStep(c, Run(c, os[..|os| - 1]), last.key, last.id, last.at).1
  }

  /** The observations that no sweep swallowed. */
  function KeptRun(c: Config, os: seq<Observation>): seq<Observation> {
    if os == [] then []
    else Kept(Run(c, os[..|os| - 1]), KeptRun(c, os[..|os| - 1]), os[|os| - 1])
  }

  lemma RunOfMore(c: Config, os: seq<Observation>, o: Observation)
    ensures Run(c, os + [o]) == ObserveStep(c, Run(c, os), o.key, o.id, o.at).1
    ensures KeptRun(c, os + [o]) == Kept(Run(c, os), KeptRun(c, os), o)
  {
    assert (os + [o])[..|os + [o]| - 1] == os;
  }

  lemma KeptIsPast(t: Table, log: seq<Observation>, o: Observation, now: int)
    requires Past(log, o.at) && o.at <= now
    ensures Past(Kept(t, log, o), now)
  {}

  lemma RunStepRepresents(c: Config, os: seq<Observation>, o: Observation, now: int)
    requires Represents(c, Run(c, os), KeptRun(c, os), o.at) && Past(KeptRun(c, os), o.at) && o.at <= now
    ensures Represents(c, Run(c, os + [o]), KeptRun(c, os + [o]), now)
    ensures Past(KeptRun(c, os + [o]), now)
  {
    var t, log := Run(c, os), KeptRun(c, os);
    RunOfMore(c, os, o);
    KeptIsPast(t, log, o, now);
    StepRepresents(c, t, log, o.at, o);
    Later(c, Run(c, os + [o]), Kept(t, log, o), o.at, now);
  }

  lemma {:induction false} RunRepresents(c: Config, os: seq<Observation>, now: int)
    requires Chronological(os) && Past(os, now)
    ensures Represents(c, Run(c, os), KeptRun(c, os), now)
    ensures Past(KeptRun(c, os), now)
  {
    hide ObserveStep;
    if os != [] {
      var init, last := os[..|os| - 1], os[|os| - 1];
      assert os == init + [last];
      assert Past(init, last.at);
      RunRepresents(c, init, last.at);
      RunStepRepresents(c, init, last, now);
    }
  }

  /** After any chronological run, sweeps included, the next answer is exact for the
      observations kept: it is true iff the key's distinct identities in the window reach
      the threshold. */
  lemma ObserveIsExact(c: Config, os: seq<Observation>, o: Observation)
    requires Chronological(os) && Past(os, o.at)
    ensures ObserveStep(c, Run(c, os), o.key, o.id, o.at).0
         == (|Distinct(c, KeptRun(c, os + [o]), o.key, o.at)| >= c.threshold)
  {
    hide ObserveStep;
    RunRepresents(c, os, o.at);
    StepRepresents(c, Run(c, os), KeptRun(c, os), o.at, o);
    assert (os + [o])[..|os|] == os;
  }

  /** No observation of the run came as a new key when the table was about to be swept. */
  ghost predicate NeverSwept(c: Config, os: seq<Observation>) {
    os != [] ==>
      && NeverSwept(c, os[..|os| - 1])
      && !Lost(Run(c, os[..|os| - 1]), os[|os| - 1].key)
  }

  lemma {:induction false} NothingLost(c: Config, os: seq<Observation>)
    requires NeverSwept(c, os)
    ensures KeptRun(c, os) == os
  {
    if os != [] {
      var init, last := os[..|os| - 1], os[|os| - 1];
      assert os == init + [last];
      NothingLost(c, init);
      assert KeptRun(c, os) == Kept(Run(c, init), init, last);
    }
  }

  /** On runs where the sweep never meets a new key the detector is the full log. */
  lemma ObserveRefinesFullLog(c: Config, os: seq<Observation>, o: Observation)
    requires Chronological(os) && Past(os, o.at) && NeverSwept(c, os + [o])
    ensures ObserveStep(c, Run(c, os), o.key, o.id, o.at).0
         == (|Distinct(c, os + [o], o.key, o.at)| >= c.threshold)
  {
    ObserveIsExact(c, os, o);
    NothingLost(c, os + [o]);
  }

  // ------------------------------------------------- the sweep on a new key

  /** `n` sources, each producing one identity at time 0. */
  function Crowd(n: nat): seq<Observation> {
    if n == 0 then [] else Crowd(n - 1) + [Newcomer(n - 1)]
  }

  function Newcomer(n: nat): Observation {
    Observation(seq(n, i => 'k'), "peer", 0)
  }

  lemma NewKeyIsAdded(c: Config, t: Table, key: string, id: string, now: int)
    requires c.window >= 0 && key !in t && !Lost(t, key)
    ensures ObserveStep(c, t, key, id, now).1 == t[key := map[id := now]]
  {
    var t0 := t[key := map[]];
    assert |t0| == |t| + 1 by {
      assert t0.Keys == t.Keys + {key};
    }
    assert Sweep(c, t0, now) == t0;
    var ids := map[id := now];
    assert t0[key][id := now] == ids;
    assert t0[key := ids] == t[key := ids];
    assert Fresh(c, ids, now) == ids && ids != map[];
  }

  lemma {:induction false} CrowdTable(c: Config, n: nat)
    requires c.window >= 0 && n < SWEEP_AT
    ensures |Run(c, Crowd(n))| == n
    ensures forall k :: k in Run(c, Crowd(n)) ==> |k| < n
  {
    hide ObserveStep;
    if n > 0 {
      CrowdTable(c, n - 1);
      CrowdGrows(c, n - 1, Run(c, Crowd(n - 1)));
      RunOfMore(c, Crowd(n - 1), Newcomer(n - 1));
    }
  }

  lemma CrowdGrows(c: Config, n: nat, t: Table)
    requires c.window >= 0 && n + 1 < SWEEP_AT && |t| == n && forall k :: k in t ==> |k| < n
    ensures var o := Newcomer(n);
      && |ObserveStep(c, t, o.key, o.id, o.at).1| == n + 1
      && forall k :: k in ObserveStep(c, t, o.key, o.id, o.at).1 ==> |k| < n + 1
  {
    hide ObserveStep;
    var o := Newcomer(n);
    NewKeyIsAdded(c, t, o.key, o.id, o.at);
    assert t[o.key := map[o.id := o.at]].Keys == t.Keys + {o.key};
  }

  /** As written the detector can miss: with a threshold of one, the 1024th source is not
      flagged although its identity is inside the window. */
  lemma SweepLosesAnObservation(window: int)
    requires window >= 0
    ensures var c, os, o := Config(window, 1), Crowd(SWEEP_AT - 1), Newcomer(SWEEP_AT - 1);
      && !ObserveStep(c, Run(c, os), o.key, o.id, o.at).0
      && |Distinct(c, os + [o], o.key, o.at)| >= 1
  {
    var c, os, o := Config(window, 1), Crowd(SWEEP_AT - 1), Newcomer(SWEEP_AT - 1);
    CrowdTable(c, SWEEP_AT - 1);
    LostIsDropped(c, Run(c, os), o.key, o.id, o.at);
    assert (os + [o])[|os|] == o;
    assert o.id in Distinct(c, os + [o], o.key, o.at);
  }

  // ------------------------------------------------------------- a starved key

  /** Some identity of the key was seen at `at` or later, and is still in the table. */
  predicate SeenSince(t: Table, key: string, at: int) {
    key in t && exists id :: id in t[key] && t[key][id] >= at
  }

  /** A key in the table has its latest sighting there. */
  ghost predicate LatestIsKept(t: Table, os: seq<Observation>) {
    forall i :: 0 <= i < |os| && os[i].key in t ==> SeenSince(t, os[i].key, os[i].at)
  }

  /** Dropping expired identities keeps a key's latest sighting or drops the key. */
  lemma FreshKeepsLatest(c: Config, ids: Identities, now: int, at: int)
    requires Fresh(c, ids, now) != map[] && exists id :: id in ids && ids[id] >= at
    ensures exists id :: id in Fresh(c, ids, now) && Fresh(c, ids, now)[id] >= at
  {
    var id :| id in ids && ids[id] >= at;
    if id !in Fresh(c, ids, now) {
      var other :| other in Fresh(c, ids, now);
      assert Fresh(c, ids, now)[other] >= at;
    }
  }

  lemma SweepKeepsLatest(c: Config, t: Table, now: int, key: string, at: int)
    requires SeenSince(t, key, at) && key in Sweep(c, t, now)
    ensures SeenSince(Sweep(c, t, now), key, at)
  {
    if |t| >= SWEEP_AT { FreshKeepsLatest(c, t[key], now, at); }
  }

  lemma PruneKeepsLatest(c: Config, t: Table, pruned: string, now: int, key: string, at: int)
    requires SeenSince(t, key, at) && key in PruneKey(c, t, pruned, now)
    ensures SeenSince(PruneKey(c, t, pruned, now), key, at)
  {
    if key == pruned { FreshKeepsLatest(c, t[key], now, at); }
  }

  /** After the step a key's earlier sighting is still there, if the key is. */
  lemma StepKeepsLatest(c: Config, t: Table, o: Observation, key: string, at: int)
    requires (key in t ==> SeenSince(t, key, at)) && at <= o.at && key != o.key
    ensures key in ObserveStep(c, t, o.key, o.id, o.at).1 ==> SeenSince(ObserveStep(c, t, o.key, o.id, o.at).1, key, at)
  {
    var t0 := if o.key in t then t else Sweep(c, t[o.key := map[]], o.at);
    if key in t0 {
      if o.key !in t {
        assert SeenSince(t[o.key := map[]], key, at);
        SweepKeepsLatest(c, t[o.key := map[]], o.at, key, at);
      }
      assert Write(t0, o.key, o.id, o.at)[key] == t0[key];
      var id :| id in t0[key] && t0[key][id] >= at;
      assert id in ObserveStep(c, t, o.key, o.id, o.at).1[key];
    }
  }

  lemma OwnIsLatest(c: Config, t: Table, o: Observation)
    requires c.window >= 0 && o.key in ObserveStep(c, t, o.key, o.id, o.at).1
    ensures SeenSince(ObserveStep(c, t, o.key, o.id, o.at).1, o.key, o.at)
  {
    var t0 := if o.key in t then t else Sweep(c, t[o.key := map[]], o.at);
    assert o.key in t0;
    assert o.id in Fresh(c, Write(t0, o.key, o.id, o.at)[o.key], o.at);
    assert ObserveStep(c, t, o.key, o.id, o.at).1[o.key][o.id] == o.at;
  }

  lemma {:induction false} RunKeepsLatest(c: Config, os: seq<Observation>)
    requires c.window >= 0 && Chronological(os)
    ensures LatestIsKept(Run(c, os), os)
  {
    hide ObserveStep;
    if os != [] {
      var init, o := os[..|os| - 1], os[|os| - 1];
      assert os == init + [o];
      RunKeepsLatest(c, init);
      RunOfMore(c, init, o);
      forall i | 0 <= i < |os| && os[i].key in Run(c, os) ensures SeenSince(Run(c, os), os[i].key, os[i].at) {
        if os[i].key == o.key {
          OwnIsLatest(c, Run(c, init), o);
        } else {
          assert os[i] == init[i];
          StepKeepsLatest(c, Run(c, init), o, os[i].key, os[i].at);
        }
      }
    }
  }

  /** Every key of `crowd` has produced something within the window. */
  ghost predicate AllActive(c: Config, os: seq<Observation>, crowd: set<string>, now: int) {
    forall k :: k in crowd ==> ActiveKey(c, os, k, now)
  }

  predicate ActiveKey(c: Config, os: seq<Observation>, key: string, now: int) {
    exists i :: 0 <= i < |os| && os[i].key == key && now - os[i].at <= c.window
  }

  /** A key in the table with a sighting in the window stays there. */
  lemma ActiveStays(c: Config, t: Table, o: Observation, key: string, at: int)
    requires c.window >= 0 && SeenSince(t, key, at) && o.at - at <= c.window
    ensures key in ObserveStep(c, t, o.key, o.id, o.at).1
  {
    var t0 := if o.key in t then t else Sweep(c, t[o.key := map[]], o.at);
    var id :| id in t[key] && t[key][id] >= at;
    if o.key !in t {
      assert t[o.key := map[]][key] == t[key] && id in Fresh(c, t[key], o.at);
    }
    assert key in t0;
    var t1 := Write(t0, o.key, o.id, o.at);
    if key == o.key {
      assert o.id in Fresh(c, t1[key], o.at);
    } else {
      assert key in t1;
    }
  }

  /** The crowd is in the table and the outsider is not. */
  predicate Outside(t: Table, crowd: set<string>, key: string) {
    crowd <= t.Keys && key !in t
  }

  /** One step: the crowd stays, and the outsider stays out, unseen. */
  lemma StarvingStep(c: Config, os: seq<Observation>, o: Observation, crowd: set<string>, key: string)
    requires c.window >= 0 && Chronological(os)
    requires Outside(Run(c, os), crowd, key) && |crowd| >= SWEEP_AT - 1
    requires AllActive(c, os, crowd, o.at)
    ensures Outside(Run(c, os + [o]), crowd, key)
    ensures o.key == key ==> ObserveStep(c, Run(c, os), o.key, o.id, o.at).0 == (0 >= c.threshold)
  {
    var t := Run(c, os);
    RunOfMore(c, os, o);
    RunKeepsLatest(c, os);
    forall k | k in crowd ensures k in Run(c, os + [o]) {
      assert ActiveKey(c, os, k, o.at);
      var i :| 0 <= i < |os| && os[i].key == k && o.at - os[i].at <= c.window;
      ActiveStays(c, t, o, k, os[i].at);
    }
    if o.key == key {
      SubsetIsNotLarger(crowd, t.Keys);
      assert |t| == |t.Keys|;
      LostIsDropped(c, t, o.key, o.id, o.at);
    }
  }

  lemma PrefixIsChronological(os: seq<Observation>, n: nat)
    requires Chronological(os) && n <= |os|
    ensures Chronological(os[..n])
  {}

  lemma {:induction false} OutsiderStaysOut(c: Config, os: seq<Observation>, from: nat, n: nat, crowd: set<string>, key: string)
    requires c.window >= 0 && Chronological(os) && from <= n <= |os|
    requires Outside(Run(c, os[..from]), crowd, key) && |crowd| >= SWEEP_AT - 1
    requires forall m :: from <= m < n ==> AllActive(c, os[..m], crowd, os[m].at)
    ensures Outside(Run(c, os[..n]), crowd, key)
    decreases n
  {
    hide *;
    if n > from {
      var init, o := os[..n - 1], os[n - 1];
      assert os[..n] == init + [o];
      OutsiderStaysOut(c, os, from, n - 1, crowd, key);
      PrefixIsChronological(os, n - 1);
      StarvingStep(c, init, o, crowd, key);
    }
  }

  predicate FlaggedAt(c: Config, os: seq<Observation>, n: nat)
    requires n < |os|
  {
    ObserveStep(c, Run(c, os[..n]), os[n].key, os[n].id, os[n].at).0
  }

  /** Once 1023 other keys are in the table, and as long as each of them has produced something
      within the window, a key that is not in the table never gets in, and is never flagged at a
      positive threshold, however many identities it produces. */
  lemma OutsiderIsNeverFlagged(c: Config, os: seq<Observation>, from: nat, crowd: set<string>, key: string)
    requires c.window >= 0 && Chronological(os) && from <= |os|
    requires Outside(Run(c, os[..from]), crowd, key) && |crowd| >= SWEEP_AT - 1
    requires forall n :: from <= n < |os| ==> AllActive(c, os[..n], crowd, os[n].at)
    ensures forall n :: from <= n <= |os| ==> key !in Run(c, os[..n])
    ensures forall n :: from <= n < |os| && os[n].key == key ==> FlaggedAt(c, os, n) == (0 >= c.threshold)
  {
    hide ObserveStep;
    forall n | from <= n <= |os| ensures key !in Run(c, os[..n]) {
      OutsiderStaysOut(c, os, from, n, crowd, key);
    }
    forall n | from <= n < |os| && os[n].key == key ensures FlaggedAt(c, os, n) == (0 >= c.threshold) {
      OutsiderStaysOut(c, os, from, n, crowd, key);
      PrefixIsChronological(os, n);
      StarvingStep(c, os[..n], os[n], crowd, key);
    }
  }

  /** Such runs exist: after 1023 sources have produced one identity each at time 0, one more
      source can produce any number of identities at that time and is never flagged. */
  lemma CrowdStarves(window: int, threshold: int, ids: seq<string>)
    requires window >= 0 && threshold > 0
    ensures var c, os := Config(window, threshold), Crowd(SWEEP_AT - 1) + Flood(ids);
            forall n :: SWEEP_AT - 1 <= n < |os| ==> !FlaggedAt(c, os, n)
  {
    hide ObserveStep;
    var c, crowd := Config(window, threshold), Crowd(SWEEP_AT - 1);
    var os, outsider := crowd + Flood(ids), Newcomer(SWEEP_AT - 1).key;
    CrowdTable(c, SWEEP_AT - 1);
    CrowdShape(SWEEP_AT - 1);
    var keys := Run(c, crowd).Keys;
    assert os[..SWEEP_AT - 1] == crowd;
    assert |Run(c, crowd)| == |keys|;
    forall n | SWEEP_AT - 1 <= n < |os| ensures os[n].key == outsider && os[n].at == 0 && AllActive(c, os[..n], keys, os[n].at) {
      CrowdIsActive(c, crowd, os[..n]);
    }
    OutsiderIsNeverFlagged(c, os, SWEEP_AT - 1, keys, outsider);
  }

  lemma CrowdIsActive(c: Config, crowd: seq<Observation>, os: seq<Observation>)
    requires c.window >= 0 && crowd <= os && forall i :: 0 <= i < |crowd| ==> crowd[i].at == 0
    ensures AllActive(c, os, Run(c, crowd).Keys, 0)
  {
    RunKeysWereSeen(c, crowd);
    forall k | k in Run(c, crowd).Keys ensures ActiveKey(c, os, k, 0) {
      var i :| 0 <= i < |crowd| && crowd[i].key == k;
      assert os[i] == crowd[i];
    }
  }

  /** Identities that one and the same source produces at time 0. */
  function Flood(ids: seq<string>): seq<Observation> {
    seq(|ids|, i requires 0 <= i < |ids| => Observation(Newcomer(SWEEP_AT - 1).key, ids[i], 0))
  }

  lemma {:induction false} CrowdShape(n: nat)
    ensures |Crowd(n)| == n && forall i :: 0 <= i < n ==> Crowd(n)[i].at == 0
  {
    if n > 0 {
      CrowdShape(n - 1);
    }
  }

  lemma StepAddsOwnOnly(c: Config, t: Table, o: Observation, key: string)
    requires key in ObserveStep(c, t, o.key, o.id, o.at).1 && key != o.key
    ensures key in t
  {}

  lemma {:induction false} RunKeysWereSeen(c: Config, os: seq<Observation>)
    ensures forall k :: k in Run(c, os) ==> exists i :: 0 <= i < |os| && os[i].key == k
  {
    hide ObserveStep;
    if os != [] {
      var init, o := os[..|os| - 1], os[|os| - 1];
      RunKeysWereSeen(c, init);
      forall k | k in Run(c, os) ensures exists i :: 0 <= i < |os| && os[i].key == k {
        if k == o.key {
          assert os[|os| - 1].key == k;
        } else {
          StepAddsOwnOnly(c, Run(c, init), o, k);
          var i :| 0 <= i < |init| && init[i].key == k;
          assert os[i].key == k;
        }
      }
    }
  }
}
