/** Detection of a subject that signs two different payloads at one generation, with a
    bounded memory of recent generations, against a reference that forgets nothing. */
module Equivocation {
  import opened Wrappers

  type Digest = string

  /** Generation and payload hash of a signed record. */
  datatype Fingerprint = Fingerprint(generation: nat, hash: Digest)

  /** `mark` is None when the bytes are not a signed envelope. */
  datatype Observation = Observation(subject: string, mark: Option<Fingerprint>)

  datatype Verdict = Accepted | NotAnEnvelope | AlreadyIsolated | Conflict

  datatype State = State(seen: map<string, map<nat, Digest>>, isolated: set<string>)

  const EMPTY := State(map[], {})
  const DEFAULT_WINDOW: nat := 16

  ghost function Max(s: set<nat>): (m: nat)
    ensures s == {} ==> m == 0
    ensures s != {} ==> m in s
    ensures forall g :: g in s ==> g <= m
  {
    if s == {} then 0
    else
      var x :| x in s;
      var rest := Max(s - {x});
      assert forall g :: g in s ==> g == x || g in s - {x};
      if rest > x then rest else x
  }

  /** Forget the generations more than `window` below the newest one. */
  ghost function Recent(window: nat, gens: map<nat, Digest>): map<nat, Digest> {
    var newest := Max(gens.Keys);
    if newest > window then map g | g in gens && g >= newest - window :: gens[g] else gens
  }

  function Gens(s: State, subject: string): map<nat, Digest> {
    if subject in s.seen then s.seen[subject] else map[]
  }

  ghost function ObserveStep(window: nat, s: State, o: Observation): (Verdict, State) {
    if o.mark.None? then (NotAnEnvelope, s)
    else if o.subject in s.isolated then (AlreadyIsolated, s)
    else
      var p, gens := o.mark.value, Gens(s, o.subject);
      if p.generation in gens && gens[p.generation] != p.hash then
        (Conflict, State(s.seen - {o.subject}, s.isolated + {o.subject}))
      else
        (Accepted, s.(seen := s.seen[o.subject := Recent(window, gens[p.generation := p.hash])]))
  }

  class EquivocationGuard {
    const window: nat
    var seen: map<string, map<nat, Digest>>
    var isolated: set<string>

    ghost function View(): State
      reads this
    {
      State(seen, isolated)
    }

    constructor (window: nat)
      ensures this.window == if window == 0 then 16 else window
      ensures View() == EMPTY
    {
      this.window := if window == 0 then DEFAULT_WINDOW else window;
      seen := map[];
      isolated := {};
    }

    method Observe(o: Observation) returns (v: Verdict)
      modifies this
      ensures (v, View()) == ObserveStep(window, old(View()), o)
    {
      if o.mark.None? {
        return NotAnEnvelope;
      }
      var p := o.mark.value;
      if o.subject in isolated {
        return AlreadyIsolated;
      }
      var gens := map[];
      if o.subject in seen {
        gens := seen[o.subject];
      }
      if p.generation in gens && gens[p.generation] != p.hash {
        isolated := isolated + {o.subject};
        seen := seen - {o.subject};
        return Conflict;
      }
      gens := gens[p.generation := p.hash];
      var newest := Newest(gens.Keys);
      if newest > window {
        gens := Drop(gens, newest - window);
      }
      seen := seen[o.subject := gens];
      return Accepted;
    }
  }

  method Newest(keys: set<nat>) returns (newest: nat)
    ensures newest == Max(keys)
  {
    newest := 0;
    var todo := keys;
    while todo != {}
      invariant todo <= keys
      invariant forall g :: g in keys - todo ==> g <= newest
      invariant newest == 0 || newest in keys
      decreases todo
    {
      var g :| g in todo;
      if g > newest {
        newest := g;
      }
      assert forall k :: k in keys - (todo - {g}) ==> k == g || k in keys - todo;
      todo := todo - {g};
    }
    assert Max(keys) == 0 || Max(keys) in keys - todo;
  }

  method Drop(gens: map<nat, Digest>, floor: nat) returns (kept: map<nat, Digest>)
    ensures kept == map g | g in gens && g >= floor :: gens[g]
  {
    kept := gens;
    var todo := gens.Keys;
    while todo != {}
      invariant todo <= gens.Keys
      invariant forall g :: g in kept <==> g in gens && (g in todo || g >= floor)
      invariant forall g :: g in kept ==> kept[g] == gens[g]
      decreases todo
    {
      var g :| g in todo;
      if g < floor {
        kept := kept - {g};
      }
      todo := todo - {g};
    }
  }

  // --------------------------------------------------------------- reference

  /** An accepted record. */
  datatype Entry = Entry(subject: string, mark: Fingerprint)

  /** The guard that keeps every accepted record. */
  datatype Log = Log(entries: seq<Entry>, isolated: set<string>)

  /** The highest generation accepted from `subject`, 0 if there is none. */
  function Highest(entries: seq<Entry>, subject: string): nat {
    if entries == [] then 0
    else
      var rest := Highest(entries[..|entries| - 1], subject);
      var last := entries[|entries| - 1];
      if last.subject == subject && last.mark.generation > rest then last.mark.generation else rest
  }

  /** The accepted history holds this record, within the window below the newest one. */
  ghost predicate Holds(window: nat, entries: seq<Entry>, subject: string, p: Fingerprint) {
    Entry(subject, p) in entries && p.generation + window >= Highest(entries, subject)
  }

  /** The accepted history holds a different payload at this generation, within the window. */
  ghost predicate Conflicting(window: nat, entries: seq<Entry>, subject: string, p: Fingerprint) {
    exists h: Digest :: h != p.hash && Holds(window, entries, subject, Fingerprint(p.generation, h))
  }

  ghost function LogStep(window: nat, l: Log, o: Observation): (Verdict, Log) {
    if o.mark.None? then (NotAnEnvelope, l)
    else if o.subject in l.isolated then (AlreadyIsolated, l)
    else if Conflicting(window, l.entries, o.subject, o.mark.value) then
      (Conflict, l.(isolated := l.isolated + {o.subject}))
    else (Accepted, l.(entries := l.entries + [Entry(o.subject, o.mark.value)]))
  }

  lemma {:induction false} HighestBounds(entries: seq<Entry>, subject: string, p: Fingerprint)
    requires Entry(subject, p) in entries
    ensures p.generation <= Highest(entries, subject)
  {
    var last := entries[|entries| - 1];
    if last != Entry(subject, p) {
      HighestBounds(entries[..|entries| - 1], subject, p);
    }
  }

  lemma {:induction false} HighestIsHeld(entries: seq<Entry>, subject: string)
    ensures Highest(entries, subject) > 0 ==>
              exists h: Digest :: Entry(subject, Fingerprint(Highest(entries, subject), h)) in entries
  {
    if entries != [] {
      var init, last := entries[..|entries| - 1], entries[|entries| - 1];
      HighestIsHeld(init, subject);
      if Highest(entries, subject) > 0 {
        if Highest(entries, subject) == Highest(init, subject) {
          var h: Digest :| Entry(subject, Fingerprint(Highest(init, subject), h)) in init;
          assert Entry(subject, Fingerprint(Highest(entries, subject), h)) in entries;
        } else {
          assert Entry(subject, Fingerprint(Highest(entries, subject), last.mark.hash)) == last;
        }
      }
    }
  }

  /** For one subject: the remembered generations are exactly the held part of the history. */
  ghost predicate Remembers(window: nat, gens: map<nat, Digest>, entries: seq<Entry>, subject: string) {
    forall g: nat, h: Digest ::
      Holds(window, entries, subject, Fingerprint(g, h)) <==> g in gens && gens[g] == h
  }

  /** The pruned guard is the reference restricted to the window. */
  ghost predicate Refines(window: nat, s: State, l: Log) {
    && s.isolated == l.isolated
    && forall subject: string :: subject !in s.isolated ==>
         Remembers(window, Gens(s, subject), l.entries, subject)
  }

  lemma AcceptHighest(entries: seq<Entry>, e: Entry, subject: string)
    ensures Highest(entries + [e], subject)
         == if e.subject == subject && e.mark.generation > Highest(entries, subject)
            then e.mark.generation else Highest(entries, subject)
  {
    assert (entries + [e])[..|entries|] == entries;
  }

  /** The newest remembered generation after an acceptance is the newest ever accepted. */
  lemma NewestIsHighest(window: nat, gens: map<nat, Digest>, entries: seq<Entry>, subject: string, p: Fingerprint)
    requires Remembers(window, gens, entries, subject)
    ensures Max(gens[p.generation := p.hash].Keys) == Highest(entries + [Entry(subject, p)], subject)
  {
    AcceptHighest(entries, Entry(subject, p), subject);
    var keys, top := gens[p.generation := p.hash].Keys, Highest(entries, subject);
    HighestIsHeld(entries, subject);
    if top > 0 {
      var h: Digest :| Entry(subject, Fingerprint(top, h)) in entries;
      assert Holds(window, entries, subject, Fingerprint(top, h));
      assert top in keys;
    }
    forall g | g in gens ensures g <= top {
      assert Holds(window, entries, subject, Fingerprint(g, gens[g]));
      HighestBounds(entries, subject, Fingerprint(g, gens[g]));
    }
    assert p.generation in keys;
  }

  lemma AcceptRemembers(window: nat, gens: map<nat, Digest>, entries: seq<Entry>, subject: string, p: Fingerprint)
    requires Remembers(window, gens, entries, subject)
    requires p.generation in gens ==> gens[p.generation] == p.hash
    ensures Remembers(window, Recent(window, gens[p.generation := p.hash]), entries + [Entry(subject, p)], subject)
  {
    var entries' := entries + [Entry(subject, p)];
    var gens' := Recent(window, gens[p.generation := p.hash]);
    NewestIsHighest(window, gens, entries, subject, p);
    AcceptHighest(entries, Entry(subject, p), subject);
    forall g: nat, h: Digest
      ensures Holds(window, entries', subject, Fingerprint(g, h)) <==> g in gens' && gens'[g] == h
    {
      assert Holds(window, entries, subject, Fingerprint(g, h)) <==> g in gens && gens[g] == h;
      assert Entry(subject, Fingerprint(g, h)) in entries'
        <==> Entry(subject, Fingerprint(g, h)) in entries || Fingerprint(g, h) == p;
    }
  }

  lemma OthersRemember(window: nat, gens: map<nat, Digest>, entries: seq<Entry>, e: Entry, subject: string)
    requires Remembers(window, gens, entries, subject) && e.subject != subject
    ensures Remembers(window, gens, entries + [e], subject)
  {
    AcceptHighest(entries, e, subject);
    forall g: nat, h: Digest
      ensures Holds(window, entries + [e], subject, Fingerprint(g, h)) <==> g in gens && gens[g] == h
    {
      assert Holds(window, entries, subject, Fingerprint(g, h)) <==> g in gens && gens[g] == h;
    }
  }

  /** One observation: same verdict, and the two guards stay in step. */
  lemma StepRefines(window: nat, s: State, l: Log, o: Observation)
    requires Refines(window, s, l)
    ensures ObserveStep(window, s, o).0 == LogStep(window, l, o).0
    ensures Refines(window, ObserveStep(window, s, o).1, LogStep(window, l, o).1)
  {
    if o.mark.Some? && o.subject !in s.isolated {
      var p, gens := o.mark.value, Gens(s, o.subject);
      var s', l' := ObserveStep(window, s, o).1, LogStep(window, l, o).1;
      assert Remembers(window, gens, l.entries, o.subject);
      assert p.generation in gens && gens[p.generation] != p.hash
        <==> Conflicting(window, l.entries, o.subject, p) by {
        if p.generation in gens && gens[p.generation] != p.hash {
          assert Holds(window, l.entries, o.subject, Fingerprint(p.generation, gens[p.generation]));
        }
      }
      forall subject: string | subject !in s'.isolated
        ensures Remembers(window, Gens(s', subject), l'.entries, subject)
      {
        assert Remembers(window, Gens(s, subject), l.entries, subject);
        if !Conflicting(window, l.entries, o.subject, p) {
          if subject == o.subject {
            AcceptRemembers(window, gens, l.entries, subject, p);
          } else {
            OthersRemember(window, Gens(s, subject), l.entries, Entry(o.subject, p), subject);
          }
        }
      }
    }
  }

  // -------------------------------------------------------------------- runs

  ghost function Run(window: nat, s: State, os: seq<Observation>): State {
    if os == [] then s else ObserveStep(window, Run(window, s, os[..|os| - 1]), os[|os| - 1]).1
  }

  ghost function RunLog(window: nat, l: Log, os: seq<Observation>): Log {
    if os == [] then l else LogStep(window, RunLog(window, l, os[..|os| - 1]), os[|os| - 1]).1
  }

  lemma {:induction false} RunRefines(window: nat, os: seq<Observation>)
    ensures Refines(window, Run(window, EMPTY, os), RunLog(window, Log([], {}), os))
  {
    if os != [] {
      var init := os[..|os| - 1];
      RunRefines(window, init);
      StepRefines(window, Run(window, EMPTY, init), RunLog(window, Log([], {}), init), os[|os| - 1]);
    }
  }

  /** After any run, the pruned guard refuses a record exactly when its subject is already
      isolated or the full accepted history holds another payload at that generation
      within [M - window, M], M being the highest generation accepted from the subject. */
  lemma ObserveFailsExactly(window: nat, os: seq<Observation>, o: Observation)
    requires o.mark.Some?
    ensures ObserveStep(window, Run(window, EMPTY, os), o).0 != Accepted
       <==> || o.subject in RunLog(window, Log([], {}), os).isolated
            || Conflicting(window, RunLog(window, Log([], {}), os).entries, o.subject, o.mark.value)
  {
    RunRefines(window, os);
    StepRefines(window, Run(window, EMPTY, os), RunLog(window, Log([], {}), os), o);
  }

  /** At most window + 1 generations are remembered for any subject. */
  lemma BoundedMemory(window: nat, os: seq<Observation>, subject: string)
    ensures |Gens(Run(window, EMPTY, os), subject)| <= window + 1
  {
    var s, l := Run(window, EMPTY, os), RunLog(window, Log([], {}), os);
    RunRefines(window, os);
    IsolatedAreForgotten(window, os);
    if subject !in s.isolated {
      var gens, top := Gens(s, subject), Highest(l.entries, subject);
      assert Remembers(window, gens, l.entries, subject);
      forall g | g in gens ensures g <= top <= g + window {
        assert Holds(window, l.entries, subject, Fingerprint(g, gens[g]));
        HighestBounds(l.entries, subject, Fingerprint(g, gens[g]));
      }
      IntervalSize(gens.Keys, top, window);
    }
  }

  lemma {:induction false} IsolatedAreForgotten(window: nat, os: seq<Observation>)
    ensures Run(window, EMPTY, os).isolated !! Run(window, EMPTY, os).seen.Keys
  {
    if os != [] {
      IsolatedAreForgotten(window, os[..|os| - 1]);
    }
  }

  lemma {:induction false} IntervalSize(s: set<nat>, top: nat, width: nat)
    requires forall g :: g in s ==> g <= top <= g + width
    ensures |s| <= width + 1
    decreases width
  {
    var low := s - {top};
    if width == 0 || top == 0 {
      assert s <= {top};
      assert |s| <= |{top}| by { SubsetIsNotLarger(s, {top}); }
    } else {
      IntervalSize(low, top - 1, width - 1);
    }
  }

  /** Isolation is permanent: every later record of the subject is refused. */
  lemma {:induction false} IsolationIsPermanent(window: nat, s: State, os: seq<Observation>, subject: string)
    requires subject in s.isolated
    ensures subject in Run(window, s, os).isolated
    ensures forall o: Observation :: o.subject == subject ==>
              ObserveStep(window, Run(window, s, os), o).0 != Accepted
  {
    if os != [] {
      IsolationIsPermanent(window, s, os[..|os| - 1], subject);
    }
  }

  /** The subject never shows two payloads at one generation. */
  ghost predicate OnePayloadPerGeneration(os: seq<Observation>, subject: string) {
    forall i, j ::
      && 0 <= i < |os| && 0 <= j < |os| && os[i].subject == subject == os[j].subject
      && os[i].mark.Some? && os[j].mark.Some?
      && os[i].mark.value.generation == os[j].mark.value.generation
      ==> os[i].mark == os[j].mark
  }

  lemma {:induction false} EntriesWereObserved(window: nat, os: seq<Observation>, e: Entry)
    requires e in RunLog(window, Log([], {}), os).entries
    ensures Observation(e.subject, Some(e.mark)) in os
  {
    if os != [] {
      var init := os[..|os| - 1];
      if e in RunLog(window, Log([], {}), init).entries {
        EntriesWereObserved(window, init, e);
      } else {
        assert os[|os| - 1] == Observation(e.subject, Some(e.mark));
      }
    }
  }

  /** With one payload per generation, what the history holds at a generation is what the
      subject shows there now. */
  lemma NoConflict(window: nat, os: seq<Observation>, last: Observation)
    requires last.mark.Some? && OnePayloadPerGeneration(os + [last], last.subject)
    ensures !Conflicting(window, RunLog(window, Log([], {}), os).entries, last.subject, last.mark.value)
  {
    var entries, p := RunLog(window, Log([], {}), os).entries, last.mark.value;
    forall h: Digest | Holds(window, entries, last.subject, Fingerprint(p.generation, h))
      ensures h == p.hash
    {
      var earlier := Observation(last.subject, Some(Fingerprint(p.generation, h)));
      EntriesWereObserved(window, os, Entry(last.subject, Fingerprint(p.generation, h)));
      var k :| 0 <= k < |os| && os[k] == earlier;
      assert (os + [last])[k] == earlier && (os + [last])[|os|] == last;
    }
  }

  lemma {:induction false} RunSplits(window: nat, s: State, a: seq<Observation>, b: seq<Observation>)
    ensures Run(window, s, a + b) == Run(window, Run(window, s, a), b)
    decreases |b|
  {
    hide ObserveStep;
    if b == [] {
      assert a + b == a;
    } else {
      assert (a + b)[..|a + b| - 1] == a + b[..|b| - 1];
      RunSplits(window, s, a, b[..|b| - 1]);
    }
  }

  /** One more record of an honest subject is accepted, after any run. */
  lemma HonestIsAccepted(window: nat, os: seq<Observation>, last: Observation)
    requires OnePayloadPerGeneration(os + [last], last.subject) && last.mark.Some?
    requires last.subject !in Run(window, EMPTY, os).isolated
    ensures ObserveStep(window, Run(window, EMPTY, os), last).0 == Accepted
  {
    hide ObserveStep, Run, RunLog;
    var l := RunLog(window, Log([], {}), os);
    RunRefines(window, os);
    StepRefines(window, Run(window, EMPTY, os), l, last);
    NoConflict(window, os, last);
  }

  lemma OnlyConflictsIsolate(window: nat, s: State, o: Observation, subject: string)
    requires subject !in s.isolated
    requires o.subject == subject && o.mark.Some? ==> ObserveStep(window, s, o).0 == Accepted
    ensures subject !in ObserveStep(window, s, o).1.isolated
  {}

  lemma RunMore(window: nat, os: seq<Observation>, o: Observation)
    ensures Run(window, EMPTY, os + [o]) == ObserveStep(window, Run(window, EMPTY, os), o).1
  {
    assert (os + [o])[..|os + [o]| - 1] == os;
  }

  /** A subject with one payload per generation is never isolated, and every well-formed
      record it shows is accepted, however its generations are ordered or repeated. */
  lemma {:induction false} HonestIsNeverIsolated(window: nat, os: seq<Observation>, subject: string)
    requires OnePayloadPerGeneration(os, subject)
    ensures subject !in Run(window, EMPTY, os).isolated
    ensures forall n :: 0 <= n < |os| && os[n].subject == subject && os[n].mark.Some? ==>
              ObserveStep(window, Run(window, EMPTY, os[..n]), os[n]).0 == Accepted
  {
    hide ObserveStep;
    if os != [] {
      var init, last := os[..|os| - 1], os[|os| - 1];
      assert os == init + [last];
      assert OnePayloadPerGeneration(init, subject);
      HonestIsNeverIsolated(window, init, subject);
      if last.subject == subject && last.mark.Some? {
        HonestIsAccepted(window, init, last);
      }
      OnlyConflictsIsolate(window, Run(window, EMPTY, init), last, subject);
      RunMore(window, init, last);
      forall n | 0 <= n < |os| && os[n].subject == subject && os[n].mark.Some?
        ensures ObserveStep(window, Run(window, EMPTY, os[..n]), os[n]).0 == Accepted
      {
        if n < |init| {
          assert init[..n] == os[..n] && init[n] == os[n];
        }
      }
    }
  }

  // ------------------------------------------------ said of the observations alone

  /** The highest generation that `subject` has shown, 0 if it has shown none. */
  function HighestShown(os: seq<Observation>, subject: string): nat {
    if os == [] then 0
    else
      var rest := HighestShown(os[..|os| - 1], subject);
      var last := os[|os| - 1];
      if last.subject == subject && last.mark.Some? && last.mark.value.generation > rest then last.mark.value.generation else rest
  }

  /** At `j` the subject shows a payload other than the one it showed at `i`, at a generation that
      is not more than `window` below the highest it had shown by then. */
  predicate Equivocates(window: nat, os: seq<Observation>, subject: string, i: nat, j: nat) {
    && i < j < |os| && os[i].subject == subject == os[j].subject
    && os[i].mark.Some? && os[j].mark.Some?
    && os[i].mark.value.generation == os[j].mark.value.generation
    && os[i].mark.value.hash != os[j].mark.value.hash
    && os[i].mark.value.generation + window >= HighestShown(os[..j], subject)
  }

  ghost predicate Equivocated(window: nat, os: seq<Observation>, subject: string) {
    exists i: nat, j: nat :: Equivocates(window, os, subject, i, j)
  }

  lemma EquivocatedBefore(window: nat, os: seq<Observation>, o: Observation, subject: string)
    requires Equivocated(window, os, subject)
    ensures Equivocated(window, os + [o], subject)
  {
    var i: nat, j: nat :| Equivocates(window, os, subject, i, j);
    assert (os + [o])[..j] == os[..j];
    assert Equivocates(window, os + [o], subject, i, j);
  }

  lemma EquivocatedEarlier(window: nat, os: seq<Observation>, o: Observation, subject: string, i: nat, j: nat)
    requires Equivocates(window, os + [o], subject, i, j) && j < |os|
    ensures Equivocated(window, os, subject)
  {
    assert (os + [o])[..j] == os[..j];
    assert Equivocates(window, os, subject, i, j);
  }

  /** What is accepted of a subject that has not been isolated is all it has shown. */
  ghost predicate KeepsAll(l: Log, os: seq<Observation>, subject: string) {
    && Highest(l.entries, subject) == HighestShown(os, subject)
    && forall p: Fingerprint :: Entry(subject, p) in l.entries <==> Observation(subject, Some(p)) in os
  }

  lemma KeepsAllMore(window: nat, l: Log, os: seq<Observation>, o: Observation, subject: string)
    requires KeepsAll(l, os, subject) && subject !in l.isolated && subject !in LogStep(window, l, o).1.isolated
    ensures KeepsAll(LogStep(window, l, o).1, os + [o], subject)
  {
    assert (os + [o])[..|os|] == os;
    if o.mark.Some? {
      AcceptHighest(l.entries, Entry(o.subject, o.mark.value), subject);
    }
  }

  /** The next record conflicts with the accepted history exactly when it makes the subject equivocate. */
  lemma ConflictIsEquivocation(window: nat, l: Log, os: seq<Observation>, o: Observation)
    requires o.mark.Some? && KeepsAll(l, os, o.subject) && !Equivocated(window, os, o.subject)
    ensures Conflicting(window, l.entries, o.subject, o.mark.value) <==> Equivocated(window, os + [o], o.subject)
  {
    var all, p := os + [o], o.mark.value;
    assert all[..|os|] == os;
    if Conflicting(window, l.entries, o.subject, p) {
      var h: Digest :| h != p.hash && Holds(window, l.entries, o.subject, Fingerprint(p.generation, h));
      var i :| 0 <= i < |os| && os[i] == Observation(o.subject, Some(Fingerprint(p.generation, h)));
      assert all[i] == os[i];
      assert Equivocates(window, all, o.subject, i, |os|);
    }
    if Equivocated(window, all, o.subject) {
      var i: nat, j: nat :| Equivocates(window, all, o.subject, i, j);
      if j < |os| {
        EquivocatedEarlier(window, os, o, o.subject, i, j);
      } else {
        assert all[i] == os[i] && os[i] == Observation(o.subject, Some(os[i].mark.value));
        assert Holds(window, l.entries, o.subject, os[i].mark.value);
      }
    }
  }

  lemma NotYet(window: nat, os: seq<Observation>, o: Observation, subject: string)
    requires o.subject != subject || o.mark.None?
    ensures Equivocated(window, os + [o], subject) ==> Equivocated(window, os, subject)
  {
    if Equivocated(window, os + [o], subject) {
      var i: nat, j: nat :| Equivocates(window, os + [o], subject, i, j);
      EquivocatedEarlier(window, os, o, subject, i, j);
    }
  }

  lemma {:induction false} LogIsolatesExactly(window: nat, os: seq<Observation>, subject: string)
    ensures var l := RunLog(window, Log([], {}), os);
      && (subject in l.isolated <==> Equivocated(window, os, subject))
      && (subject !in l.isolated ==> KeepsAll(l, os, subject))
  {
    if os != [] {
      var init, o := os[..|os| - 1], os[|os| - 1];
      var l := RunLog(window, Log([], {}), init);
      assert os == init + [o];
      LogIsolatesExactly(window, init, subject);
      hide RunLog, KeepsAll, Equivocated, Conflicting;
      if subject in l.isolated {
        EquivocatedBefore(window, init, o, subject);
      } else if o.subject == subject && o.mark.Some? {
        ConflictIsEquivocation(window, l, init, o);
      } else {
        NotYet(window, init, o, subject);
      }
      if subject !in l.isolated && subject !in LogStep(window, l, o).1.isolated {
        KeepsAllMore(window, l, init, o, subject);
      }
      assert RunLog(window, Log([], {}), os) == LogStep(window, l, o).1 by {
        LogMore(window, init, o);
      }
    } else {
      assert !Equivocated(window, os, subject);
    }
  }

  lemma LogMore(window: nat, os: seq<Observation>, o: Observation)
    ensures RunLog(window, Log([], {}), os + [o]) == LogStep(window, RunLog(window, Log([], {}), os), o).1
  {
    assert (os + [o])[..|os + [o]| - 1] == os;
  }

  /** After any run a subject is isolated if and only if it has equivocated: at some moment it
      showed a second payload at a generation within the window. */
  lemma IsolatedExactly(window: nat, os: seq<Observation>, subject: string)
    ensures subject in Run(window, EMPTY, os).isolated <==> Equivocated(window, os, subject)
  {
    hide Run, RunLog, Equivocated;
    RunRefines(window, os);
    LogIsolatesExactly(window, os, subject);
  }

  /** After any run, bytes that are no envelope are refused as such, and a record is accepted if and
      only if with it its subject has not equivocated. */
  lemma AcceptedExactly(window: nat, os: seq<Observation>, o: Observation)
    ensures var v := ObserveStep(window, Run(window, EMPTY, os), o).0;
      && (v == NotAnEnvelope <==> o.mark.None?)
      && (v == Accepted <==> o.mark.Some? && !Equivocated(window, os + [o], o.subject))
      && (v == Conflict <==> o.mark.Some? && !Equivocated(window, os, o.subject) && Equivocated(window, os + [o], o.subject))
  {
    hide Run, Equivocated;
    IsolatedExactly(window, os, o.subject);
    IsolatedExactly(window, os + [o], o.subject);
    RunMore(window, os, o);
    if Equivocated(window, os, o.subject) {
      EquivocatedBefore(window, os, o, o.subject);
    }
  }
}
