/** The per-key request-rate limiter. */
module RateLimit {
  import opened TokenBucket

  /** Take a token if one whole token is there. */
  function Take(b: Bucket): (bool, Bucket) {
    if b.tokens >= 1.0 then (true, b.(tokens := b.tokens - 1.0)) else (false, b)
  }

  /** One call, as a step on the table of buckets. */
  function AllowStep(c: Config, t: Table, key: string, now: real, sweeping: bool): (bool, Table) {
    var t' := Touch(c, t, key, now, sweeping);
    var (ok, b) := Take(Refill(c, t'[key], now));
    (ok, t'[key := b])
  }

  class Limiter {
    const config: Config
    var buckets: Table

    constructor (ratePerSec: real, burst: real)
      ensures config == Config(ratePerSec, burst) && buckets == map[]
    {
      config := Config(ratePerSec, burst);
      buckets := map[];
    }

    method Allow(key: string, now: real) returns (ok: bool)
      modifies this`buckets
      ensures (ok, buckets) == AllowStep(config, old(buckets), key, now, true)
    {
      var b := Bucket(config.burst, now);
      if key in buckets {
        b := buckets[key];
      } else {
        buckets := buckets[key := b];
        Prune(now);
      }
      assert b == buckets[key]; // the sweep never deletes the bucket just inserted
      assert buckets == Touch(config, old(buckets), key, now, true);
      var elapsed := now - b.last;
      if elapsed > 0.0 {
        b := Bucket(Min(config.burst, b.tokens + Earned(config, b.last, now)), now);
      }
      if b.tokens >= 1.0 {
        b := b.(tokens := b.tokens - 1.0);
        ok := true;
      } else {
        ok := false;
      }
      assert (ok, b) == Take(Refill(config, buckets[key], now));
      buckets := buckets[key := b];
    }

    method Prune(now: real)
      modifies this`buckets
      ensures buckets == Sweep(config, old(buckets), now)
      ensures forall k :: k in buckets <==>
                k in old(buckets)
                && !(|old(buckets)| >= 1024 && now - old(buckets)[k].last > 60.0 && old(buckets)[k].tokens >= config.burst)
      ensures forall k :: k in buckets ==> buckets[k] == old(buckets)[k]
    {
      if |buckets| < SWEEP_AT {
        return;
      }
      var todo := buckets.Keys;
      while todo != {}
        invariant todo <= old(buckets).Keys
        invariant forall k :: k in buckets <==>
                    k in old(buckets) && (k in todo || !Idle(config, old(buckets)[k], now))
        invariant forall k :: k in buckets ==> buckets[k] == old(buckets)[k]
        decreases todo
      {
        var k :| k in todo;
        if Idle(config, buckets[k], now) {
          buckets := buckets - {k};
        }
        todo := todo - {k};
      }
    }
  }

  // -------------------------------------------------------------------- runs

  datatype Call = Call(key: string, now: real)

  ghost predicate Chronological(calls: seq<Call>) {
    forall i, j :: 0 <= i < j < |calls| ==> calls[i].now <= calls[j].now
  }

  ghost predicate Ordered(t0: real, calls: seq<Call>) {
    Chronological(calls) && forall i :: 0 <= i < |calls| ==> t0 <= calls[i].now
  }

  function Answers(c: Config, t: Table, calls: seq<Call>, sweeping: bool): (r: seq<bool>)
    ensures |r| == |calls|
    decreases |calls|
  {
    if calls == [] then []
    else
      var (ok, t') := AllowStep(c, t, calls[0].key, calls[0].now, sweeping);
      [ok] + Answers(c, t', calls[1..], sweeping)
  }

  function Final(c: Config, t: Table, calls: seq<Call>, sweeping: bool): Table
    decreases |calls|
  {
    if calls == [] then t
    else Final(c, AllowStep(c, t, calls[0].key, calls[0].now, sweeping).1, calls[1..], sweeping)
  }

  /** How many calls of `key` were admitted. */
  function Admitted(key: string, calls: seq<Call>, answers: seq<bool>): nat
    requires |calls| == |answers|
  {
    if calls == [] then 0
    else (if calls[0].key == key && answers[0] then 1 else 0) + Admitted(key, calls[1..], answers[1..])
  }

  lemma StepKeepsWf(c: Config, t: Table, key: string, now: real)
    requires Sane(c) && Wf(c, t, now)
    ensures Wf(c, AllowStep(c, t, key, now, false).1, now)
  {
    EarnedNonNegative(c, if key in t then t[key].last else now, now);
  }

  /** One step takes one token from its own key if it admits, and none from any other key. */
  lemma StepLevel(c: Config, t: Table, key: string, now: real, k: string)
    requires Sane(c) && Wf(c, t, now)
    ensures var (ok, t') := AllowStep(c, t, key, now, false);
            Level(c, t', k, now) == Level(c, t, k, now) - (if k == key && ok then 1.0 else 0.0)
  {}

  lemma {:induction false} SweepInvisibleFrom(c: Config, p: Table, f: Table, t0: real, calls: seq<Call>)
    requires Sane(c) && Wf(c, f, t0) && Agree(c, p, f) && Ordered(t0, calls)
    ensures Answers(c, p, calls, true) == Answers(c, f, calls, false)
    ensures Agree(c, Final(c, p, calls, true), Final(c, f, calls, false))
    decreases |calls|
  {
    if calls != [] {
      var key, now := calls[0].key, calls[0].now;
      TouchAgrees(c, p, f, key, now);
      StepKeepsWf(c, f, key, now);
      SweepInvisibleFrom(c, AllowStep(c, p, key, now, true).1, AllowStep(c, f, key, now, false).1, now, calls[1..]);
    }
  }

  /** Deleting idle buckets never changes an answer: on every call sequence with
      non-decreasing times the limiter answers like one that deletes nothing. */
  lemma SweepInvisible(c: Config, calls: seq<Call>)
    requires Sane(c) && Chronological(calls)
    ensures Answers(c, map[], calls, true) == Answers(c, map[], calls, false)
  {
    if calls != [] {
      SweepInvisibleFrom(c, map[], map[], calls[0].now, calls);
    }
  }

  ghost predicate NonNegative(t: Table) {
    forall k :: k in t ==> t[k].tokens >= 0.0
  }

  lemma StepKeepsNonNegative(c: Config, t: Table, key: string, now: real)
    requires Funded(c) && Wf(c, t, now) && NonNegative(t)
    ensures NonNegative(AllowStep(c, t, key, now, false).1)
  {
    RefillNonNegative(c, Touch(c, t, key, now, false)[key], now);
  }

  /** The potential argument: admissions and the tokens left over are paid for by the
      starting level and by refill. */
  lemma {:induction false} AdmissionsArePaidFor(c: Config, t: Table, t0: real, calls: seq<Call>, key: string, end: real)
    requires Sane(c) && Wf(c, t, t0) && Ordered(t0, calls) && t0 <= end
    requires forall i :: 0 <= i < |calls| ==> calls[i].now <= end
    ensures Wf(c, Final(c, t, calls, false), end)
    ensures Admitted(key, calls, Answers(c, t, calls, false)) as real
            + Level(c, Final(c, t, calls, false), key, end)
         <= Level(c, t, key, t0) + Earned(c, t0, end)
    decreases |calls|
  {
    if calls == [] {
      LevelGain(c, t, key, t0, end);
    } else {
      var now := calls[0].now;
      var t' := AllowStep(c, t, calls[0].key, now, false).1;
      StepKeepsWf(c, t, calls[0].key, now);
      AdmissionsArePaidFor(c, t', now, calls[1..], key, end);
      assert Level(c, t', key, now) + (if calls[0].key == key && AllowStep(c, t, calls[0].key, now, false).0 then 1.0 else 0.0)
          <= Level(c, t, key, t0) + Earned(c, t0, now) by {
        LevelGain(c, t, key, t0, now);
        StepLevel(c, t, calls[0].key, now, key);
      }
      EarnedAdds(c, t0, now, end);
    }
  }

  lemma {:induction false} AnswersSplit(c: Config, t: Table, a: seq<Call>, b: seq<Call>, sweeping: bool)
    ensures Answers(c, t, a + b, sweeping)
         == Answers(c, t, a, sweeping) + Answers(c, Final(c, t, a, sweeping), b, sweeping)
    decreases |a|
  {
    if a == [] {
      assert a + b == b;
    } else {
      assert (a + b)[1..] == a[1..] + b;
      AnswersSplit(c, AllowStep(c, t, a[0].key, a[0].now, sweeping).1, a[1..], b, sweeping);
    }
  }

  lemma {:induction false} FinalKeeps(c: Config, t: Table, t0: real, calls: seq<Call>, end: real)
    requires Funded(c) && Wf(c, t, t0) && NonNegative(t) && Ordered(t0, calls) && t0 <= end
    requires forall i :: 0 <= i < |calls| ==> calls[i].now <= end
    ensures Wf(c, Final(c, t, calls, false), end) && NonNegative(Final(c, t, calls, false))
    decreases |calls|
  {
    if calls != [] {
      StepKeepsWf(c, t, calls[0].key, calls[0].now);
      StepKeepsNonNegative(c, t, calls[0].key, calls[0].now);
      FinalKeeps(c, AllowStep(c, t, calls[0].key, calls[0].now, false).1, calls[0].now, calls[1..], end);
    }
  }

  /** `calls` is a run; `span` is a stretch of it. */
  ghost predicate Stretch(calls: seq<Call>, before: seq<Call>, span: seq<Call>, after: seq<Call>) {
    calls == before + span + after && span != [] && Chronological(calls)
  }

  lemma {:induction false} AnswersOfSpan(c: Config, calls: seq<Call>, before: seq<Call>, span: seq<Call>, after: seq<Call>)
    requires Sane(c) && Stretch(calls, before, span, after)
    ensures Answers(c, map[], calls, true)[|before|..|before| + |span|]
         == Answers(c, Final(c, map[], before, false), span, false)
  {
    SweepInvisible(c, calls);
    AnswersSplit(c, map[], before + span, after, false);
    AnswersSplit(c, map[], before, span, false);
  }

  lemma OrderedParts(calls: seq<Call>, before: seq<Call>, span: seq<Call>, after: seq<Call>)
    requires Stretch(calls, before, span, after)
    ensures Ordered(calls[0].now, before) && Ordered(span[0].now, span)
    ensures forall i :: 0 <= i < |before| ==> before[i].now <= span[0].now
    ensures calls[0].now <= span[0].now
    ensures forall i :: 0 <= i < |span| ==> span[i].now <= span[|span| - 1].now
  {
    forall i | 0 <= i < |before| ensures calls[i] == before[i] {}
    forall i | 0 <= i < |span| ensures calls[|before| + i] == span[i] {}
  }

  /** In any run of the limiter and over any stretch of its calls, a key is admitted at most
      burst + rate x elapsed times, whatever other keys do and whatever the sweep deletes. */
  lemma AdmissionBound(c: Config, calls: seq<Call>, before: seq<Call>, span: seq<Call>, after: seq<Call>, key: string)
    requires Funded(c) && Stretch(calls, before, span, after)
    ensures Admitted(key, span, Answers(c, map[], calls, true)[|before|..|before| + |span|]) as real
         <= c.burst + Earned(c, span[0].now, span[|span| - 1].now)
  {
    var t0, end := span[0].now, span[|span| - 1].now;
    var t := Final(c, map[], before, false);
    OrderedParts(calls, before, span, after);
    FinalKeeps(c, map[], calls[0].now, before, t0);
    SpanBound(c, t, t0, span, key, end);
    AnswersOfSpan(c, calls, before, span, after);
  }

  lemma SpanBound(c: Config, t: Table, t0: real, span: seq<Call>, key: string, end: real)
    requires Funded(c) && Wf(c, t, t0) && NonNegative(t) && Ordered(t0, span) && t0 <= end
    requires forall i :: 0 <= i < |span| ==> span[i].now <= end
    ensures Admitted(key, span, Answers(c, t, span, false)) as real <= c.burst + Earned(c, t0, end)
  {
    AdmissionsArePaidFor(c, t, t0, span, key, end);
    FinalKeeps(c, t, t0, span, end);
    LevelGain(c, t, key, t0, t0);
    var t' := Final(c, t, span, false);
    if key in t' { RefillNonNegative(c, t'[key], end); }
  }

  /** A token is ready for `key` at each of its future calls, counting no call before it. */
  ghost predicate Ready(c: Config, t: Table, calls: seq<Call>, key: string) {
    forall i :: 0 <= i < |calls| && calls[i].key == key ==> Level(c, t, key, calls[i].now) >= 1.0
  }

  /** Any two calls of `key` are at least one refill period apart. */
  ghost predicate Spaced(c: Config, calls: seq<Call>, key: string) {
    forall i, j :: 0 <= i < j < |calls| && calls[i].key == key && calls[j].key == key ==>
      Earned(c, calls[i].now, calls[j].now) >= 1.0
  }

  lemma StepKeepsReady(c: Config, t: Table, calls: seq<Call>, key: string)
    requires Sane(c) && c.burst >= 1.0 && calls != [] && Wf(c, t, calls[0].now) && NonNegative(t)
    requires Ordered(calls[0].now, calls) && Ready(c, t, calls, key) && Spaced(c, calls, key)
    ensures Ready(c, AllowStep(c, t, calls[0].key, calls[0].now, false).1, calls[1..], key)
  {
    var rest := calls[1..];
    forall i | 0 <= i < |rest| && rest[i].key == key
      ensures Level(c, AllowStep(c, t, calls[0].key, calls[0].now, false).1, key, rest[i].now) >= 1.0
    {
      assert rest[i] == calls[i + 1];
      if calls[0].key == key {
        ReadyAgain(c, t, key, calls[0].now, rest[i].now);
      } else {
        assert Level(c, t, key, calls[i + 1].now) >= 1.0;
      }
    }
  }

  /** One refill period after a call there is a token again, whatever the call was answered. */
  lemma ReadyAgain(c: Config, t: Table, key: string, now: real, later: real)
    requires Sane(c) && c.burst >= 1.0 && Wf(c, t, now) && NonNegative(t)
    requires now <= later && Earned(c, now, later) >= 1.0
    ensures Level(c, AllowStep(c, t, key, now, false).1, key, later) >= 1.0
  {
    var b := AllowStep(c, t, key, now, false).1[key];
    assert b.last == now && b.tokens >= 0.0 by {
      StepKeepsNonNegative(c, t, key, now);
      StepStamps(c, t, key, now);
    }
  }

  lemma StepStamps(c: Config, t: Table, key: string, now: real)
    requires Wf(c, t, now)
    ensures AllowStep(c, t, key, now, false).1[key].last == now
  {}

  lemma ReadyNow(c: Config, t: Table, calls: seq<Call>, key: string)
    requires calls != [] && calls[0].key == key && Ready(c, t, calls, key)
    ensures AllowStep(c, t, key, calls[0].now, false).0
  {
    assert Level(c, t, key, calls[0].now) >= 1.0;
  }

  lemma {:induction false} ReadyIsAdmitted(c: Config, t: Table, t0: real, calls: seq<Call>, key: string, n: nat)
    requires Sane(c) && c.burst >= 1.0 && Wf(c, t, t0) && NonNegative(t) && n < |calls|
    requires Ordered(t0, calls) && Ready(c, t, calls, key) && Spaced(c, calls, key) && calls[n].key == key
    ensures Answers(c, t, calls, false)[n]
    decreases |calls|
  {
    var now := calls[0].now;
    hide AllowStep, Level;
    if n == 0 {
      ReadyNow(c, t, calls, key);
    } else {
      var t' := AllowStep(c, t, calls[0].key, now, false).1;
      StepKeepsWf(c, t, calls[0].key, now);
      StepKeepsNonNegative(c, t, calls[0].key, now);
      StepKeepsReady(c, t, calls, key);
      assert calls[1..][n - 1] == calls[n];
      ReadyIsAdmitted(c, t', now, calls[1..], key, n - 1);
    }
  }

  /** A key that calls no faster than the refill rate is never refused. */
  lemma Progress(c: Config, calls: seq<Call>, key: string, n: nat)
    requires Sane(c) && c.burst >= 1.0 && n < |calls| && Chronological(calls)
    requires Spaced(c, calls, key) && calls[n].key == key
    ensures Answers(c, map[], calls, true)[n]
  {
    SweepInvisible(c, calls);
    ReadyIsAdmitted(c, map[], calls[0].now, calls, key, n);
  }

  // ------------------------------------------------------- exactly what is admitted

  lemma {:induction false} FinalSplit(c: Config, t: Table, a: seq<Call>, b: seq<Call>, sweeping: bool)
    ensures Final(c, t, a + b, sweeping) == Final(c, Final(c, t, a, sweeping), b, sweeping)
    decreases |a|
  {
    if a == [] {
      assert a + b == b;
    } else {
      assert (a + b)[1..] == a[1..] + b;
      FinalSplit(c, AllowStep(c, t, a[0].key, a[0].now, sweeping).1, a[1..], b, sweeping);
    }
  }

  lemma {:induction false} AdmittedSplit(key: string, a: seq<Call>, x: seq<bool>, b: seq<Call>, y: seq<bool>)
    requires |a| == |x| && |b| == |y|
    ensures Admitted(key, a + b, x + y) == Admitted(key, a, x) + Admitted(key, b, y)
  {
    if a == [] {
      assert a + b == b && x + y == y;
    } else {
      assert (a + b)[1..] == a[1..] + b && (x + y)[1..] == x[1..] + y;
      AdmittedSplit(key, a[1..], x[1..], b, y);
    }
  }

  /** What burst and refill since the `i`-th call leave for `key` at `end`. */
  function Allowance(c: Config, calls: seq<Call>, answers: seq<bool>, key: string, i: nat, end: real): real
    requires i < |calls| == |answers|
  {
    c.burst + Earned(c, calls[i].now, end) - Admitted(key, calls[i..], answers[i..]) as real
  }

  /** One more call, answered `ok`, `end - u` later. */
  lemma AllowanceMore(c: Config, calls: seq<Call>, answers: seq<bool>, key: string, i: nat, call: Call, ok: bool, end: real)
    requires i < |calls| == |answers|
    ensures Allowance(c, calls + [call], answers + [ok], key, i, end)
         == Allowance(c, calls, answers, key, i, call.now) + Earned(c, call.now, end)
            - (if call.key == key && ok then 1.0 else 0.0)
  {
    assert (calls + [call])[i..] == calls[i..] + [call] && (answers + [ok])[i..] == answers[i..] + [ok];
    AdmittedSplit(key, calls[i..], answers[i..], [call], [ok]);
    EarnedAdds(c, calls[i].now, call.now, end);
  }

  lemma AllowanceOfLast(c: Config, calls: seq<Call>, answers: seq<bool>, key: string, call: Call, ok: bool, end: real)
    requires |calls| == |answers|
    ensures Allowance(c, calls + [call], answers + [ok], key, |calls|, end)
         == c.burst + Earned(c, call.now, end) - (if call.key == key && ok then 1.0 else 0.0)
  {
    assert (calls + [call])[|calls|..] == [call] && (answers + [ok])[|calls|..] == [ok];
    assert (calls + [call])[|calls|] == call;
    assert Admitted(key, [call], [ok]) == if call.key == key && ok then 1 else 0;
  }

  /** `level` is the least of the burst and the allowances since each of the key's calls. */
  ghost predicate IsLeast(c: Config, calls: seq<Call>, answers: seq<bool>, key: string, end: real, level: real)
    requires |calls| == |answers|
  {
    && level <= c.burst
    && (forall i :: 0 <= i < |calls| && calls[i].key == key ==> level <= Allowance(c, calls, answers, key, i, end))
    && (level < c.burst ==> exists i :: 0 <= i < |calls| && calls[i].key == key && level == Allowance(c, calls, answers, key, i, end))
  }

  lemma LeastMore(c: Config, calls: seq<Call>, answers: seq<bool>, key: string, level: real, call: Call, ok: bool, end: real)
    requires Sane(c) && |calls| == |answers| && IsLeast(c, calls, answers, key, call.now, level) && call.now <= end
    ensures var left := level - (if call.key == key && ok then 1.0 else 0.0);
            IsLeast(c, calls + [call], answers + [ok], key, end, Min(c.burst, left + Earned(c, call.now, end)))
  {
    var left := level - (if call.key == key && ok then 1.0 else 0.0);
    var least := Min(c.burst, left + Earned(c, call.now, end));
    var calls', answers' := calls + [call], answers + [ok];
    EarnedNonNegative(c, call.now, end);
    AllowanceOfLast(c, calls, answers, key, call, ok, end);
    hide Allowance, Earned;
    forall i | 0 <= i < |calls'| && calls'[i].key == key ensures least <= Allowance(c, calls', answers', key, i, end) {
      if i < |calls| {
        AllowanceMore(c, calls, answers, key, i, call, ok, end);
        assert calls[i].key == key;
      }
    }
    if least < c.burst {
      if level < c.burst {
        var i :| 0 <= i < |calls| && calls[i].key == key && level == Allowance(c, calls, answers, key, i, call.now);
        AllowanceMore(c, calls, answers, key, i, call, ok, end);
        assert calls'[i].key == key;
      } else {
        assert calls'[|calls|].key == key;
      }
    }
  }

  lemma OneMoreCall(c: Config, calls: seq<Call>, call: Call)
    ensures var t := Final(c, map[], calls, false);
      && Answers(c, map[], calls + [call], false)
         == Answers(c, map[], calls, false) + [AllowStep(c, t, call.key, call.now, false).0]
      && Final(c, map[], calls + [call], false) == AllowStep(c, t, call.key, call.now, false).1
  {
    AnswersSplit(c, map[], calls, [call], false);
    FinalSplit(c, map[], calls, [call], false);
    hide AllowStep;
    var t := Final(c, map[], calls, false);
    assert Answers(c, t, [call], false) == [AllowStep(c, t, call.key, call.now, false).0];
  }

  /** What is left is what the tightest stretch leaves. */
  lemma {:induction false} LevelIsLeast(c: Config, calls: seq<Call>, key: string, end: real)
    requires Sane(c) && Chronological(calls) && forall i :: 0 <= i < |calls| ==> calls[i].now <= end
    ensures Wf(c, Final(c, map[], calls, false), end)
    ensures IsLeast(c, calls, Answers(c, map[], calls, false), key, end, Level(c, Final(c, map[], calls, false), key, end))
    decreases |calls|
  {
    if calls != [] {
      var init, last := calls[..|calls| - 1], calls[|calls| - 1];
      assert calls == init + [last];
      LevelIsLeast(c, init, key, last.now);
      OneMoreCall(c, init, last);
      hide *;
      var t := Final(c, map[], init, false);
      var step := AllowStep(c, t, last.key, last.now, false);
      StepKeepsWf(c, t, last.key, last.now);
      WfLater(c, step.1, last.now, end);
      StepLevel(c, t, last.key, last.now, key);
      LevelLater(c, step.1, key, last.now, end);
      LeastMore(c, init, Answers(c, map[], init, false), key, Level(c, t, key, last.now), last, step.0, end);
    }
  }

  lemma WfLater(c: Config, t: Table, mid: real, now: real)
    requires Wf(c, t, mid) && mid <= now
    ensures Wf(c, t, now)
  {}

  /** Admitting the `n`-th call keeps its key within burst + rate x elapsed since the `i`-th. */
  predicate Fits(c: Config, calls: seq<Call>, answers: seq<bool>, i: nat, n: nat)
    requires i <= n < |calls| == |answers|
  {
    Admitted(calls[n].key, calls[i..n], answers[i..n]) as real + 1.0 <= c.burst + (calls[n].now - calls[i].now) * c.rate
  }

  lemma FitsByAllowance(c: Config, calls: seq<Call>, answers: seq<bool>, i: nat, n: nat)
    requires i <= n < |calls| == |answers|
    ensures i < n ==> (Fits(c, calls, answers, i, n) <==> Allowance(c, calls[..n], answers[..n], calls[n].key, i, calls[n].now) >= 1.0)
    ensures i == n ==> (Fits(c, calls, answers, i, n) <==> c.burst >= 1.0)
  {
    var elapsed := Earned(c, calls[i].now, calls[n].now);
    assert (calls[n].now - calls[i].now) * c.rate == elapsed;
    if i < n {
      assert calls[..n][i..] == calls[i..n] && answers[..n][i..] == answers[i..n] && calls[..n][i] == calls[i];
    } else {
      EarnedAdds(c, calls[n].now, calls[n].now, calls[n].now);
    }
  }

  lemma AnswerAt(c: Config, calls: seq<Call>, n: nat)
    requires n < |calls|
    ensures var answers := Answers(c, map[], calls, false);
            && answers[..n] == Answers(c, map[], calls[..n], false)
            && answers[n] == AllowStep(c, Final(c, map[], calls[..n], false), calls[n].key, calls[n].now, false).0
  {
    assert calls == calls[..n] + calls[n..];
    AnswersSplit(c, map[], calls[..n], calls[n..], false);
  }

  lemma AllowedAtLevel(c: Config, t: Table, key: string, now: real)
    requires Wf(c, t, now)
    ensures AllowStep(c, t, key, now, false).0 <==> Level(c, t, key, now) >= 1.0
  {}

  lemma LeastIsEnough(c: Config, calls: seq<Call>, answers: seq<bool>, n: nat, level: real)
    requires n < |calls| == |answers| && IsLeast(c, calls[..n], answers[..n], calls[n].key, calls[n].now, level)
    ensures level >= 1.0 <==> forall i :: 0 <= i <= n && calls[i].key == calls[n].key ==> Fits(c, calls, answers, i, n)
  {
    hide Allowance, Fits;
    forall i: nat | i <= n && calls[i].key == calls[n].key && level >= 1.0 ensures Fits(c, calls, answers, i, n) {
      FitsByAllowance(c, calls, answers, i, n);
      if i < n { assert calls[..n][i].key == calls[n].key; }
    }
    if level < 1.0 {
      FitsByAllowance(c, calls, answers, n, n);
      if level < c.burst {
        var i :| 0 <= i < n && calls[..n][i].key == calls[n].key
                 && level == Allowance(c, calls[..n], answers[..n], calls[n].key, i, calls[n].now);
        FitsByAllowance(c, calls, answers, i, n);
        assert !Fits(c, calls, answers, i, n);
      } else {
        assert !Fits(c, calls, answers, n, n);
      }
    }
  }

  /** In any run of the limiter, sweeps included, a call is admitted if and only if with it the
      key stays within burst + rate x elapsed over every stretch from one of its calls up to
      this one: the bound is kept, and nothing that keeps it is refused. */
  lemma AdmittedExactly(c: Config, calls: seq<Call>, n: nat)
    requires Sane(c) && Chronological(calls) && n < |calls|
    ensures var answers := Answers(c, map[], calls, true);
            answers[n] <==> forall i :: 0 <= i <= n && calls[i].key == calls[n].key ==> Fits(c, calls, answers, i, n)
  {
    SweepInvisible(c, calls);
    LevelIsLeast(c, calls[..n], calls[n].key, calls[n].now);
    AnswerAt(c, calls, n);
    hide Answers, Final, AllowStep, Level, IsLeast, Fits;
    AllowedAtLevel(c, Final(c, map[], calls[..n], false), calls[n].key, calls[n].now);
    LeastIsEnough(c, calls, Answers(c, map[], calls, false), n, Level(c, Final(c, map[], calls[..n], false), calls[n].key, calls[n].now));
  }

  // ---------------------------------------------------------------- after a pause

  /** `k` calls of `key` at one moment. */
  function Volley(key: string, now: real, k: nat): seq<Call> {
    seq(k, _ => Call(key, now))
  }

  lemma {:induction false} VolleyIsAdmitted(c: Config, t: Table, key: string, now: real, k: nat)
    requires Sane(c) && Wf(c, t, now) && k > 0
    ensures false !in Answers(c, t, Volley(key, now, k), false) <==> k as real <= Level(c, t, key, now)
    decreases k
  {
    var volley := Volley(key, now, k);
    var (ok, t') := AllowStep(c, t, key, now, false);
    assert volley[1..] == Volley(key, now, k - 1);
    assert Answers(c, t, volley, false) == [ok] + Answers(c, t', volley[1..], false);
    hide AllowStep, Level;
    AllowedAtLevel(c, t, key, now);
    if k > 1 {
      StepKeepsWf(c, t, key, now);
      StepLevel(c, t, key, now, key);
      VolleyIsAdmitted(c, t', key, now, k - 1);
    }
  }

  /** No call is `key`'s. */
  ghost predicate Without(calls: seq<Call>, key: string) {
    forall i :: 0 <= i < |calls| ==> calls[i].key != key
  }

  lemma OthersKeepBucket(c: Config, t: Table, key: string, other: string, now: real)
    requires key != other && key in t
    ensures var t' := AllowStep(c, t, other, now, false).1; key in t' && t'[key] == t[key]
  {}

  lemma {:induction false} WithoutKeepsBucket(c: Config, t: Table, t0: real, calls: seq<Call>, key: string, end: real)
    requires Sane(c) && Wf(c, t, t0) && Ordered(t0, calls) && t0 <= end && Without(calls, key) && key in t
    requires forall i :: 0 <= i < |calls| ==> calls[i].now <= end
    ensures var t' := Final(c, t, calls, false); Wf(c, t', end) && key in t' && t'[key] == t[key]
    decreases |calls|
  {
    if calls != [] {
      StepKeepsWf(c, t, calls[0].key, calls[0].now);
      OthersKeepBucket(c, t, key, calls[0].key, calls[0].now);
      WithoutKeepsBucket(c, AllowStep(c, t, calls[0].key, calls[0].now, false).1, calls[0].now, calls[1..], key, end);
    }
  }

  /** What the key's last call left in the pruned table is what it left in the full one. */
  lemma LeftBehind(c: Config, before: seq<Call>, last: Call)
    requires Sane(c) && Chronological(before + [last])
    ensures var head := before + [last];
            var p, f := Final(c, map[], head, true), Final(c, map[], head, false);
            && Wf(c, f, last.now)
            && last.key in p && last.key in f && p[last.key] == f[last.key] && f[last.key].last == last.now
  {
    var head := before + [last];
    SweepInvisibleFrom(c, map[], map[], head[0].now, head);
    FinalSplit(c, map[], before, [last], true);
    FinalSplit(c, map[], before, [last], false);
    forall i | 0 <= i < |before| ensures before[i] == head[i] {}
    assert head[|before|] == last;
    forall i | 0 <= i < |head| ensures head[i].now <= last.now {}
    LevelIsLeast(c, before, last.key, last.now);
    StepKeepsWf(c, Final(c, map[], before, false), last.key, last.now);
    StepStamps(c, Final(c, map[], before, false), last.key, last.now);
  }

  /** Burst, and `x` tokens at `from` with what drips in until `to`, are enough for `k` calls. */
  predicate Affords(c: Config, x: real, from: real, to: real, k: nat) {
    k as real <= c.burst && k as real <= x + Earned(c, from, to)
  }

  /** The tokens that the key's bucket holds in the limiter's table after `calls`. */
  function Left(c: Config, calls: seq<Call>, key: string): real {
    var t := Final(c, map[], calls, true);
    if key in t then t[key].tokens else c.burst
  }

  lemma SpanAnswers(c: Config, head: seq<Call>, others: seq<Call>, volley: seq<Call>)
    requires Sane(c) && Chronological(head + others + volley)
    ensures Answers(c, map[], head + others + volley, true)[|head| + |others|..]
         == Answers(c, Final(c, Final(c, map[], head, false), others, false), volley, false)
  {
    SweepInvisible(c, head + others + volley);
    AnswersSplit(c, map[], head + others, volley, false);
    FinalSplit(c, map[], head, others, false);
  }

  lemma ChronologicalParts(before: seq<Call>, last: Call, others: seq<Call>, volley: seq<Call>)
    requires Chronological(before + [last] + others + volley) && volley != []
    ensures Chronological(before + [last]) && Ordered(last.now, others) && last.now <= volley[0].now
    ensures forall i :: 0 <= i < |others| ==> others[i].now <= volley[0].now
  {
    var head, calls := before + [last], before + [last] + others + volley;
    assert calls[|before|] == last && calls[|head| + |others|] == volley[0];
    forall i | 0 <= i < |head| ensures calls[i] == head[i] {}
    forall i | 0 <= i < |others| ensures calls[|head| + i] == others[i] {}
  }

  /** After any run, let a key's last call have left `x` tokens at `t0`, and others call as they
      like: then `k` calls of the key at one later moment are all admitted if and only if `k` is
      at most the burst and at most `x` and what drips in since `t0`. */
  lemma PauseAdmitsExactly(c: Config, before: seq<Call>, last: Call, others: seq<Call>, now: real, k: nat)
    requires Sane(c) && k > 0 && Without(others, last.key)
    requires Chronological(before + [last] + others + Volley(last.key, now, k))
    ensures var head := before + [last];
            false !in Answers(c, map[], head + others + Volley(last.key, now, k), true)[|head| + |others|..]
            <==> Affords(c, Left(c, head, last.key), last.now, now, k)
  {
    var head, volley := before + [last], Volley(last.key, now, k);
    ChronologicalParts(before, last, others, volley);
    LeftBehind(c, before, last);
    SpanAnswers(c, head, others, volley);
    assert volley[0].now == now;
    hide *;
    PausedVolley(c, Final(c, map[], head, false), last.key, others, now, k);
    LeftIsBucket(c, head, last.key);
  }

  lemma LeftIsBucket(c: Config, calls: seq<Call>, key: string)
    requires key in Final(c, map[], calls, true)
    ensures Left(c, calls, key) == Final(c, map[], calls, true)[key].tokens
  {}

  lemma PausedVolley(c: Config, t: Table, key: string, others: seq<Call>, now: real, k: nat)
    requires Sane(c) && k > 0 && key in t && Wf(c, t, t[key].last) && t[key].last <= now
    requires Without(others, key) && Ordered(t[key].last, others)
    requires forall i :: 0 <= i < |others| ==> others[i].now <= now
    ensures false !in Answers(c, Final(c, t, others, false), Volley(key, now, k), false)
       <==> Affords(c, t[key].tokens, t[key].last, now, k)
  {
    hide Answers, Final, Level, AllowStep, Volley;
    WithoutKeepsBucket(c, t, t[key].last, others, key, now);
    var t' := Final(c, t, others, false);
    VolleyIsAdmitted(c, t', key, now, k);
    PausedLevel(c, t', key, now, k);
  }

  lemma LeftIsNonNegative(c: Config, before: seq<Call>, last: Call)
    requires Funded(c) && Chronological(before + [last])
    ensures Left(c, before + [last], last.key) >= 0.0
  {
    var head := before + [last];
    LeftBehind(c, before, last);
    assert head[|before|] == last;
    forall i | 0 <= i < |head| ensures head[i].now <= last.now {}
    hide Answers, AllowStep, Wf;
    FinalKeeps(c, map[], head[0].now, head, last.now);
  }

  lemma BurstAffords(c: Config, x: real, from: real, to: real, k: nat)
    requires x >= 0.0 && Earned(c, from, to) >= c.burst
    ensures Affords(c, x, from, to, k) <==> k as real <= c.burst
  {
    hide Earned;
  }

  /** In particular, once a whole burst has dripped in, exactly the burst's worth of calls fits. */
  lemma PauseRefillsToBurst(c: Config, before: seq<Call>, last: Call, others: seq<Call>, now: real, k: nat)
    requires Funded(c) && k > 0 && Without(others, last.key) && Earned(c, last.now, now) >= c.burst
    requires Chronological(before + [last] + others + Volley(last.key, now, k))
    ensures var head := before + [last];
            false !in Answers(c, map[], head + others + Volley(last.key, now, k), true)[|head| + |others|..]
            <==> k as real <= c.burst
  {
    assert Volley(last.key, now, k) != [];
    assert Sane(c);
    hide *;
    ChronologicalParts(before, last, others, Volley(last.key, now, k));
    LeftIsNonNegative(c, before, last);
    BurstAffords(c, Left(c, before + [last], last.key), last.now, now, k);
    PauseAdmitsExactly(c, before, last, others, now, k);
  }

  lemma PausedLevel(c: Config, t: Table, key: string, now: real, k: nat)
    requires Sane(c) && Wf(c, t, now) && key in t
    ensures k as real <= Level(c, t, key, now) <==> Affords(c, t[key].tokens, t[key].last, now, k)
  {
    EarnedNonNegative(c, t[key].last, now);
    EarnedAdds(c, now, now, now);
    hide Earned;
  }

  // ------------------------------------------------------------ what the sweep deletes

  /** The keys that called. */
  function Callers(calls: seq<Call>): set<string> {
    set i | 0 <= i < |calls| :: calls[i].key
  }

  lemma CallersMore(calls: seq<Call>, call: Call)
    ensures Callers(calls + [call]) == Callers(calls) + {call.key}
  {
    var all := calls + [call];
    forall k | k in Callers(calls) + {call.key} ensures k in Callers(all) {
      if i :| 0 <= i < |calls| && calls[i].key == k {
        assert all[i].key == k;
      } else {
        assert all[|calls|].key == k;
      }
    }
  }

  /** No bucket is stored full. */
  ghost predicate BelowBurst(c: Config, t: Table) {
    forall k :: k in t ==> t[k].tokens < c.burst
  }

  lemma NothingToSweep(c: Config, t: Table, key: string, now: real)
    requires BelowBurst(c, t)
    ensures Touch(c, t, key, now, true) == Touch(c, t, key, now, false)
  {
    var inserted := t[key := Bucket(c.burst, now)];
    forall k | k in inserted ensures key !in t ==> !Idle(c, inserted[k], now) {}
  }

  lemma CallLeavesBelowBurst(c: Config, t: Table, key: string, now: real)
    requires c.burst >= 1.0 && BelowBurst(c, t)
    ensures AllowStep(c, t, key, now, true) == AllowStep(c, t, key, now, false)
    ensures BelowBurst(c, AllowStep(c, t, key, now, true).1)
    ensures AllowStep(c, t, key, now, true).1.Keys == t.Keys + {key}
  {
    NothingToSweep(c, t, key, now);
    hide Earned;
  }

  lemma {:induction false} EveryCallerIsKept(c: Config, calls: seq<Call>)
    requires c.burst >= 1.0
    ensures BelowBurst(c, Final(c, map[], calls, true))
    ensures Final(c, map[], calls, true).Keys == Callers(calls)
    decreases |calls|
  {
    if calls != [] {
      var init, last := calls[..|calls| - 1], calls[|calls| - 1];
      assert calls == init + [last];
      EveryCallerIsKept(c, init);
      FinalSplit(c, map[], init, [last], true);
      var t := Final(c, map[], init, true);
      assert Final(c, t, [last], true) == AllowStep(c, t, last.key, last.now, true).1;
      hide AllowStep, Final, BelowBurst, Callers;
      CallLeavesBelowBurst(c, t, last.key, last.now);
      CallersMore(init, last);
    }
  }

  /** `n` keys, each calling once at time 0. */
  function Crowd(n: nat): seq<Call> {
    if n == 0 then [] else Crowd(n - 1) + [Call(seq(n - 1, i => 'k'), 0.0)]
  }

  /** The table holds `n` full buckets stamped 0. */
  ghost predicate Waiting(c: Config, t: Table, n: nat) {
    |t| == n && forall k :: k in t ==> |k| < n && t[k] == Bucket(c.burst, 0.0)
  }

  lemma CrowdGrows(c: Config, t: Table, n: nat)
    requires c.burst < 1.0 && n + 1 < SWEEP_AT && Waiting(c, t, n)
    ensures Waiting(c, AllowStep(c, t, seq(n, i => 'k'), 0.0, true).1, n + 1)
  {
    var key := seq(n, i => 'k');
    assert |key| == n && key !in t;
    var inserted := t[key := Bucket(c.burst, 0.0)];
    assert inserted.Keys == t.Keys + {key};
    assert |inserted| == n + 1;
    assert AllowStep(c, t, key, 0.0, true).1 == inserted;
  }

  lemma {:induction false} CrowdWaits(c: Config, n: nat)
    requires c.burst < 1.0 && n < SWEEP_AT
    ensures Waiting(c, Final(c, map[], Crowd(n), true), n)
    ensures forall i :: 0 <= i < |Crowd(n)| ==> Crowd(n)[i].now == 0.0
    ensures |Crowd(n)| == n
    ensures n > 0 ==> Crowd(n)[0].key == ""
  {
    if n > 0 {
      var call := Call(seq(n - 1, i => 'k'), 0.0);
      CrowdWaits(c, n - 1);
      FinalSplit(c, map[], Crowd(n - 1), [call], true);
      var t := Final(c, map[], Crowd(n - 1), true);
      assert Final(c, t, [call], true) == AllowStep(c, t, call.key, call.now, true).1;
      hide AllowStep, Waiting;
      CrowdGrows(c, t, n - 1);
    }
  }

  /** One more key, a little over a minute later. */
  function Latecomer(): Call {
    Call(seq(SWEEP_AT - 1, i => 'k'), 61.0)
  }

  lemma CrowdIsSwept(c: Config, t: Table)
    requires c.burst < 1.0 && Waiting(c, t, SWEEP_AT - 1)
    ensures AllowStep(c, t, Latecomer().key, 61.0, true).1.Keys == {Latecomer().key}
  {
    var key := Latecomer().key;
    assert |key| == SWEEP_AT - 1;
    var inserted := t[key := Bucket(c.burst, 61.0)];
    assert inserted.Keys == t.Keys + {key};
    assert |inserted| == SWEEP_AT;
    forall k | k in t ensures Idle(c, inserted[k], 61.0) {}
  }

  /** A chronological run after which a key that called is not in the table. */
  ghost predicate Drops(c: Config, calls: seq<Call>) {
    Chronological(calls) && Final(c, map[], calls, true).Keys != Callers(calls)
  }

  lemma CrowdIsDropped(c: Config)
    requires c.burst < 1.0
    ensures Drops(c, Crowd(SWEEP_AT - 1) + [Latecomer()])
  {
    var crowd, last := Crowd(SWEEP_AT - 1), Latecomer();
    var t, calls := Final(c, map[], crowd, true), crowd + [last];
    CrowdWaits(c, SWEEP_AT - 1);
    FinalSplit(c, map[], crowd, [last], true);
    assert Final(c, t, [last], true) == AllowStep(c, t, last.key, 61.0, true).1;
    CrowdIsSwept(c, t);
    assert calls[0] == crowd[0] && |last.key| == SWEEP_AT - 1;
    hide AllowStep, Final, Crowd, Latecomer;
    assert calls[0].key in Callers(calls) && calls[0].key !in {last.key};
  }

  /** The sweep looks at the tokens stored at a key's last call, without refilling them first. In
      some chronological run a key that called is missing from the table if and only if the
      burst is below one, which is to say that the limiter admits nobody: a limiter that admits
      anybody deletes nothing, however long its keys have been idle. */
  lemma SweepDeletesExactly(c: Config)
    ensures (exists calls :: Drops(c, calls)) <==> c.burst < 1.0
  {
    if c.burst >= 1.0 {
      forall calls ensures !Drops(c, calls) {
        EveryCallerIsKept(c, calls);
      }
    } else {
      CrowdIsDropped(c);
    }
  }
}
