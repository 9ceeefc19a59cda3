/** The per-key byte-rate limiter: a bucket of bytes that may go negative, with a query
    that says whether the key is over budget right now. */
module Bandwidth {
  import opened TokenBucket

  function ChargeStep(c: Config, t: Table, key: string, n: nat, now: real, sweeping: bool): (bool, Table) {
    var t' := Touch(c, t, key, now, sweeping);
    var b := Refill(c, t'[key], now);
    (b.tokens - n as real < 0.0, t'[key := b.(tokens := b.tokens - n as real)])
  }

  function OverStep(c: Config, t: Table, key: string, now: real): (bool, Table) {
    if key !in t then (false, t)
    else
      var b := Refill(c, t[key], now);
      (b.tokens < 0.0, t[key := b])
  }

  class Limiter {
    const config: Config
    var buckets: Table

    constructor (bytesPerSec: real, burst: real)
      ensures config == Config(bytesPerSec, burst) && buckets == map[]
    {
      config := Config(bytesPerSec, burst);
      buckets := map[];
    }

    /** Advance one bucket in place; an absent key cannot be asked for. */
    method RefillBucket(key: string, now: real)
      requires key in buckets
      modifies this`buckets
      ensures buckets == old(buckets)[key := Refill(config, old(buckets)[key], now)]
    {
      var b := buckets[key];
      var elapsed := now - b.last;
      if elapsed > 0.0 {
        b := Bucket(Min(config.burst, b.tokens + Earned(config, b.last, now)), now);
      }
      buckets := buckets[key := b];
    }

    method Charge(key: string, n: nat, now: real) returns (tripped: bool)
      modifies this`buckets
      ensures (tripped, buckets) == ChargeStep(config, old(buckets), key, n, now, true)
    {
      if key !in buckets {
        buckets := buckets[key := Bucket(config.burst, now)];
        Prune(now);
      }
      ghost var t := buckets;
      assert t == Touch(config, old(buckets), key, now, true);
      RefillBucket(key, now);
      var b := buckets[key];
      assert buckets[key := b.(tokens := b.tokens - n as real)] == t[key := b.(tokens := b.tokens - n as real)];
      b := b.(tokens := b.tokens - n as real);
      buckets := buckets[key := b];
      tripped := b.tokens < 0.0;
    }

    method Over(key: string, now: real) returns (over: bool)
      modifies this`buckets
      ensures (over, buckets) == OverStep(config, old(buckets), key, now)
    {
      if key !in buckets {
        return false;
      }
      RefillBucket(key, now);
      over := buckets[key].tokens < 0.0;
    }

    method Prune(now: real)
      modifies this`buckets
      ensures buckets == Sweep(config, old(buckets), now)
      ensures forall k :: k in buckets <==>
                k in old(buckets)
                && !(|old(buckets)| >= 1024 && now - old(buckets)[k].last > 60.0 && old(buckets)[k].tokens >= config.burst)
      ensures forall k :: k in buckets ==> buckets[k] == old(buckets)[k]
    {
      if |buckets| < SWEEP_AT {
        return;
      }
      var todo := buckets.Keys;
      while todo != {}
        invariant todo <= old(buckets).Keys
        invariant forall k :: k in buckets <==>
                    k in old(buckets) && (k in todo || !Idle(config, old(buckets)[k], now))
        invariant forall k :: k in buckets ==> buckets[k] == old(buckets)[k]
        decreases todo
      {
        var k :| k in todo;
        if Idle(config, buckets[k], now) {
          buckets := buckets - {k};
        }
        todo := todo - {k};
      }
    }
  }

  // -------------------------------------------------------------------- runs

  datatype Op = Charge(key: string, n: nat, now: real) | Over(key: string, now: real)

  ghost predicate Chronological(ops: seq<Op>) {
    forall i, j :: 0 <= i < j < |ops| ==> ops[i].now <= ops[j].now
  }

  ghost predicate Ordered(t0: real, ops: seq<Op>) {
    Chronological(ops) && forall i :: 0 <= i < |ops| ==> t0 <= ops[i].now
  }

  function Step(c: Config, t: Table, op: Op, sweeping: bool): (bool, Table) {
    match op
    case Charge(key, n, now) => ChargeStep(c, t, key, n, now, sweeping)
    case Over(key, now) => OverStep(c, t, key, now)
  }

  function Answers(c: Config, t: Table, ops: seq<Op>, sweeping: bool): (r: seq<bool>)
    ensures |r| == |ops|
    decreases |ops|
  {
    if ops == [] then []
    else
      var (answer, t') := Step(c, t, ops[0], sweeping);
      [answer] + Answers(c, t', ops[1..], sweeping)
  }

  function Final(c: Config, t: Table, ops: seq<Op>, sweeping: bool): Table
    decreases |ops|
  {
    if ops == [] then t else Final(c, Step(c, t, ops[0], sweeping).1, ops[1..], sweeping)
  }

  /** The bytes charged to `key`. */
  function Bytes(key: string, ops: seq<Op>): nat {
    if ops == [] then 0
    else (if ops[0].Charge? && ops[0].key == key then ops[0].n else 0) + Bytes(key, ops[1..])
  }

  lemma StepKeepsWf(c: Config, t: Table, op: Op)
    requires Funded(c) && Wf(c, t, op.now)
    ensures Wf(c, Step(c, t, op, false).1, op.now)
  {
    EarnedNonNegative(c, if op.key in t then t[op.key].last else op.now, op.now);
  }

  lemma StepAgrees(c: Config, p: Table, f: Table, op: Op)
    requires Funded(c) && Wf(c, f, op.now) && Agree(c, p, f)
    ensures Step(c, p, op, true).0 == Step(c, f, op, false).0
    ensures Agree(c, Step(c, p, op, true).1, Step(c, f, op, false).1)
  {
    TouchAgrees(c, p, f, op.key, op.now);
    if op.key in f {
      EarnedNonNegative(c, f[op.key].last, op.now);
    }
  }

  lemma {:induction false} SweepInvisibleFrom(c: Config, p: Table, f: Table, t0: real, ops: seq<Op>)
    requires Funded(c) && Wf(c, f, t0) && Agree(c, p, f) && Ordered(t0, ops)
    ensures Answers(c, p, ops, true) == Answers(c, f, ops, false)
    ensures Agree(c, Final(c, p, ops, true), Final(c, f, ops, false))
    decreases |ops|
  {
    if ops != [] {
      StepAgrees(c, p, f, ops[0]);
      StepKeepsWf(c, f, ops[0]);
      SweepInvisibleFrom(c, Step(c, p, ops[0], true).1, Step(c, f, ops[0], false).1, ops[0].now, ops[1..]);
    }
  }

  /** Deleting idle buckets never changes an answer, of a charge or of a query. */
  lemma SweepInvisible(c: Config, ops: seq<Op>)
    requires Funded(c) && Chronological(ops)
    ensures Answers(c, map[], ops, true) == Answers(c, map[], ops, false)
  {
    if ops != [] {
      SweepInvisibleFrom(c, map[], map[], ops[0].now, ops);
    }
  }

  lemma {:induction false} FinalKeepsWf(c: Config, t: Table, t0: real, ops: seq<Op>, end: real)
    requires Funded(c) && Wf(c, t, t0) && Ordered(t0, ops) && t0 <= end
    requires forall i :: 0 <= i < |ops| ==> ops[i].now <= end
    ensures Wf(c, Final(c, t, ops, false), end)
    decreases |ops|
  {
    if ops != [] {
      StepKeepsWf(c, t, ops[0]);
      FinalKeepsWf(c, Step(c, t, ops[0], false).1, ops[0].now, ops[1..], end);
    }
  }

  lemma {:induction false} AnswersSplit(c: Config, t: Table, a: seq<Op>, b: seq<Op>, sweeping: bool)
    ensures Answers(c, t, a + b, sweeping)
         == Answers(c, t, a, sweeping) + Answers(c, Final(c, t, a, sweeping), b, sweeping)
    decreases |a|
  {
    if a == [] {
      assert a + b == b;
    } else {
      assert (a + b)[1..] == a[1..] + b;
      AnswersSplit(c, Step(c, t, a[0], sweeping).1, a[1..], b, sweeping);
    }
  }

  /** A charge takes its bytes from its own key; a query takes nothing from anyone. */
  lemma StepLevel(c: Config, t: Table, op: Op, k: string)
    requires Funded(c) && Wf(c, t, op.now)
    ensures Level(c, Step(c, t, op, false).1, k, op.now)
         == Level(c, t, k, op.now) - (if op.Charge? && k == op.key then op.n as real else 0.0)
  {}

  /** The potential argument: charged bytes and what is left over are paid for by the
      starting level and by refill. */
  lemma {:induction false} BytesArePaidFor(c: Config, t: Table, t0: real, ops: seq<Op>, key: string, end: real)
    requires Funded(c) && Wf(c, t, t0) && Ordered(t0, ops) && t0 <= end
    requires forall i :: 0 <= i < |ops| ==> ops[i].now <= end
    ensures Bytes(key, ops) as real + Level(c, Final(c, t, ops, false), key, end)
         <= Level(c, t, key, t0) + Earned(c, t0, end)
    decreases |ops|
  {
    if ops == [] {
      LevelGain(c, t, key, t0, end);
    } else {
      var now, t' := ops[0].now, Step(c, t, ops[0], false).1;
      StepKeepsWf(c, t, ops[0]);
      BytesArePaidFor(c, t', now, ops[1..], key, end);
      LevelGain(c, t, key, t0, now);
      StepLevel(c, t, ops[0], key);
      EarnedAdds(c, t0, now, end);
    }
  }

  /** No charge of `key` tripped. */
  ghost predicate Untripped(ops: seq<Op>, answers: seq<bool>, key: string)
    requires |ops| == |answers|
  {
    forall i :: 0 <= i < |ops| && ops[i].Charge? && ops[i].key == key ==> !answers[i]
  }

  /** Untripped charges leave the key within budget. */
  lemma {:induction false} UntrippedLevel(c: Config, t: Table, t0: real, ops: seq<Op>, key: string, end: real)
    requires Funded(c) && Wf(c, t, t0) && Ordered(t0, ops) && t0 <= end
    requires forall i :: 0 <= i < |ops| ==> ops[i].now <= end
    requires Untripped(ops, Answers(c, t, ops, false), key)
    requires Level(c, t, key, t0) >= 0.0 || Bytes(key, ops) > 0
    ensures Level(c, Final(c, t, ops, false), key, end) >= 0.0
    decreases |ops|
  {
    if ops == [] {
      LevelGain(c, t, key, t0, end);
    } else {
      var op, now, t' := ops[0], ops[0].now, Step(c, t, ops[0], false).1;
      StepKeepsWf(c, t, op);
      LevelGain(c, t, key, t0, now);
      StepLevel(c, t, op, key);
      var rest, restAnswers := ops[1..], Answers(c, t', ops[1..], false);
      forall i | 0 <= i < |rest| && rest[i].Charge? && rest[i].key == key ensures !restAnswers[i] {
        assert ops[i + 1] == rest[i] && Answers(c, t, ops, false)[i + 1] == restAnswers[i];
      }
      if op.Charge? && op.key == key {
        assert !Answers(c, t, ops, false)[0];
        assert Level(c, t', key, now) >= 0.0;
      }
      UntrippedLevel(c, t', now, rest, key, end);
    }
  }

  /** `ops` is a run; `span` is a stretch of it. */
  ghost predicate Stretch(ops: seq<Op>, before: seq<Op>, span: seq<Op>, after: seq<Op>) {
    ops == before + span + after && span != [] && Chronological(ops)
  }

  lemma {:induction false} AnswersOfSpan(c: Config, ops: seq<Op>, before: seq<Op>, span: seq<Op>, after: seq<Op>)
    requires Funded(c) && Stretch(ops, before, span, after)
    ensures Answers(c, map[], ops, true)[|before|..|before| + |span|]
         == Answers(c, Final(c, map[], before, false), span, false)
  {
    SweepInvisible(c, ops);
    AnswersSplit(c, map[], before + span, after, false);
    AnswersSplit(c, map[], before, span, false);
  }

  lemma OrderedParts(ops: seq<Op>, before: seq<Op>, span: seq<Op>, after: seq<Op>)
    requires Stretch(ops, before, span, after)
    ensures Ordered(ops[0].now, before) && Ordered(span[0].now, span)
    ensures forall i :: 0 <= i < |before| ==> before[i].now <= span[0].now
    ensures ops[0].now <= span[0].now
    ensures forall i :: 0 <= i < |span| ==> span[i].now <= span[|span| - 1].now
  {
    forall i | 0 <= i < |before| ensures ops[i] == before[i] {}
    forall i | 0 <= i < |span| ensures ops[|before| + i] == span[i] {}
  }

  lemma {:induction false} BytesSplit(key: string, a: seq<Op>, b: seq<Op>)
    ensures Bytes(key, a + b) == Bytes(key, a) + Bytes(key, b)
  {
    if a == [] {
      assert a + b == b;
    } else {
      assert (a + b)[1..] == a[1..] + b;
      BytesSplit(key, a[1..], b);
    }
  }

  /** The same bound from a given table, with no sweep. */
  lemma BreakerBoundFrom(c: Config, t: Table, t0: real, body: seq<Op>, last: Op, key: string)
    requires Funded(c) && Wf(c, t, t0) && Ordered(t0, body + [last]) && last.Charge? && last.key == key
    requires Untripped(body, Answers(c, t, body, false), key)
    ensures Bytes(key, body + [last]) as real <= c.burst + Earned(c, t0, last.now) + last.n as real
  {
    BytesSplit(key, body, [last]);
    assert Bytes(key, [last]) == last.n;
    assert (body + [last])[|body|] == last;
    EarnedNonNegative(c, t0, last.now);
    if Bytes(key, body) > 0 {
      forall i | 0 <= i < |body| ensures t0 <= body[i].now <= last.now {
        assert (body + [last])[i] == body[i];
      }
      forall i, j | 0 <= i < j < |body| ensures body[i].now <= body[j].now {
        assert (body + [last])[i] == body[i] && (body + [last])[j] == body[j];
      }
      BytesArePaidFor(c, t, t0, body, key, last.now);
      UntrippedLevel(c, t, t0, body, key, last.now);
      LevelGain(c, t, key, t0, t0);
    }
  }

  /** Over any stretch of any run in which none of the key's charges before the last one
      trips, the key moved at most burst + rate x elapsed bytes plus the last chunk. */
  lemma BreakerBound(c: Config, ops: seq<Op>, before: seq<Op>, body: seq<Op>, last: Op, after: seq<Op>, key: string)
    requires Funded(c) && Stretch(ops, before, body + [last], after) && last.Charge? && last.key == key
    requires Untripped(body, Answers(c, map[], ops, true)[|before|..|before| + |body|], key)
    ensures Bytes(key, body + [last]) as real
         <= c.burst + Earned(c, (body + [last])[0].now, last.now) + last.n as real
  {
    var span := body + [last];
    var t, t0 := Final(c, map[], before, false), span[0].now;
    OrderedParts(ops, before, span, after);
    AnswersOfSpan(c, ops, before, span, after);
    AnswersSplit(c, t, body, [last], false);
    assert Answers(c, map[], ops, true)[|before|..|before| + |body|]
        == Answers(c, map[], ops, true)[|before|..|before| + |span|][..|body|];
    assert Answers(c, map[], ops, true)[|before|..|before| + |body|] == Answers(c, t, body, false);
    FinalKeepsWf(c, map[], ops[0].now, before, t0);
    BreakerBoundFrom(c, t, t0, body, last, key);
  }

  // ---------------------------------------------------------------- recovery

  /** No operation charges `key`. */
  ghost predicate Quiet(ops: seq<Op>, key: string) {
    forall i :: 0 <= i < |ops| && ops[i].Charge? ==> ops[i].key != key
  }

  /** The key's bucket is `b0`, refilled at some later time. */
  ghost predicate Drips(c: Config, t: Table, key: string, b0: Bucket) {
    key in t && b0.last <= t[key].last && t[key] == Refill(c, b0, t[key].last)
  }

  lemma QuietStep(c: Config, t: Table, key: string, b0: Bucket, op: Op)
    requires Funded(c) && Wf(c, t, op.now) && Drips(c, t, key, b0) && b0.tokens <= c.burst
    requires op.Charge? ==> op.key != key
    ensures Drips(c, Step(c, t, op, false).1, key, b0)
    ensures op == Over(key, op.now) ==> Step(c, t, op, false).0 == (Refill(c, b0, op.now).tokens < 0.0)
  {
    RefillComposes(c, b0, t[key].last, op.now);
  }

  lemma {:induction false} QuietAnswers(c: Config, t: Table, t0: real, ops: seq<Op>, key: string, b0: Bucket, i: nat)
    requires Funded(c) && Wf(c, t, t0) && Ordered(t0, ops) && Quiet(ops, key)
    requires Drips(c, t, key, b0) && b0.tokens <= c.burst && i < |ops| && ops[i] == Over(key, ops[i].now)
    ensures Answers(c, t, ops, false)[i] == (Refill(c, b0, ops[i].now).tokens < 0.0)
    decreases |ops|
  {
    QuietStep(c, t, key, b0, ops[0]);
    if i > 0 {
      StepKeepsWf(c, t, ops[0]);
      QuietAnswers(c, Step(c, t, ops[0], false).1, ops[0].now, ops[1..], key, b0, i - 1);
    }
  }

  lemma TrippedExactly(c: Config, b0: Bucket, now: real)
    requires Funded(c) && b0.last <= now
    ensures Refill(c, b0, now).tokens < 0.0 <==> Earned(c, b0.last, now) < -b0.tokens
  {
    EarnedNonNegative(c, b0.last, now);
    EarnedAdds(c, now, now, now);
  }

  /** What `key` owes once `ops` have run. */
  function Deficit(c: Config, ops: seq<Op>, key: string, now: real): real {
    -Level(c, Final(c, map[], ops, true), key, now)
  }

  /** After a charge, and until the key is charged again, the key is over budget exactly
      while what has dripped in is less than what it owed, however often it is asked. */
  lemma {:induction false} Recovery(c: Config, before: seq<Op>, charge: Op, quiet: seq<Op>, i: nat)
    requires Funded(c) && Chronological(before + [charge] + quiet) && charge.Charge? && Quiet(quiet, charge.key)
    requires i < |quiet| && quiet[i] == Over(charge.key, quiet[i].now)
    ensures Answers(c, map[], before + [charge] + quiet, true)[|before| + 1 + i]
       <==> Earned(c, charge.now, quiet[i].now) < Deficit(c, before + [charge], charge.key, charge.now)
  {
    var head, t := before + [charge], Final(c, map[], before + [charge], false);
    AnswersOfTail(c, head, quiet);
    ChronologicalParts(head, quiet);
    assert head[|before|] == charge;
    FinalKeepsWf(c, map[], head[0].now, head, charge.now);
    ChargedBucket(c, before, charge);
    QuietAnswers(c, t, charge.now, quiet, charge.key, t[charge.key], i);
    TrippedExactly(c, t[charge.key], quiet[i].now);
  }

  lemma AnswersOfTail(c: Config, head: seq<Op>, tail: seq<Op>)
    requires Funded(c) && Chronological(head + tail)
    ensures Answers(c, map[], head + tail, true)[|head|..] == Answers(c, Final(c, map[], head, false), tail, false)
  {
    SweepInvisible(c, head + tail);
    AnswersSplit(c, map[], head, tail, false);
  }

  lemma ChronologicalParts(head: seq<Op>, tail: seq<Op>)
    requires Chronological(head + tail) && head != []
    ensures Ordered(head[0].now, head) && Ordered(head[|head| - 1].now, tail)
    ensures forall i :: 0 <= i < |head| ==> head[i].now <= head[|head| - 1].now
  {
    forall k | 0 <= k < |head| ensures (head + tail)[k] == head[k] {}
    forall k | 0 <= k < |tail| ensures (head + tail)[|head| + k] == tail[k] {}
  }

  /** Right after a charge the key's bucket is there, stamped with the charge's time, and the
      same with and without the sweep. */
  lemma ChargedBucket(c: Config, before: seq<Op>, charge: Op)
    requires Funded(c) && Chronological(before + [charge]) && charge.Charge?
    ensures var t := Final(c, map[], before + [charge], false);
            && charge.key in t && t[charge.key].last == charge.now
            && t[charge.key].tokens == -Deficit(c, before + [charge], charge.key, charge.now)
            && t[charge.key].tokens <= c.burst
  {
    var head := before + [charge];
    assert Ordered(head[0].now, head);
    SweepInvisibleFrom(c, map[], map[], head[0].now, head);
    FinalSplit(c, map[], before, [charge], true);
    FinalSplit(c, map[], before, [charge], false);
    forall k | 0 <= k < |before| ensures before[k] == head[k] {}
    assert head[|before|] == charge;
    FinalKeepsWf(c, map[], head[0].now, before, charge.now);
    FinalKeepsWf(c, map[], head[0].now, head, charge.now);
  }

  lemma {:induction false} FinalSplit(c: Config, t: Table, a: seq<Op>, b: seq<Op>, sweeping: bool)
    ensures Final(c, t, a + b, sweeping) == Final(c, Final(c, t, a, sweeping), b, sweeping)
    decreases |a|
  {
    if a == [] {
      assert a + b == b;
    } else {
      assert (a + b)[1..] == a[1..] + b;
      FinalSplit(c, Step(c, t, a[0], sweeping).1, a[1..], b, sweeping);
    }
  }

  // ------------------------------------------------------------ exactly what trips

  predicate Charges(op: Op, key: string) {
    op.Charge? && op.key == key
  }

  function BytesOf(op: Op, key: string): nat {
    if Charges(op, key) then op.n else 0
  }

  /** What burst and refill since the `i`-th operation leave for `key` at `end`. */
  function Allowance(c: Config, ops: seq<Op>, key: string, i: nat, end: real): real
    requires i < |ops|
  {
    c.burst + Earned(c, ops[i].now, end) - Bytes(key, ops[i..]) as real
  }

  lemma AllowanceMore(c: Config, ops: seq<Op>, key: string, i: nat, op: Op, end: real)
    requires i < |ops|
    ensures Allowance(c, ops + [op], key, i, end)
         == Allowance(c, ops, key, i, op.now) + Earned(c, op.now, end) - BytesOf(op, key) as real
  {
    assert (ops + [op])[i..] == ops[i..] + [op] && (ops + [op])[i] == ops[i];
    BytesSplit(key, ops[i..], [op]);
    EarnedAdds(c, ops[i].now, op.now, end);
  }

  lemma AllowanceOfLast(c: Config, ops: seq<Op>, key: string, op: Op, end: real)
    ensures Allowance(c, ops + [op], key, |ops|, end) == c.burst + Earned(c, op.now, end) - BytesOf(op, key) as real
  {
    assert (ops + [op])[|ops|..] == [op] && (ops + [op])[|ops|] == op;
    assert Bytes(key, [op]) == BytesOf(op, key);
  }

  /** `level` is the least of the burst and the allowances since each of the key's charges. */
  ghost predicate IsLeast(c: Config, ops: seq<Op>, key: string, end: real, level: real) {
    && level <= c.burst
    && (forall i :: 0 <= i < |ops| && Charges(ops[i], key) ==> level <= Allowance(c, ops, key, i, end))
    && (level < c.burst ==> exists i :: 0 <= i < |ops| && Charges(ops[i], key) && level == Allowance(c, ops, key, i, end))
  }

  lemma LeastMore(c: Config, ops: seq<Op>, key: string, level: real, op: Op, end: real)
    requires Sane(c) && IsLeast(c, ops, key, op.now, level) && op.now <= end
    ensures IsLeast(c, ops + [op], key, end, Min(c.burst, level - BytesOf(op, key) as real + Earned(c, op.now, end)))
  {
    var ops' := ops + [op];
    var least := Min(c.burst, level - BytesOf(op, key) as real + Earned(c, op.now, end));
    EarnedNonNegative(c, op.now, end);
    AllowanceOfLast(c, ops, key, op, end);
    hide Allowance, Earned;
    forall i | 0 <= i < |ops'| && Charges(ops'[i], key) ensures least <= Allowance(c, ops', key, i, end) {
      if i < |ops| {
        AllowanceMore(c, ops, key, i, op, end);
        assert Charges(ops[i], key);
      }
    }
    if least < c.burst {
      if level < c.burst {
        var i :| 0 <= i < |ops| && Charges(ops[i], key) && level == Allowance(c, ops, key, i, op.now);
        AllowanceMore(c, ops, key, i, op, end);
        assert Charges(ops'[i], key);
      } else {
        assert Charges(ops'[|ops|], key);
      }
    }
  }

  /** What is left is what the tightest stretch leaves. */
  lemma {:induction false} LevelIsLeast(c: Config, ops: seq<Op>, key: string, end: real)
    requires Funded(c) && Chronological(ops) && forall i :: 0 <= i < |ops| ==> ops[i].now <= end
    ensures Wf(c, Final(c, map[], ops, false), end)
    ensures IsLeast(c, ops, key, end, Level(c, Final(c, map[], ops, false), key, end))
    decreases |ops|
  {
    if ops != [] {
      var init, last := ops[..|ops| - 1], ops[|ops| - 1];
      assert ops == init + [last];
      LevelIsLeast(c, init, key, last.now);
      FinalSplit(c, map[], init, [last], false);
      var t := Final(c, map[], init, false);
      var t' := Step(c, t, last, false).1;
      assert Final(c, t, [last], false) == t';
      hide Final, Step, Level, IsLeast;
      StepKeepsWf(c, t, last);
      StepLevel(c, t, last, key);
      LevelLater(c, t', key, last.now, end);
      LeastMore(c, init, key, Level(c, t, key, last.now), last, end);
    }
  }

  /** The key's charges from the `i`-th operation to the `n`-th come to more than burst + rate x elapsed. */
  predicate Overdraws(c: Config, ops: seq<Op>, i: nat, n: nat)
    requires i <= n < |ops|
  {
    Bytes(ops[n].key, ops[i..n + 1]) as real > c.burst + (ops[n].now - ops[i].now) * c.rate
  }

  lemma OverdrawsByAllowance(c: Config, ops: seq<Op>, i: nat, n: nat)
    requires i <= n < |ops|
    ensures Overdraws(c, ops, i, n) <==> Allowance(c, ops[..n + 1], ops[n].key, i, ops[n].now) < 0.0
  {
    assert ops[..n + 1][i..] == ops[i..n + 1] && ops[..n + 1][i] == ops[i];
    assert (ops[n].now - ops[i].now) * c.rate == Earned(c, ops[i].now, ops[n].now);
  }

  /** A charge or a query answers whether its key is below zero once it is done. */
  lemma AnswerIsLevel(c: Config, t: Table, op: Op)
    requires Funded(c) && Wf(c, t, op.now)
    ensures Step(c, t, op, false).0 <==> Level(c, Step(c, t, op, false).1, op.key, op.now) < 0.0
  {}

  lemma AnswerAt(c: Config, ops: seq<Op>, n: nat)
    requires n < |ops|
    ensures var t := Final(c, map[], ops[..n], false);
            && Answers(c, map[], ops, false)[n] == Step(c, t, ops[n], false).0
            && Final(c, map[], ops[..n + 1], false) == Step(c, t, ops[n], false).1
  {
    assert ops == ops[..n] + ops[n..] && ops[..n + 1] == ops[..n] + [ops[n]];
    AnswersSplit(c, map[], ops[..n], ops[n..], false);
    FinalSplit(c, map[], ops[..n], [ops[n]], false);
  }

  lemma LeastIsOverdrawn(c: Config, ops: seq<Op>, n: nat, level: real)
    requires Funded(c) && n < |ops| && IsLeast(c, ops[..n + 1], ops[n].key, ops[n].now, level)
    ensures level < 0.0 <==> exists i :: 0 <= i <= n && Charges(ops[i], ops[n].key) && Overdraws(c, ops, i, n)
  {
    hide Allowance, Overdraws, Charges;
    var head := ops[..n + 1];
    if level < 0.0 {
      var i :| 0 <= i < |head| && Charges(head[i], ops[n].key) && level == Allowance(c, head, ops[n].key, i, ops[n].now);
      OverdrawsByAllowance(c, ops, i, n);
      assert Charges(ops[i], ops[n].key);
    }
    if i :| 0 <= i <= n && Charges(ops[i], ops[n].key) && Overdraws(c, ops, i, n) {
      OverdrawsByAllowance(c, ops, i, n);
      assert Charges(head[i], ops[n].key);
    }
  }

  /** In any run of the limiter, sweeps included, a charge trips and a query answers yes if and
      only if over some stretch from one of the key's charges up to now the key moved more than
      burst + rate x elapsed. */
  lemma TripsExactly(c: Config, ops: seq<Op>, n: nat)
    requires Funded(c) && Chronological(ops) && n < |ops|
    ensures Answers(c, map[], ops, true)[n]
       <==> exists i :: 0 <= i <= n && Charges(ops[i], ops[n].key) && Overdraws(c, ops, i, n)
  {
    SweepInvisible(c, ops);
    LevelIsLeast(c, ops[..n], ops[n].key, ops[n].now);
    LevelIsLeast(c, ops[..n + 1], ops[n].key, ops[n].now);
    hide Answers, Final, Step, Level, IsLeast, Overdraws, Charges;
    AnswerAt(c, ops, n);
    AnswerIsLevel(c, Final(c, map[], ops[..n], false), ops[n]);
    LeastIsOverdrawn(c, ops, n, Level(c, Final(c, map[], ops[..n + 1], false), ops[n].key, ops[n].now));
  }

  // ---------------------------------------------------------------- after a pause

  lemma {:induction false} QuietDrips(c: Config, t: Table, t0: real, ops: seq<Op>, key: string, b0: Bucket, end: real)
    requires Funded(c) && Wf(c, t, t0) && Ordered(t0, ops) && Quiet(ops, key) && t0 <= end
    requires forall i :: 0 <= i < |ops| ==> ops[i].now <= end
    requires Drips(c, t, key, b0) && b0.tokens <= c.burst
    ensures var t' := Final(c, t, ops, false); Wf(c, t', end) && Drips(c, t', key, b0)
    decreases |ops|
  {
    if ops != [] {
      QuietStep(c, t, key, b0, ops[0]);
      StepKeepsWf(c, t, ops[0]);
      QuietDrips(c, Step(c, t, ops[0], false).1, ops[0].now, ops[1..], key, b0, end);
    }
  }

  /** The bytes that the key's bucket holds in the limiter's table after `ops`, negative if it owes. */
  function Left(c: Config, ops: seq<Op>, key: string): real {
    var t := Final(c, map[], ops, true);
    if key in t then t[key].tokens else c.burst
  }

  /** Burst, and `x` bytes at `from` with what drips in until `to`, are enough for `n` bytes. */
  predicate Affords(c: Config, x: real, from: real, to: real, n: nat) {
    n as real <= c.burst && n as real <= x + Earned(c, from, to)
  }

  lemma DripsAfford(c: Config, t: Table, key: string, b0: Bucket, now: real, n: nat)
    requires Funded(c) && Wf(c, t, now) && Drips(c, t, key, b0) && b0.tokens <= c.burst && b0.last <= now
    ensures Step(c, t, Charge(key, n, now), false).0 <==> !Affords(c, b0.tokens, b0.last, now, n)
  {
    RefillComposes(c, b0, t[key].last, now);
    EarnedNonNegative(c, b0.last, now);
    EarnedAdds(c, now, now, now);
    hide Earned;
  }

  lemma LastAnswer(c: Config, head: seq<Op>, quiet: seq<Op>, op: Op)
    requires Funded(c) && Chronological(head + quiet + [op])
    ensures Answers(c, map[], head + quiet + [op], true)[|head| + |quiet|]
         == Step(c, Final(c, Final(c, map[], head, false), quiet, false), op, false).0
  {
    SweepInvisible(c, head + quiet + [op]);
    AnswersSplit(c, map[], head + quiet, [op], false);
    FinalSplit(c, map[], head, quiet, false);
  }

  /** The last charge left the same bucket in the pruned table as in the full one. */
  lemma LeftBehind(c: Config, before: seq<Op>, charge: Op)
    requires Funded(c) && Chronological(before + [charge]) && charge.Charge?
    ensures var head := before + [charge];
            var t := Final(c, map[], head, false);
            && Wf(c, t, charge.now)
            && charge.key in t && t[charge.key] == Bucket(Left(c, head, charge.key), charge.now)
            && Drips(c, t, charge.key, t[charge.key]) && t[charge.key].tokens <= c.burst
  {
    var head := before + [charge];
    ChargedBucket(c, before, charge);
    SweepInvisibleFrom(c, map[], map[], head[0].now, head);
    FinalSplit(c, map[], before, [charge], true);
    assert head[|before|] == charge;
    FinalKeepsWf(c, map[], head[0].now, head, charge.now);
  }

  lemma TailIsOrdered(head: seq<Op>, quiet: seq<Op>, op: Op)
    requires Chronological(head + quiet + [op]) && head != []
    ensures var t0 := head[|head| - 1].now;
            && Chronological(head) && Ordered(t0, quiet) && t0 <= op.now
            && forall i :: 0 <= i < |quiet| ==> quiet[i].now <= op.now
  {
    var ops := head + quiet + [op];
    assert ops[|head| + |quiet|] == op;
    forall i | 0 <= i < |head| ensures ops[i] == head[i] {}
    forall i | 0 <= i < |quiet| ensures ops[|head| + i] == quiet[i] {}
  }

  /** After any run, let a key's last charge have left `x` bytes at `t0`, and anything but a charge
      of that key happen: then the key's next charge trips if and only if it is more than the
      burst or more than `x` and what drips in since `t0`. */
  lemma PauseTripsExactly(c: Config, before: seq<Op>, charge: Op, quiet: seq<Op>, now: real, n: nat)
    requires Funded(c) && charge.Charge? && Quiet(quiet, charge.key)
    requires Chronological(before + [charge] + quiet + [Charge(charge.key, n, now)])
    ensures var head := before + [charge];
            Answers(c, map[], head + quiet + [Charge(charge.key, n, now)], true)[|head| + |quiet|]
            <==> !Affords(c, Left(c, head, charge.key), charge.now, now, n)
  {
    var head, op := before + [charge], Charge(charge.key, n, now);
    TailIsOrdered(head, quiet, op);
    LeftBehind(c, before, charge);
    LastAnswer(c, head, quiet, op);
    var t := Final(c, map[], head, false);
    hide Answers, Final, Step, Drips, Affords, Left;
    QuietDrips(c, t, charge.now, quiet, charge.key, t[charge.key], now);
    DripsAfford(c, Final(c, t, quiet, false), charge.key, t[charge.key], now, n);
  }

  // ------------------------------------------------------------ what the sweep keeps

  /** No operation is about `key`. */
  ghost predicate Without(ops: seq<Op>, key: string) {
    forall i :: 0 <= i < |ops| ==> ops[i].key != key
  }

  lemma StepKeepsUnfull(c: Config, t: Table, op: Op, key: string)
    requires key in t && t[key].tokens < c.burst && op.key != key
    ensures var t' := Step(c, t, op, true).1; key in t' && t'[key] == t[key]
  {}

  lemma {:induction false} UnfullIsKept(c: Config, t: Table, ops: seq<Op>, key: string)
    requires key in t && t[key].tokens < c.burst && Without(ops, key)
    ensures var t' := Final(c, t, ops, true); key in t' && t'[key] == t[key]
    decreases |ops|
  {
    if ops != [] {
      StepKeepsUnfull(c, t, ops[0], key);
      UnfullIsKept(c, Step(c, t, ops[0], true).1, ops[1..], key);
    }
  }

  ghost predicate Capped(c: Config, t: Table) {
    forall k :: k in t ==> t[k].tokens <= c.burst
  }

  lemma {:induction false} FinalIsCapped(c: Config, t: Table, ops: seq<Op>)
    requires Capped(c, t)
    ensures Capped(c, Final(c, t, ops, true))
    decreases |ops|
  {
    if ops != [] {
      StepKeepsCapped(c, t, ops[0]);
      FinalIsCapped(c, Step(c, t, ops[0], true).1, ops[1..]);
    }
  }

  lemma StepKeepsCapped(c: Config, t: Table, op: Op)
    requires Capped(c, t)
    ensures Capped(c, Step(c, t, op, true).1)
  {
    hide Earned;
  }

  /** The sweep looks at the bytes stored at a key's last operation, without refilling them first:
      a key whose last operation charged it anything is never deleted, however long it is idle. */
  lemma ChargedIsKept(c: Config, before: seq<Op>, charge: Op, others: seq<Op>)
    requires charge.Charge? && charge.n > 0 && Without(others, charge.key)
    ensures charge.key in Final(c, map[], before + [charge] + others, true)
  {
    var head := before + [charge];
    var t0 := Final(c, map[], before, true);
    FinalIsCapped(c, map[], before);
    FinalSplit(c, map[], before, [charge], true);
    FinalSplit(c, map[], head, others, true);
    ChargeLeavesUnfull(c, t0, charge);
    hide Step;
    assert Final(c, t0, [charge], true) == Step(c, t0, charge, true).1;
    UnfullIsKept(c, Step(c, t0, charge, true).1, others, charge.key);
  }

  lemma ChargeLeavesUnfull(c: Config, t: Table, charge: Op)
    requires Capped(c, t) && charge.Charge? && charge.n > 0
    ensures var t' := Step(c, t, charge, true).1; charge.key in t' && t'[charge.key].tokens < c.burst
  {
    hide Earned;
  }
}
