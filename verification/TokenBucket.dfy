/** The lazily refilled bucket that the request-rate limiter and the byte-rate limiter
    both keep per key, and the sweep that bounds the table of buckets.
    Seconds and tokens are `real`; the clock reading is a parameter. */
module TokenBucket {

  /** Refill rate per second, and the cap that is also the initial fill. */
  datatype Config = Config(rate: real, burst: real)

  datatype Bucket = Bucket(tokens: real, last: real)

  type Table = map<string, Bucket>

  const IDLE_SECONDS := 60.0
  const SWEEP_AT: nat := 1024

  function Min(a: real, b: real): real {
    if a <= b then a else b
  }

  /** The tokens that drip in between two clock readings. */
  function Earned(c: Config, from: real, to: real): real {
    (to - from) * c.rate
  }

  function Refill(c: Config, b: Bucket, now: real): Bucket {
    if now - b.last > 0.0 then Bucket(Min(c.burst, b.tokens + Earned(c, b.last, now)), now) else b
  }

  /** What the sweep may delete: full, and untouched for more than a minute. */
  predicate Idle(c: Config, b: Bucket, now: real) {
    now - b.last > IDLE_SECONDS && b.tokens >= c.burst
  }

  function Sweep(c: Config, t: Table, now: real): Table {
    if |t| < SWEEP_AT then t else map k | k in t && !Idle(c, t[k], now) :: t[k]
  }

  /** The table after looking `key` up, inserting a full bucket if there is none.
      `sweeping` is true of the code; false gives the reference that never deletes. */
  function Touch(c: Config, t: Table, key: string, now: real, sweeping: bool): (t': Table)
    ensures key in t'
  {
    if key in t then t
    else
      var inserted := t[key := Bucket(c.burst, now)];
      if sweeping then Sweep(c, inserted, now) else inserted
  }

  /** The tokens `key` can count on at `now`; an absent key counts as full. */
  function Level(c: Config, t: Table, key: string, now: real): real {
    if key in t then Refill(c, t[key], now).tokens else c.burst
  }

  // ---------------------------------------------------------------- invariants

  ghost predicate Sane(c: Config) {
    c.rate >= 0.0
  }

  ghost predicate Funded(c: Config) {
    Sane(c) && c.burst >= 0.0
  }

  /** No bucket is over-full or stamped in the future. */
  ghost predicate Wf(c: Config, t: Table, now: real) {
    forall k :: k in t ==> t[k].tokens <= c.burst && t[k].last <= now
  }

  /** `p` is `f` with some full buckets missing. */
  ghost predicate Agree(c: Config, p: Table, f: Table) {
    && (forall k :: k in p ==> k in f && p[k] == f[k])
    && (forall k :: k in f && k !in p ==> f[k].tokens == c.burst)
  }

  // ---------------------------------------------------------------- arithmetic

  lemma EarnedAdds(c: Config, from: real, mid: real, to: real)
    ensures Earned(c, from, mid) + Earned(c, mid, to) == Earned(c, from, to)
  {}

  lemma EarnedNonNegative(c: Config, from: real, to: real)
    requires c.rate >= 0.0 && from <= to
    ensures Earned(c, from, to) >= 0.0
  {}

  /** Refilling at an intermediate time changes nothing later on. */
  lemma RefillComposes(c: Config, b: Bucket, mid: real, now: real)
    requires Sane(c) && b.tokens <= c.burst && b.last <= mid <= now
    ensures Refill(c, Refill(c, b, mid), now).tokens == Refill(c, b, now).tokens
  {
    EarnedNonNegative(c, b.last, mid);
    EarnedNonNegative(c, mid, now);
    EarnedAdds(c, b.last, mid, now);
  }

  /** Between two readings a bucket gains at most what drips in between them, never loses,
      and never exceeds the cap. */
  lemma RefillGain(c: Config, b: Bucket, mid: real, now: real)
    requires Sane(c) && b.tokens <= c.burst && b.last <= mid <= now
    ensures Refill(c, b, mid).tokens <= Refill(c, b, now).tokens <= c.burst
    ensures Refill(c, b, now).tokens <= Refill(c, b, mid).tokens + Earned(c, mid, now)
  {
    EarnedNonNegative(c, b.last, mid);
    EarnedNonNegative(c, mid, now);
    EarnedAdds(c, b.last, mid, now);
  }

  lemma RefillNonNegative(c: Config, b: Bucket, now: real)
    requires Funded(c) && b.tokens >= 0.0 && b.last <= now
    ensures Refill(c, b, now).tokens >= 0.0
  {
    EarnedNonNegative(c, b.last, now);
  }

  lemma LevelGain(c: Config, t: Table, key: string, mid: real, now: real)
    requires Sane(c) && Wf(c, t, mid) && mid <= now
    ensures Level(c, t, key, mid) <= Level(c, t, key, now) <= c.burst
    ensures Level(c, t, key, now) <= Level(c, t, key, mid) + Earned(c, mid, now)
  {
    if key in t {
      RefillGain(c, t[key], mid, now);
    } else {
      EarnedNonNegative(c, mid, now);
    }
  }

  /** What a key can count on later: what it can count on now and what drips in, up to the cap. */
  lemma LevelLater(c: Config, t: Table, key: string, mid: real, now: real)
    requires Sane(c) && Wf(c, t, mid) && mid <= now
    ensures Level(c, t, key, now) == Min(c.burst, Level(c, t, key, mid) + Earned(c, mid, now))
  {
    EarnedNonNegative(c, mid, now);
    if key in t {
      EarnedNonNegative(c, t[key].last, mid);
      EarnedAdds(c, t[key].last, mid, now);
    }
  }

  /** Looking a key up, with or without the sweep, leaves two agreeing tables agreeing and
      gives the looked-up key the same refilled bucket in both. */
  lemma TouchAgrees(c: Config, p: Table, f: Table, key: string, now: real)
    requires Sane(c) && Wf(c, f, now) && Agree(c, p, f)
    ensures var p' := Touch(c, p, key, now, true);
            var f' := Touch(c, f, key, now, false);
            && Wf(c, f', now)
            && Refill(c, p'[key], now) == Refill(c, f'[key], now)
            && Agree(c, p'[key := Refill(c, p'[key], now)], f'[key := Refill(c, f'[key], now)])
  {
    var p' := Touch(c, p, key, now, true);
    var f' := Touch(c, f, key, now, false);
    if key !in p && key in f {
      EarnedNonNegative(c, f[key].last, now);
    }
  }
}
