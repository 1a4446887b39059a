/** The token-bucket rate limiter: one row per key, one atomic upsert per hit. */
module RateLimits {
  import opened Wrappers

  /** Timestamps are whole microseconds, the resolution of the `refilled_at` column. */
  const MICROS := 1_000_000

  /** The least value of the 32-bit `tokens` column. */
  const INT_MIN := -0x8000_0000

  datatype Row = Row(tokens: int, refilledAt: int)

  type Table = map<string, Row>

  /** Rejected: a check violation, rolled back.  Failed: any other database error, also rolled back. */
  datatype Outcome = Accepted | Rejected | Failed

  datatype Attempt = Attempt(key: string, limit: int, perSeconds: int, now: int)

  function Min(a: int, b: int): int {
    if a <= b then a else b
  }

  /** Rounds the exact quotient towards minus infinity, as SQL's FLOOR does. */
  function FloorDiv(a: int, b: int): (q: int)
    requires b != 0
    ensures b > 0 ==> q * b <= a < (q + 1) * b
    ensures b < 0 ==> (q + 1) * b < a <= q * b
  {
    if b > 0 then a / b else (-a) / (-b)
  }

  /** Whole tokens earned in `elapsed` microseconds; negative when the clock went backwards. */
  function Refill(limit: int, perSeconds: int, elapsed: int): int
    requires perSeconds != 0
  {
    FloorDiv(limit * elapsed, perSeconds * MICROS)
  }

  /** What one hit does to the row of its key. */
  function HitRow(row: Option<Row>, limit: int, perSeconds: int, now: int): (Option<Row>, Outcome) {
    if limit - 1 < 0 then
      (row, Rejected)
    else if row.None? then
      (Some(Row(limit - 1, now)), Accepted)
    else if perSeconds == 0 then
      (row, Failed)
    else
      var refill := Refill(limit, perSeconds, now - row.value.refilledAt);
      var tokens := Min(limit, row.value.tokens + refill) - 1;
      if tokens < INT_MIN then (row, Failed)
      else if tokens < 0 then (row, Rejected)
      else (Some(Row(tokens, if refill > 0 then now else row.value.refilledAt)), Accepted)
  }

  function Lookup(table: Table, key: string): Option<Row> {
    if key in table then Some(table[key]) else None
  }

  function Decide(table: Table, hit: Attempt): Outcome {
    HitRow(Lookup(table, hit.key), hit.limit, hit.perSeconds, hit.now).1
  }

  function Apply(table: Table, hit: Attempt): Table {
    var (row, outcome) := HitRow(Lookup(table, hit.key), hit.limit, hit.perSeconds, hit.now);
    if outcome.Accepted? then table[hit.key := row.value] else table
  }

  function Run(table: Table, hits: seq<Attempt>): Table
    decreases |hits|
  {
    if hits == [] then table else Run(Apply(table, hits[0]), hits[1..])
  }

  /** The stored table; `Hit` is the one statement the service executes. */
  class RateLimitsService {
    var rateLimits: Table

    constructor ()
      ensures rateLimits == map[]
    {
      rateLimits := map[];
    }

    method Hit(key: string, limit: int, perSeconds: int, now: int) returns (outcome: Outcome)
      modifies this
      ensures outcome == Decide(old(rateLimits), Attempt(key, limit, perSeconds, now))
      ensures rateLimits == Apply(old(rateLimits), Attempt(key, limit, perSeconds, now))
    {
      // The proposed row is checked before the conflict on the key is looked at.
      if limit - 1 < 0 {
        return Rejected;
      }
      if key !in rateLimits {
        rateLimits := rateLimits[key := Row(limit - 1, now)];
        return Accepted;
      }
      if perSeconds == 0 {
        return Failed;
      }
      var row := rateLimits[key];
      var refill := Refill(limit, perSeconds, now - row.refilledAt);
      var tokens := Min(limit, row.tokens + refill) - 1;
      if tokens < INT_MIN {
        return Failed;
      }
      if tokens < 0 {
        return Rejected;
      }
      var refilledAt := row.refilledAt;
      if refill > 0 {
        refilledAt := now;
      }
      rateLimits := rateLimits[key := Row(tokens, refilledAt)];
      outcome := Accepted;
    }
  }

  // ---------- exactly what one hit does ----------

  /** A key's first hit is accepted with a full bucket less one, whatever the period; without a limit none is. */
  lemma FirstHit(limit: int, perSeconds: int, now: int)
    ensures limit >= 1 ==> HitRow(None, limit, perSeconds, now) == (Some(Row(limit - 1, now)), Accepted)
    ensures forall row :: limit < 1 ==> HitRow(row, limit, perSeconds, now) == (row, Rejected)
  {
  }

  /**
   * A later hit with `earned` whole tokens since the last refill, at `limit` tokens in `perSeconds` seconds: it takes
   * one out of what there is, at most `limit`, is rejected if that is nothing, and moves the time of the refill only if
   * something was earned.
   */
  lemma LaterHit(row: Row, limit: int, perSeconds: int, now: int, earned: int)
    requires limit >= 1 && perSeconds > 0
    requires earned * (perSeconds * 1_000_000) <= limit * (now - row.refilledAt)
    requires limit * (now - row.refilledAt) < (earned + 1) * (perSeconds * 1_000_000)
    ensures var available := if row.tokens + earned <= limit then row.tokens + earned else limit;
            var (row', outcome) := HitRow(Some(row), limit, perSeconds, now);
            && (outcome.Accepted? <==> available >= 1)
            && (outcome.Failed? <==> available - 1 < -2_147_483_648)
            && (!outcome.Accepted? ==> row' == Some(row))
            && (outcome.Accepted? ==> row' == Some(Row(available - 1, if earned > 0 then now else row.refilledAt)))
  {
    QuotientIs(earned, limit * (now - row.refilledAt), perSeconds * MICROS);
  }

  /** With a period of no seconds a later hit divides by zero; with a negative one it can only lose tokens. */
  lemma OddPeriods(row: Row, limit: int, perSeconds: int, now: int)
    requires limit >= 1 && row.tokens <= limit - 1 && row.refilledAt <= now
    ensures perSeconds == 0 ==> HitRow(Some(row), limit, perSeconds, now) == (Some(row), Failed)
    ensures perSeconds < 0 && HitRow(Some(row), limit, perSeconds, now).1.Accepted? ==>
              var row' := HitRow(Some(row), limit, perSeconds, now).0.value;
              row'.tokens < row.tokens && row'.refilledAt == row.refilledAt
  {
    if perSeconds < 0 {
      var earned := limit * (now - row.refilledAt);
      MulMonotone(0, now - row.refilledAt, limit);
      NothingToEarn(earned, perSeconds * MICROS);
    }
  }

  lemma NothingToEarn(a: int, b: int)
    requires a >= 0 && b < 0
    ensures FloorDiv(a, b) <= 0
  {
    var q := FloorDiv(a, b);
    assert q >= 1 ==> q * -b >= 1;
    assert q * -b == -(q * b);
  }

  // ---------- what every run keeps ----------

  /** Every hit on `key` uses the same positive limit and period. */
  predicate Uniform(hits: seq<Attempt>, key: string, limit: int, perSeconds: int) {
    && limit >= 1
    && perSeconds > 0
    && forall i | 0 <= i < |hits| && hits[i].key == key :: hits[i].limit == limit && hits[i].perSeconds == perSeconds
  }

  predicate InRange(row: Option<Row>, limit: int) {
    row.Some? ==> 0 <= row.value.tokens <= limit - 1
  }

  /** Stored tokens stay in 0..limit-1, whatever the clock does. */
  lemma {:induction false} TokensStayInRange(table: Table, hits: seq<Attempt>, key: string, limit: int, perSeconds: int)
    requires Uniform(hits, key, limit, perSeconds)
    requires InRange(Lookup(table, key), limit)
    ensures InRange(Lookup(Run(table, hits), key), limit)
    decreases |hits|
  {
    if hits != [] {
      TokensStayInRange(Apply(table, hits[0]), hits[1..], key, limit, perSeconds);
    }
  }

  /** Hits on `key` accepted with a timestamp in the window that starts at `from` and lasts `length`. */
  function AcceptedInWindow(table: Table, hits: seq<Attempt>, key: string, from: int, length: nat): nat
    decreases |hits|
  {
    if hits == [] then 0
    else
      var h := hits[0];
      (if h.key == key && from <= h.now <= from + length && Decide(table, h).Accepted? then 1 else 0)
      + AcceptedInWindow(Apply(table, h), hits[1..], key, from, length)
  }

  /** The row's tokens and the time not yet turned into tokens, at `t`, in units of 1/(perSeconds * MICROS) token. */
  function Potential(row: Row, limit: int, perSeconds: int, t: int): int {
    row.tokens * (perSeconds * MICROS) + limit * (t - row.refilledAt)
  }

  /** A hit on an existing row that is accepted costs at least one token of potential, seen from any instant. */
  lemma AcceptCostsAToken(row: Row, limit: int, perSeconds: int, now: int, t: int)
    requires limit >= 1 && perSeconds > 0
    requires HitRow(Some(row), limit, perSeconds, now).1.Accepted?
    ensures Potential(HitRow(Some(row), limit, perSeconds, now).0.value, limit, perSeconds, t)
         <= Potential(row, limit, perSeconds, t) - perSeconds * MICROS
  {
    var unit := perSeconds * MICROS;
    var refill := Refill(limit, perSeconds, now - row.refilledAt);
    var tokens := Min(limit, row.tokens + refill) - 1;
    assert tokens * unit <= (row.tokens + refill - 1) * unit by {
      MulMonotone(tokens, row.tokens + refill - 1, unit);
    }
    assert (row.tokens + refill - 1) * unit == row.tokens * unit + refill * unit - unit;
    if refill > 0 {
      assert limit * (t - row.refilledAt) == limit * (t - now) + limit * (now - row.refilledAt);
    } else {
      MulMonotone(refill, 0, unit);
    }
  }

  /** Just before an accepted hit the potential is worth at least one token at any later instant. */
  lemma AcceptNeedsAToken(row: Row, limit: int, perSeconds: int, now: int, t: int)
    requires limit >= 1 && perSeconds > 0 && now <= t
    requires HitRow(Some(row), limit, perSeconds, now).1.Accepted?
    ensures perSeconds * MICROS <= Potential(row, limit, perSeconds, t)
  {
    var unit := perSeconds * MICROS;
    var refill := Refill(limit, perSeconds, now - row.refilledAt);
    assert refill * unit <= limit * (now - row.refilledAt);
    assert limit * (t - row.refilledAt) == limit * (t - now) + limit * (now - row.refilledAt);
    MulMonotone(0, t - now, limit);
    MulMonotone(1, row.tokens + refill, unit);
    assert (row.tokens + refill) * unit == row.tokens * unit + refill * unit;
  }

  /** Just after an accepted hit at `now` the potential at `t` is capped by what a full bucket would hold. */
  lemma AcceptCapsPotential(row: Option<Row>, limit: int, perSeconds: int, now: int, t: int)
    requires limit >= 1 && perSeconds > 0 && InRange(row, limit)
    requires HitRow(row, limit, perSeconds, now).1.Accepted?
    ensures Potential(HitRow(row, limit, perSeconds, now).0.value, limit, perSeconds, t)
         <= (limit - 1) * (perSeconds * MICROS) + limit * (t - now)
  {
    var unit := perSeconds * MICROS;
    var after := HitRow(row, limit, perSeconds, now).0.value;
    if row.Some? && Refill(limit, perSeconds, now - row.value.refilledAt) <= 0 {
      var refill := Refill(limit, perSeconds, now - row.value.refilledAt);
      assert limit * (now - row.value.refilledAt) < (refill + 1) * unit;
      assert limit * (t - row.value.refilledAt) == limit * (t - now) + limit * (now - row.value.refilledAt);
      assert after.tokens + refill + 1 <= limit - 1;
      MulMonotone(after.tokens + refill + 1, limit - 1, unit);
      assert (after.tokens + refill + 1) * unit == after.tokens * unit + (refill + 1) * unit;
    } else {
      MulMonotone(after.tokens, limit - 1, unit);
    }
  }

  lemma MulMonotone(a: int, b: int, c: int)
    requires a <= b && 0 <= c
    ensures a * c <= b * c
  {
  }

  /** From a given row, accepted hits in the window are paid for out of the row's potential at the window's end. */
  lemma {:induction false} AcceptedWithinPotential(
      table: Table, hits: seq<Attempt>, key: string, limit: int, perSeconds: int, from: int, length: nat)
    requires Uniform(hits, key, limit, perSeconds) && key in table
    ensures var n := AcceptedInWindow(table, hits, key, from, length);
            n >= 1 ==> n * (perSeconds * MICROS) <= Potential(table[key], limit, perSeconds, from + length)
    decreases |hits|
  {
    hide Potential, Refill;
    if hits != [] {
      var h := hits[0];
      var next := Apply(table, h);
      AcceptedWithinPotential(next, hits[1..], key, limit, perSeconds, from, length);
      if h.key == key && Decide(table, h).Accepted? {
        AcceptCostsAToken(table[key], limit, perSeconds, h.now, from + length);
        if h.now <= from + length {
          AcceptNeedsAToken(table[key], limit, perSeconds, h.now, from + length);
        }
        var unit := perSeconds * MICROS;
        var n := AcceptedInWindow(next, hits[1..], key, from, length);
        assert (n + 1) * unit == n * unit + unit;
      }
    }
  }

  /**
   * In any run, with any clock, the hits on one key accepted in a window of the given length number
   * at most `limit` plus the whole tokens earned in that length.
   */
  lemma {:induction false} WindowBound(
      table: Table, hits: seq<Attempt>, key: string, limit: int, perSeconds: int, from: int, length: nat)
    requires Uniform(hits, key, limit, perSeconds)
    requires InRange(Lookup(table, key), limit)
    ensures AcceptedInWindow(table, hits, key, from, length) <= limit + (limit * length) / (perSeconds * 1_000_000)
    decreases |hits|
  {
    if hits != [] {
      var h := hits[0];
      if h.key == key && from <= h.now <= from + length && Decide(table, h).Accepted? {
        AcceptedFromFirst(table, hits, key, limit, perSeconds, from, length);
      } else {
        WindowBound(Apply(table, h), hits[1..], key, limit, perSeconds, from, length);
      }
    } else {
      QuotientBound(-limit, limit * length, perSeconds * MICROS) by {
        MulMonotone(0, length, limit);
        MulMonotone(-limit, 0, perSeconds * MICROS);
      }
    }
  }

  /** The window bound, counted from the first accepted hit in the window. */
  lemma AcceptedFromFirst(
      table: Table, hits: seq<Attempt>, key: string, limit: int, perSeconds: int, from: int, length: nat)
    requires Uniform(hits, key, limit, perSeconds)
    requires InRange(Lookup(table, key), limit)
    requires hits != [] && hits[0].key == key && from <= hits[0].now <= from + length
    requires Decide(table, hits[0]).Accepted?
    ensures AcceptedInWindow(table, hits, key, from, length) <= limit + (limit * length) / (perSeconds * MICROS)
  {
    hide Potential, Refill;
    var unit := perSeconds * MICROS;
    var h := hits[0];
    var next := Apply(table, h);
    var n := AcceptedInWindow(next, hits[1..], key, from, length);
    AcceptedWithinPotential(next, hits[1..], key, limit, perSeconds, from, length);
    AcceptCapsPotential(Lookup(table, key), limit, perSeconds, h.now, from + length);
    MulMonotone(from + length - h.now, length, limit);
    MulMonotone(0, length, limit);
    CountFromPotential(n, Potential(next[key], limit, perSeconds, from + length), unit, limit, limit * length);
  }

  lemma CountFromPotential(n: nat, potential: int, unit: int, limit: int, earned: int)
    requires unit > 0 && limit >= 1 && 0 <= earned
    requires n >= 1 ==> n * unit <= potential
    requires potential <= (limit - 1) * unit + earned
    ensures n + 1 <= limit + earned / unit
  {
    if n >= 1 {
      assert (n + 1 - limit) * unit == n * unit - (limit - 1) * unit;
      QuotientBound(n + 1 - limit, earned, unit);
    }
  }

  lemma QuotientBound(q: int, a: int, b: int)
    requires b > 0 && q * b <= a
    ensures q <= a / b
  {
    var over := q - FloorDiv(a, b) - 1;
    assert over * b < 0 by {
      assert over * b == q * b - (FloorDiv(a, b) + 1) * b;
    }
    assert over >= 0 ==> 0 <= over * b;
  }

  // ---------- rejected hits, other keys ----------

  /** The hits of a run that were accepted. */
  function OnlyAccepted(table: Table, hits: seq<Attempt>): seq<Attempt>
    decreases |hits|
  {
    if hits == [] then []
    else
      (if Decide(table, hits[0]).Accepted? then [hits[0]] else [])
      + OnlyAccepted(Apply(table, hits[0]), hits[1..])
  }

  predicate AllAccepted(table: Table, hits: seq<Attempt>)
    decreases |hits|
  {
    hits == [] || (Decide(table, hits[0]).Accepted? && AllAccepted(Apply(table, hits[0]), hits[1..]))
  }

  /** Deleting every hit that was turned away changes no stored row and no later decision. */
  lemma {:induction false} RejectedHitsAreInvisible(table: Table, hits: seq<Attempt>)
    ensures Run(table, OnlyAccepted(table, hits)) == Run(table, hits)
    ensures AllAccepted(table, OnlyAccepted(table, hits))
    decreases |hits|
  {
    if hits != [] {
      var rest := OnlyAccepted(Apply(table, hits[0]), hits[1..]);
      RejectedHitsAreInvisible(Apply(table, hits[0]), hits[1..]);
      if Decide(table, hits[0]).Accepted? {
        assert OnlyAccepted(table, hits)[1..] == rest;
      } else {
        assert OnlyAccepted(table, hits) == rest;
        assert Apply(table, hits[0]) == table;
      }
    }
  }

  /** The timestamps of the hits on one key, in order. */
  function TimesOf(hits: seq<Attempt>, key: string): seq<int>
    decreases |hits|
  {
    if hits == [] then []
    else (if hits[0].key == key then [hits[0].now] else []) + TimesOf(hits[1..], key)
  }

  function RunRow(row: Option<Row>, limit: int, perSeconds: int, times: seq<int>): Option<Row>
    decreases |times|
  {
    if times == [] then row
    else RunRow(HitRow(row, limit, perSeconds, times[0]).0, limit, perSeconds, times[1..])
  }

  function AcceptedRow(row: Option<Row>, limit: int, perSeconds: int, times: seq<int>): nat
    decreases |times|
  {
    if times == [] then 0
    else
      var (next, outcome) := HitRow(row, limit, perSeconds, times[0]);
      (if outcome.Accepted? then 1 else 0) + AcceptedRow(next, limit, perSeconds, times[1..])
  }

  /** Accepted hits on one key over a whole run. */
  function AcceptedFor(table: Table, hits: seq<Attempt>, key: string): nat
    decreases |hits|
  {
    if hits == [] then 0
    else
      (if hits[0].key == key && Decide(table, hits[0]).Accepted? then 1 else 0)
      + AcceptedFor(Apply(table, hits[0]), hits[1..], key)
  }

  /** What happens to a key depends only on its own row and its own hits. */
  lemma {:induction false} KeysAreIndependent(
      table: Table, hits: seq<Attempt>, key: string, limit: int, perSeconds: int)
    requires Uniform(hits, key, limit, perSeconds)
    ensures Lookup(Run(table, hits), key) == RunRow(Lookup(table, key), limit, perSeconds, TimesOf(hits, key))
    ensures AcceptedFor(table, hits, key) == AcceptedRow(Lookup(table, key), limit, perSeconds, TimesOf(hits, key))
    decreases |hits|
  {
    if hits != [] {
      KeysAreIndependent(Apply(table, hits[0]), hits[1..], key, limit, perSeconds);
      if hits[0].key == key {
        assert TimesOf(hits, key)[1..] == TimesOf(hits[1..], key);
      } else {
        assert TimesOf(hits, key) == TimesOf(hits[1..], key);
      }
    }
  }

  // ---------- the ideal bucket ----------

  /** An exact continuous bucket: `level` counts units of 1/(perSeconds * MICROS) token, so nothing is rounded. */
  datatype Bucket = Bucket(level: int, at: int)

  function IdealHit(bucket: Option<Bucket>, limit: int, perSeconds: int, now: int): (Option<Bucket>, bool) {
    var unit := perSeconds * MICROS;
    var level := match bucket
      case None => limit * unit
      case Some(b) => Min(limit * unit, b.level + limit * (now - b.at));
    if level >= unit then (Some(Bucket(level - unit, now)), true) else (Some(Bucket(level, now)), false)
  }

  function AcceptedIdeal(bucket: Option<Bucket>, limit: int, perSeconds: int, times: seq<int>): nat
    decreases |times|
  {
    if times == [] then 0
    else
      var (next, ok) := IdealHit(bucket, limit, perSeconds, times[0]);
      (if ok then 1 else 0) + AcceptedIdeal(next, limit, perSeconds, times[1..])
  }

  predicate NonDecreasing(times: seq<int>) {
    forall i, j | 0 <= i < j < |times| :: times[i] <= times[j]
  }

  /** The coupling: `lead` is how many more hits the ideal bucket has accepted. */
  predicate Behind(row: Row, bucket: Bucket, lead: int, limit: int, perSeconds: int) {
    && 0 <= row.tokens <= limit - 1
    && row.refilledAt <= bucket.at
    && 0 <= lead
    && Potential(row, limit, perSeconds, bucket.at) <= lead * (perSeconds * MICROS) + bucket.level
  }

  lemma BehindStep(row: Row, bucket: Bucket, lead: int, limit: int, perSeconds: int, now: int)
    requires limit >= 1 && perSeconds > 0
    requires Behind(row, bucket, lead, limit, perSeconds) && bucket.at <= now
    ensures var (row', outcome) := HitRow(Some(row), limit, perSeconds, now);
            var (bucket', ok) := IdealHit(Some(bucket), limit, perSeconds, now);
            Behind(row'.value, bucket'.value,
                   lead + (if ok then 1 else 0) - (if outcome.Accepted? then 1 else 0), limit, perSeconds)
  {
    var unit := perSeconds * MICROS;
    var refill := Refill(limit, perSeconds, now - row.refilledAt);
    var (row', outcome) := HitRow(Some(row), limit, perSeconds, now);
    var (bucket', ok) := IdealHit(Some(bucket), limit, perSeconds, now);
    var lead' := lead + (if ok then 1 else 0) - (if outcome.Accepted? then 1 else 0);
    RefillIsNonNegative(limit, perSeconds, now - row.refilledAt);
    var before := Potential(row, limit, perSeconds, now);
    var after := Potential(row'.value, limit, perSeconds, now);
    assert before == Potential(row, limit, perSeconds, bucket.at) + limit * (now - bucket.at) by {
      assert limit * (now - row.refilledAt) == limit * (now - bucket.at) + limit * (bucket.at - row.refilledAt);
    }
    if outcome.Accepted? {
      AcceptCostsAToken(row, limit, perSeconds, now, now);
      AcceptNeedsAToken(row, limit, perSeconds, now, now);
      AcceptCapsPotential(Some(row), limit, perSeconds, now, now);
    } else {
      assert row.tokens == 0 && refill == 0;
      assert after == before < unit;
    }
    BehindArithmetic(before, after, outcome.Accepted?, lead, unit, limit, bucket.level + limit * (now - bucket.at));
  }

  lemma RefillIsNonNegative(limit: int, perSeconds: int, elapsed: int)
    requires limit >= 1 && perSeconds > 0 && elapsed >= 0
    ensures Refill(limit, perSeconds, elapsed) >= 0
  {
    QuotientBound(0, limit * elapsed, perSeconds * MICROS) by {
      MulMonotone(0, elapsed, limit);
    }
  }

  /** The arithmetic of one coupled step: `earned` is the ideal level before it is capped. */
  lemma BehindArithmetic(before: int, after: int, accepted: bool, lead: int, unit: int, limit: int, earned: int)
    requires unit > 0 && limit >= 1 && lead >= 0
    requires before <= lead * unit + earned
    requires accepted ==> after <= before - unit && unit <= before && after <= (limit - 1) * unit
    requires !accepted ==> after == before < unit
    ensures var level := Min(limit * unit, earned);
            var ok := level >= unit;
            var lead' := lead + (if ok then 1 else 0) - (if accepted then 1 else 0);
            && lead' >= 0
            && after <= lead' * unit + (if ok then level - unit else level)
  {
    assert (limit - 1) * unit == limit * unit - unit;
    assert (lead + 1) * unit == lead * unit + unit;
    assert (lead - 1) * unit == lead * unit - unit;
    MulMonotone(0, lead, unit);
    MulMonotone(1, limit, unit);
    assert lead == 0 ==> lead * unit == 0;
  }

  lemma {:induction false} BehindRun(
      row: Row, bucket: Bucket, lead: int, limit: int, perSeconds: int, times: seq<int>)
    requires limit >= 1 && perSeconds > 0
    requires Behind(row, bucket, lead, limit, perSeconds)
    requires NonDecreasing(times) && (times != [] ==> bucket.at <= times[0])
    ensures AcceptedRow(Some(row), limit, perSeconds, times)
         <= lead + AcceptedIdeal(Some(bucket), limit, perSeconds, times)
    decreases |times|
  {
    if times != [] {
      var (row', outcome) := HitRow(Some(row), limit, perSeconds, times[0]);
      var (bucket', ok) := IdealHit(Some(bucket), limit, perSeconds, times[0]);
      BehindStep(row, bucket, lead, limit, perSeconds, times[0]);
      var lead' := lead + (if ok then 1 else 0) - (if outcome.Accepted? then 1 else 0);
      BehindRun(row'.value, bucket'.value, lead', limit, perSeconds, times[1..]);
    }
  }

  /**
   * With a clock that never goes back, on every prefix of the hits on a fresh key the limiter has
   * accepted no more than an exact continuous bucket of the same capacity and rate.
   */
  lemma NeverBeatsIdealBucket(limit: int, perSeconds: int, times: seq<int>, n: nat)
    requires limit >= 1 && perSeconds > 0 && NonDecreasing(times) && n <= |times|
    ensures AcceptedRow(None, limit, perSeconds, times[..n]) <= AcceptedIdeal(None, limit, perSeconds, times[..n])
  {
    if n > 0 {
      var unit := perSeconds * MICROS;
      MulMonotone(1, limit, unit);
      assert (limit - 1) * unit == limit * unit - unit;
      BehindRun(Row(limit - 1, times[0]), Bucket(limit * unit - unit, times[0]), 0, limit, perSeconds, times[..n][1..]);
    }
  }

  /** Of the accepted hits, how many can have followed a refill that rounded part of a token away. */
  function Roundings(accepted: nat): nat {
    if accepted <= 1 then 0 else accepted - 2
  }

  /** The other coupling: what the ideal bucket is ahead by was rounded away at refills that came with accepted hits. */
  predicate NotFarBehind(row: Row, bucket: Bucket, lead: int, accepted: nat, limit: int, perSeconds: int) {
    && 0 <= row.tokens <= limit - 1
    && row.refilledAt <= bucket.at
    && accepted >= 1
    && (accepted == 1 ==> row.tokens == limit - 1)
    && lead <= Roundings(accepted)
    && lead * (perSeconds * MICROS) + bucket.level
       <= Potential(row, limit, perSeconds, bucket.at) + Roundings(accepted) * (perSeconds * MICROS)
  }

  lemma NotFarBehindStep(
      row: Row, bucket: Bucket, lead: int, accepted: nat, limit: int, perSeconds: int, now: int)
    requires limit >= 1 && perSeconds > 0
    requires NotFarBehind(row, bucket, lead, accepted, limit, perSeconds) && bucket.at <= now
    ensures var (row', outcome) := HitRow(Some(row), limit, perSeconds, now);
            var (bucket', ok) := IdealHit(Some(bucket), limit, perSeconds, now);
            var spent := if outcome.Accepted? then 1 else 0;
            NotFarBehind(row'.value, bucket'.value, lead + (if ok then 1 else 0) - spent, accepted + spent,
                         limit, perSeconds)
  {
    var unit := perSeconds * MICROS;
    var refill := Refill(limit, perSeconds, now - row.refilledAt);
    var (row', outcome) := HitRow(Some(row), limit, perSeconds, now);
    RefillIsNonNegative(limit, perSeconds, now - row.refilledAt);
    var before := Potential(row, limit, perSeconds, now);
    var after := Potential(row'.value, limit, perSeconds, now);
    var earned := bucket.level + limit * (now - bucket.at);
    assert before == Potential(row, limit, perSeconds, bucket.at) + limit * (now - bucket.at) by {
      assert limit * (now - row.refilledAt) == limit * (now - bucket.at) + limit * (bucket.at - row.refilledAt);
    }
    RefillLosesLittle(row, limit, perSeconds, now);
    NotFarBehindArithmetic(
      before, after, outcome.Accepted?, row.tokens + refill >= limit, refill > 0, lead, accepted, unit, limit, earned);
  }

  /** How a hit changes the potential: a refill that is not capped rounds less than a token away. */
  lemma RefillLosesLittle(row: Row, limit: int, perSeconds: int, now: int)
    requires limit >= 1 && perSeconds > 0 && 0 <= row.tokens <= limit - 1 && row.refilledAt <= now
    ensures var unit := perSeconds * MICROS;
            var refill := Refill(limit, perSeconds, now - row.refilledAt);
            var (row', outcome) := HitRow(Some(row), limit, perSeconds, now);
            var before := Potential(row, limit, perSeconds, now);
            var after := Potential(row'.value, limit, perSeconds, now);
            && (outcome.Accepted? && row.tokens + refill >= limit ==> after == (limit - 1) * unit)
            && (outcome.Accepted? && row.tokens + refill < limit && refill > 0 ==> before < after + 2 * unit)
            && (outcome.Accepted? && refill == 0 ==> before == after + unit)
            && (!outcome.Accepted? ==> after == before < unit)
  {
    var unit := perSeconds * MICROS;
    var elapsed := limit * (now - row.refilledAt);
    var refill := FloorDiv(elapsed, unit);
    RefillIsNonNegative(limit, perSeconds, now - row.refilledAt);
    TokensTimesUnit(row.tokens, refill, unit);
    assert limit * (now - now) == 0;
  }

  lemma TokensTimesUnit(tokens: int, refill: int, unit: int)
    ensures (refill + 1) * unit == refill * unit + unit
    ensures (tokens + refill - 1) * unit == tokens * unit + refill * unit - unit
    ensures (tokens - 1) * unit == tokens * unit - unit
    ensures 0 * unit == 0
  {
  }

  lemma NotFarBehindArithmetic(
      before: int, after: int, spends: bool, capped: bool, refills: bool,
      lead: int, accepted: nat, unit: int, limit: int, earned: int)
    requires unit > 0 && limit >= 1 && accepted >= 1
    requires lead <= Roundings(accepted) && lead * unit + earned <= before + Roundings(accepted) * unit
    requires spends && capped ==> after == (limit - 1) * unit
    requires spends && !capped && refills ==> before < after + 2 * unit && accepted >= 2
    requires spends && !capped && !refills ==> before == after + unit
    requires !spends ==> after == before < unit
    ensures var level := Min(limit * unit, earned);
            var ok := level >= unit;
            var lead' := lead + (if ok then 1 else 0) - (if spends then 1 else 0);
            var accepted' := accepted + (if spends then 1 else 0);
            && lead' <= Roundings(accepted')
            && lead' * unit + (if ok then level - unit else level) <= after + Roundings(accepted') * unit
  {
    var slack := Roundings(accepted);
    assert (limit - 1) * unit == limit * unit - unit;
    assert (lead + 1) * unit == lead * unit + unit;
    assert (lead - 1) * unit == lead * unit - unit;
    assert (slack + 1) * unit == slack * unit + unit;
    MulMonotone(lead, slack, unit);
    MulMonotone(1, limit, unit);
    MulMonotone(0, slack, unit);
    assert lead >= slack ==> lead * unit >= slack * unit by {
      if lead >= slack { MulMonotone(slack, lead, unit); }
    }
  }

  lemma {:induction false} NotFarBehindRun(
      row: Row, bucket: Bucket, lead: int, accepted: nat, limit: int, perSeconds: int, times: seq<int>)
    requires limit >= 1 && perSeconds > 0
    requires NotFarBehind(row, bucket, lead, accepted, limit, perSeconds)
    requires NonDecreasing(times) && (times != [] ==> bucket.at <= times[0])
    ensures var total := accepted + AcceptedRow(Some(row), limit, perSeconds, times);
            accepted + lead + AcceptedIdeal(Some(bucket), limit, perSeconds, times) <= total + Roundings(total)
    decreases |times|
  {
    if times != [] {
      var (row', outcome) := HitRow(Some(row), limit, perSeconds, times[0]);
      var (bucket', ok) := IdealHit(Some(bucket), limit, perSeconds, times[0]);
      NotFarBehindStep(row, bucket, lead, accepted, limit, perSeconds, times[0]);
      var spent := if outcome.Accepted? then 1 else 0;
      NotFarBehindRun(row'.value, bucket'.value, lead + (if ok then 1 else 0) - spent, accepted + spent,
                      limit, perSeconds, times[1..]);
    }
  }

  /**
   * With a clock that never goes back, on every prefix of the hits on a fresh key the ideal bucket has accepted no more
   * than twice what the limiter has, less two once that is more than one hit.
   */
  lemma AtLeastHalfOfIdeal(limit: int, perSeconds: int, times: seq<int>, n: nat)
    requires limit >= 1 && perSeconds > 0 && NonDecreasing(times) && n <= |times|
    ensures var accepted := AcceptedRow(None, limit, perSeconds, times[..n]);
            var ideal := AcceptedIdeal(None, limit, perSeconds, times[..n]);
            ideal <= if accepted <= 1 then accepted else 2 * accepted - 2
  {
    if n > 0 {
      var unit := perSeconds * MICROS;
      MulMonotone(1, limit, unit);
      assert (limit - 1) * unit == limit * unit - unit;
      var (row, bucket) := (Row(limit - 1, times[0]), Bucket(limit * unit - unit, times[0]));
      NotFarBehindRun(row, bucket, 0, 1, limit, perSeconds, times[..n][1..]);
    }
  }

  /**
   * Rounds of two hits with a limit of 2: the first comes just before two tokens are earned, so that the refill rounds
   * nearly one of them away; the second comes as soon as the ideal bucket has it.
   */
  lemma {:induction false} Rounds(at: int, late: nat, rounds: nat, perSeconds: int) returns (times: seq<int>)
    requires perSeconds > 0 && 2 * (late + rounds) < perSeconds * MICROS
    ensures NonDecreasing(times) && forall i | 0 <= i < |times| :: at <= times[i]
    ensures AcceptedRow(Some(Row(0, at - late)), 2, perSeconds, times) == rounds
    ensures AcceptedIdeal(Some(Bucket(0, at)), 2, perSeconds, times) == 2 * rounds
    decreases rounds
  {
    hide HitRow, IdealHit;
    var unit := perSeconds * MICROS;
    if rounds == 0 {
      times := [];
    } else {
      var rest := Rounds(at + unit, late + 1, rounds - 1, perSeconds);
      times := [at + unit - (late + 1), at + unit] + rest;
      OneRound(at, late, perSeconds, rest);
    }
  }

  lemma OneRound(at: int, late: nat, perSeconds: int, rest: seq<int>)
    requires perSeconds > 0 && 2 * (late + 1) < perSeconds * MICROS
    ensures var next := at + perSeconds * MICROS;
            var times := [next - (late + 1), next] + rest;
            && AcceptedRow(Some(Row(0, at - late)), 2, perSeconds, times)
               == 1 + AcceptedRow(Some(Row(0, next - (late + 1))), 2, perSeconds, rest)
            && AcceptedIdeal(Some(Bucket(0, at)), 2, perSeconds, times)
               == 2 + AcceptedIdeal(Some(Bucket(0, next)), 2, perSeconds, rest)
  {
    var unit := perSeconds * MICROS;
    var (first, second) := (at + unit - (late + 1), at + unit);
    var times := [first, second] + rest;
    QuotientIs(1, 2 * (first - (at - late)), unit);
    QuotientIs(0, 2 * (second - first), unit);
    assert times[1..][1..] == rest && times[1..][0] == second;
  }

  /** The bound is exact: for every number of accepted hits from two on, the ideal bucket can accept all it allows. */
  lemma HalfOfIdealIsReached(accepted: nat) returns (limit: int, perSeconds: int, times: seq<int>)
    requires accepted >= 2
    ensures limit >= 1 && perSeconds > 0 && NonDecreasing(times)
    ensures AcceptedRow(None, limit, perSeconds, times) == accepted
    ensures AcceptedIdeal(None, limit, perSeconds, times) == 2 * accepted - 2
  {
    limit, perSeconds := 2, accepted;
    var rest := Rounds(0, 0, accepted - 2, perSeconds);
    times := [0, 0] + rest;
    assert Refill(2, perSeconds, 0) == 0;
    assert times[1..][1..] == rest && times[1..][0] == 0;
  }

  // ---------- hits that always pass, and the window bound reached ----------

  /**
   * Time that has not yet earned a token is kept: hits too early to earn one spend the tokens there are, are turned
   * away after that, and leave the time from which the next token is counted alone.
   */
  lemma {:induction false} UnearnedTimeIsKept(row: Row, limit: int, perSeconds: int, times: seq<int>)
    requires limit >= 1 && perSeconds > 0 && 0 <= row.tokens <= limit - 1
    requires forall i | 0 <= i < |times| :: 0 <= limit * (times[i] - row.refilledAt) < perSeconds * MICROS
    ensures var spent := Min(row.tokens, |times|);
            && RunRow(Some(row), limit, perSeconds, times) == Some(row.(tokens := row.tokens - spent))
            && AcceptedRow(Some(row), limit, perSeconds, times) == spent
    decreases |times|
  {
    if times != [] {
      NothingEarned(limit, perSeconds, times[0] - row.refilledAt);
      var next := if row.tokens > 0 then row.(tokens := row.tokens - 1) else row;
      UnearnedTimeIsKept(next, limit, perSeconds, times[1..]);
    }
  }

  lemma NothingEarned(limit: int, perSeconds: int, elapsed: int)
    requires perSeconds > 0 && 0 <= limit * elapsed < perSeconds * MICROS
    ensures Refill(limit, perSeconds, elapsed) == 0
  {
  }

  /** Consecutive hits at least perSeconds / limit apart, the first counted from `last`. */
  predicate Spaced(last: int, limit: int, perSeconds: int, times: seq<int>)
    decreases |times|
  {
    times == []
    || (limit * (times[0] - last) >= perSeconds * MICROS && Spaced(times[0], limit, perSeconds, times[1..]))
  }

  lemma {:induction false} SpacedHitsPassFrom(row: Row, limit: int, perSeconds: int, times: seq<int>)
    requires limit >= 1 && perSeconds > 0 && 0 <= row.tokens <= limit - 1
    requires Spaced(row.refilledAt, limit, perSeconds, times)
    ensures AcceptedRow(Some(row), limit, perSeconds, times) == |times|
    decreases |times|
  {
    if times != [] {
      QuotientBound(1, limit * (times[0] - row.refilledAt), perSeconds * MICROS);
      SpacedHitsPassFrom(HitRow(Some(row), limit, perSeconds, times[0]).0.value, limit, perSeconds, times[1..]);
    }
  }

  /** A client that keeps at least perSeconds / limit between its hits is never turned away. */
  lemma SpacedHitsPass(limit: int, perSeconds: int, times: seq<int>)
    requires limit >= 1 && perSeconds > 0
    requires times != [] ==> Spaced(times[0], limit, perSeconds, times[1..])
    ensures AcceptedRow(None, limit, perSeconds, times) == |times|
  {
    if times != [] {
      SpacedHitsPassFrom(Row(limit - 1, times[0]), limit, perSeconds, times[1..]);
    }
  }

  /** `n` hits at the instant `at`. */
  function Burst(at: int, n: nat): (times: seq<int>)
    ensures |times| == n && forall i | 0 <= i < n :: times[i] == at
  {
    seq(n, _ => at)
  }

  lemma {:induction false} BurstPasses(tokens: nat, at: int, limit: int, perSeconds: int, tail: seq<int>)
    requires limit >= 1 && perSeconds > 0 && tokens <= limit - 1
    ensures AcceptedRow(Some(Row(tokens, at)), limit, perSeconds, Burst(at, tokens) + tail)
         == tokens + AcceptedRow(Some(Row(0, at)), limit, perSeconds, tail)
    decreases tokens
  {
    var times := Burst(at, tokens) + tail;
    if tokens == 0 {
      assert times == tail;
    } else {
      assert times[0] == at && times[1..] == Burst(at, tokens - 1) + tail;
      assert Refill(limit, perSeconds, 0) == 0;
      BurstPasses(tokens - 1, at, limit, perSeconds, tail);
    }
  }

  /** An emptied row earns, in a period, a full bucket; a burst at its end spends all of it. */
  lemma PeriodPasses(at: int, limit: int, perSeconds: int, tail: seq<int>)
    requires limit >= 1 && perSeconds > 0
    ensures var next := at + perSeconds * MICROS;
            AcceptedRow(Some(Row(0, at)), limit, perSeconds, Burst(next, limit) + tail)
            == limit + AcceptedRow(Some(Row(0, next)), limit, perSeconds, tail)
  {
    var next := at + perSeconds * MICROS;
    var times := Burst(next, limit) + tail;
    QuotientIs(limit, limit * (perSeconds * MICROS), perSeconds * MICROS);
    assert times[0] == next && times[1..] == Burst(next, limit - 1) + tail;
    BurstPasses(limit - 1, next, limit, perSeconds, tail);
  }

  /** A last burst spends what a window shorter than a period earns. */
  lemma LastBurstPasses(at: int, limit: int, perSeconds: int, length: nat) returns (times: seq<int>)
    requires limit >= 1 && perSeconds > 0 && length < perSeconds * MICROS
    ensures forall i | 0 <= i < |times| :: at <= times[i] <= at + length
    ensures |times| == (limit * length) / (perSeconds * MICROS)
    ensures AcceptedRow(Some(Row(0, at)), limit, perSeconds, times) == |times|
  {
    var unit := perSeconds * MICROS;
    var earned := Refill(limit, perSeconds, length);
    RefillIsNonNegative(limit, perSeconds, length);
    MulMonotone(length, unit, limit);
    QuotientIs(limit, limit * unit, unit);
    EarnedAtMost(limit * length, limit * unit, unit);
    times := Burst(at + length, earned);
    if earned > 0 {
      assert times[0] == at + length && times[1..] == Burst(at + length, earned - 1) + [];
      BurstPasses(earned - 1, at + length, limit, perSeconds, []);
    }
  }

  lemma EarnedAtMost(a: int, b: int, unit: int)
    requires unit > 0 && a <= b
    ensures a / unit <= b / unit
  {
    QuotientBound(FloorDiv(a, unit), b, unit);
  }

  /** From an emptied row, hits that spend all that a window earns, one period after the other. */
  lemma {:induction false} EarnedHits(at: int, limit: int, perSeconds: int, length: nat) returns (times: seq<int>)
    requires limit >= 1 && perSeconds > 0
    ensures forall i | 0 <= i < |times| :: at <= times[i] <= at + length
    ensures |times| == (limit * length) / (perSeconds * MICROS)
    ensures AcceptedRow(Some(Row(0, at)), limit, perSeconds, times) == |times|
    decreases length
  {
    var unit := perSeconds * MICROS;
    if length < unit {
      times := LastBurstPasses(at, limit, perSeconds, length);
    } else {
      var rest := EarnedHits(at + unit, limit, perSeconds, length - unit);
      times := Burst(at + unit, limit) + rest;
      PeriodPasses(at, limit, perSeconds, rest);
      OnePeriodMore(limit, unit, length);
    }
  }

  lemma OnePeriodMore(limit: int, unit: int, length: int)
    requires unit > 0
    ensures (limit * length) / unit == limit + (limit * (length - unit)) / unit
  {
    var q := FloorDiv(limit * (length - unit), unit);
    assert limit * length == limit * (length - unit) + limit * unit;
    assert (limit + q) * unit == limit * unit + q * unit;
    assert (limit + q + 1) * unit == limit * unit + (q + 1) * unit;
    QuotientIs(limit + q, limit * length, unit);
  }

  /** The window bound is reached, for every limit, period and length: a full burst, then all that is earned. */
  lemma WindowBoundIsReached(limit: int, perSeconds: int, from: int, length: nat) returns (times: seq<int>)
    requires limit >= 1 && perSeconds > 0
    ensures forall i | 0 <= i < |times| :: from <= times[i] <= from + length
    ensures |times| == limit + (limit * length) / (perSeconds * 1_000_000)
    ensures AcceptedRow(None, limit, perSeconds, times) == |times|
  {
    var earned := EarnedHits(from, limit, perSeconds, length);
    times := Burst(from, limit) + earned;
    assert times[0] == from && times[1..] == Burst(from, limit - 1) + earned;
    BurstPasses(limit - 1, from, limit, perSeconds, earned);
  }

  lemma QuotientIs(q: int, a: int, b: int)
    requires b > 0 && q * b <= a < (q + 1) * b
    ensures q == a / b
  {
    QuotientBound(q, a, b);
    var over := FloorDiv(a, b) - q - 1;
    assert over * b < 0 by {
      assert over * b == FloorDiv(a, b) * b - (q + 1) * b;
    }
    assert over >= 0 ==> 0 <= over * b;
  }
}
