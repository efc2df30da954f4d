/** The rate-limiter manager: per-period key composition and the
    remaining / tooManyAttempts / attempts / hit / clear operations on one
    (period, identity) pair, each delegating to the counter store. */
module RateLimiterManager {
  import Counters
  import Settings

  /** The counter-key prefix of each known period. */
  const Limiters: map<string, string> :=
    map["minute" := "throttle-minute", "hour" := "throttle-hour", "day" := "throttle-day"]

  /** The maximum used by `remaining` for a period with no configured limit. */
  const DefaultMaxAttempts: int := 60

  /** The decay `hit` applies when its caller passes none. */
  const DefaultHitDecaySeconds: int := 60

  /** The counter key of (period, identity): the period's prefix (the minute
      prefix for a period it does not know), a colon, a `period:` qualifier
      for every period but `minute`, then the identity. */
  function GetLimiterKey(period: string, key: string): (r: string)
    ensures period == "minute" ==> r == "throttle-minute:" + key
    ensures period == "hour" ==> r == "throttle-hour:hour:" + key
    ensures period == "day" ==> r == "throttle-day:day:" + key
    ensures period !in Limiters ==> r == "throttle-minute:" + period + ":" + key
  {
    var prefix := if period in Limiters then Limiters[period] else Limiters["minute"];
    var periodPrefix := if period == "minute" then "" else period + ":";
    prefix + ":" + periodPrefix + key
  }

  /** The configured maximum of a period, 60 when none is configured. */
  function MaxAttempts(limits: Settings.Limits, period: string): (m: int)
    ensures period in limits ==> m == limits[period]
    ensures period !in limits ==> m == DefaultMaxAttempts
  {
    Settings.LimitOr(limits, period, DefaultMaxAttempts)
  }

  /** Attempts left in the current window: the configured maximum less the
      live count, clamped at 0 once the count reaches the maximum. */
  function Remaining(s: Counters.Store, limits: Settings.Limits, period: string, key: string): (r: int)
    ensures var m := MaxAttempts(limits, period);
      m >= 0 ==> r == if Attempts(s, period, key) >= m then 0 else m - Attempts(s, period, key)
    ensures var m := MaxAttempts(limits, period);
      Counters.Valid(s) && m >= 0 ==> 0 <= r <= m
  {
    var limiterKey := GetLimiterKey(period, key);
    var maxAttempts := MaxAttempts(limits, period);
    if Counters.TooManyAttempts(s, limiterKey, maxAttempts) then 0
    else maxAttempts - Counters.Attempts(s, limiterKey)
  }

  /** Whether the pair's open window already holds `maxAttempts` hits. */
  predicate TooManyAttempts(s: Counters.Store, period: string, key: string, maxAttempts: int)
    ensures TooManyAttempts(s, period, key, maxAttempts) ==> Counters.Live(s, GetLimiterKey(period, key))
    ensures maxAttempts >= 1 && Attempts(s, period, key) >= maxAttempts ==> TooManyAttempts(s, period, key, maxAttempts)
  {
    Counters.TooManyAttempts(s, GetLimiterKey(period, key), maxAttempts)
  }

  /** The live count of the pair; 0 once its window has closed. */
  function Attempts(s: Counters.Store, period: string, key: string): (r: int)
    ensures Counters.Valid(s) ==> r >= 0
    ensures Counters.Valid(s) ==> (r >= 1 <==> Counters.Live(s, GetLimiterKey(period, key)))
  {
    Counters.Attempts(s, GetLimiterKey(period, key))
  }

  /** The per-period decay the manager computes and then does not use. */
  function DecayMinutes(period: string): int
  {
    match period
    case "hour" => 60
    case "day" => 1440
    case _ => 1
  }

  /** Counts one attempt for the pair, with a window of `decaySeconds`
      whatever the period: the period's decay in minutes plays no part. */
  function Hit(s: Counters.Store, period: string, key: string, decaySeconds: int): (r: Counters.Store)
    ensures r.now == s.now
    ensures var k := GetLimiterKey(period, key);
      Counters.Live(s, k) || decaySeconds > 0 ==> Attempts(r, period, key) == Attempts(s, period, key) + 1
    ensures var k := GetLimiterKey(period, key);
      k in r.records && (!Counters.Live(s, k) ==> r.records[k].expiresAt == s.now + decaySeconds)
    ensures forall k :: k != GetLimiterKey(period, key) ==> Counters.SameAt(s, r, k)
  {
    Counters.Hit(s, GetLimiterKey(period, key), decaySeconds)
  }

  /** Forgets the pair's counter and nothing else. */
  function Clear(s: Counters.Store, period: string, key: string): (r: Counters.Store)
    ensures r.now == s.now
    ensures Attempts(r, period, key) == 0
    ensures forall k :: k != GetLimiterKey(period, key) ==> Counters.SameAt(s, r, k)
  {
    Counters.Clear(s, GetLimiterKey(period, key))
  }

  /** `tooManyAttempts` holds exactly when the pair's live count reaches the
      maximum, for every maximum of at least one; for a smaller maximum it
      also needs an open window. */
  lemma TooManyAttemptsIffAtLimit(s: Counters.Store, period: string, key: string, maxAttempts: int)
    ensures maxAttempts >= 1 ==>
      (TooManyAttempts(s, period, key, maxAttempts) <==> Attempts(s, period, key) >= maxAttempts)
    ensures TooManyAttempts(s, period, key, maxAttempts) <==>
      Attempts(s, period, key) >= maxAttempts && Counters.Live(s, GetLimiterKey(period, key))
  {
  }

  /** Known periods and identities never share a counter. */
  lemma LimiterKeyInjective(p1: string, k1: string, p2: string, k2: string)
    requires p1 in Limiters && p2 in Limiters
    requires GetLimiterKey(p1, k1) == GetLimiterKey(p2, k2)
    ensures p1 == p2 && k1 == k2
  {
    var a := GetLimiterKey(p1, k1);
    var b := GetLimiterKey(p2, k2);
    var pre1 := a[..|a| - |k1|];
    var pre2 := b[..|b| - |k2|];
    assert a == pre1 + k1 && b == pre2 + k2;
    assert pre1 == if p1 == "minute" then "throttle-minute:" else if p1 == "hour" then "throttle-hour:hour:" else "throttle-day:day:";
    assert pre2 == if p2 == "minute" then "throttle-minute:" else if p2 == "hour" then "throttle-hour:hour:" else "throttle-day:day:";
    assert a[9] == pre1[9] && b[9] == pre2[9];
    assert p1 == p2;
    assert pre1 == pre2;
    assert k1 == a[|pre1|..] && k2 == b[|pre2|..];
  }

  /** A period the manager does not know shares the minute namespace: its
      counter is the minute counter of the identity `period:key`. */
  lemma UnknownPeriodAliasesMinute(period: string, key: string)
    requires period !in Limiters
    ensures GetLimiterKey(period, key) == GetLimiterKey("minute", period + ":" + key)
  {
    assert "throttle-minute:" + period + ":" + key == "throttle-minute:" + (period + ":" + key);
  }

  /** Hitting one (known period, identity) pair leaves the count of every
      other such pair unchanged. */
  lemma HitIsolated(s: Counters.Store, p: string, k: string, q: string, k': string, decaySeconds: int)
    requires p in Limiters && q in Limiters && (p, k) != (q, k')
    ensures Attempts(Hit(s, p, k, decaySeconds), q, k') == Attempts(s, q, k')
  {
    if GetLimiterKey(p, k) == GetLimiterKey(q, k') {
      LimiterKeyInjective(p, k, q, k');
    }
    Counters.SameAtSameAttempts(s, Hit(s, p, k, decaySeconds), GetLimiterKey(q, k'));
  }

  /** Clearing is idempotent, and clearing one (known period, identity) pair
      leaves every other such pair's count unchanged. */
  lemma ClearIdempotentAndIsolated(s: Counters.Store, p: string, k: string, q: string, k': string)
    requires p in Limiters && q in Limiters && (p, k) != (q, k')
    ensures Clear(Clear(s, p, k), p, k) == Clear(s, p, k)
    ensures Attempts(Clear(s, p, k), q, k') == Attempts(s, q, k')
  {
    Counters.ClearIdempotent(s, GetLimiterKey(p, k));
    if GetLimiterKey(p, k) == GetLimiterKey(q, k') {
      LimiterKeyInjective(p, k, q, k');
    }
    Counters.SameAtSameAttempts(s, Clear(s, p, k), GetLimiterKey(q, k'));
  }

  /** As written, a first `hit` of the day counter with the default decay
      opens a 60-second window, though the period's decay is a full day: a
      minute later the day count is back to 0. */
  lemma HitIgnoresDecayMinutes(s: Counters.Store, key: string)
    requires !Counters.Live(s, GetLimiterKey("day", key))
    ensures DecayMinutes("day") * 60 == 86400
    ensures Attempts(Counters.At(Hit(s, "day", key, DefaultHitDecaySeconds), s.now + 60), "day", key) == 0
  {
  }

  /** `hit` with the window the period's decay in minutes describes. */
  function HitForPeriod(s: Counters.Store, period: string, key: string): (r: Counters.Store)
    ensures r.now == s.now
    ensures Attempts(r, period, key) == Attempts(s, period, key) + 1
    ensures var k := GetLimiterKey(period, key);
      k in r.records && (!Counters.Live(s, k) ==> r.records[k].expiresAt == s.now + DecayMinutes(period) * 60)
    ensures forall k :: k != GetLimiterKey(period, key) ==> Counters.SameAt(s, r, k)
  {
    Hit(s, period, key, DecayMinutes(period) * 60)
  }

  /** With the period's own decay, a first hit is still counted at every
      instant of that period's window and forgotten once it has passed. */
  lemma HitForPeriodSpansWindow(s: Counters.Store, period: string, key: string, t: int)
    requires !Counters.Live(s, GetLimiterKey(period, key)) && s.now <= t
    ensures var r := HitForPeriod(s, period, key);
      Attempts(Counters.At(r, t), period, key) == if t < s.now + DecayMinutes(period) * 60 then 1 else 0
  {
  }
}
