/** The multi-period admission middleware: for one identity it checks the
    minute, hour and day counters in that order, denies at the first one
    whose window is full (touching no counter), and otherwise hits all three
    and reports the quota left in each period. */
module MultiPeriodRateLimiter {
  import opened Wrappers
  import Counters
  import Settings
  import Text
  import RateLimiterManager

  datatype Period = Minute | Hour | Day
  {
    /** The period's name, as the configuration and the messages spell it. */
    function Name(): string
    {
      match this
      case Minute => "minute"
      case Hour => "hour"
      case Day => "day"
    }

    /** The period's counter-key prefix. */
    function LimiterName(): string
    {
      match this
      case Minute => "throttle-minute"
      case Hour => "throttle-hour"
      case Day => "throttle-day"
    }

    /** The period's position in the check order. */
    function Index(): nat
    {
      match this
      case Minute => 0
      case Hour => 1
      case Day => 2
    }
  }

  /** The order in which the periods are checked. */
  const Order: seq<Period> := [Minute, Hour, Day]

  /** One value per period. */
  datatype PerPeriod<T> = PerPeriod(minute: T, hour: T, day: T)
  {
    function Get(p: Period): T
    {
      match p
      case Minute => minute
      case Hour => hour
      case Day => day
    }
  }

  /** The limits used when the configuration names none. */
  const DefaultLimits: PerPeriod<int> := PerPeriod(60, 1000, 10000)

  /** The windows the middleware gives its counters as written: it hits
      every counter without a decay, so each gets the store's default. */
  const AsWrittenTtls: PerPeriod<int> :=
    PerPeriod(Counters.DefaultDecaySeconds, Counters.DefaultDecaySeconds, Counters.DefaultDecaySeconds)

  /** Windows as long as the periods they count. */
  const PeriodTtls: PerPeriod<int> := PerPeriod(60, 3600, 86400)

  /** The identity part of each period's key: the identity itself for the
      minute, qualified by `hour:` or `day:` for the others. */
  function UserKey(p: Period, id: string): (u: string)
    ensures p == Minute ==> u == id
    ensures p == Hour ==> u == "hour:" + id
    ensures p == Day ==> u == "day:" + id
  {
    match p
    case Minute => id
    case Hour => "hour:" + id
    case Day => "day:" + id
  }

  /** The store key of one period's counter for one identity: the period's
      prefix, a colon, then the period-qualified identity. */
  function CounterKey(p: Period, id: string): (k: string)
    ensures p == Minute ==> k == "throttle-minute:" + id
    ensures p == Hour ==> k == "throttle-hour:hour:" + id
    ensures p == Day ==> k == "throttle-day:day:" + id
  {
    match p
    case Minute => p.LimiterName() + ":" + UserKey(p, id)
    case Hour =>
      assert p.LimiterName() + ":" + UserKey(p, id) == "throttle-hour:hour:" + id by {
        assert UserKey(p, id) == "hour:" + id;
      }
      p.LimiterName() + ":" + UserKey(p, id)
    case Day =>
      assert p.LimiterName() + ":" + UserKey(p, id) == "throttle-day:day:" + id by {
        assert UserKey(p, id) == "day:" + id;
      }
      p.LimiterName() + ":" + UserKey(p, id)
  }

  /** One of the three counters of `id`. */
  predicate IsCounterOf(key: string, id: string)
  {
    key == CounterKey(Minute, id) || key == CounterKey(Hour, id) || key == CounterKey(Day, id)
  }

  /** The limit of each period: the configured one, else the default. */
  function ConfiguredLimits(limits: Settings.Limits): (lim: PerPeriod<int>)
    ensures forall p: Period :: p.Name() in limits ==> lim.Get(p) == limits[p.Name()]
    ensures forall p: Period :: p.Name() !in limits ==> lim.Get(p) == DefaultLimits.Get(p)
  {
    PerPeriod(
      Settings.LimitOr(limits, "minute", DefaultLimits.minute),
      Settings.LimitOr(limits, "hour", DefaultLimits.hour),
      Settings.LimitOr(limits, "day", DefaultLimits.day))
  }

  /** Period `p` has no room left for `id`. */
  predicate Violates(s: Counters.Store, lim: PerPeriod<int>, id: string, p: Period)
  {
    Counters.TooManyAttempts(s, CounterKey(p, id), lim.Get(p))
  }

  /** The middleware's keys are the manager's keys for the same period. */
  lemma CounterKeyIsManagerKey(p: Period, id: string)
    ensures CounterKey(p, id) == RateLimiterManager.GetLimiterKey(p.Name(), id)
  {
    match p
    case Minute =>
    case Hour =>
      assert "throttle-hour" + ":" + ("hour:" + id) == "throttle-hour:hour:" + id;
    case Day =>
      assert "throttle-day" + ":" + ("day:" + id) == "throttle-day:day:" + id;
  }

  /** No two (period, identity) pairs share a counter; in particular the
      three counters of one identity are pairwise distinct. */
  lemma CounterKeyInjective(p: Period, id: string, q: Period, id': string)
    requires CounterKey(p, id) == CounterKey(q, id')
    ensures p == q && id == id'
  {
    CounterKeyIsManagerKey(p, id);
    CounterKeyIsManagerKey(q, id');
    RateLimiterManager.LimiterKeyInjective(p.Name(), id, q.Name(), id');
  }

  /** Hitting one period's counter never changes another period's count for
      the same identity. */
  lemma HitIsolatesPeriods(s: Counters.Store, id: string, p: Period, q: Period, decaySeconds: int)
    requires p != q
    ensures Counters.Attempts(Counters.Hit(s, CounterKey(p, id), decaySeconds), CounterKey(q, id))
         == Counters.Attempts(s, CounterKey(q, id))
  {
    if CounterKey(p, id) == CounterKey(q, id) {
      CounterKeyInjective(p, id, q, id);
    }
    Counters.SameAtSameAttempts(s, Counters.Hit(s, CounterKey(p, id), decaySeconds), CounterKey(q, id));
  }

  /** The quota left under `maxAttempts`: 0 once the count reaches it, else
      the difference. */
  function GetRemainingAttempts(s: Counters.Store, key: string, maxAttempts: int): (r: int)
    ensures maxAttempts >= 0 ==>
      r == if Counters.Attempts(s, key) >= maxAttempts then 0 else maxAttempts - Counters.Attempts(s, key)
    ensures Counters.Attempts(s, key) >= 0 && maxAttempts >= 0 ==> 0 <= r <= maxAttempts
  {
    if Counters.TooManyAttempts(s, key, maxAttempts) then 0
    else maxAttempts - Counters.Attempts(s, key)
  }

  /** The answers of `tooManyAttempts` for the three counters of `id`, in
      check order. */
  function Checks(s: Counters.Store, lim: PerPeriod<int>, id: string): (full: seq<bool>)
    ensures |full| == |Order|
    ensures forall q: Period :: full[q.Index()] == Violates(s, lim, id, q)
  {
    [Violates(s, lim, id, Minute), Violates(s, lim, id, Hour), Violates(s, lim, id, Day)]
  }

  /** The check loop: the position of the first full counter among
      `full[from..]`, examining them in order and stopping at the first. */
  function FirstViolation(full: seq<bool>, from: nat): (r: Option<nat>)
    requires from <= |full|
    ensures r.Some? ==> from <= r.value < |full| && full[r.value]
    ensures r.Some? ==> forall j :: from <= j < r.value ==> !full[j]
    ensures r.None? ==> forall j :: from <= j < |full| ==> !full[j]
    decreases |full| - from
  {
    if from == |full| then None
    else if full[from] then Some(from)
    else FirstViolation(full, from + 1)
  }

  /** Counts the request in all three periods, minute first. */
  function HitAll(s: Counters.Store, id: string, ttls: PerPeriod<int>): (r: Counters.Store)
    ensures r.now == s.now
    ensures forall p: Period :: (CounterKey(p, id) in r.records &&
      r.records[CounterKey(p, id)].count == Counters.Attempts(s, CounterKey(p, id)) + 1)
    ensures forall p: Period :: Counters.Live(s, CounterKey(p, id)) ==>
      r.records[CounterKey(p, id)].expiresAt == s.records[CounterKey(p, id)].expiresAt
    ensures forall p: Period :: !Counters.Live(s, CounterKey(p, id)) ==>
      r.records[CounterKey(p, id)].expiresAt == s.now + ttls.Get(p)
    ensures forall k :: !IsCounterOf(k, id) ==> Counters.SameAt(s, r, k)
    ensures Counters.Valid(s) ==> Counters.Valid(r)
  {
    CounterKeyDistinct(id);
    var km, kh, kd := CounterKey(Minute, id), CounterKey(Hour, id), CounterKey(Day, id);
    var s1 := Counters.Hit(s, km, ttls.minute);
    var s2 := Counters.Hit(s1, kh, ttls.hour);
    var r := Counters.Hit(s2, kd, ttls.day);
    assert Counters.SameAt(s1, s2, km) && Counters.SameAt(s2, r, km) && Counters.SameAt(s2, r, kh);
    assert Counters.SameAt(s, s1, kh) && Counters.SameAt(s, s1, kd) && Counters.SameAt(s1, s2, kd);
    HitAllCounts(s, id, ttls, s1, s2, r);
    r
  }

  /** The three hits of `HitAll`, period by period: each counter goes up by
      one, keeping a live window and otherwise opening one of its TTL. */
  lemma HitAllCounts(s: Counters.Store, id: string, ttls: PerPeriod<int>, s1: Counters.Store, s2: Counters.Store, r: Counters.Store)
    requires s1 == Counters.Hit(s, CounterKey(Minute, id), ttls.minute)
    requires s2 == Counters.Hit(s1, CounterKey(Hour, id), ttls.hour)
    requires r == Counters.Hit(s2, CounterKey(Day, id), ttls.day)
    ensures forall p: Period :: (CounterKey(p, id) in r.records &&
      r.records[CounterKey(p, id)].count == Counters.Attempts(s, CounterKey(p, id)) + 1)
    ensures forall p: Period :: Counters.Live(s, CounterKey(p, id)) ==>
      r.records[CounterKey(p, id)].expiresAt == s.records[CounterKey(p, id)].expiresAt
    ensures forall p: Period :: !Counters.Live(s, CounterKey(p, id)) ==>
      r.records[CounterKey(p, id)].expiresAt == s.now + ttls.Get(p)
  {
    forall p: Period
      ensures CounterKey(p, id) in r.records
      ensures r.records[CounterKey(p, id)].count == Counters.Attempts(s, CounterKey(p, id)) + 1
      ensures Counters.Live(s, CounterKey(p, id)) ==>
        r.records[CounterKey(p, id)].expiresAt == s.records[CounterKey(p, id)].expiresAt
      ensures !Counters.Live(s, CounterKey(p, id)) ==>
        r.records[CounterKey(p, id)].expiresAt == s.now + ttls.Get(p)
    {
      CounterKeyDistinct(id);
      match p
      case Minute =>
        assert Counters.SameAt(s1, s2, CounterKey(Minute, id)) && Counters.SameAt(s2, r, CounterKey(Minute, id));
      case Hour =>
        assert Counters.SameAt(s2, r, CounterKey(Hour, id));
        Counters.SameAtSameAttempts(s, s1, CounterKey(Hour, id));
      case Day =>
        assert Counters.SameAt(s, s1, CounterKey(Day, id)) && Counters.SameAt(s1, s2, CounterKey(Day, id));
        Counters.SameAtSameAttempts(s, s1, CounterKey(Day, id));
        Counters.SameAtSameAttempts(s1, s2, CounterKey(Day, id));
    }
  }

  lemma CounterKeyDistinct(id: string)
    ensures CounterKey(Minute, id) != CounterKey(Hour, id)
    ensures CounterKey(Minute, id) != CounterKey(Day, id)
    ensures CounterKey(Hour, id) != CounterKey(Day, id)
  {
    if CounterKey(Minute, id) == CounterKey(Hour, id) { CounterKeyInjective(Minute, id, Hour, id); }
    if CounterKey(Minute, id) == CounterKey(Day, id) { CounterKeyInjective(Minute, id, Day, id); }
    if CounterKey(Hour, id) == CounterKey(Day, id) { CounterKeyInjective(Hour, id, Day, id); }
  }

  datatype TimeUnit = Seconds | Minutes

  /** The wait a denial message states: an amount and its unit. */
  datatype Delay = Delay(amount: int, unit: TimeUnit)
  {
    function InSeconds(): int
    {
      match unit
      case Seconds => amount
      case Minutes => amount * 60
    }
  }

  /** Waits over a minute are stated in whole minutes, rounded up; shorter
      ones in seconds.  The stated wait never falls short of the real one
      and overstates it by less than a minute. */
  function RetryDelay(seconds: int): (d: Delay)
    ensures seconds <= 60 ==> d == Delay(seconds, Seconds)
    ensures seconds > 60 ==> d.unit == Minutes && d.amount >= 2
    ensures seconds <= d.InSeconds() < seconds + 60
  {
    if seconds > 60 then Delay((seconds + 59) / 60, Minutes) else Delay(seconds, Seconds)
  }

  const MessageHead: string := "Too many attempts. Please try again in "

  /** The human-readable denial text: the wait, its unit, then the period. */
  function RetryMessage(p: Period, d: Delay): (m: string)
    ensures MessageHead <= m
    ensures |m| > |MessageHead| + |p.Name()| + 1 && m[|m| - |p.Name()| - 2..] == " " + p.Name() + "."
  {
    MessageHead + WaitText(d) + (" " + p.Name() + ".")
  }

  /** The wait as the message spells it, such as "2 minutes". */
  function WaitText(d: Delay): string
  {
    Text.IntToString(d.amount) + UnitText(d.unit)
  }

  function UnitText(u: TimeUnit): (t: string)
    ensures |t| == 8
  {
    match u
    case Seconds => " seconds"
    case Minutes => " minutes"
  }

  /** The message states the wait exactly: two waits for the same period
      give the same message only if they are the same wait. */
  lemma RetryMessageDeterminesDelay(p: Period, d1: Delay, d2: Delay)
    requires RetryMessage(p, d1) == RetryMessage(p, d2)
    ensures d1 == d2
  {
    Text.SameFrame(MessageHead, WaitText(d1), WaitText(d2), " " + p.Name() + ".");
    Text.SplitAtSuffix(Text.IntToString(d1.amount), UnitText(d1.unit), Text.IntToString(d2.amount), UnitText(d2.unit));
    Text.IntToStringInjective(d1.amount, d2.amount);
  }

  /** The middleware's verdict on one request: allowed, with each period's
      limit and remaining quota, or denied on a period, with the seconds
      until that period's window closes and the instant it closes. */
  datatype Decision =
    | Allowed(limits: PerPeriod<int>, remaining: PerPeriod<int>)
    | Denied(period: Period, retryAfter: int, resetAt: int)

  datatype Outcome = Outcome(decision: Decision, store: Counters.Store)

  /** The refusal sent back for a denial. */
  datatype Rejection = Rejection(status: int, retryAfter: int, reset: int, message: string)

  const TooManyRequests: int := 429

  /** The refusal for period `p` whose window closes in `seconds`: status
      429, retry after that many seconds, reset at that instant, and a
      message that opens with "Too many attempts" and states the wait in
      the unit `RetryDelay` picks. */
  function BuildTooManyAttemptsResponse(p: Period, seconds: int, now: int): (r: Rejection)
    ensures r.status == 429 && r.retryAfter == seconds && r.reset == now + seconds
    ensures "Too many attempts" <= r.message
    ensures r.message[|r.message| - |p.Name()| - 2..] == " " + p.Name() + "."
    ensures r.message == RetryMessage(p, RetryDelay(seconds))
  {
    assert "Too many attempts" == MessageHead[..17];
    Rejection(TooManyRequests, seconds, now + seconds, RetryMessage(p, RetryDelay(seconds)))
  }

  /** A wait of two minutes is stated in minutes, not as 120 seconds. */
  lemma TwoMinuteWaitInMinutes(p: Period, now: int)
    ensures BuildTooManyAttemptsResponse(p, 120, now).message == MessageHead + "2 minutes" + (" " + p.Name() + ".")
  {
    assert RetryDelay(120) == Delay(2, Minutes);
    assert Text.IntToString(2) == "2";
    assert WaitText(Delay(2, Minutes)) == "2 minutes";
  }

  /** A wait of one minute or less is stated in seconds. */
  lemma SixtySecondWaitInSeconds(p: Period, now: int)
    ensures BuildTooManyAttemptsResponse(p, 60, now).message == MessageHead + "60 seconds" + (" " + p.Name() + ".")
  {
    assert RetryDelay(60) == Delay(60, Seconds);
    assert Text.Decimal(60) == Text.Decimal(6) + [Text.DigitChar(0)] == "60";
    assert Text.IntToString(60) == "60";
    assert WaitText(Delay(60, Seconds)) == "60 seconds";
  }

  /** The refusal a denial decision is answered with. */
  function Reject(d: Decision, now: int): Rejection
    requires d.Denied?
  {
    BuildTooManyAttemptsResponse(d.period, d.retryAfter, now)
  }

  /** The quota report of an allowed request, read after its hits: on a
      valid store each period's figure lies between 0 and its limit. */
  function RemainingAll(s: Counters.Store, id: string, lim: PerPeriod<int>): (r: PerPeriod<int>)
    ensures forall p: Period :: r.Get(p) == GetRemainingAttempts(s, CounterKey(p, id), lim.Get(p))
    ensures Counters.Valid(s) ==> forall p: Period :: lim.Get(p) >= 0 ==> 0 <= r.Get(p) <= lim.Get(p)
  {
    PerPeriod(
      GetRemainingAttempts(s, CounterKey(Minute, id), lim.minute),
      GetRemainingAttempts(s, CounterKey(Hour, id), lim.hour),
      GetRemainingAttempts(s, CounterKey(Day, id), lim.day))
  }

  /** The middleware on one request from `id`, with the counters' windows
      as a parameter (`AsWrittenTtls` is what the middleware uses).  A
      request is denied exactly when some period has no room left, and a
      denial leaves the store exactly as it was. */
  function Handle(limits: Settings.Limits, s: Counters.Store, id: string, ttls: PerPeriod<int>): (r: Outcome)
    ensures r.decision.Denied? <==> exists p: Period :: Violates(s, ConfiguredLimits(limits), id, p)
    ensures r.decision.Denied? ==> r.store == s
    ensures r.decision.Allowed? ==> r.store == HitAll(s, id, ttls) && r.decision.limits == ConfiguredLimits(limits)
  {
    var lim := ConfiguredLimits(limits);
    var full := Checks(s, lim, id);
    match FirstViolation(full, 0)
    case Some(i) =>
      var p := Order[i];
      assert full[i] == Violates(s, lim, id, p);
      var seconds := Counters.AvailableIn(s, CounterKey(p, id));
      Outcome(Denied(p, seconds, s.now + seconds), s)
    case None =>
      assert forall q: Period :: !full[q.Index()];
      var s' := HitAll(s, id, ttls);
      Outcome(Allowed(lim, RemainingAll(s', id, lim)), s')
  }

  /** With room left in every period the request is allowed: all three
      counters are hit and the report is read from the hit store. */
  lemma RoomAllows(limits: Settings.Limits, s: Counters.Store, id: string, ttls: PerPeriod<int>)
    requires forall p: Period :: !Violates(s, ConfiguredLimits(limits), id, p)
    ensures var lim := ConfiguredLimits(limits);
      var s' := HitAll(s, id, ttls);
      Handle(limits, s, id, ttls) == Outcome(Allowed(lim, RemainingAll(s', id, lim)), s')
  {
  }

  /** A denial names the first period, in the order minute, hour, day, with
      no room left; the decision does not depend on the periods after it.
      It tells the client to retry when that period's window closes. */
  lemma DenialNamesFirstViolation(limits: Settings.Limits, s: Counters.Store, id: string, ttls: PerPeriod<int>)
    ensures var r := Handle(limits, s, id, ttls);
      var lim := ConfiguredLimits(limits);
      r.decision.Denied? ==>
        && Violates(s, lim, id, r.decision.period)
        && (forall q: Period :: q.Index() < r.decision.period.Index() ==> !Violates(s, lim, id, q))
        && r.decision.retryAfter == Counters.AvailableIn(s, CounterKey(r.decision.period, id))
        && r.decision.retryAfter > 0
        && r.decision.resetAt == s.now + r.decision.retryAfter
  {
    var lim := ConfiguredLimits(limits);
    var v := FirstViolation(Checks(s, lim, id), 0);
    if v.Some? {
      assert forall q: Period :: q == Order[q.Index()];
    }
  }

  /** What one period's report says after an allowed request that found
      `n` live hits on its counter. */
  lemma RemainingAfterHit(s: Counters.Store, id: string, ttls: PerPeriod<int>, lim: PerPeriod<int>, p: Period)
    requires !Violates(s, lim, id, p)
    ensures var n := Counters.Attempts(s, CounterKey(p, id));
      var m := GetRemainingAttempts(HitAll(s, id, ttls), CounterKey(p, id), lim.Get(p));
      && (Counters.Live(s, CounterKey(p, id)) || ttls.Get(p) > 0 ==>
            m == if n + 1 >= lim.Get(p) then 0 else lim.Get(p) - n - 1)
      && (!Counters.Live(s, CounterKey(p, id)) && ttls.Get(p) <= 0 ==> m == lim.Get(p))
  {
    var s' := HitAll(s, id, ttls);
    var k := CounterKey(p, id);
    assert k in s'.records && s'.records[k].count == Counters.Attempts(s, k) + 1;
  }

  /** An allowed request reports, for each period, the limit less the hits
      in its window including this one, clamped at 0. */
  lemma AllowedReportsRemaining(limits: Settings.Limits, s: Counters.Store, id: string, ttls: PerPeriod<int>, p: Period)
    ensures var r := Handle(limits, s, id, ttls);
      var lim := ConfiguredLimits(limits);
      var n := Counters.Attempts(s, CounterKey(p, id));
      r.decision.Allowed? ==>
        && (Counters.Live(s, CounterKey(p, id)) || ttls.Get(p) > 0 ==>
              r.decision.remaining.Get(p) == if n + 1 >= lim.Get(p) then 0 else lim.Get(p) - n - 1)
        && (!Counters.Live(s, CounterKey(p, id)) && ttls.Get(p) <= 0 ==>
              r.decision.remaining.Get(p) == lim.Get(p))
  {
    var r := Handle(limits, s, id, ttls);
    if r.decision.Allowed? {
      RemainingAfterHit(s, id, ttls, ConfiguredLimits(limits), p);
    }
  }

  /** Requests keep every window within `horizon` seconds of the clock
      when no period's window is longer than `horizon`. */
  lemma HandleKeepsExpiresWithin(limits: Settings.Limits, s: Counters.Store, id: string, ttls: PerPeriod<int>, horizon: int)
    requires Counters.ExpiresWithin(s, horizon)
    requires ttls.minute <= horizon && ttls.hour <= horizon && ttls.day <= horizon
    ensures Counters.ExpiresWithin(Handle(limits, s, id, ttls).store, horizon)
  {
    var s1 := Counters.Hit(s, CounterKey(Minute, id), ttls.minute);
    var s2 := Counters.Hit(s1, CounterKey(Hour, id), ttls.hour);
    Counters.HitKeepsExpiresWithin(s, CounterKey(Minute, id), ttls.minute, horizon);
    Counters.HitKeepsExpiresWithin(s1, CounterKey(Hour, id), ttls.hour, horizon);
    Counters.HitKeepsExpiresWithin(s2, CounterKey(Day, id), ttls.day, horizon);
  }

  /** A denial never asks for a longer wait than the horizon the store's
      windows keep to. */
  lemma DenialWaitWithin(limits: Settings.Limits, s: Counters.Store, id: string, ttls: PerPeriod<int>, horizon: int)
    requires Counters.ExpiresWithin(s, horizon)
    ensures var d := Handle(limits, s, id, ttls).decision;
      d.Denied? ==> 0 < d.retryAfter <= horizon
  {
    var d := Handle(limits, s, id, ttls).decision;
    DenialNamesFirstViolation(limits, s, id, ttls);
    if d.Denied? {
      Counters.AvailableInWithin(s, CounterKey(d.period, id), horizon);
    }
  }

  /** As written every window lasts 60 seconds, so on a store the
      middleware alone has filled a denial always states its wait in
      seconds: the minutes form of the message is never reached. */
  lemma AsWrittenDenialsStateSeconds(limits: Settings.Limits, s: Counters.Store, id: string)
    requires Counters.ExpiresWithin(s, Counters.DefaultDecaySeconds)
    ensures var d := Handle(limits, s, id, AsWrittenTtls).decision;
      d.Denied? ==> RetryDelay(d.retryAfter) == Delay(d.retryAfter, Seconds)
    ensures Counters.ExpiresWithin(Handle(limits, s, id, AsWrittenTtls).store, Counters.DefaultDecaySeconds)
  {
    DenialWaitWithin(limits, s, id, AsWrittenTtls, Counters.DefaultDecaySeconds);
    HandleKeepsExpiresWithin(limits, s, id, AsWrittenTtls, Counters.DefaultDecaySeconds);
  }
}
