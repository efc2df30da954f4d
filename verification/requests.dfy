/** Runs of consecutive requests through the middleware: quota decreasing
    by one per allowed request, denials consuming nothing, the scenarios the
    package's tests exercise, and the effect of the counters' windows. */
module RequestRuns {
  import Counters
  import Settings
  import M = MultiPeriodRateLimiter

  /** None of the three counters of `id` has an open window. */
  predicate Fresh(s: Counters.Store, id: string)
  {
    forall p: M.Period :: !Counters.Live(s, M.CounterKey(p, id))
  }

  predicate PositiveTtls(ttls: M.PerPeriod<int>)
  {
    ttls.minute > 0 && ttls.hour > 0 && ttls.day > 0
  }

  /** Each counter of `id` holds `n` hits, in a window opened at `start`
      when `n` is positive, and has no open window when `n` is zero. */
  predicate RunState(t: Counters.Store, id: string, ttls: M.PerPeriod<int>, n: int, start: int)
  {
    forall p: M.Period ::
      && Counters.Attempts(t, M.CounterKey(p, id)) == n
      && Counters.Live(t, M.CounterKey(p, id)) == (n > 0)
      && (n > 0 ==> t.records[M.CounterKey(p, id)].expiresAt == start + ttls.Get(p))
  }

  /** The smallest of the three limits. */
  function Min3(lim: M.PerPeriod<int>): (r: int)
    ensures forall p: M.Period :: r <= lim.Get(p)
  {
    if lim.minute <= lim.hour && lim.minute <= lim.day then lim.minute
    else if lim.hour <= lim.day then lim.hour
    else lim.day
  }

  /** The first period, in check order, whose limit is the smallest. */
  function Strictest(lim: M.PerPeriod<int>): (p: M.Period)
    ensures lim.Get(p) == Min3(lim)
    ensures forall q: M.Period :: q.Index() < p.Index() ==> lim.Get(q) > Min3(lim)
  {
    if lim.minute == Min3(lim) then M.Minute
    else if lim.hour == Min3(lim) then M.Hour
    else M.Day
  }

  /** The decision on the (j+1)-th request, at instant `now`, of a run
      from fresh counters whose windows opened at `start`: allowed while the
      smallest limit lasts, then refused on the strictest period until its
      window closes. */
  function Expected(lim: M.PerPeriod<int>, ttls: M.PerPeriod<int>, start: int, now: int, j: nat): M.Decision
  {
    var p := Strictest(lim);
    if j < Min3(lim) then M.Allowed(lim, Report(lim, j + 1))
    else M.Denied(p, start + ttls.Get(p) - now, start + ttls.Get(p))
  }

  /** The report of the `n`-th allowed request of a window. */
  function Report(lim: M.PerPeriod<int>, n: int): M.PerPeriod<int>
  {
    M.PerPeriod(lim.minute - n, lim.hour - n, lim.day - n)
  }

  /** A run survives the clock moving forward while every window is open. */
  lemma RunStateAtLater(t: Counters.Store, id: string, ttls: M.PerPeriod<int>, n: nat, start: int, now: int)
    requires RunState(t, id, ttls, n, start) && t.now <= now
    requires n > 0 ==> forall p: M.Period :: now < start + ttls.Get(p)
    ensures RunState(Counters.At(t, now), id, ttls, n, start)
  {
  }

  /** Counting one more hit in every period of a run keeps it a run. */
  lemma HitAllExtendsRun(t: Counters.Store, id: string, ttls: M.PerPeriod<int>, n: nat, start: int)
    requires PositiveTtls(ttls) && RunState(t, id, ttls, n, start)
    requires n == 0 ==> start == t.now
    ensures RunState(M.HitAll(t, id, ttls), id, ttls, n + 1, start)
  {
    var r := M.HitAll(t, id, ttls);
    forall p: M.Period
      ensures Counters.Attempts(r, M.CounterKey(p, id)) == n + 1
      ensures Counters.Live(r, M.CounterKey(p, id))
      ensures r.records[M.CounterKey(p, id)].expiresAt == start + ttls.Get(p)
    {
      var key := M.CounterKey(p, id);
      assert key in r.records && r.records[key].count == n + 1 && r.now == t.now;
      assert ttls.Get(p) > 0;
      if Counters.Live(t, key) {
        assert r.records[key].expiresAt == t.records[key].expiresAt;
      } else {
        assert r.records[key].expiresAt == t.now + ttls.Get(p);
      }
    }
  }

  /** After one more hit on counters holding `n` live hits below every
      limit, each period reports its limit less `n + 1`. */
  lemma ReportAfterRunHit(lim: M.PerPeriod<int>, t: Counters.Store, id: string, ttls: M.PerPeriod<int>, n: nat, start: int)
    requires PositiveTtls(ttls) && RunState(t, id, ttls, n, start)
    requires forall p: M.Period :: n < lim.Get(p)
    ensures M.RemainingAll(M.HitAll(t, id, ttls), id, lim) == Report(lim, n + 1)
  {
    forall p: M.Period
      ensures !M.Violates(t, lim, id, p)
    {
    }
    M.RemainingAfterHit(t, id, ttls, lim, M.Minute);
    M.RemainingAfterHit(t, id, ttls, lim, M.Hour);
    M.RemainingAfterHit(t, id, ttls, lim, M.Day);
  }

  /** A request that finds `n` live hits below every limit on each of its
      counters is allowed and reports `limit - n - 1` left in each period. */
  lemma AllowedStep(limits: Settings.Limits, t: Counters.Store, id: string, ttls: M.PerPeriod<int>, n: nat, start: int)
    requires PositiveTtls(ttls) && RunState(t, id, ttls, n, start)
    requires forall p: M.Period :: n < M.ConfiguredLimits(limits).Get(p)
    ensures var lim := M.ConfiguredLimits(limits);
      var r := M.Handle(limits, t, id, ttls);
      && r.decision == M.Allowed(lim, Report(lim, n + 1))
      && r.store == M.HitAll(t, id, ttls)
  {
    var lim := M.ConfiguredLimits(limits);
    forall p: M.Period
      ensures !M.Violates(t, lim, id, p)
    {
    }
    M.RoomAllows(limits, t, id, ttls);
    ReportAfterRunHit(lim, t, id, ttls, n, start);
  }

  /** Counters holding the smallest limit's worth of live hits, in windows
      opened at `start`, refuse the request on the first period, in check
      order, with that limit, retry when that period's window closes, and
      leave the store unchanged. */
  lemma FullWindowDenies(limits: Settings.Limits, t: Counters.Store, id: string, ttls: M.PerPeriod<int>, start: int)
    requires var lim := M.ConfiguredLimits(limits);
      Min3(lim) >= 1 && RunState(t, id, ttls, Min3(lim), start)
    ensures var p := Strictest(M.ConfiguredLimits(limits));
      M.Handle(limits, t, id, ttls)
        == M.Outcome(M.Denied(p, start + ttls.Get(p) - t.now, start + ttls.Get(p)), t)
  {
    var lim := M.ConfiguredLimits(limits);
    var p := Strictest(lim);
    assert M.Violates(t, lim, id, p);
    M.DenialNamesFirstViolation(limits, t, id, ttls);
    var r := M.Handle(limits, t, id, ttls);
    assert r.decision.period == p;
  }

  /** Agreement outside the counters of `id` composes. */
  lemma SameOutsideCounters(a: Counters.Store, b: Counters.Store, c: Counters.Store, id: string)
    requires forall key :: !M.IsCounterOf(key, id) ==> Counters.SameAt(a, b, key)
    requires forall key :: !M.IsCounterOf(key, id) ==> Counters.SameAt(b, c, key)
    ensures forall key :: !M.IsCounterOf(key, id) ==> Counters.SameAt(a, c, key)
  {
    forall key | !M.IsCounterOf(key, id)
      ensures Counters.SameAt(a, c, key)
    {
      assert Counters.SameAt(a, b, key) && Counters.SameAt(b, c, key);
    }
  }

  /** Moving the clock keeps every record, so agreement outside the
      counters of `id` survives it. */
  lemma AtAgreesOutside(s: Counters.Store, t: Counters.Store, id: string, now: int)
    requires forall key :: !M.IsCounterOf(key, id) ==> Counters.SameAt(s, t, key)
    ensures forall key :: !M.IsCounterOf(key, id) ==> Counters.SameAt(s, Counters.At(t, now), key)
  {
  }

  /** An allowed request of a run extends the run by one hit and leaves
      everything outside the counters of `id` as the run found it. */
  lemma AllowedExtendsRun(limits: Settings.Limits, s: Counters.Store, t: Counters.Store, id: string, ttls: M.PerPeriod<int>, n: nat, start: int)
    requires PositiveTtls(ttls) && RunState(t, id, ttls, n, start) && (n == 0 ==> start == t.now)
    requires forall p: M.Period :: n < M.ConfiguredLimits(limits).Get(p)
    requires forall key :: !M.IsCounterOf(key, id) ==> Counters.SameAt(s, t, key)
    ensures var lim := M.ConfiguredLimits(limits);
      var o := M.Handle(limits, t, id, ttls);
      && o.decision == M.Allowed(lim, Report(lim, n + 1))
      && o.store.now == t.now
      && RunState(o.store, id, ttls, n + 1, start)
      && (forall key :: !M.IsCounterOf(key, id) ==> Counters.SameAt(s, o.store, key))
  {
    AllowedStep(limits, t, id, ttls, n, start);
    HitAllExtendsRun(t, id, ttls, n, start);
    SameOutsideCounters(s, t, M.HitAll(t, id, ttls), id);
  }

  /** Fresh counters are a run of no requests. */
  lemma FreshIsEmptyRun(s: Counters.Store, id: string, ttls: M.PerPeriod<int>)
    requires Fresh(s, id)
    ensures RunState(s, id, ttls, 0, s.now)
  {
  }

  /** A request within the quota, at `now` inside every window of the run:
      allowed, the run grows by one, nothing else changes. */
  lemma StepWithinQuota(limits: Settings.Limits, s: Counters.Store, t: Counters.Store, id: string, ttls: M.PerPeriod<int>,
                        start: int, now: int, n: nat)
    requires PositiveTtls(ttls) && t.now <= now < start + Min3(ttls) && (n == 0 ==> now == start)
    requires n < Min3(M.ConfiguredLimits(limits)) && RunState(t, id, ttls, n, start)
    requires forall key :: !M.IsCounterOf(key, id) ==> Counters.SameAt(s, t, key)
    ensures var o := M.Handle(limits, Counters.At(t, now), id, ttls);
      && o.decision == Expected(M.ConfiguredLimits(limits), ttls, start, now, n)
      && o.store.now == now
      && RunState(o.store, id, ttls, n + 1, start)
      && (forall key :: !M.IsCounterOf(key, id) ==> Counters.SameAt(s, o.store, key))
  {
    RunStateAtLater(t, id, ttls, n, start, now);
    AtAgreesOutside(s, t, id, now);
    AllowedExtendsRun(limits, s, Counters.At(t, now), id, ttls, n, start);
  }

  /** A request once the smallest limit is used up, at `now` inside every
      window of the run: refused as expected, and the run stays put. */
  lemma StepPastQuota(limits: Settings.Limits, s: Counters.Store, t: Counters.Store, id: string, ttls: M.PerPeriod<int>,
                      start: int, now: int, i: nat)
    requires t.now <= now < start + Min3(ttls)
    requires var m := Min3(M.ConfiguredLimits(limits));
      m >= 1 && m <= i && RunState(t, id, ttls, m, start)
    requires forall key :: !M.IsCounterOf(key, id) ==> Counters.SameAt(s, t, key)
    ensures var o := M.Handle(limits, Counters.At(t, now), id, ttls);
      && o.decision == Expected(M.ConfiguredLimits(limits), ttls, start, now, i)
      && o.store == Counters.At(t, now)
      && RunState(o.store, id, ttls, Min3(M.ConfiguredLimits(limits)), start)
      && (forall key :: !M.IsCounterOf(key, id) ==> Counters.SameAt(s, o.store, key))
  {
    RunStateAtLater(t, id, ttls, Min3(M.ConfiguredLimits(limits)), start, now);
    AtAgreesOutside(s, t, id, now);
    FullWindowDenies(limits, Counters.At(t, now), id, ttls, start);
  }

  /** The store the (j+1)-th request of a run finds: the initial store
      for the first, otherwise the one the previous request left. */
  function Before(s: Counters.Store, outs: seq<M.Outcome>, j: nat): Counters.Store
    requires j <= |outs|
  {
    if j == 0 then s else outs[j - 1].store
  }

  /** `outs` are the middleware's outcomes for consecutive requests from
      the store `s`, the j-th at instant `times[j]`, each seeing the store
      the previous one left. */
  predicate IsRun(limits: Settings.Limits, s: Counters.Store, id: string, ttls: M.PerPeriod<int>,
                  times: seq<int>, outs: seq<M.Outcome>)
  {
    |outs| == |times| && IsRunPrefix(limits, s, id, ttls, times, outs)
  }

  /** `outs` answer the first `|outs|` requests of `times` as in `IsRun`. */
  predicate IsRunPrefix(limits: Settings.Limits, s: Counters.Store, id: string, ttls: M.PerPeriod<int>,
                        times: seq<int>, outs: seq<M.Outcome>)
  {
    && |outs| <= |times|
    && forall j {:trigger Before(s, outs, j)} :: 0 <= j < |outs| ==>
         outs[j] == M.Handle(limits, Counters.At(Before(s, outs, j), times[j]), id, ttls)
  }

  /** Answering the next request of `times` on the store the last one left
      extends a run by one. */
  lemma ExtendRun(limits: Settings.Limits, s: Counters.Store, id: string, ttls: M.PerPeriod<int>,
                  times: seq<int>, outs: seq<M.Outcome>, o: M.Outcome)
    requires IsRunPrefix(limits, s, id, ttls, times, outs) && |outs| < |times|
    requires o == M.Handle(limits, Counters.At(Before(s, outs, |outs|), times[|outs|]), id, ttls)
    ensures IsRunPrefix(limits, s, id, ttls, times, outs + [o])
    ensures Before(s, outs + [o], |outs| + 1) == o.store
  {
    var next := outs + [o];
    forall j | 0 <= j < |next|
      ensures next[j] == M.Handle(limits, Counters.At(Before(s, next, j), times[j]), id, ttls)
    {
      assert Before(s, next, j) == Before(s, outs, j);
    }
  }

  /** One request of a run, as the middleware answers it at `now`: the
      decision is the expected one, the counters advance by one while quota
      lasts and stay put afterwards, and nothing outside the counters of
      `id` changes. */
  lemma RunStep(limits: Settings.Limits, s: Counters.Store, t: Counters.Store, id: string, ttls: M.PerPeriod<int>,
                start: int, now: int, i: nat, o: M.Outcome)
    requires PositiveTtls(ttls) && t.now <= now < start + Min3(ttls) && (i == 0 ==> now == start)
    requires var m := Min3(M.ConfiguredLimits(limits));
      m >= 1 && RunState(t, id, ttls, if i < m then i else m, start)
    requires forall key :: !M.IsCounterOf(key, id) ==> Counters.SameAt(s, t, key)
    requires o == M.Handle(limits, Counters.At(t, now), id, ttls)
    ensures o.decision == Expected(M.ConfiguredLimits(limits), ttls, start, now, i)
    ensures o.store.now == now
    ensures var m := Min3(M.ConfiguredLimits(limits));
      RunState(o.store, id, ttls, if i + 1 < m then i + 1 else m, start)
    ensures forall key :: !M.IsCounterOf(key, id) ==> Counters.SameAt(s, o.store, key)
  {
    if i < Min3(M.ConfiguredLimits(limits)) {
      StepWithinQuota(limits, s, t, id, ttls, start, now, i);
    } else {
      StepPastQuota(limits, s, t, id, ttls, start, now, i);
    }
  }

  /** In a run from fresh counters at nondecreasing instants, all before
      the shortest window opened by the first request closes, the first `k`
      requests get the expected decisions; after them the counters hold
      one hit per allowed request, and nothing outside the counters of `id`
      has changed. */
  lemma {:induction false} RunFollowsExpected(limits: Settings.Limits, s: Counters.Store, id: string, ttls: M.PerPeriod<int>,
                                             times: seq<int>, outs: seq<M.Outcome>, k: nat)
    requires Fresh(s, id) && PositiveTtls(ttls) && Min3(M.ConfiguredLimits(limits)) >= 1
    requires |times| > 0 ==> s.now <= times[0]
    requires forall j :: 0 < j < |times| ==> times[j - 1] <= times[j]
    requires forall j :: 0 <= j < |times| ==> times[j] < times[0] + Min3(ttls)
    requires IsRun(limits, s, id, ttls, times, outs) && k <= |times|
    ensures forall j :: 0 <= j < k ==>
      outs[j].decision == Expected(M.ConfiguredLimits(limits), ttls, times[0], times[j], j)
    ensures var m := Min3(M.ConfiguredLimits(limits));
      k > 0 ==> (Before(s, outs, k).now == times[k - 1] &&
                 RunState(Before(s, outs, k), id, ttls, if k < m then k else m, times[0]))
    ensures forall key :: !M.IsCounterOf(key, id) ==> Counters.SameAt(s, Before(s, outs, k), key)
    decreases k
  {
    if k > 0 {
      var i := k - 1;
      RunFollowsExpected(limits, s, id, ttls, times, outs, i);
      var t := Before(s, outs, i);
      if i == 0 {
        FreshIsEmptyRun(s, id, ttls);
      }
      assert outs[i] == M.Handle(limits, Counters.At(t, times[i]), id, ttls);
      RunStep(limits, s, t, id, ttls, times[0], times[i], i, outs[i]);
    }
  }

  /** Consecutive requests from a client with fresh counters, the j-th at
      instant `times[j]`, all within the shortest window opened by the
      first, served one after another by the middleware: the j-th allowed
      request reports `limit - j` left in every period; once the smallest
      limit is used up every further request is refused on the strictest
      period, retrying when its window closes, and consumes nothing.  No
      key outside the client's counters ever changes. */
  method Serve(limits: Settings.Limits, s: Counters.Store, id: string, ttls: M.PerPeriod<int>, times: seq<int>)
    returns (outcomes: seq<M.Outcome>)
    requires Fresh(s, id) && PositiveTtls(ttls)
    requires Min3(M.ConfiguredLimits(limits)) >= 1
    requires |times| > 0 ==> s.now <= times[0]
    requires forall j :: 0 < j < |times| ==> times[j - 1] <= times[j]
    requires forall j :: 0 <= j < |times| ==> times[j] < times[0] + Min3(ttls)
    ensures IsRun(limits, s, id, ttls, times, outcomes)
    ensures forall j :: 0 <= j < |times| ==>
      outcomes[j].decision == Expected(M.ConfiguredLimits(limits), ttls, times[0], times[j], j)
    ensures forall key :: !M.IsCounterOf(key, id) ==> Counters.SameAt(s, Before(s, outcomes, |times|), key)
  {
    outcomes := [];
    var t := s;
    var i := 0;
    while i < |times|
      invariant 0 <= i <= |times| && |outcomes| == i && t == Before(s, outcomes, i)
      invariant IsRunPrefix(limits, s, id, ttls, times, outcomes)
    {
      var o := M.Handle(limits, Counters.At(t, times[i]), id, ttls);
      ExtendRun(limits, s, id, ttls, times, outcomes, o);
      outcomes := outcomes + [o];
      t := o.store;
      i := i + 1;
    }
    RunFollowsExpected(limits, s, id, ttls, times, outcomes, |times|);
  }

  /** The configuration the package's tests install. */
  const TestLimits: Settings.Limits := map["minute" := 10, "hour" := 100, "day" := 1000]

  /** The very first request of a client, under the tests' configuration,
      reports 9, 99 and 999 left against limits 10, 100 and 1000. */
  lemma FirstRequestReports(now: int, id: string)
    ensures M.Handle(TestLimits, Counters.Empty(now), id, M.AsWrittenTtls).decision
         == M.Allowed(M.PerPeriod(10, 100, 1000), M.PerPeriod(9, 99, 999))
  {
    var e := Counters.Empty(now);
    assert RunState(e, id, M.AsWrittenTtls, 0, now);
    AllowedStep(TestLimits, e, id, M.AsWrittenTtls, 0, now);
  }

  /** The second request of a client at the same instant reports one less
      than the first in every period: 8 left in the minute. */
  lemma SecondRequestReports(now: int, id: string)
    ensures var first := M.Handle(TestLimits, Counters.Empty(now), id, M.AsWrittenTtls);
      M.Handle(TestLimits, first.store, id, M.AsWrittenTtls).decision
        == M.Allowed(M.PerPeriod(10, 100, 1000), M.PerPeriod(8, 98, 998))
  {
    var e := Counters.Empty(now);
    FreshIsEmptyRun(e, id, M.AsWrittenTtls);
    AllowedExtendsRun(TestLimits, e, e, id, M.AsWrittenTtls, 0, now);
    var first := M.Handle(TestLimits, e, id, M.AsWrittenTtls);
    AllowedStep(TestLimits, first.store, id, M.AsWrittenTtls, 1, now);
  }

  /** `k` calls of the facade's `hit` on one key with the default decay. */
  function HitTimes(s: Counters.Store, key: string, k: nat): (r: Counters.Store)
    ensures r.now == s.now
    ensures Counters.Attempts(r, key) == Counters.Attempts(s, key) + k
    ensures k > 0 ==> Counters.Live(r, key)
    ensures k > 0 && !Counters.Live(s, key) ==>
      r.records[key].expiresAt == s.now + Counters.DefaultDecaySeconds
    ensures forall other :: other != key ==> Counters.SameAt(s, r, other)
  {
    if k == 0 then s
    else
      var u := HitTimes(s, key, k - 1);
      var r := Counters.Hit(u, key, Counters.DefaultDecaySeconds);
      Counters.SameOutsideTrans(s, u, r, key);
      r
  }

  /** The tests' exhaustion scenario as written: ten hits on a key outside
      the middleware's key space leave every counter of the client fresh,
      so the request that should be refused is allowed, reporting 9 left. */
  lemma TestExhaustsUnreadKey(now: int)
    ensures var id := "127.0.0.1";
      var u := HitTimes(Counters.Empty(now), "amineware-minute:" + id, 10);
      M.Handle(TestLimits, u, id, M.AsWrittenTtls).decision
        == M.Allowed(M.PerPeriod(10, 100, 1000), M.PerPeriod(9, 99, 999))
  {
    var id := "127.0.0.1";
    var key := "amineware-minute:" + id;
    var u := HitTimes(Counters.Empty(now), key, 10);
    forall p: M.Period
      ensures !Counters.Live(u, M.CounterKey(p, id))
    {
      var c := M.CounterKey(p, id);
      assert c[0] == 't' && key[0] == 'a';
      assert Counters.SameAt(Counters.Empty(now), u, c);
    }
    assert RunState(u, id, M.AsWrittenTtls, 0, now);
    AllowedStep(TestLimits, u, id, M.AsWrittenTtls, 0, now);
  }

  /** The exhaustion scenario on the middleware's own minute key: ten hits
      fill the minute, so the request is refused on the minute, retry after
      the 60 seconds left in its window, with a 429 whose message opens with
      "Too many attempts"; the store is left as it was. */
  lemma ExhaustedMinuteDenies(now: int, id: string)
    ensures var u := HitTimes(Counters.Empty(now), M.CounterKey(M.Minute, id), 10);
      var o := M.Handle(TestLimits, u, id, M.AsWrittenTtls);
      && o == M.Outcome(M.Denied(M.Minute, 60, now + 60), u)
      && M.Reject(o.decision, now).status == 429
      && "Too many attempts" <= M.Reject(o.decision, now).message
  {
    var key := M.CounterKey(M.Minute, id);
    var u := HitTimes(Counters.Empty(now), key, 10);
    var lim := M.ConfiguredLimits(TestLimits);
    assert M.Violates(u, lim, id, M.Minute);
    M.DenialNamesFirstViolation(TestLimits, u, id, M.AsWrittenTtls);
  }

  /** A configuration whose minute limit is 0. */
  const ZeroMinuteLimits: Settings.Limits := map["minute" := 0, "hour" := 100, "day" := 1000]

  /** A limit of 0 does not refuse the first request of a window: with no
      live timer the minute is not full, so the first request is allowed,
      reporting 0 left in the minute, and only the second is refused, for
      the 60 seconds left in the window the first one opened. */
  lemma ZeroLimitAdmitsFirst(now: int, id: string)
    ensures var first := M.Handle(ZeroMinuteLimits, Counters.Empty(now), id, M.AsWrittenTtls);
      && first.decision == M.Allowed(M.PerPeriod(0, 100, 1000), M.PerPeriod(0, 99, 999))
      && M.Handle(ZeroMinuteLimits, first.store, id, M.AsWrittenTtls).decision == M.Denied(M.Minute, 60, now + 60)
  {
    var e := Counters.Empty(now);
    var ttls := M.AsWrittenTtls;
    var lim := M.ConfiguredLimits(ZeroMinuteLimits);
    assert lim == M.PerPeriod(0, 100, 1000);
    assert forall p: M.Period :: !M.Violates(e, lim, id, p);
    M.RoomAllows(ZeroMinuteLimits, e, id, ttls);
    M.RemainingAfterHit(e, id, ttls, lim, M.Minute);
    M.RemainingAfterHit(e, id, ttls, lim, M.Hour);
    M.RemainingAfterHit(e, id, ttls, lim, M.Day);
    var u := M.HitAll(e, id, ttls);
    var key := M.CounterKey(M.Minute, id);
    assert Counters.Live(u, key) && u.records[key].expiresAt == now + 60;
    assert M.Violates(u, lim, id, M.Minute);
    M.DenialNamesFirstViolation(ZeroMinuteLimits, u, id, ttls);
  }

  /** As the middleware is written every counter's window is 60 seconds, so
      a minute after a run of requests the hour and day counters have
      forgotten it: the next request reports the full hour and day quota
      less one, however many requests the run held. */
  lemma AsWrittenHourCounterForgets(limits: Settings.Limits, u: Counters.Store, id: string, n: nat, start: int)
    requires u.now == start && RunState(u, id, M.AsWrittenTtls, n, start)
    requires Min3(M.ConfiguredLimits(limits)) >= 1
    ensures var lim := M.ConfiguredLimits(limits);
      M.Handle(limits, Counters.At(u, start + 60), id, M.AsWrittenTtls).decision
        == M.Allowed(lim, Report(lim, 1))
  {
    var w := Counters.At(u, start + 60);
    forall p: M.Period
      ensures !Counters.Live(w, M.CounterKey(p, id))
    {
      var c := M.CounterKey(p, id);
      if n > 0 {
        assert u.records[c].expiresAt == start + 60;
      } else {
        assert !Counters.Live(u, c);
      }
    }
    assert RunState(w, id, M.AsWrittenTtls, 0, start + 60);
    AllowedStep(limits, w, id, M.AsWrittenTtls, 0, start + 60);
  }

  /** With windows as long as their periods, a request between one minute
      and one hour after a run of `n` requests finds the minute reset but
      the hour and day still holding the run: it reports the minute quota
      less one and the hour and day quota less `n + 1`. */
  lemma PeriodTtlsRemember(limits: Settings.Limits, u: Counters.Store, id: string, n: nat, start: int, now: int)
    requires u.now == start && RunState(u, id, M.PeriodTtls, n, start)
    requires start + 60 <= now < start + 3600
    requires var lim := M.ConfiguredLimits(limits);
      lim.minute >= 1 && n < lim.hour && n < lim.day
    ensures var lim := M.ConfiguredLimits(limits);
      var r := M.Handle(limits, Counters.At(u, now), id, M.PeriodTtls).decision;
      && r.Allowed?
      && r.remaining.minute == lim.minute - 1
      && r.remaining.hour == lim.hour - n - 1
      && r.remaining.day == lim.day - n - 1
  {
    var lim := M.ConfiguredLimits(limits);
    var w := Counters.At(u, now);
    forall p: M.Period
      ensures Counters.Attempts(w, M.CounterKey(p, id)) == if p == M.Minute then 0 else n
      ensures !M.Violates(w, lim, id, p)
    {
      var c := M.CounterKey(p, id);
      if n > 0 {
        assert u.records[c].expiresAt == start + M.PeriodTtls.Get(p);
      } else {
        assert !Counters.Live(u, c);
      }
    }
    M.RemainingAfterHit(w, id, M.PeriodTtls, lim, M.Minute);
    M.RemainingAfterHit(w, id, M.PeriodTtls, lim, M.Hour);
    M.RemainingAfterHit(w, id, M.PeriodTtls, lim, M.Day);
  }
}
