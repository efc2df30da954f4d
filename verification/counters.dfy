/** An abstract model of the counter store the rate limiter sits on (the
    framework's `RateLimiter` facade over a cache): a map from counter key to
    a record `(count, expiresAt)`, plus the store's clock `now`.  A record is
    live while `now < expiresAt`; a record past its expiry reads as absent. */
module Counters {

  datatype Record = Record(count: int, expiresAt: int)

  datatype Store = Store(records: map<string, Record>, now: int)

  /** The decay, in seconds, that the facade's `hit` applies when its caller
      passes none. */
  const DefaultDecaySeconds: int := 60

  /** A store holding no counters, with its clock at `now`. */
  function Empty(now: int): Store
  {
    Store(map[], now)
  }

  /** The same records seen at another instant: the clock is a parameter. */
  function At(s: Store, now: int): Store
  {
    s.(now := now)
  }

  predicate Live(s: Store, key: string)
  {
    key in s.records && s.now < s.records[key].expiresAt
  }

  /** Invariant kept by every operation: a stored count is at least one. */
  predicate Valid(s: Store)
  {
    forall key :: key in s.records ==> s.records[key].count >= 1
  }

  /** Every record expires no later than `horizon` seconds from now. */
  predicate ExpiresWithin(s: Store, horizon: int)
  {
    forall key :: key in s.records ==> s.records[key].expiresAt <= s.now + horizon
  }

  /** `key` has the same record, or the same absence of one, in both stores. */
  predicate SameAt(s: Store, r: Store, key: string)
  {
    (key in s.records <==> key in r.records) &&
    (key in s.records ==> s.records[key] == r.records[key])
  }

  /** The live count of `key`: 0 when the key is absent or expired.  On a
      valid store it is never negative, and positive exactly when the key's
      window is open. */
  function Attempts(s: Store, key: string): (r: int)
    ensures r != 0 ==> Live(s, key) && r == s.records[key].count
    ensures Valid(s) ==> r >= 0 && (r >= 1 <==> Live(s, key))
  {
    if Live(s, key) then s.records[key].count else 0
  }

  /** The facade's `tooManyAttempts`: the count reaches `maxAttempts` and the
      window that holds it is still open (a count with no open window is
      reset and reported as not too many).  For a limit of at least one this
      is exactly "the live count reaches the limit"; on a valid store a
      smaller limit is reached by every open window. */
  predicate TooManyAttempts(s: Store, key: string, maxAttempts: int)
    ensures maxAttempts >= 1 ==> (TooManyAttempts(s, key, maxAttempts) <==> Attempts(s, key) >= maxAttempts)
    ensures Valid(s) && maxAttempts < 1 ==> (TooManyAttempts(s, key, maxAttempts) <==> Live(s, key))
  {
    Attempts(s, key) >= maxAttempts && Live(s, key)
  }

  /** Seconds until the window of `key` closes, never negative. */
  function AvailableIn(s: Store, key: string): (seconds: int)
    ensures seconds >= 0
    ensures Live(s, key) ==> seconds > 0 && s.now + seconds == s.records[key].expiresAt
    ensures !Live(s, key) ==> seconds == 0
  {
    if key in s.records && s.records[key].expiresAt - s.now > 0
    then s.records[key].expiresAt - s.now
    else 0
  }

  /** The facade's `hit`: opens a window of `decaySeconds` with count 1 when
      the key has no live record, otherwise adds one to the count and keeps
      the window's expiry (a fixed window, not a sliding one). */
  function Hit(s: Store, key: string, decaySeconds: int): (r: Store)
    ensures r.now == s.now
    ensures key in r.records && r.records[key].count == Attempts(s, key) + 1
    ensures Live(s, key) ==> r.records[key].expiresAt == s.records[key].expiresAt
    ensures !Live(s, key) ==> r.records[key].expiresAt == s.now + decaySeconds
    ensures Live(s, key) || decaySeconds > 0 ==> Live(r, key) && Attempts(r, key) == Attempts(s, key) + 1
    ensures !Live(s, key) && decaySeconds <= 0 ==> Attempts(r, key) == 0
    ensures forall k :: k != key ==> SameAt(s, r, k)
    ensures Valid(s) ==> Valid(r)
  {
    if Live(s, key) then
      s.(records := s.records[key := Record(s.records[key].count + 1, s.records[key].expiresAt)])
    else
      s.(records := s.records[key := Record(1, s.now + decaySeconds)])
  }

  /** The facade's `clear`: forgets the record of `key`, whether or not it
      has one. */
  function Clear(s: Store, key: string): (r: Store)
    ensures r.now == s.now
    ensures key !in r.records && !Live(r, key) && Attempts(r, key) == 0
    ensures forall k :: k != key ==> SameAt(s, r, k)
    ensures Valid(s) ==> Valid(r)
  {
    s.(records := s.records - {key})
  }

  /** Keys whose records agree read the same attempts. */
  lemma SameAtSameAttempts(s: Store, r: Store, key: string)
    requires s.now == r.now && SameAt(s, r, key)
    ensures Attempts(r, key) == Attempts(s, key)
    ensures Live(r, key) == Live(s, key)
  {
  }

  /** Agreement outside one key composes. */
  lemma SameOutsideTrans(a: Store, b: Store, c: Store, key: string)
    requires forall k :: k != key ==> SameAt(a, b, k)
    requires forall k :: k != key ==> SameAt(b, c, k)
    ensures forall k :: k != key ==> SameAt(a, c, k)
  {
    forall k | k != key
      ensures SameAt(a, c, k)
    {
      assert SameAt(a, b, k) && SameAt(b, c, k);
    }
  }

  /** Clearing twice is clearing once. */
  lemma ClearIdempotent(s: Store, key: string)
    ensures Clear(Clear(s, key), key) == Clear(s, key)
  {
  }

  /** Once the clock reaches a record's expiry the key reads 0, and the next
      hit opens a fresh window starting at the new time. */
  lemma ExpiryResets(s: Store, key: string, t: int, decaySeconds: int)
    requires key in s.records && s.records[key].expiresAt <= t
    ensures Attempts(At(s, t), key) == 0
    ensures Hit(At(s, t), key, decaySeconds).records[key] == Record(1, t + decaySeconds)
  {
  }

  /** Hits whose decay does not exceed `horizon` keep every record within
      `horizon` seconds of the clock. */
  lemma HitKeepsExpiresWithin(s: Store, key: string, decaySeconds: int, horizon: int)
    requires ExpiresWithin(s, horizon) && decaySeconds <= horizon
    ensures ExpiresWithin(Hit(s, key, decaySeconds), horizon)
  {
    var r := Hit(s, key, decaySeconds);
    forall k | k in r.records
      ensures r.records[k].expiresAt <= r.now + horizon
    {
      if k != key {
        assert SameAt(s, r, k);
      }
    }
  }

  /** Moving the clock forward keeps records within the horizon. */
  lemma AtLaterKeepsExpiresWithin(s: Store, t: int, horizon: int)
    requires ExpiresWithin(s, horizon) && s.now <= t
    ensures ExpiresWithin(At(s, t), horizon)
  {
  }

  /** Within the horizon, the wait reported for a key is at most `horizon`. */
  lemma AvailableInWithin(s: Store, key: string, horizon: int)
    requires ExpiresWithin(s, horizon)
    ensures AvailableIn(s, key) <= if Live(s, key) then horizon else 0
  {
  }
}
