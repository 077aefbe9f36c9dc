/**
 When a Refresher's passes run (certrevocation/refresher.go): halfway to the first nextUpdate after a
 pass that succeeded, after a doubling backoff when one failed, with jitter. Times and durations are in
 nanoseconds; a difference of times saturates, as Go's does, and division truncates.
 */
module RefreshSchedule {
  import opened Durations

  const MIN_REFRESH_INTERVAL: int := MINUTE
  const RETRY_BASE: int := 30 * SECOND
  const RETRY_MAX: int := 30 * MINUTE

  const MAX_DURATION: int := 0x7fff_ffff_ffff_ffff
  const MIN_DURATION: int := -0x8000_0000_0000_0000

  /** A random duration in [0, n), of each draw; only a positive n may be asked for. */
  type Jitter = (nat, int) --> int

  ghost predicate IsJitter(jitter: Jitter) {
    forall draw, n | n > 0 :: jitter.requires(draw, n) && 0 <= jitter(draw, n) < n
  }

  function Between(later: int, earlier: int): (d: int)
    ensures MIN_DURATION <= d <= MAX_DURATION
  {
    var d := later - earlier;
    if d > MAX_DURATION then MAX_DURATION else if d < MIN_DURATION then MIN_DURATION else d
  }

  function Quotient(a: int, b: nat): int
    requires b > 0
  {
    if a >= 0 then a / b else -(-a / b)
  }

  function Min(a: int, b: int): int { if a < b then a else b }

  function Max(a: int, b: int): int { if a > b then a else b }

  /** What the schedule knows of one URL. */
  datatype Entry = Nothing | Holds(fetchedAt: int, nextUpdate: int)

  /** When e is due: at once with nothing held, else halfway to nextUpdate. */
  function Due(e: Entry, now: int): int {
    match e
    case Nothing => now
    case Holds(fetchedAt, nextUpdate) => fetchedAt + Quotient(Between(nextUpdate, fetchedAt), 2)
  }

  /** e's list was fetched before its nextUpdate, in a time a Duration can hold. */
  predicate InRange(e: Entry) {
    e.Holds? && e.fetchedAt <= e.nextUpdate <= e.fetchedAt + MAX_DURATION
  }

  /** The wait before the next pass, without jitter: to the first due entry, within the bounds. */
  method RefreshDelay(now: int, entries: seq<Entry>, maxInterval: int) returns (delay: int)
    requires maxInterval > 0
    ensures MIN_REFRESH_INTERVAL <= delay <= Max(maxInterval, MIN_REFRESH_INTERVAL)
    ensures forall e | e in entries :: delay <= Max(Between(Due(e, now), now), MIN_REFRESH_INTERVAL)
    ensures || delay == MIN_REFRESH_INTERVAL || delay == maxInterval
            || exists e | e in entries :: delay == Between(Due(e, now), now)
    ensures (exists e | e in entries :: e.Nothing?) ==> delay == MIN_REFRESH_INTERVAL
    ensures forall e | e in entries && InRange(e) ::
              delay == MIN_REFRESH_INTERVAL || 2 * (now + delay) <= e.fetchedAt + e.nextUpdate
    ensures (forall e | e in entries :: InRange(e)) && maxInterval <= MAX_DURATION ==>
              || delay == MIN_REFRESH_INTERVAL || delay == maxInterval
              || exists e | e in entries :: e.fetchedAt + e.nextUpdate <= 2 * (now + delay) + 1
  {
    delay := maxInterval;
    for k := 0 to |entries|
      invariant delay <= maxInterval
      invariant forall e | e in entries[..k] :: delay <= Between(Due(e, now), now)
      invariant delay == maxInterval || exists e | e in entries :: delay == Between(Due(e, now), now)
    {
      delay := Min(delay, Between(Due(entries[k], now), now));
    }
    assert entries[..|entries|] == entries;
    delay := Max(delay, MIN_REFRESH_INTERVAL);
  }

  function Power2(n: nat): nat {
    if n == 0 then 1 else 2 * Power2(n - 1)
  }

  /** What the backoff is for: 30 seconds doubled per failure past the first, up to 30 minutes. */
  function Backoff(failures: nat): int
    requires failures > 0
  {
    Min(RETRY_BASE * Power2(failures - 1), RETRY_MAX)
  }

  lemma {:induction false} Power2Grows(m: nat, n: nat)
    requires m <= n
    ensures Power2(m) <= Power2(n)
  {
    if m < n {
      Power2Grows(m, n - 1);
    }
  }

  lemma BackoffMonotone(f: nat, g: nat)
    requires 0 < f <= g
    ensures RETRY_BASE <= Backoff(f) <= Backoff(g) <= RETRY_MAX
    ensures Backoff(1) == 30 * SECOND
    ensures Backoff(f + 1) == Min(2 * Backoff(f), 30 * MINUTE)
  {
    Power2Grows(0, f - 1);
    Power2Grows(f - 1, g - 1);
  }

  lemma SomePowers()
    ensures Power2(6) == 64 && Power2(15) == 32768
  {
    assert Power2(3) == 2 * Power2(2) && Power2(2) == 2 * Power2(1) && Power2(1) == 2;
    assert Power2(6) == 2 * Power2(5) && Power2(5) == 2 * Power2(4) && Power2(4) == 2 * Power2(3);
    assert Power2(9) == 2 * Power2(8) && Power2(8) == 2 * Power2(7) && Power2(7) == 2 * Power2(6);
    assert Power2(12) == 2 * Power2(11) && Power2(11) == 2 * Power2(10) && Power2(10) == 2 * Power2(9);
    assert Power2(15) == 2 * Power2(14) && Power2(14) == 2 * Power2(13) && Power2(13) == 2 * Power2(12);
  }

  /** retryDelay: the shift is never long enough to overflow, and half of the backoff is random. */
  method RetryDelay(failures: nat, jitter: Jitter, draw: nat) returns (delay: int)
    requires failures > 0 && IsJitter(jitter)
    ensures Backoff(failures) <= 2 * delay + 1 && delay < Backoff(failures)
    ensures 15 * SECOND <= delay
  {
    BackoffMonotone(1, failures);
    delay := RETRY_MAX;
    var shift := failures - 1;
    SomePowers();
    if shift < 16 {
      Power2Grows(shift, 15);
      assert RETRY_BASE * Power2(shift) <= MAX_DURATION;
      delay := Min(RETRY_BASE * Power2(shift), RETRY_MAX);
    } else {
      Power2Grows(6, shift);
    }
    assert delay == Backoff(failures);
    var half := Quotient(delay, 2);
    delay := half + jitter(draw, half);
  }

  /** A pass: whether it failed for any URL, and what the schedule reads after it. */
  datatype Pass = Pass(failed: bool, now: int, entries: seq<Entry>)

  /** The failed passes in a row that passes end with. */
  function FailuresInARow(passes: seq<Pass>): nat {
    if passes == [] || !passes[|passes| - 1].failed then 0
    else 1 + FailuresInARow(passes[..|passes| - 1])
  }

  lemma {:induction false} FailuresCounted(passes: seq<Pass>)
    ensures var n := FailuresInARow(passes);
            && n <= |passes| && (forall i | |passes| - n <= i < |passes| :: passes[i].failed)
            && (n < |passes| ==> !passes[|passes| - n - 1].failed)
  {
    if passes != [] {
      FailuresCounted(passes[..|passes| - 1]);
    }
  }

  predicate EndsBefore(now: int, wait: int, nextUpdate: int) {
    now + wait <= nextUpdate || nextUpdate < now + MINUTE
  }

  /** delay is what RefreshDelay gives after pass: to the first entry due, within the bounds. */
  ghost predicate IsDelay(pass: Pass, delay: int, maxInterval: int) {
    && MIN_REFRESH_INTERVAL <= delay <= Max(maxInterval, MIN_REFRESH_INTERVAL)
    && (forall e | e in pass.entries :: delay <= Max(Between(Due(e, pass.now), pass.now), MIN_REFRESH_INTERVAL))
    && (delay == MIN_REFRESH_INTERVAL || delay == maxInterval
        || exists e | e in pass.entries :: delay == Between(Due(e, pass.now), pass.now))
    && ((exists e | e in pass.entries :: e.Nothing?) ==> delay == MIN_REFRESH_INTERVAL)
    && (forall e | e in pass.entries && InRange(e) ::
          delay == MIN_REFRESH_INTERVAL || 2 * (pass.now + delay) <= e.fetchedAt + e.nextUpdate)
    && ((forall e | e in pass.entries :: InRange(e)) && maxInterval <= MAX_DURATION ==>
          || delay == MIN_REFRESH_INTERVAL || delay == maxInterval
          || exists e | e in pass.entries :: e.fetchedAt + e.nextUpdate <= 2 * (pass.now + delay) + 1)
  }

  /** The bounds of the wait after pass, the failures in a row up to it. */
  ghost predicate WaitBounded(pass: Pass, failures: nat, wait: int, maxInterval: int) {
    && (forall e | e in pass.entries && e.Holds? && e.fetchedAt < e.nextUpdate ::
          EndsBefore(pass.now, wait, e.nextUpdate))
    && if pass.failed then
         failures > 0 && 15 * SECOND <= wait < Backoff(failures)
       else
         exists delay | IsDelay(pass, delay, maxInterval) :: 4 * delay < 5 * wait <= 5 * delay
  }

  lemma DueBeforeExpiry(e: Entry, now: int)
    requires e.Holds? && e.fetchedAt < e.nextUpdate
    ensures Due(e, now) <= e.nextUpdate
  {
  }

  /** The wait after a pass that made these failures in a row. */
  method WaitAfter(pass: Pass, failures: nat, maxInterval: int, jitter: Jitter, draw: nat) returns (wait: int)
    requires maxInterval > 0 && IsJitter(jitter) && (pass.failed ==> failures > 0)
    ensures WaitBounded(pass, failures, wait, maxInterval)
  {
    hide Backoff;
    var delay := RefreshDelay(pass.now, pass.entries, maxInterval);
    wait := delay - jitter(draw, Quotient(delay, 5));
    forall e | e in pass.entries && e.Holds? && e.fetchedAt < e.nextUpdate
      ensures EndsBefore(pass.now, delay, e.nextUpdate)
    {
      DueBeforeExpiry(e, pass.now);
    }
    assert IsDelay(pass, delay, maxInterval) && 4 * delay < 5 * wait <= 5 * delay;
    if pass.failed {
      var retry := RetryDelay(failures, jitter, draw + 1);
      wait := Min(wait, retry);
    }
  }

  /**
   Run's waits, over any run of passes: each is bounded, whatever failed before, ends by the first
   nextUpdate unless that's under a minute away, and jitter is only asked for within a positive bound.
   */
  method Run(passes: seq<Pass>, maxInterval: int, jitter: Jitter) returns (waits: seq<int>)
    requires maxInterval > 0 && IsJitter(jitter)
    ensures |waits| == |passes|
    ensures forall i | 0 <= i < |passes| ::
              WaitBounded(passes[i], FailuresInARow(passes[..i + 1]), waits[i], maxInterval)
  {
    hide WaitBounded;
    waits := [];
    var failures := 0;
    for i := 0 to |passes|
      invariant |waits| == i && failures == FailuresInARow(passes[..i])
      invariant forall j | 0 <= j < i ::
                  WaitBounded(passes[j], FailuresInARow(passes[..j + 1]), waits[j], maxInterval)
    {
      assert passes[..i + 1][..i] == passes[..i];
      failures := if passes[i].failed then failures + 1 else 0;
      var wait := WaitAfter(passes[i], failures, maxInterval, jitter, 2 * i);
      waits := waits + [wait];
    }
  }
}
