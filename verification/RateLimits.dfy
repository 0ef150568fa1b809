/**
  The authentication rate limiter (wsproxy/ratelimit.go). Times and durations are nanoseconds. The
  background purge runs at times of its own; `PurgesInvisible` says nobody can tell.
 */
module RateLimits {

  const MINUTES_5 := 300_000_000_000
  const HOUR := 3_600_000_000_000

  datatype Config = Config(enabled: bool, window: int, maxAttempts: int, lockout: int)

  /** `lockoutDuration`. */
  function Lockout(config: Config, count: nat): int {
    if count >= 20 then HOUR else if count >= 10 then MINUTES_5 else config.lockout
  }

  /** How many of the failures lie behind the cutoff. */
  function After(times: seq<int>, cutoff: int): (n: nat)
    ensures n <= |times|
  {
    if times == [] then 0
    else After(times[..|times| - 1], cutoff) + (if times[|times| - 1] > cutoff then 1 else 0)
  }

  /** The answer for an address with these failures. */
  predicate Allowed(config: Config, times: seq<int>, now: int) {
    || !config.enabled || times == []
    || (var count := After(times, now - config.window);
        count < config.maxAttempts || now > times[|times| - 1] + Lockout(config, count))
  }

  /** How many failures stand before the first one behind the cutoff. */
  function Expired(times: seq<int>, cutoff: int): (n: nat)
    ensures n <= |times|
    ensures forall i :: 0 <= i < n ==> times[i] <= cutoff
    ensures n < |times| ==> times[n] > cutoff
  {
    if times == [] || times[0] > cutoff then 0 else 1 + Expired(times[1..], cutoff)
  }

  datatype Address = Address(text: string)

  type Failures = map<Address, seq<int>>

  /** Reading a Go map: nothing for an unknown address. */
  function At(failures: Failures, ip: Address): seq<int> {
    if ip in failures then failures[ip] else []
  }

  function Recorded(config: Config, failures: Failures, ip: Address, now: int): Failures {
    if config.enabled then failures[ip := At(failures, ip) + [now]] else failures
  }

  function Cleared(config: Config, failures: Failures, ip: Address): Failures {
    if config.enabled then failures - {ip} else failures
  }

  /** What a purge leaves of an address's failures. */
  function Unexpired(times: seq<int>, cutoff: int): seq<int> {
    times[Expired(times, cutoff)..]
  }

  function Purged(config: Config, failures: Failures, now: int): Failures {
    map ip | ip in failures && Unexpired(failures[ip], now - config.window) != []
      :: Unexpired(failures[ip], now - config.window)
  }

  /** One address has been purged: the entry is shortened, or deleted when nothing is left. */
  ghost predicate EntryPurged(before: Failures, after: Failures, ip: Address, cutoff: int) {
    && At(after, ip) == Unexpired(At(before, ip), cutoff)
    && (ip in after <==> ip in before && Unexpired(At(before, ip), cutoff) != [])
  }

  ghost predicate SameEntry(before: Failures, after: Failures, ip: Address) {
    (ip in before <==> ip in after) && At(before, ip) == At(after, ip)
  }

  lemma {:induction false} EntriesPurged(config: Config, before: Failures, after: Failures, now: int, cutoff: int)
    requires cutoff == now - config.window && forall ip :: EntryPurged(before, after, ip, cutoff)
    ensures after == Purged(config, before, now)
  {
    var purged := Purged(config, before, now);
    forall ip ensures (ip in after <==> ip in purged) && (ip in after ==> after[ip] == purged[ip]) {
      assert EntryPurged(before, after, ip, cutoff);
    }
  }

  class RateLimiter {
    const config: Config
    var failures: Failures

    constructor (config: Config)
      ensures this.config == config && failures == map[]
    {
      this.config := config;
      failures := map[];
    }

    method CountRecent(times: seq<int>, now: int) returns (count: nat)
      ensures count == After(times, now - config.window)
    {
      var cutoff := now - config.window;
      count := 0;
      for i := 0 to |times|
        invariant count == After(times[..i], cutoff)
      {
        assert times[..i + 1][..i] == times[..i];
        if times[i] > cutoff { count := count + 1; }
      }
      assert times[..|times|] == times;
    }

    method IsAllowed(ip: Address, now: int) returns (allowed: bool)
      ensures allowed == Allowed(config, At(failures, ip), now)
    {
      if !config.enabled { return true; }
      var times := At(failures, ip);
      if |times| == 0 { return true; }
      var count := CountRecent(times, now);
      if count < config.maxAttempts { return true; }
      var lockout := Lockout(config, count);
      var lastFailure := times[|times| - 1];
      allowed := now > lastFailure + lockout;
    }

    method RecordFailure(ip: Address, now: int)
      modifies this
      ensures failures == Recorded(config, old(failures), ip, now)
    {
      if !config.enabled { return; }
      failures := failures[ip := At(failures, ip) + [now]];
    }

    method ClearFailures(ip: Address)
      modifies this
      ensures failures == Cleared(config, old(failures), ip)
    {
      if !config.enabled { return; }
      failures := failures - {ip};
    }

    /** The number of leading expired failures. */
    method CountExpired(times: seq<int>, cutoff: int) returns (valid: nat)
      ensures valid == Expired(times, cutoff)
    {
      valid := 0;
      while valid < |times| && times[valid] <= cutoff
        invariant valid <= |times| && forall i :: 0 <= i < valid ==> times[i] <= cutoff
      {
        valid := valid + 1;
      }
      ExpiredIs(times, cutoff, valid);
    }

    method PurgeEntry(ip: Address, cutoff: int)
      requires ip in failures
      modifies this
      ensures EntryPurged(old(failures), failures, ip, cutoff)
      ensures forall other :: other != ip ==> SameEntry(old(failures), failures, other)
    {
      var times := failures[ip];
      var valid := CountExpired(times, cutoff);
      if valid == |times| {
        failures := failures - {ip};
      } else if valid > 0 {
        failures := failures[ip := times[valid..]];
      }
    }

    /** Go ranges over the map in an order of its choice. */
    method PurgeExpired(now: int)
      modifies this
      ensures failures == Purged(config, old(failures), now)
    {
      var cutoff := now - config.window;
      var todo := failures.Keys;
      ghost var before := failures;
      while todo != {}
        invariant forall ip :: ip in todo ==> ip in failures && SameEntry(before, failures, ip)
        invariant forall ip :: ip !in todo ==> EntryPurged(before, failures, ip, cutoff)
      {
        var ip :| ip in todo;
        ghost var middle := failures;
        PurgeEntry(ip, cutoff);
        forall other | other != ip
          ensures other !in todo ==> EntryPurged(before, failures, other, cutoff)
          ensures other in todo ==> SameEntry(before, failures, other)
        {
          assert SameEntry(middle, failures, other);
        }
        todo := todo - {ip};
      }
      EntriesPurged(config, before, failures, now, cutoff);
    }
  }

  lemma {:induction false} ExpiredIs(times: seq<int>, cutoff: int, n: nat)
    requires n <= |times| && (forall i :: 0 <= i < n ==> times[i] <= cutoff) && (n < |times| ==> times[n] > cutoff)
    ensures Expired(times, cutoff) == n
  {
    if n > 0 { ExpiredIs(times[1..], cutoff, n - 1); }
  }

  /** Dropping failures before the cutoff does not change the count. */
  lemma {:induction false} AfterDrop(times: seq<int>, n: nat, cutoff: int)
    requires n <= |times| && forall i :: 0 <= i < n ==> times[i] <= cutoff
    ensures After(times[n..], cutoff) == After(times, cutoff)
    decreases |times|
  {
    if n < |times| {
      var last := |times| - 1;
      assert times[n..][..|times[n..]| - 1] == times[..last][n..];
      AfterDrop(times[..last], n, cutoff);
    } else if times != [] {
      AfterDrop(times[..n - 1], n - 1, cutoff);
    }
  }

  /** Later cutoffs count no more. */
  lemma {:induction false} AfterShrinks(times: seq<int>, cutoff: int, later: int)
    requires cutoff <= later
    ensures After(times, later) <= After(times, cutoff)
  {
    if times != [] { AfterShrinks(times[..|times| - 1], cutoff, later); }
  }

  lemma {:induction false} NoneAfter(times: seq<int>, cutoff: int)
    requires forall i :: 0 <= i < |times| ==> times[i] <= cutoff
    ensures After(times, cutoff) == 0
  {
    if times != [] { NoneAfter(times[..|times| - 1], cutoff); }
  }

  /** `kept` is what purges up to `clock` may have left of `full`. */
  ghost predicate Kept(config: Config, full: seq<int>, kept: seq<int>, clock: int) {
    |kept| <= |full| && full[|full| - |kept|..] == kept
    && forall i :: 0 <= i < |full| - |kept| ==> full[i] <= clock - config.window
  }

  ghost predicate AllKept(config: Config, full: Failures, kept: Failures, clock: int) {
    forall ip :: Kept(config, At(full, ip), At(kept, ip), clock)
  }

  /** Expired failures make no difference to an answer, however long ago they were purged... */
  lemma {:induction false} KeptAnswers(config: Config, full: seq<int>, kept: seq<int>, clock: int, now: int)
    requires Kept(config, full, kept, clock) && clock <= now
    requires config.maxAttempts >= 1 || config.lockout < config.window
    ensures Allowed(config, kept, now) == Allowed(config, full, now)
  {
    var cutoff, n := now - config.window, |full| - |kept|;
    AfterDrop(full, n, cutoff);
    if kept == [] {
      NoneAfter(full, cutoff);
    } else {
      assert kept[|kept| - 1] == full[|full| - 1];
    }
  }

  /** ... exactly when a limit is set, or the lockout is shorter than the window. */
  ghost predicate PurgesInvisible(config: Config) {
    forall times: seq<int>, clock: int, now: int :: clock <= now ==> PurgeInvisible(config, times, clock, now)
  }

  ghost predicate PurgeInvisible(config: Config, times: seq<int>, clock: int, now: int) {
    Allowed(config, Unexpired(times, clock - config.window), now) == Allowed(config, times, now)
  }

  lemma {:induction false} PurgesInvisibleExactly(config: Config)
    requires config.enabled
    ensures PurgesInvisible(config) <==> config.maxAttempts >= 1 || config.lockout < config.window
  {
    if config.maxAttempts >= 1 || config.lockout < config.window {
      forall times: seq<int>, clock: int, now: int | clock <= now ensures PurgeInvisible(config, times, clock, now) {
        KeptAnswers(config, times, Unexpired(times, clock - config.window), clock, now);
      }
    } else {
      var times := [-config.window];
      assert Expired(times, -config.window) == 1 by { ExpiredIs(times, -config.window, 1); }
      NoneAfter(times, -config.window);
      assert !Allowed(config, times, 0) && times[1..] == [];
      assert !PurgeInvisible(config, times, 0, 0);
    }
  }

  /** What happens to a limiter, and when. */
  datatype Event = Fail(ip: Address, at: int) | Clear(ip: Address, at: int) | Purge(at: int)

  function Apply(config: Config, failures: Failures, e: Event): Failures {
    match e
    case Fail(ip, at) => Recorded(config, failures, ip, at)
    case Clear(ip, _) => Cleared(config, failures, ip)
    case Purge(at) => Purged(config, failures, at)
  }

  function Run(config: Config, failures: Failures, events: seq<Event>): Failures {
    if events == [] then failures
    else Apply(config, Run(config, failures, events[..|events| - 1]), events[|events| - 1])
  }

  /** The same events for a limiter that never purges. */
  function RunUnpurged(config: Config, failures: Failures, events: seq<Event>): Failures {
    if events == [] then failures
    else
      var before, e := RunUnpurged(config, failures, events[..|events| - 1]), events[|events| - 1];
      if e.Purge? then before else Apply(config, before, e)
  }

  /** The clock does not go back, and does not pass `clock`. */
  ghost predicate Timed(events: seq<Event>, clock: int) {
    events == [] || (events[|events| - 1].at <= clock && Timed(events[..|events| - 1], events[|events| - 1].at))
  }

  lemma {:induction false} KeptLater(config: Config, full: Failures, kept: Failures, clock: int, later: int)
    requires AllKept(config, full, kept, clock) && clock <= later
    ensures AllKept(config, full, kept, later)
  {
    forall ip ensures Kept(config, At(full, ip), At(kept, ip), later) {
      assert Kept(config, At(full, ip), At(kept, ip), clock);
    }
  }

  lemma {:induction false} UnexpiredKept(config: Config, full: seq<int>, kept: seq<int>, now: int)
    requires Kept(config, full, kept, now)
    ensures Kept(config, full, Unexpired(kept, now - config.window), now)
  {
    var rest, gone := Unexpired(kept, now - config.window), |full| - |kept|;
    assert full[|full| - |rest|..] == rest;
    forall i | 0 <= i < |full| - |rest| ensures full[i] <= now - config.window {
      if i >= gone { assert full[gone..][i - gone] == kept[i - gone]; }
    }
  }

  /** What an event does to one address. */
  function Entry(config: Config, times: seq<int>, e: Event, ip: Address): seq<int> {
    match e
    case Fail(who, at) => if config.enabled && who == ip then times + [at] else times
    case Clear(who, _) => if config.enabled && who == ip then [] else times
    case Purge(at) => Unexpired(times, at - config.window)
  }

  lemma {:induction false} ApplyEntry(config: Config, failures: Failures, e: Event, ip: Address)
    ensures At(Apply(config, failures, e), ip) == Entry(config, At(failures, ip), e, ip)
  {
  }

  lemma {:induction false} MoreKept(config: Config, full: seq<int>, kept: seq<int>, at: int)
    requires Kept(config, full, kept, at)
    ensures Kept(config, full + [at], kept + [at], at)
  {
    var n := |full| - |kept|;
    assert (full + [at])[n..] == full[n..] + [at];
  }

  lemma {:induction false} NoneKept(config: Config, clock: int)
    ensures Kept(config, [], [], clock)
  {
  }

  lemma {:induction false} EntryKept(config: Config, full: seq<int>, kept: seq<int>, e: Event, ip: Address)
    requires Kept(config, full, kept, e.at)
    ensures Kept(config, if e.Purge? then full else Entry(config, full, e, ip), Entry(config, kept, e, ip), e.at)
  {
    hide Kept;
    match e
    case Fail(_, at) => MoreKept(config, full, kept, at);
    case Clear(_, at) => NoneKept(config, at);
    case Purge(at) => UnexpiredKept(config, full, kept, at);
  }

  lemma {:induction false} ApplyKept(config: Config, full: Failures, kept: Failures, e: Event)
    requires AllKept(config, full, kept, e.at)
    ensures AllKept(config, if e.Purge? then full else Apply(config, full, e), Apply(config, kept, e), e.at)
  {
    var fullAfter, keptAfter := if e.Purge? then full else Apply(config, full, e), Apply(config, kept, e);
    forall ip ensures Kept(config, At(fullAfter, ip), At(keptAfter, ip), e.at) {
      ApplyEntry(config, full, e, ip);
      ApplyEntry(config, kept, e, ip);
      EntryKept(config, At(full, ip), At(kept, ip), e, ip);
    }
  }

  lemma {:induction false} RunKept(config: Config, events: seq<Event>, clock: int)
    requires Timed(events, clock)
    ensures AllKept(config, RunUnpurged(config, map[], events), Run(config, map[], events), clock)
  {
    if events == [] {
      forall ip ensures Kept(config, At(map[], ip), At(map[], ip), clock) {
      }
    } else {
      var n := |events| - 1;
      var e := events[n];
      RunKept(config, events[..n], e.at);
      var full, kept := RunUnpurged(config, map[], events[..n]), Run(config, map[], events[..n]);
      ApplyKept(config, full, kept, e);
      KeptLater(config, if e.Purge? then full else Apply(config, full, e), Apply(config, kept, e), e.at, clock);
    }
  }

  /** On any run with purges in between, every answer is that of a limiter that forgets nothing. */
  lemma {:induction false} PurgingRefines(config: Config, events: seq<Event>, ip: Address, now: int)
    requires Timed(events, now) && (config.maxAttempts >= 1 || config.lockout < config.window)
    ensures Allowed(config, At(Run(config, map[], events), ip), now)
            == Allowed(config, At(RunUnpurged(config, map[], events), ip), now)
  {
    RunKept(config, events, now);
    var full, kept := RunUnpurged(config, map[], events), Run(config, map[], events);
    assert Kept(config, At(full, ip), At(kept, ip), now);
    KeptAnswers(config, At(full, ip), At(kept, ip), now, now);
  }

  /** Failures are recorded in the order of the clock. */
  ghost predicate Ordered(times: seq<int>, clock: int) {
    && (forall i, j :: 0 <= i < j < |times| ==> times[i] <= times[j])
    && forall i :: 0 <= i < |times| ==> times[i] <= clock
  }

  lemma {:induction false} RunOrdered(config: Config, events: seq<Event>, clock: int, ip: Address)
    requires Timed(events, clock)
    ensures Ordered(At(Run(config, map[], events), ip), clock)
  {
    if events != [] {
      var n := |events| - 1;
      RunOrdered(config, events[..n], events[n].at, ip);
      ApplyEntry(config, Run(config, map[], events[..n]), events[n], ip);
    }
  }

  /** The failures an address can have at time `clock`, after some run. */
  ghost predicate Reached(config: Config, times: seq<int>, clock: int) {
    exists events, ip :: Reaches(config, events, ip, times, clock)
  }

  ghost predicate Reaches(config: Config, events: seq<Event>, ip: Address, times: seq<int>, clock: int) {
    Timed(events, clock) && At(Run(config, map[], events), ip) == times
  }

  function FailuresOf(ip: Address, times: seq<int>): seq<Event> {
    seq(|times|, i requires 0 <= i < |times| => Fail(ip, times[i]))
  }

  lemma {:induction false} FailuresReach(config: Config, ip: Address, times: seq<int>, clock: int)
    requires config.enabled && Ordered(times, clock)
    ensures Reaches(config, FailuresOf(ip, times), ip, times, clock)
  {
    if times != [] {
      var n := |times| - 1;
      assert FailuresOf(ip, times)[..n] == FailuresOf(ip, times[..n]);
      FailuresReach(config, ip, times[..n], times[n]);
      assert times[..n] + [times[n]] == times;
    }
  }

  /** They are the sequences that do not go back in time. */
  lemma {:induction false} ReachedIsOrdered(config: Config, times: seq<int>, clock: int)
    requires config.enabled
    ensures Reached(config, times, clock) <==> Ordered(times, clock)
  {
    if Reached(config, times, clock) {
      var events, ip :| Reaches(config, events, ip, times, clock);
      RunOrdered(config, events, clock, ip);
    }
    if Ordered(times, clock) {
      FailuresReach(config, Address(""), times, clock);
    }
  }

  /** After any run, an address is allowed once the window has passed since its last failure. */
  lemma {:induction false} WindowPassed(config: Config, events: seq<Event>, ip: Address, now: int)
    requires config.maxAttempts >= 1 && Timed(events, now)
    requires var times := At(Run(config, map[], events), ip); times != [] ==> now >= times[|times| - 1] + config.window
    ensures Allowed(config, At(Run(config, map[], events), ip), now)
  {
    RunOrdered(config, events, now, ip);
    NoneAfter(At(Run(config, map[], events), ip), now - config.window);
  }

  /** Without new failures, an address that is allowed after some run stays allowed. */
  ghost predicate StaysAllowed(config: Config) {
    forall times: seq<int>, now: int, later: int ::
      Reached(config, times, now) && now <= later ==> Stays(config, times, now, later)
  }

  ghost predicate Stays(config: Config, times: seq<int>, now: int, later: int) {
    Allowed(config, times, now) ==> Allowed(config, times, later)
  }

  /**
    Failing again means fewer failures in the window and yet a longer lockout: from 10 or more down
    to fewer than 10, with a configured lockout over five minutes, while the limit is still reached.
   */
  predicate Steady(config: Config) {
    || config.lockout <= MINUTES_5 + 1 || config.maxAttempts >= 10
    || config.window <= MINUTES_5 + (if config.maxAttempts >= 1 then 2 else 1)
  }

  lemma {:induction false} SteadyStays(config: Config, times: seq<int>, now: int, later: int)
    requires Steady(config) && Ordered(times, now) && now <= later && Allowed(config, times, now)
    ensures Allowed(config, times, later)
  {
    if times != [] {
      AfterShrinks(times, now - config.window, later - config.window);
      var last := times[|times| - 1];
      if last <= now - config.window { NoneAfter(times, now - config.window); }
      if last <= later - config.window { NoneAfter(times, later - config.window); }
    }
  }

  /** `n` failures at time 0. */
  function Burst(n: nat): (times: seq<int>)
    ensures |times| == n && forall i :: 0 <= i < n ==> times[i] == 0
  {
    seq(n, i => 0)
  }

  lemma {:induction false} AllAfter(times: seq<int>, cutoff: int)
    requires forall i :: 0 <= i < |times| ==> times[i] > cutoff
    ensures After(times, cutoff) == |times|
  {
    if times != [] { AllAfter(times[..|times| - 1], cutoff); }
  }

  /** Ten failures, the first of which expires a nanosecond before the others matter again. */
  lemma {:induction false} Relapses(config: Config) returns (times: seq<int>)
    requires config.enabled && !Steady(config)
    ensures Ordered(times, MINUTES_5 + 1) && !Stays(config, times, MINUTES_5 + 1, MINUTES_5 + 2)
  {
    var w, now, later := config.window, MINUTES_5 + 1, MINUTES_5 + 2;
    if w > MINUTES_5 + 2 {
      var nine := Burst(9);
      times := [later - w] + nine;
      AllAfter(times, now - w);
      AllAfter(nine, later - w);
      assert times[1..] == nine;
      AfterDrop(times, 1, later - w);
    } else {
      times := Burst(10);
      AllAfter(times, now - w);
      NoneAfter(times, later - w);
    }
  }

  /** The exact condition, to the nanosecond. */
  lemma {:induction false} StaysAllowedExactly(config: Config)
    requires config.enabled
    ensures StaysAllowed(config) <==> Steady(config)
  {
    if Steady(config) {
      forall times: seq<int>, now: int, later: int | Reached(config, times, now) && now <= later
        ensures Stays(config, times, now, later)
      {
        ReachedIsOrdered(config, times, now);
        if Allowed(config, times, now) { SteadyStays(config, times, now, later); }
      }
    } else {
      var times := Relapses(config);
      ReachedIsOrdered(config, times, MINUTES_5 + 1);
    }
  }

  /** After some run an address is locked out `d` after its last failure. */
  ghost predicate CanBeLocked(config: Config, d: nat) {
    exists times :: IsLocked(config, times, d)
  }

  ghost predicate IsLocked(config: Config, times: seq<int>, d: nat) {
    times != [] && Reached(config, times, times[|times| - 1]) && !Allowed(config, times, times[|times| - 1] + d)
  }

  /**
    A lockout ends with the window, whatever its length: the hour that 20 failures are to cost is over
    after five minutes when the window is five minutes.
   */
  lemma {:induction false} LockedExactly(config: Config, d: nat)
    requires config.enabled && config.maxAttempts >= 1
    ensures CanBeLocked(config, d) <==>
              d < config.window && (d <= HOUR || (config.maxAttempts < 10 && d <= config.lockout))
  {
    if CanBeLocked(config, d) {
      var times :| IsLocked(config, times, d);
      var last := times[|times| - 1];
      ReachedIsOrdered(config, times, last);
      if d >= config.window { NoneAfter(times, last + d - config.window); }
    }
    if d < config.window && (d <= HOUR || (config.maxAttempts < 10 && d <= config.lockout)) {
      var times := Burst(if d > HOUR || config.maxAttempts > 20 then config.maxAttempts else 20);
      AllAfter(times, d - config.window);
      ReachedIsOrdered(config, times, 0);
      assert IsLocked(config, times, d);
    }
  }

  /** Exactly the last `n` failures lie behind the cutoff. */
  ghost predicate LastBehind(times: seq<int>, n: nat, cutoff: int) {
    n <= |times| && forall i :: 0 <= i < |times| ==> (times[i] > cutoff <==> i >= |times| - n)
  }

  lemma {:induction false} AfterIsLast(times: seq<int>, n: nat, cutoff: int)
    requires LastBehind(times, n, cutoff)
    ensures After(times, cutoff) == n
  {
    var k := |times| - n;
    AfterDrop(times, k, cutoff);
    AllAfter(times[k..], cutoff);
  }

  /**
    The answer in numbers: with `n` of the failures inside the window, an address is refused exactly
    when `n` reaches the limit and since the last failure no more has passed than an hour from 20
    failures on, five minutes from 10 on, and the configured lockout before.
   */
  lemma {:induction false} RefusedExactly(config: Config, times: seq<int>, now: int, n: nat)
    requires config.enabled && times != [] && LastBehind(times, n, now - config.window)
    ensures !Allowed(config, times, now) <==>
              && n >= config.maxAttempts
              && now - times[|times| - 1] <=
                 (if n >= 20 then 3_600_000_000_000 else if 10 <= n <= 19 then 300_000_000_000 else config.lockout)
  {
    AfterIsLast(times, n, now - config.window);
  }

  /** In order of time, the failures inside the window are the last ones. */
  lemma {:induction false} OrderedBehind(times: seq<int>, clock: int, cutoff: int) returns (n: nat)
    requires Ordered(times, clock)
    ensures LastBehind(times, n, cutoff)
  {
    n := 0;
    while n < |times| && times[|times| - 1 - n] > cutoff
      invariant n <= |times| && forall i :: |times| - n <= i < |times| ==> times[i] > cutoff
    {
      n := n + 1;
    }
  }

  /** `n` failures at one moment, asked `d` later. */
  lemma {:induction false} BurstRefusedExactly(config: Config, times: seq<int>, at: int, d: nat)
    requires config.enabled && times != [] && |times| >= config.maxAttempts && config.maxAttempts >= 1
    requires forall i :: 0 <= i < |times| ==> times[i] == at
    ensures var n := |times|;
            !Allowed(config, times, at + d) <==>
              && d < config.window
              && d <= (if n >= 20 then 3_600_000_000_000 else if 10 <= n <= 19 then 300_000_000_000 else config.lockout)
  {
    RefusedExactly(config, times, at + d, if d < config.window then |times| else 0);
  }

  /** A cleared address is allowed, whatever it did before; no other address notices. */
  lemma {:induction false} ClearedIsAllowed(config: Config, failures: Failures, ip: Address, other: Address, now: int)
    ensures Allowed(config, At(Cleared(config, failures, ip), ip), now)
    ensures other != ip ==> At(Cleared(config, failures, ip), other) == At(failures, other)
  {
  }

  /** A failure counts for its address from then on, and for no other. */
  lemma {:induction false} RecordedCounts(
    config: Config, failures: Failures, ip: Address, other: Address, now: int, later: int)
    requires config.enabled && later - config.window < now
    ensures After(At(Recorded(config, failures, ip, now), ip), later - config.window)
            == After(At(failures, ip), later - config.window) + 1
    ensures other != ip ==> At(Recorded(config, failures, ip, now), other) == At(failures, other)
  {
    hide After;
    var before, after := At(failures, ip), At(Recorded(config, failures, ip, now), ip);
    assert after == before + [now];
    OneMoreAfter(before, now, later - config.window);
  }

  lemma {:induction false} OneMoreAfter(times: seq<int>, now: int, cutoff: int)
    requires cutoff < now
    ensures After(times + [now], cutoff) == After(times, cutoff) + 1
  {
    assert (times + [now])[..|times|] == times;
  }
}
