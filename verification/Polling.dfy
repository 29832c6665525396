/** Waiting for the device with a bounded time budget (src/polling.rs). */
module Polling {
  import opened Results
  import opened Words
  import opened RegisterFields

  /** Durations are whole nanoseconds. */
  type Duration = nat

  datatype PollConfig = PollConfig(timeout: Duration, pollInterval: Duration) {
    predicate Valid() {
      pollInterval != 0
    }
  }

  datatype PollConfigError = ZeroPollInterval

  function NewConfig(timeout: Duration, pollInterval: Duration): (r: Result<PollConfig, PollConfigError>)
    ensures r.Ok? <==> pollInterval > 0
    ensures r.Ok? ==> r.value.Valid() && r.value.timeout == timeout && r.value.pollInterval == pollInterval
  {
    if pollInterval == 0 then Err(ZeroPollInterval) else Ok(PollConfig(timeout, pollInterval))
  }

  datatype PollError<E> =
    | Source(error: E)
    | Fault(status: StatusSnapshot, polls: u64)
    | Timeout(timeout: Duration, polls: u64, lastStatus: StatusSnapshot)

  type Sample<E> = Result<StatusSnapshot, E>

  /** Any source of status words: `script` lists what it will answer, read after read. */
  class StatusReader<E> {
    const script: nat -> Sample<E>
    var position: nat

    constructor (script: nat -> Sample<E>)
      ensures this.script == script && position == 0
    {
      this.script := script;
      position := 0;
    }

    method ReadStatus() returns (r: Sample<E>)
      modifies this
      ensures r == script(old(position)) && position == old(position) + 1
    {
      r := script(position);
      position := position + 1;
    }
  }

  /** A delay that was asked for, and what the clock showed at that moment. */
  datatype Pause = Pause(asked: Duration, length: Duration)

  /**
   Any timer that never runs backwards and never wakes early.  Its n-th operation takes
   `drift(n)` longer than it should, be it a late wake-up or time spent elsewhere.
   */
  class PollTimer {
    const drift: nat -> Duration
    var clock: Duration
    var operations: nat
    ghost var delays: seq<Pause>  // the delays requested so far

    constructor (drift: nat -> Duration)
      ensures this.drift == drift && clock == 0 && operations == 0 && delays == []
    {
      this.drift := drift;
      clock, operations, delays := 0, 0, [];
    }

    ghost predicate Exact() {
      forall n: nat :: drift(n) == 0
    }

    method Now() returns (t: Duration)
      modifies this
      ensures t == clock == old(clock) + drift(old(operations))
      ensures delays == old(delays)
    {
      clock := clock + drift(operations);
      operations := operations + 1;
      t := clock;
    }

    method ElapsedSince(start: Duration) returns (d: Duration)
      modifies this
      ensures clock == old(clock) + drift(old(operations))
      ensures d == (if start <= clock then clock - start else 0)
      ensures delays == old(delays)
    {
      var t := Now();
      d := if start <= t then t - start else 0;
    }

    method Delay(duration: Duration)
      modifies this
      ensures clock == old(clock) + duration + drift(old(operations))
      ensures delays == old(delays) + [Pause(old(clock), duration)]
    {
      delays := delays + [Pause(clock, duration)];
      clock := clock + duration + drift(operations);
      operations := operations + 1;
    }
  }

  ghost function Sum(delays: seq<Pause>): Duration {
    if delays == [] then 0 else Sum(delays[..|delays| - 1]) + delays[|delays| - 1].length
  }

  /** `timeout / interval`, rounded up. */
  function Rounds(config: PollConfig): nat
    requires config.Valid()
  {
    (config.timeout + config.pollInterval - 1) / config.pollInterval
  }

  /** `Rounds` is the least number of intervals that cover the timeout. */
  lemma RoundsCoverTimeout(config: PollConfig, m: nat)
    requires config.Valid()
    ensures m * config.pollInterval < config.timeout <==> m < Rounds(config)
  {
    var T, I, K := config.timeout, config.pollInterval, Rounds(config);
    QuotientBounds(T + I - 1, I);
    if m < K {
      ProductGrows(m, K - 1, I);
      assert (K - 1) * I == K * I - I;
    } else {
      ProductGrows(K, m, I);
    }
  }

  lemma QuotientBounds(x: nat, n: nat)
    requires 0 < n
    ensures (x / n) * n <= x < (x / n) * n + n
  {
    assert x == (x / n) * n + x % n;
  }

  lemma ProductGrows(a: nat, b: nat, n: nat)
    requires a <= b
    ensures a * n <= b * n
  {
  }

  /** A sample that ends the wait whatever the time: an error, the fault bit or the ready bit. */
  predicate Decisive<E>(sample: Sample<E>) {
    sample.Err? || sample.value.raw & 4 != 0 || sample.value.raw & 1 != 0
  }

  /** What a wait must return when the last of its `n` reads gave `sample`; a fault outranks readiness. */
  ghost predicate Concluded<E>(
    config: PollConfig, sample: Sample<E>, n: nat, r: Result<StatusSnapshot, PollError<E>>)
  {
    var polls := if n <= 0xFFFF_FFFF_FFFF_FFFF then n else 0xFFFF_FFFF_FFFF_FFFF;
    match sample
    case Err(error) => r == Err(Source(error))
    case Ok(status) =>
      if status.raw & 4 != 0 then r == Err(Fault(status, polls))
      else if status.raw & 1 != 0 then r == Ok(status)
      else r == Err(Timeout(config.timeout, polls, status))
  }

  /** The first `n` samples from `first` on decide nothing. */
  ghost predicate Quiet<E>(script: nat -> Sample<E>, first: nat, n: nat) {
    forall i: nat | first <= i < first + n :: !Decisive(script(i))
  }

  lemma OneMoreQuiet<E>(script: nat -> Sample<E>, first: nat, n: nat)
    requires Quiet(script, first, n) && !Decisive(script(first + n))
    ensures Quiet(script, first, n + 1)
  {
  }

  /**
   What is known when a wait returns `r` after `n` reads, `elapsed` nanoseconds after it
   began: every sample but the last decided nothing, the last one decides the result, and
   a wait that gives up has used up the timeout.
   */
  ghost predicate Waited<E>(
    script: nat -> Sample<E>, config: PollConfig, first: nat, n: nat, elapsed: Duration,
    r: Result<StatusSnapshot, PollError<E>>)
    requires config.Valid()
  {
    && 1 <= n <= Rounds(config) + 1
    && Quiet(script, first, n - 1)
    && Concluded(config, script(first + n - 1), n, r)
    && (!Decisive(script(first + n - 1)) ==> config.timeout <= elapsed)
  }

  /**
   Delays a wait may request: together no longer than the timeout, each a whole interval
   except that the last may be shorter, though not empty.
   */
  ghost predicate WithinBudget(config: PollConfig, delays: seq<Pause>) {
    && Sum(delays) <= config.timeout
    && (forall i | 0 <= i < |delays| :: 1 <= delays[i].length <= config.pollInterval)
    && forall i | 0 <= i < |delays| - 1 :: delays[i].length == config.pollInterval
  }

  /**
   Every delay was asked for while the timeout that began at `start` was not reached, and
   for the interval or for what was left of the timeout at that moment.
   */
  ghost predicate Paced(config: PollConfig, start: Duration, delays: seq<Pause>) {
    forall i | 0 <= i < |delays| ::
      && delays[i].asked < start + config.timeout
      && delays[i].length == Min(config.pollInterval, start + config.timeout - delays[i].asked)
  }

  /** The time an exact timer shows after `m` delays, the last of which may be cut short. */
  function TimeAfter(config: PollConfig, m: nat): (t: Duration)
    ensures t <= config.timeout
  {
    if m == 0 then 0
    else
      var before := TimeAfter(config, m - 1);
      before + Min(config.pollInterval, config.timeout - before)
  }

  lemma {:induction false} TimeAfterIsMultiple(config: PollConfig, m: nat)
    ensures TimeAfter(config, m) == Min(m * config.pollInterval, config.timeout)
  {
    if m > 0 {
      TimeAfterIsMultiple(config, m - 1);
      assert m * config.pollInterval == (m - 1) * config.pollInterval + config.pollInterval;
    }
  }

  /**
   The timing of a wait that began at `start` and has requested `delays` so far: it is
   within budget, the clock has covered the delays, and an exact clock nothing else.  A
   delay shorter than the interval is asked for only to reach the timeout.
   */
  ghost predicate OnSchedule(config: PollConfig, start: Duration, clock: Duration, delays: seq<Pause>, exact: bool)
    requires config.Valid()
  {
    && start <= clock
    && |delays| <= Rounds(config)
    && WithinBudget(config, delays)
    && Sum(delays) <= clock - start
    && TimeAfter(config, |delays|) <= clock - start
    && (exact ==> clock - start == TimeAfter(config, |delays|) == Sum(delays))
    && Paced(config, start, delays)
    && (delays != [] && delays[|delays| - 1].length != config.pollInterval ==> config.timeout <= clock - start)
  }

  /** As long as the timeout is not reached there is room for one more delay. */
  lemma OneMoreDelay(
    config: PollConfig, start: Duration, before: Duration, after: Duration,
    delays: seq<Pause>, pause: Pause, exact: bool)
    requires config.Valid() && OnSchedule(config, start, before, delays, exact)
    requires before <= pause.asked < start + config.timeout && (exact ==> pause.asked == before)
    requires pause.length == Min(config.pollInterval, start + config.timeout - pause.asked)
    requires pause.asked + pause.length <= after && (exact ==> after == pause.asked + pause.length)
    ensures OnSchedule(config, start, after, delays + [pause], exact)
    ensures before < after
  {
    var next := delays + [pause];
    TimeAfterIsMultiple(config, |delays|);
    RoundsCoverTimeout(config, |delays|);
    assert next[..|delays|] == delays;
  }

  /**
   One read and what it decides: the source's error, a fault, readiness, or nothing yet.
   `round` is the number of the read, of which `polls` is the capped count.
   */
  method PollOnce<E>(reader: StatusReader<E>, config: PollConfig, polls: u64, ghost round: nat)
    returns (sample: Sample<E>, decision: Option<Result<StatusSnapshot, PollError<E>>>)
    requires polls == Min(round, U64_MAX)
    modifies reader
    ensures sample == reader.script(old(reader.position)) && reader.position == old(reader.position) + 1
    ensures decision.Some? <==> Decisive(sample)
    ensures decision.Some? ==> Concluded(config, sample, round, decision.value)
    ensures decision.None? ==> Concluded(config, sample, round, Err(Timeout(config.timeout, polls, sample.value)))
  {
    sample := reader.ReadStatus();
    match sample {
      case Err(error) =>
        decision := Some(Err(Source(error)));
      case Ok(status) =>
        if status.Fault() {
          return sample, Some(Err(Fault(status, polls)));
        }
        if status.Ready() {
          return sample, Some(Ok(status));
        }
        decision := None;
    }
  }

  /**
   What follows an undecided read: give up when the timeout is used up, otherwise delay
   for the interval or the rest of the timeout.  Apart from the loop only to split the proof.
   */
  method CheckTimeAndPause(timer: PollTimer, config: PollConfig, start: Duration, ghost requested: seq<Pause>)
    returns (expired: bool, ghost pause: Pause)
    requires config.Valid() && OnSchedule(config, start, timer.clock, requested, timer.Exact())
    modifies timer
    ensures old(timer.clock) <= timer.clock
    ensures expired ==>
              && config.timeout <= timer.clock - start && timer.delays == old(timer.delays)
              && (timer.Exact() ==> timer.clock == old(timer.clock))
    ensures !expired ==>
              && old(timer.clock) < timer.clock && old(timer.clock) < start + config.timeout
              && timer.delays == old(timer.delays) + [pause]
              && OnSchedule(config, start, timer.clock, requested + [pause], timer.Exact())
  {
    ghost var before := timer.clock;
    var elapsed := timer.ElapsedSince(start);
    expired, pause := elapsed >= config.timeout, Pause(timer.clock, 0);
    if !expired {
      var delay := Min(config.pollInterval, config.timeout - elapsed);
      pause := Pause(timer.clock, delay);
      timer.Delay(delay);
      OneMoreDelay(config, start, before, timer.clock, requested, pause, timer.Exact());
    }
  }

  /** One turn of the loop: a read, and unless that ends the wait, a pause.  Apart only to split the proof. */
  method PollAndPause<E>(
    reader: StatusReader<E>, timer: PollTimer, config: PollConfig, start: Duration, polls: u64,
    ghost first: nat, ghost requested: seq<Pause>)
    returns (result: Option<Result<StatusSnapshot, PollError<E>>>, ghost pauses: seq<Pause>)
    requires config.Valid() && OnSchedule(config, start, timer.clock, requested, timer.Exact())
    requires polls == Min(|requested| + 1, U64_MAX)
    requires reader.position == first + |requested| && Quiet(reader.script, first, |requested|)
    modifies reader, timer
    ensures reader.position == old(reader.position) + 1 && old(timer.clock) <= timer.clock
    ensures timer.delays == old(timer.delays) + pauses
    ensures result.Some? ==>
              && pauses == [] && (timer.Exact() ==> timer.clock == old(timer.clock))
              && Concluded(config, reader.script(old(reader.position)), |requested| + 1, result.value)
              && (Decisive(reader.script(old(reader.position))) || config.timeout <= timer.clock - start)
    ensures result.None? ==>
              && |pauses| == 1 && old(timer.clock) < timer.clock && old(timer.clock) < start + config.timeout
              && Quiet(reader.script, first, |requested| + 1)
              && OnSchedule(config, start, timer.clock, requested + pauses, timer.Exact())
  {
    var sample;
    sample, result := PollOnce(reader, config, polls, |requested| + 1);
    pauses := [];
    if result.None? {
      ghost var pause;
      var expired;
      expired, pause := CheckTimeAndPause(timer, config, start, requested);
      if expired {
        result := Some(Err(Timeout(config.timeout, polls, sample.value)));
      } else {
        pauses := [pause];
        OneMoreQuiet(reader.script, first, |requested|);
      }
    }
  }

  /**
   With any timer the wait ends, after at most `Rounds + 1` reads and one delay between
   any two of them.  An exact timer has then advanced by precisely those delays.
   */
  method WaitUntilReady<E>(reader: StatusReader<E>, timer: PollTimer, config: PollConfig)
    returns (r: Result<StatusSnapshot, PollError<E>>, ghost requested: seq<Pause>)
    requires config.Valid()
    modifies reader, timer
    ensures timer.delays == old(timer.delays) + requested && WithinBudget(config, requested)
    ensures reader.position == old(reader.position) + |requested| + 1 && old(timer.clock) <= timer.clock
    ensures Waited(reader.script, config, old(reader.position), |requested| + 1, timer.clock - old(timer.clock), r)
    ensures var start := old(timer.clock) + timer.drift(old(timer.operations));
            && Paced(config, start, requested)
            && (!Decisive(reader.script(old(reader.position) + |requested|)) ==> start + config.timeout <= timer.clock)
    ensures timer.Exact() ==> timer.clock - old(timer.clock) == TimeAfter(config, |requested|) == Sum(requested)
  {
    ghost var first, zero, before := reader.position, timer.clock, timer.delays;
    var start := timer.Now();
    var polls: u64 := 0;
    requested := [];
    while true
      invariant reader.position == first + |requested| && polls == Min(|requested|, U64_MAX)
      invariant Quiet(reader.script, first, |requested|)
      invariant timer.delays == before + requested
      invariant zero <= start && (timer.Exact() ==> start == zero)
      invariant OnSchedule(config, start, timer.clock, requested, timer.Exact())
      decreases start + config.timeout - timer.clock
    {
      polls := SaturatingSuccessor(polls);
      ghost var pauses;
      var result;
      result, pauses := PollAndPause(reader, timer, config, start, polls, first, requested);
      if result.Some? {
        return result.value, requested;
      }
      requested := requested + pauses;
    }
  }

  /**
   With an exact timer the samples alone decide.  The first decisive one among the first
   `Rounds + 1` is reported, after `k` intervals or the timeout; if there is none, the
   wait times out after `Rounds + 1` reads and exactly the timeout.
   */
  ghost predicate DecidedBySamples<E>(
    script: nat -> Sample<E>, config: PollConfig, first: nat, n: nat, elapsed: Duration,
    r: Result<StatusSnapshot, PollError<E>>)
    requires config.Valid()
  {
    && (forall k: nat | k <= Rounds(config) && Quiet(script, first, k) && Decisive(script(first + k)) ::
          && n == k + 1 && elapsed == Min(k * config.pollInterval, config.timeout)
          && Concluded(config, script(first + k), k + 1, r))
    && (Quiet(script, first, Rounds(config) + 1) ==>
          && n == Rounds(config) + 1 && elapsed == config.timeout
          && !Decisive(script(first + Rounds(config)))
          && r == Err(Timeout(config.timeout, Min(n, U64_MAX), script(first + Rounds(config)).value)))
  }

  lemma ExactTimerOutcome<E>(
    script: nat -> Sample<E>, config: PollConfig, first: nat, n: nat, elapsed: Duration,
    r: Result<StatusSnapshot, PollError<E>>)
    requires config.Valid() && Waited(script, config, first, n, elapsed, r)
    requires elapsed == TimeAfter(config, n - 1)
    ensures DecidedBySamples(script, config, first, n, elapsed, r)
  {
    var last := first + n - 1;
    TimeAfterIsMultiple(config, n - 1);
    RoundsCoverTimeout(config, n - 1);
    if !Decisive(script(last)) {
      assert n == Rounds(config) + 1;
    }
  }

  /** The wait under an exact timer: result, number of reads and total delay are all determined. */
  method WaitWithExactTimer<E>(reader: StatusReader<E>, timer: PollTimer, config: PollConfig)
    returns (r: Result<StatusSnapshot, PollError<E>>, ghost requested: seq<Pause>)
    requires config.Valid() && timer.Exact()
    modifies reader, timer
    ensures timer.delays == old(timer.delays) + requested
    ensures reader.position == old(reader.position) + |requested| + 1
    ensures timer.clock == old(timer.clock) + Sum(requested)
    ensures DecidedBySamples(reader.script, config, old(reader.position), |requested| + 1, Sum(requested), r)
  {
    r, requested := WaitUntilReady(reader, timer, config);
    ExactTimerOutcome(reader.script, config, old(reader.position), |requested| + 1, Sum(requested), r);
  }
}
