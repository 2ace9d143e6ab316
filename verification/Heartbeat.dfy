/** Heartbeat intervals against the server's liveness rule, and the two schedulers that ping at them. */
module Heartbeat {
  import opened Common

  // ---------- Intervals, in microseconds ----------

  const SECOND: int := 1000000
  const DEFAULT_WINDOW_SECONDS: int := 600
  const PINGS_PER_WINDOW: int := 3
  const MIN_INTERVAL: int := SECOND
  const MACHINE_RECOMMENDED_INTERVAL: int := 200 * SECOND
  const PROCESS_RECOMMENDED_INTERVAL: int := 10 * SECOND

  function Max(a: int, b: int): int {
    if a >= b then a else b
  }

  /** `effective_heartbeat_window_seconds` of a stored `heartbeat_duration`. */
  function EffectiveWindow(stored: Option<int>): int {
    if stored.None? || stored.value <= 0 then DEFAULT_WINDOW_SECONDS else stored.value
  }

  /** `heartbeat_interval_for_policy`. */
  function IntervalForPolicy(stored: Option<int>): int {
    Max(MIN_INTERVAL, EffectiveWindow(stored) / PINGS_PER_WINDOW * SECOND)
  }

  /** `_clamped_heartbeat_interval`. */
  function ClampedInterval(requested: int, default: int): int {
    if requested <= 0 then default else Max(requested, MIN_INTERVAL)
  }

  /** The window the server enforces: only an unset duration falls back. */
  function ServerWindow(stored: Option<int>): int {
    if stored.None? then DEFAULT_WINDOW_SECONDS else stored.value
  }

  /**
   * The clamp on every input: nothing or less asks for the default, a positive request under a second gets
   * one second and never the default, and every other request stands. So it is never under a second,
   * clamping twice is clamping once, and no interval a policy implies is changed.
   */
  lemma ClampBoundsTheRate(requested: int, default: int, stored: Option<int>)
    ensures requested <= 0 ==> ClampedInterval(requested, default) == default
    ensures 0 < requested < 1000000 ==> ClampedInterval(requested, default) == 1000000
    ensures requested >= 1000000 ==> ClampedInterval(requested, default) == requested
    ensures default >= MIN_INTERVAL ==>
              && ClampedInterval(requested, default) >= MIN_INTERVAL
              && ClampedInterval(ClampedInterval(requested, default), default) == ClampedInterval(requested, default)
    ensures ClampedInterval(IntervalForPolicy(stored), default) == IntervalForPolicy(stored) >= MIN_INTERVAL
  {
  }

  /**
   * The interval of every policy: 200 seconds for an unset or non-positive duration, and otherwise the
   * longest whole number of seconds of which three fit in the window, or one second where none do.
   */
  lemma PolicyInterval(stored: Option<int>)
    ensures ServerWindow(None) == 600 && EffectiveWindow(None) == 600
    ensures stored.Some? ==> ServerWindow(stored) == stored.value
    ensures stored.Some? ==> EffectiveWindow(stored) == if stored.value <= 0 then 600 else stored.value
    ensures
      var interval := IntervalForPolicy(stored);
      match stored
      case None => interval == 200000000
      case Some(w) =>
        if w <= 0 then interval == 200000000
        else
          && interval % SECOND == 0 && interval >= SECOND
          && w * SECOND < 3 * (interval + SECOND) && (interval == SECOND || 3 * interval <= w * SECOND)
  {
  }

  /** A scheduler built by hand from a stored duration that is not positive runs at the policy's own interval. */
  lemma BothPathsAgree(stored: int)
    ensures ClampedInterval(stored * SECOND, MACHINE_RECOMMENDED_INTERVAL) == IntervalForPolicy(Some(stored))
            <==> stored <= 0 || stored == 1
  {
    if stored >= 2 {
      assert IntervalForPolicy(Some(stored)) < stored * SECOND;
    }
  }

  // ---------- The server's rule ----------

  /** The age in whole seconds, truncated, is within the window. */
  predicate WithinWindow(age: real, window: int) {
    (age / SECOND as real).Floor <= window
  }

  /** So a window lasts one second longer than it says. */
  lemma WindowHasAFreeSecond(age: real, window: int)
    ensures WithinWindow(age, window) <==> age < ((window + 1) * SECOND) as real
  {
    var q := age / SECOND as real;
    assert q.Floor <= window <==> q < (window + 1) as real;
  }

  // ---------- Runs of pings ----------

  /** Ping `k` is sent at `at(k)`; `landed(k)` says whether it reached the server. */
  datatype Run = Run(at: nat -> real, landed: nat -> bool)

  /** Successive pings are at most `gap` apart. */
  ghost predicate Paced(run: Run, gap: real) {
    forall k: nat :: 0.0 <= run.at(k + 1) - run.at(k) <= gap
  }

  /** The first ping lands, and among any `m + 1` consecutive ones at least one does. */
  ghost predicate FewLosses(run: Run, m: nat) {
    run.landed(0) && forall k: nat :: LandsWithin(run, k, m)
  }

  ghost predicate LandsWithin(run: Run, k: nat, m: nat) {
    exists j :: k <= j <= k + m && run.landed(j)
  }

  /** The last ping up to `k` that landed. */
  function LastLanded(run: Run, k: nat): (j: nat)
    requires run.landed(0)
    ensures j <= k && run.landed(j) && forall i :: j < i <= k ==> !run.landed(i)
  {
    if run.landed(k) then k else LastLanded(run, k - 1)
  }

  /** The server reads the machine as alive at `t`, between pings `k` and `k + 1`. */
  predicate AliveAt(run: Run, window: int, k: nat, t: real)
    requires run.landed(0)
  {
    WithinWindow(t - run.at(LastLanded(run, k)), window)
  }

  ghost predicate AlwaysAlive(run: Run, window: int)
    requires run.landed(0)
  {
    forall k: nat, t :: run.at(k) <= t <= run.at(k + 1) ==> AliveAt(run, window, k, t)
  }

  /** `n` gaps on end. */
  function Times(n: nat, gap: real): real {
    if n == 0 then 0.0 else Times(n - 1, gap) + gap
  }

  lemma OneMore(x: real, gap: real)
    ensures (x + 1.0) * gap == x * gap + gap
  {
  }

  lemma {:induction false} TimesProduct(n: nat, gap: real)
    ensures Times(n, gap) == n as real * gap
  {
    if n > 0 {
      TimesProduct(n - 1, gap);
      OneMore((n - 1) as real, gap);
    }
  }

  lemma {:induction false} TimesGrow(a: nat, b: nat, gap: real)
    requires a <= b && gap >= 0.0
    ensures Times(a, gap) <= Times(b, gap)
  {
    if a < b {
      TimesGrow(a, b - 1, gap);
    }
  }

  lemma {:induction false} PacedSpan(run: Run, gap: real, j: nat, n: nat)
    requires Paced(run, gap)
    ensures run.at(j + n) - run.at(j) <= Times(n, gap)
  {
    if n > 0 {
      PacedSpan(run, gap, j, n - 1);
      assert run.at(j + (n - 1) + 1) - run.at(j + (n - 1)) <= gap;
    }
  }

  lemma FewLossesBehind(run: Run, m: nat, k: nat)
    requires FewLosses(run, m)
    ensures k - LastLanded(run, k) <= m
  {
    var last := LastLanded(run, k);
    assert LandsWithin(run, last + 1, m);
    var j :| last + 1 <= j <= last + 1 + m && run.landed(j);
    assert j > k;
  }

  /** Just before the next ping the last landing is at most `m + 1` gaps old. */
  lemma WorstAge(run: Run, gap: real, m: nat, k: nat)
    requires Paced(run, gap) && gap >= 0.0 && FewLosses(run, m)
    ensures run.at(k + 1) - run.at(LastLanded(run, k)) <= Times(m + 1, gap)
  {
    var last := LastLanded(run, k);
    FewLossesBehind(run, m, k);
    var n: nat := k + 1 - last;
    PacedSpan(run, gap, last, n);
    assert last + n == k + 1;
    TimesGrow(n, m + 1, gap);
  }

  /** Every run with few enough losses is alive at every instant. */
  lemma RunStaysAlive(run: Run, gap: real, window: int, m: nat)
    requires Paced(run, gap) && gap >= 0.0 && FewLosses(run, m)
    requires (m + 1) as real * gap < ((window + 1) * SECOND) as real
    ensures AlwaysAlive(run, window)
  {
    TimesProduct(m + 1, gap);
    forall k: nat, t | run.at(k) <= t <= run.at(k + 1) ensures AliveAt(run, window, k, t) {
      WorstAge(run, gap, m, k);
      WindowHasAFreeSecond(t - run.at(LastLanded(run, k)), window);
    }
  }

  /** The interval holds the window through any `m` consecutive losses. */
  ghost predicate Tolerates(interval: int, window: int, m: nat) {
    forall run :: Paced(run, interval as real) && FewLosses(run, m) ==> AlwaysAlive(run, window)
  }

  /** The run that pings exactly on the interval and loses pings 1 to `m`. */
  function LosingRun(interval: int, m: nat): Run {
    Run(k => (k * interval) as real, k => k == 0 || k > m)
  }

  lemma {:induction false} LosingRunLast(interval: int, m: nat, k: nat)
    requires k <= m
    ensures LastLanded(LosingRun(interval, m), k) == 0
  {
    if k > 0 {
      LosingRunLast(interval, m, k - 1);
    }
  }

  lemma NextMultiple(interval: int, m: nat, k: nat)
    ensures LosingRun(interval, m).at(k + 1) - LosingRun(interval, m).at(k) == interval as real
  {
    assert (k + 1) * interval == k * interval + interval;
  }

  lemma LosingRunIsAdmissible(interval: int, m: nat)
    requires interval >= 0
    ensures Paced(LosingRun(interval, m), interval as real) && FewLosses(LosingRun(interval, m), m)
  {
    var run := LosingRun(interval, m);
    forall k: nat ensures 0.0 <= run.at(k + 1) - run.at(k) <= interval as real {
      NextMultiple(interval, m, k);
    }
    forall k: nat ensures LandsWithin(run, k, m) {
      assert run.landed(if k == 0 then 0 else k + m);
    }
  }

  /** Exactly how many losses an interval tolerates: the next landing must come before the free second ends. */
  lemma ToleranceExact(interval: int, window: int, m: nat)
    requires interval > 0
    ensures Tolerates(interval, window, m) <==> (m + 1) * interval < (window + 1) * SECOND
  {
    if (m + 1) * interval < (window + 1) * SECOND {
      forall run | Paced(run, interval as real) && FewLosses(run, m) ensures AlwaysAlive(run, window) {
        assert (m + 1) as real * interval as real == ((m + 1) * interval) as real;
        RunStaysAlive(run, interval as real, window, m);
      }
    } else {
      var run := LosingRun(interval, m);
      LosingRunIsAdmissible(interval, m);
      LosingRunLast(interval, m, m);
      var t := run.at(m + 1);
      WindowHasAFreeSecond(t - run.at(0), window);
      assert run.at(m) <= t by {
        assert (m + 1) * interval == m * interval + interval;
      }
      assert !AliveAt(run, window, m, t);
    }
  }

  /** A policy's own interval, judged against the window the server enforces for it. */
  ghost predicate PolicyTolerates(stored: Option<int>, m: nat) {
    Tolerates(IntervalForPolicy(stored), ServerWindow(stored), m)
  }

  /**
   * For every stored duration and every number of losses: a positive window of `w` seconds holds
   * through `m` of them exactly when `m + 1` whole-second intervals fit in it, an unset one through
   * two, and a window of zero or less is not held at all.
   */
  lemma PolicyTolerance(stored: Option<int>, m: nat)
    ensures PolicyTolerates(stored, m)
            <==> match stored
                 case None => m <= 2
                 case Some(w) => w > 0 && (m + 1) * Max(1, w / PINGS_PER_WINDOW) <= w
  {
    var interval, window := IntervalForPolicy(stored), ServerWindow(stored);
    ToleranceExact(interval, window, m);
    var seconds := Max(1, EffectiveWindow(stored) / PINGS_PER_WINDOW);
    assert interval == seconds * SECOND;
    assert (m + 1) * interval == ((m + 1) * seconds) * SECOND;
    if window <= 0 {
      assert (m + 1) * seconds >= 1;
    }
  }

  /** Two losses are tolerated from three seconds up, and a third only by windows of 4, 5 and 8 seconds. */
  lemma TwoLossesFromThreeSeconds(w: int)
    requires w >= 3
    ensures PolicyTolerates(Some(w), 2)
    ensures PolicyTolerates(Some(w), 3) <==> w == 4 || w == 5 || w == 8
  {
    PolicyTolerance(Some(w), 2);
    PolicyTolerance(Some(w), 3);
  }

  /** Below three seconds the floor binds: a window of 2 keeps one spare ping, of 1 none, of 0 or less nothing. */
  lemma ShortWindows(w: int, m: nat)
    requires w < 3
    ensures PolicyTolerates(Some(w), m) <==> m < w
  {
    PolicyTolerance(Some(w), m);
  }

  /** No interval the schedulers accept holds a zero window, and none at all holds a negative one. */
  lemma UnholdableWindows(interval: int, window: int)
    requires interval > 0
    ensures window < 0 ==> !Tolerates(interval, window, 0)
    ensures window == 0 ==> (Tolerates(interval, window, 0) <==> interval < MIN_INTERVAL)
  {
    ToleranceExact(interval, window, 0);
    if window < 0 {
      assert (window + 1) * SECOND <= 0;
    }
  }

  /** Two losses are still tolerated when each turn overruns its interval by less than a third of a second. */
  lemma TwoLossesWithLatency(w: int, run: Run, overrun: real)
    requires w >= 3 && 0.0 <= 3.0 * overrun < SECOND as real
    requires Paced(run, IntervalForPolicy(Some(w)) as real + overrun) && FewLosses(run, 2)
    ensures AlwaysAlive(run, w)
  {
    RunStaysAlive(run, IntervalForPolicy(Some(w)) as real + overrun, w, 2);
  }

  // ---------- The machine scheduler ----------

  datatype HeartbeatStatus = NotStarted | Alive | Dead | Resurrected

  datatype PingError = NotFound | OtherError

  datatype PingOutcome = Answered(status: HeartbeatStatus) | Failed(error: PingError)

  /** One turn of a ping loop: what the ping did, how long it took, and whether somebody asked to stop meanwhile. */
  datatype Turn = Turn(outcome: PingOutcome, latency: real, stopAsked: bool)

  datatype LoopEnd = Stopped | Raised(error: PingError) | Cancelled

  /** When turn `k` sends its ping. */
  function SentAt(start: real, interval: int, turns: nat -> Turn, k: nat): real {
    if k == 0 then start else SentAt(start, interval, turns, k - 1) + turns(k - 1).latency + interval as real
  }

  lemma SentNext(start: real, interval: int, turns: nat -> Turn, k: nat)
    ensures SentAt(start, interval, turns, k + 1)
        == SentAt(start, interval, turns, k) + turns(k).latency + interval as real
  {
  }

  ghost predicate OnSchedule(pings: seq<real>, start: real, interval: int, turns: nat -> Turn) {
    forall k :: 0 <= k < |pings| ==> pings[k] == SentAt(start, interval, turns, k)
  }

  lemma OneMoreOnSchedule(pings: seq<real>, start: real, interval: int, turns: nat -> Turn)
    requires OnSchedule(pings, start, interval, turns)
    ensures OnSchedule(pings + [SentAt(start, interval, turns, |pings|)], start, interval, turns)
  {
  }

  /** A turn after which the loop goes on. */
  predicate GoesOn(turn: Turn) {
    turn.outcome.Answered? && !turn.stopAsked
  }

  /** How many pings go out and how the loop ends when the caller's runtime cancels it after `limit` turns. */
  function LoopFrom(turns: nat -> Turn, k: nat, limit: nat): (nat, LoopEnd)
    requires k <= limit
    decreases limit - k
  {
    if k == limit then (k, Cancelled)
    else if turns(k).outcome.Failed? then (k + 1, Raised(turns(k).outcome.error))
    else if turns(k).stopAsked then (k + 1, Stopped)
    else LoopFrom(turns, k + 1, limit)
  }

  class HeartbeatScheduler {
    const machine: nat
    var interval: int
    var stopped: bool

    constructor (machine: nat, requested: int)
      ensures this.machine == machine && !stopped
      // Every 200 s unless the request is positive, and never faster than once a second.
      ensures requested <= 0 ==> interval == 200 * SECOND
      ensures 0 < requested < SECOND ==> interval == SECOND
      ensures requested >= SECOND ==> interval == requested
    {
      this.machine := machine;
      this.interval := ClampedInterval(requested, MACHINE_RECOMMENDED_INTERVAL);
      this.stopped := false;
    }

    /** `for_policy`: the constructor's clamp leaves the policy's interval as it is. */
    static method ForPolicy(machine: nat, stored: Option<int>) returns (scheduler: HeartbeatScheduler)
      ensures fresh(scheduler) && scheduler.machine == machine && !scheduler.stopped
      ensures scheduler.interval == IntervalForPolicy(stored)
    {
      scheduler := new HeartbeatScheduler(machine, IntervalForPolicy(stored));
    }

    method Stop()
      modifies this`stopped
      ensures stopped
    {
      stopped := true;
    }

    /** `run_forever`; `pings` are the times at which pings went out. */
    method RunForever(start: real, turns: nat -> Turn, limit: nat) returns (pings: seq<real>, end: LoopEnd)
      modifies this`stopped
      ensures (|pings|, end) == if old(stopped) then (0, Stopped) else LoopFrom(turns, 0, limit)
      ensures OnSchedule(pings, start, interval, turns)
      ensures end.Stopped? ==> stopped
    {
      pings := [];
      if stopped {
        return pings, Stopped;
      }
      ghost var goal := LoopFrom(turns, 0, limit);
      var now := start;
      while !stopped
        invariant |pings| <= limit && now == SentAt(start, interval, turns, |pings|)
        invariant goal == if stopped then (|pings|, Stopped) else LoopFrom(turns, |pings|, limit)
        invariant OnSchedule(pings, start, interval, turns)
        decreases limit - |pings|, !stopped
      {
        if |pings| == limit {
          return pings, Cancelled;
        }
        OneMoreOnSchedule(pings, start, interval, turns);
        SentNext(start, interval, turns, |pings|);
        var turn := turns(|pings|);
        pings := pings + [now];
        if turn.outcome.Failed? {
          return pings, Raised(turn.outcome.error);
        }
        stopped := turn.stopAsked;
        now := now + turn.latency + interval as real;
      }
      end := Stopped;
    }
  }

  /**
   * Only a stop request, a failed ping or the caller's runtime ends the loop: every turn before the
   * last was answered and not asked to stop, and the last one says why it was the last.
   */
  lemma {:induction false} LoopEndsOnlyFor(turns: nat -> Turn, k: nat, limit: nat)
    requires k <= limit
    ensures
      var (n, end) := LoopFrom(turns, k, limit);
      && k <= n <= limit
      && (forall j :: k <= j < n - 1 ==> GoesOn(turns(j)))
      && match end
         case Cancelled => n == limit && forall j :: k <= j < n ==> GoesOn(turns(j))
         case Raised(error) => n > k && turns(n - 1).outcome == Failed(error)
         case Stopped => n > k && turns(n - 1).outcome.Answered? && turns(n - 1).stopAsked
    decreases limit - k
  {
    if k < limit && GoesOn(turns(k)) {
      LoopEndsOnlyFor(turns, k + 1, limit);
    }
  }

  /** The same turn with another status in the answer. */
  predicate SameButStatus(a: Turn, b: Turn) {
    a.stopAsked == b.stopAsked && a.latency == b.latency
      && (a.outcome == b.outcome || (a.outcome.Answered? && b.outcome.Answered?))
  }

  /** No status a ping reports, `Dead` included, changes how many pings go out, when, or how the loop ends. */
  lemma {:induction false} StatusNeverMatters(a: nat -> Turn, b: nat -> Turn, start: real, interval: int, k: nat,
                                              limit: nat)
    requires k <= limit && forall j :: SameButStatus(a(j), b(j))
    ensures LoopFrom(a, k, limit) == LoopFrom(b, k, limit)
    ensures SentAt(start, interval, a, k) == SentAt(start, interval, b, k)
    decreases limit - k
  {
    SameSendTimes(a, b, start, interval, k);
    assert SameButStatus(a(k), b(k));
    if k < limit && GoesOn(a(k)) {
      StatusNeverMatters(a, b, start, interval, k + 1, limit);
    }
  }

  lemma {:induction false} SameSendTimes(a: nat -> Turn, b: nat -> Turn, start: real, interval: int, k: nat)
    requires forall j :: SameButStatus(a(j), b(j))
    ensures SentAt(start, interval, a, k) == SentAt(start, interval, b, k)
  {
    if k > 0 {
      SameSendTimes(a, b, start, interval, k - 1);
      assert SameButStatus(a(k - 1), b(k - 1));
    }
  }

  /** The loop with the break it once had: an answer with a status that breaks ends it for good. */
  function LoopBreakingOn(breaks: HeartbeatStatus -> bool, turns: nat -> Turn, k: nat, limit: nat): (nat, LoopEnd)
    requires k <= limit
    decreases limit - k
  {
    if k == limit then (k, Cancelled)
    else if turns(k).outcome.Failed? then (k + 1, Raised(turns(k).outcome.error))
    else if turns(k).stopAsked || breaks(turns(k).outcome.status) then (k + 1, Stopped)
    else LoopBreakingOn(breaks, turns, k + 1, limit)
  }

  /** Breaking on a status is harmless exactly when none of the turns the loop goes on after reports it. */
  lemma {:induction false} BreakingIsHarmlessExactly(breaks: HeartbeatStatus -> bool, turns: nat -> Turn, k: nat,
                                                     limit: nat)
    requires k <= limit
    ensures LoopBreakingOn(breaks, turns, k, limit) == LoopFrom(turns, k, limit)
       <==> forall j :: k <= j < LoopFrom(turns, k, limit).0 && GoesOn(turns(j)) ==> !breaks(turns(j).outcome.status)
    decreases limit - k
  {
    LoopEndsOnlyFor(turns, k, limit);
    if k < limit && GoesOn(turns(k)) {
      LoopEndsOnlyFor(turns, k + 1, limit);
      BreakingIsHarmlessExactly(breaks, turns, k + 1, limit);
      if breaks(turns(k).outcome.status) && LoopFrom(turns, k, limit).0 == k + 1 {
        assert LoopFrom(turns, k, limit).1 == Cancelled;
      }
    }
  }

  /** The first failed ping is the last one sent: the loop by itself rides out no loss that raises. */
  lemma {:induction false} FirstFailureIsTerminal(turns: nat -> Turn, k: nat, first: nat, limit: nat)
    requires k <= first < limit && turns(first).outcome.Failed?
    requires forall j :: k <= j < first ==> GoesOn(turns(j))
    ensures LoopFrom(turns, k, limit) == (first + 1, Raised(turns(first).outcome.error))
    decreases first - k
  {
    if k < first {
      assert GoesOn(turns(k));
      FirstFailureIsTerminal(turns, k + 1, first, limit);
    }
  }

  // ---------- The loop against the server's rule ----------

  /**
   * When the pings reach the server: each between being sent and its turn's end, if it reaches it at
   * all. A ping that was answered has landed; one that failed may have.
   */
  ghost predicate Lands(lands: nat -> real, landed: nat -> bool, start: real, interval: int, turns: nat -> Turn,
                        n: nat)
  {
    forall k :: 0 <= k < n ==>
      && SentAt(start, interval, turns, k) <= lands(k) <= SentAt(start, interval, turns, k) + turns(k).latency
      && (turns(k).outcome.Answered? ==> landed(k))
  }

  /** The server reads the machine as alive at `t`, the last landing being at `from`. */
  predicate AliveSince(from: real, t: real, window: int) {
    WithinWindow(t - from, window)
  }

  /** And at every instant of a stretch that begins with a landing. */
  ghost predicate AliveThrough(from: real, to: real, window: int) {
    forall t :: from <= t <= to ==> AliveSince(from, t, window)
  }

  /** A stretch without a landing holds the window exactly when it is shorter than the window and its free second. */
  lemma AliveThroughExactly(from: real, to: real, window: int)
    requires from <= to
    ensures AliveThrough(from, to, window) <==> to - from < ((window + 1) * SECOND) as real
  {
    WindowHasAFreeSecond(to - from, window);
    forall t | from <= t <= to && to - from < ((window + 1) * SECOND) as real ensures AliveSince(from, t, window) {
      WindowHasAFreeSecond(t - from, window);
    }
    if AliveThrough(from, to, window) {
      assert AliveSince(from, to, window);
    }
  }

  /** Successive pings that a loop sends land at most an interval and two turns' latencies apart. */
  lemma LandingGap(lands: nat -> real, landed: nat -> bool, start: real, interval: int, turns: nat -> Turn, n: nat,
                   k: nat)
    requires k + 1 < n && interval >= 0
    ensures Lands(lands, landed, start, interval, turns, n) && turns(k).latency >= 0.0 ==>
              lands(k) <= lands(k + 1) <= lands(k) + interval as real + turns(k).latency + turns(k + 1).latency
  {
    SentNext(start, interval, turns, k);
  }

  /**
   * From its first landing to the landing of the last ping it gets an answer to, a loop holds the window,
   * as long as an interval and two turns fit in it. All other pings of a loop are the one it ends with.
   */
  lemma RunningLoopHolds(start: real, interval: int, turns: nat -> Turn, limit: nat, window: int, slowest: real,
                         lands: nat -> real, landed: nat -> bool, k: nat)
    requires interval >= 0 && forall j :: 0.0 <= turns(j).latency <= slowest
    requires Lands(lands, landed, start, interval, turns, LoopFrom(turns, 0, limit).0)
    requires interval as real + 2.0 * slowest < ((window + 1) * SECOND) as real
    requires k + 1 < LoopFrom(turns, 0, limit).0
    ensures landed(k) && lands(k) <= lands(k + 1) && AliveThrough(lands(k), lands(k + 1), window)
  {
    var n := LoopFrom(turns, 0, limit).0;
    LoopEndsOnlyFor(turns, 0, limit);
    assert GoesOn(turns(k));
    assert 0.0 <= turns(k).latency <= slowest && 0.0 <= turns(k + 1).latency <= slowest;
    LandingGap(lands, landed, start, interval, turns, n, k);
    AliveThroughExactly(lands(k), lands(k + 1), window);
  }

  /** The loop sends the pings up to `lost`, whose last one fails; the others land in their turns. */
  ghost predicate LosesPing(start: real, interval: int, turns: nat -> Turn, lost: nat,
                            lands: nat -> real, landed: nat -> bool)
  {
    && turns(lost).outcome.Failed? && (forall j :: 0 <= j < lost ==> GoesOn(turns(j)))
    && Lands(lands, landed, start, interval, turns, lost)
  }

  /**
   * What a lost ping costs. Ping `lost` fails without reaching the server: the loop ends with it, and the
   * machine, whose last landing is the ping before, is alive until the next landing, at `again`, exactly
   * when that comes before the window and its free second are over. Nobody but a caller that starts
   * a loop again sends it.
   */
  lemma LostPing(start: real, interval: int, turns: nat -> Turn, lost: nat, limit: nat, window: int,
                 lands: nat -> real, landed: nat -> bool, again: real)
    requires 0 < lost < limit
    ensures LosesPing(start, interval, turns, lost, lands, landed) && lands(lost - 1) <= again ==>
      && LoopFrom(turns, 0, limit) == (lost + 1, Raised(turns(lost).outcome.error))
      && landed(lost - 1)
      && (AliveThrough(lands(lost - 1), again, window) <==>
            again - lands(lost - 1) < ((window + 1) * SECOND) as real)
  {
    if LosesPing(start, interval, turns, lost, lands, landed) && lands(lost - 1) <= again {
      FirstFailureIsTerminal(turns, 0, lost, limit);
      assert GoesOn(turns(lost - 1));
      AliveThroughExactly(lands(lost - 1), again, window);
    }
  }

  lemma ThreeIntervals(w: int)
    requires w >= 3
    ensures 3 * IntervalForPolicy(Some(w)) <= w * SECOND
  {
  }

  /**
   * So the two-loss promise is the caller's to keep: from three seconds up, a loop that lost a ping and is
   * started again so that a ping lands within two intervals of the lost one's send holds the window,
   * when the turn before took less than a second.
   */
  lemma RestartInTime(start: real, w: int, turns: nat -> Turn, lost: nat, limit: nat,
                      lands: nat -> real, landed: nat -> bool, again: real)
    requires w >= 3 && 0 < lost < limit
    ensures
      var interval := IntervalForPolicy(Some(w));
      && LosesPing(start, interval, turns, lost, lands, landed) && lands(lost - 1) <= again
      && turns(lost - 1).latency < SECOND as real
      && again <= SentAt(start, interval, turns, lost) + 2.0 * interval as real
      ==> AliveThrough(lands(lost - 1), again, w)
  {
    var interval := IntervalForPolicy(Some(w));
    if LosesPing(start, interval, turns, lost, lands, landed) && lands(lost - 1) <= again {
      LostPing(start, interval, turns, lost, limit, w, lands, landed, again);
      SentNext(start, interval, turns, lost - 1);
      ThreeIntervals(w);
      assert SentAt(start, interval, turns, lost - 1) <= lands(lost - 1);
    }
  }

  /** And a caller that does not start it again loses the window, however long it is. */
  lemma SilenceIsFatal(from: real, window: int)
    ensures exists to :: to >= from && !AliveThrough(from, to, window)
  {
    var to := from + (Max(window + 1, 0) * SECOND) as real;
    AliveThroughExactly(from, to, window);
    assert !AliveThrough(from, to, window);
  }

  /**
   * A scheduler sized from its policy holds the window the server enforces for it while it runs: with an
   * unset or positive duration, between any two pings it sends, if a turn takes less than half of what the
   * window and its free second leave after one interval.
   */
  lemma ScheduledLoopHolds(start: real, stored: Option<int>, turns: nat -> Turn, limit: nat, slowest: real,
                           lands: nat -> real, landed: nat -> bool, k: nat)
    requires forall j :: 0.0 <= turns(j).latency <= slowest
    requires Lands(lands, landed, start, IntervalForPolicy(stored), turns, LoopFrom(turns, 0, limit).0)
    requires
      IntervalForPolicy(stored) as real + 2.0 * slowest < ((ServerWindow(stored) + 1) * SECOND) as real
    requires k + 1 < LoopFrom(turns, 0, limit).0
    ensures landed(k) && lands(k) <= lands(k + 1) && AliveThrough(lands(k), lands(k + 1), ServerWindow(stored))
  {
    RunningLoopHolds(start, IntervalForPolicy(stored), turns, limit, ServerWindow(stored), slowest, lands, landed, k);
  }

  // ---------- The process scheduler ----------

  /** The process rows on the server. */
  class ProcessesClient {
    var rows: set<nat>
    /** Deletes fail for another reason than a missing row. */
    const refuses: bool

    constructor (rows: set<nat>, refuses: bool)
      ensures this.rows == rows && this.refuses == refuses
    {
      this.rows, this.refuses := rows, refuses;
    }

    /** `DELETE /processes/{id}`; a row that is not there is a 404. */
    method DeleteProcess(id: nat) returns (raised: Option<PingError>)
      modifies this
      ensures rows == if refuses then old(rows) else old(rows) - {id}
      ensures raised == if refuses then Some(OtherError) else if id in old(rows) then None else Some(NotFound)
    {
      if refuses {
        return Some(OtherError);
      }
      raised := if id in rows then None else Some(NotFound);
      rows := rows - {id};
    }
  }

  class ProcessHeartbeatScheduler {
    const process: nat
    const processes: ProcessesClient
    var interval: int
    var stopped: bool

    constructor (processes: ProcessesClient, process: nat, requested: int)
      ensures this.processes == processes && this.process == process && !stopped
      // Every 10 s unless the request is positive, and never faster than once a second.
      ensures requested <= 0 ==> interval == 10 * SECOND
      ensures 0 < requested < SECOND ==> interval == SECOND
      ensures requested >= SECOND ==> interval == requested
    {
      this.processes, this.process := processes, process;
      this.interval := ClampedInterval(requested, PROCESS_RECOMMENDED_INTERVAL);
      this.stopped := false;
    }

    /** `dispose`: stop, then delete; a row already gone is success, every other error propagates. */
    method Dispose() returns (raised: Option<PingError>)
      modifies this`stopped, processes
      ensures stopped
      ensures raised == if processes.refuses then Some(OtherError) else None
      ensures processes.rows == if raised.None? then old(processes.rows) - {process} else old(processes.rows)
    {
      stopped := true;
      raised := processes.DeleteProcess(process);
      if raised == Some(NotFound) {
        raised := None;
      }
    }
  }
}
