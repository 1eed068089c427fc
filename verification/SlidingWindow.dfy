/**
 The sliding-window counter behind the auth throttles (crates/heramind-api/src/auth_users.rs).
 The pruned map is proved to count exactly what a full, never-pruned event log would count.
 Instants are nanoseconds on a monotone clock.
 */
module SlidingWindow {
  import opened Basics

  const SWEEP_THRESHOLD: nat := 10_000
  const SECOND: nat := 1_000_000_000

  type Events = map<string, seq<int>>

  datatype Config = Config(maxEvents: nat, window: nat)

  /** `now.duration_since(t)`, which saturates at zero. */
  function Elapsed(now: int, t: int): nat {
    if t <= now then now - t else 0
  }

  /** `times.retain(|t| now.duration_since(*t) < window)`. */
  function Recent(times: seq<int>, now: int, window: nat): seq<int> {
    if times == [] then []
    else
      var front, t := times[..|times| - 1], times[|times| - 1];
      if Elapsed(now, t) < window then Recent(front, now, window) + [t] else Recent(front, now, window)
  }

  function Get(m: Events, key: string): seq<int> {
    if key in m then m[key] else []
  }

  function Max(a: nat, b: nat): nat {
    if a < b then b else a
  }

  function DoCheck(cfg: Config, m: Events, key: string, now: int): (Events, Result<(), nat>)
    requires cfg.maxEvents >= 1
  {
    if key !in m then (m, Ok(()))
    else
      var times := Recent(m[key], now, cfg.window);
      (m[key := times],
       if |times| >= cfg.maxEvents then Err(RetryAfter(cfg, times[0], now)) else Ok(()))
  }

  /** Whole seconds until the event at `t` leaves the window, at least one. */
  function RetryAfter(cfg: Config, t: int, now: int): nat {
    var elapsed := Elapsed(now, t);
    if elapsed < cfg.window then Max((cfg.window - elapsed) / SECOND, 1) else 1
  }

  function Sweep(cfg: Config, m: Events, now: int): Events {
    map k | k in m && Recent(m[k], now, cfg.window) != [] :: Recent(m[k], now, cfg.window)
  }

  function DoRecord(cfg: Config, m: Events, key: string, sweepAt: int, now: int): Events {
    var swept := if |m| > SWEEP_THRESHOLD then Sweep(cfg, m, sweepAt) else m;
    swept[key := Get(swept, key) + [now]]
  }

  // ---------------------------------------------------------------------------
  // Runs and the full log
  // ---------------------------------------------------------------------------

  datatype Op = Check(key: string, now: int) | Record(key: string, sweepAt: int, now: int) | Clear(key: string)

  function Step(cfg: Config, m: Events, op: Op): Events
    requires cfg.maxEvents >= 1
  {
    match op
    case Check(key, now) => DoCheck(cfg, m, key, now).0
    case Record(key, sweepAt, now) => DoRecord(cfg, m, key, sweepAt, now)
    case Clear(key) => m - {key}
  }

  function Run(cfg: Config, ops: seq<Op>): Events
    requires cfg.maxEvents >= 1
  {
    if ops == [] then map[] else Step(cfg, Run(cfg, ops[..|ops| - 1]), ops[|ops| - 1])
  }

  /** Every event recorded against `key` since its last clear; nothing is ever pruned. */
  function FullLog(ops: seq<Op>, key: string): seq<int> {
    if ops == [] then [] else LogStep(FullLog(ops[..|ops| - 1], key), ops[|ops| - 1], key)
  }

  function ClockAfter(op: Op, clock: int): int {
    if op.Clear? then clock else op.now
  }

  function Clock(ops: seq<Op>, start: int): int {
    if ops == [] then start else ClockAfter(ops[|ops| - 1], Clock(ops[..|ops| - 1], start))
  }

  /** The clock never goes back, between operations or within one. */
  ghost predicate Ordered(ops: seq<Op>, start: int) {
    ops == [] ||
    (var op, clock := ops[|ops| - 1], Clock(ops[..|ops| - 1], start);
     && Ordered(ops[..|ops| - 1], start)
     && (op.Check? ==> clock <= op.now)
     && (op.Record? ==> clock <= op.sweepAt <= op.now))
  }

  lemma RecentAppend(xs: seq<int>, x: int, now: int, window: nat)
    ensures Recent(xs + [x], now, window)
         == if Elapsed(now, x) < window then Recent(xs, now, window) + [x] else Recent(xs, now, window)
  {
    assert (xs + [x])[..|xs|] == xs;
  }

  /** Pruning early loses nothing that a later check would count. */
  lemma {:induction false} RecentAgain(xs: seq<int>, early: int, now: int, window: nat)
    requires early <= now
    ensures Recent(Recent(xs, early, window), now, window) == Recent(xs, now, window)
  {
    if xs != [] {
      var front, x := xs[..|xs| - 1], xs[|xs| - 1];
      RecentAgain(front, early, now, window);
      if Elapsed(early, x) < window {
        RecentAppend(Recent(front, early, window), x, now, window);
      }
    }
  }

  /** A sweep prunes each key to its recent events. */
  lemma SweptKey(cfg: Config, m: Events, key: string, now: int)
    ensures Get(Sweep(cfg, m, now), key) == Recent(Get(m, key), now, cfg.window)
  {
  }

  lemma {:induction false} RecentIsRecent(xs: seq<int>, now: int, window: nat)
    ensures forall t :: t in Recent(xs, now, window) <==> t in xs && Elapsed(now, t) < window
  {
    if xs != [] {
      RecentIsRecent(xs[..|xs| - 1], now, window);
      assert xs == xs[..|xs| - 1] + [xs[|xs| - 1]];
    }
  }

  /** Once more than 10,000 keys are held, a record leaves no key without an event inside the window. */
  lemma SweepDropsExpired(cfg: Config, m: Events, key: string, sweepAt: int, now: int, k: string)
    requires |m| > 10_000 && k != key && k in DoRecord(cfg, m, key, sweepAt, now)
    ensures var times := DoRecord(cfg, m, key, sweepAt, now)[k];
            times != [] && forall t :: t in times ==> Elapsed(sweepAt, t) < cfg.window
  {
    RecentIsRecent(Get(m, k), sweepAt, cfg.window);
  }

  lemma RecordRefines(cfg: Config, m: Events, op: Op, key: string, log: seq<int>, now: int)
    requires op.Record? && op.sweepAt <= op.now <= now
    requires Recent(Get(m, key), now, cfg.window) == Recent(log, now, cfg.window)
    ensures Recent(Get(DoRecord(cfg, m, op.key, op.sweepAt, op.now), key), now, cfg.window)
         == Recent(if op.key == key then log + [op.now] else log, now, cfg.window)
  {
    var swept := if |m| > SWEEP_THRESHOLD then Sweep(cfg, m, op.sweepAt) else m;
    SweptKey(cfg, m, key, op.sweepAt);
    RecentAgain(Get(m, key), op.sweepAt, now, cfg.window);
    assert Recent(Get(swept, key), now, cfg.window) == Recent(log, now, cfg.window);
    RecentAppend(Get(swept, key), op.now, now, cfg.window);
    RecentAppend(log, op.now, now, cfg.window);
  }

  /** The log of a key after one more operation. */
  function LogStep(log: seq<int>, op: Op, key: string): seq<int> {
    if op.key != key || op.Check? then log else if op.Clear? then [] else log + [op.now]
  }

  lemma StepRefines(cfg: Config, m: Events, op: Op, key: string, log: seq<int>, now: int)
    requires cfg.maxEvents >= 1
    requires Recent(Get(m, key), now, cfg.window) == Recent(log, now, cfg.window)
    requires op.Check? ==> op.now <= now
    requires op.Record? ==> op.sweepAt <= op.now <= now
    ensures Recent(Get(Step(cfg, m, op), key), now, cfg.window) == Recent(LogStep(log, op, key), now, cfg.window)
  {
    if op.Check? {
      RecentAgain(Get(m, key), op.now, now, cfg.window);
    } else if op.Record? {
      RecordRefines(cfg, m, op, key, log, now);
    }
  }

  /** The pruned map and the full log always hold the same events of the window. */
  lemma {:induction false} MapRefinesLog(cfg: Config, ops: seq<Op>, key: string, start: int, now: int)
    requires cfg.maxEvents >= 1 && Ordered(ops, start) && Clock(ops, start) <= now
    ensures Recent(Get(Run(cfg, ops), key), now, cfg.window) == Recent(FullLog(ops, key), now, cfg.window)
  {
    if ops != [] {
      var m := |ops| - 1;
      MapRefinesLog(cfg, ops[..m], key, start, now);
      StepRefines(cfg, Run(cfg, ops[..m]), ops[m], key, FullLog(ops[..m], key), now);
    }
  }

  /** A check fails exactly when `maxEvents` logged events since the last clear lie in the window. */
  lemma CheckCountsTheLog(cfg: Config, ops: seq<Op>, key: string, start: int, now: int)
    requires cfg.maxEvents >= 1 && Ordered(ops, start) && Clock(ops, start) <= now
    ensures DoCheck(cfg, Run(cfg, ops), key, now).1.Err?
       <==> |Recent(FullLog(ops, key), now, cfg.window)| >= cfg.maxEvents
  {
    MapRefinesLog(cfg, ops, key, start, now);
  }

  // ---------------------------------------------------------------------------
  // When a lockout ends
  // ---------------------------------------------------------------------------

  ghost predicate Ascending(xs: seq<int>) {
    forall i, j :: 0 <= i < j < |xs| ==> xs[i] <= xs[j]
  }

  lemma {:induction false} LogAscends(ops: seq<Op>, key: string, start: int)
    requires Ordered(ops, start)
    ensures Ascending(FullLog(ops, key))
    ensures forall i :: 0 <= i < |FullLog(ops, key)| ==> FullLog(ops, key)[i] <= Clock(ops, start)
  {
    if ops != [] { LogAscends(ops[..|ops| - 1], key, start); }
  }

  lemma {:induction false} RecentBounded(xs: seq<int>, high: int, now: int, window: nat)
    requires forall i :: 0 <= i < |xs| ==> xs[i] <= high
    ensures forall i :: 0 <= i < |Recent(xs, now, window)| ==> Recent(xs, now, window)[i] <= high
  {
    if xs != [] { RecentBounded(xs[..|xs| - 1], high, now, window); }
  }

  lemma {:induction false} RecentAscends(xs: seq<int>, now: int, window: nat)
    requires Ascending(xs)
    ensures Ascending(Recent(xs, now, window))
    ensures forall i :: 0 <= i < |Recent(xs, now, window)| ==> Elapsed(now, Recent(xs, now, window)[i]) < window
  {
    if xs != [] {
      var front, last := xs[..|xs| - 1], xs[|xs| - 1];
      RecentAscends(front, now, window);
      RecentBounded(front, last, now, window);
    }
  }

  /** Over ascending times, the i-th event decides whether at least `|xs| - i` events remain. */
  lemma {:induction false} RemainingCount(xs: seq<int>, i: nat, now: int, window: nat)
    requires Ascending(xs) && i < |xs|
    ensures Elapsed(now, xs[i]) < window <==> |Recent(xs, now, window)| >= |xs| - i
  {
    var m := |xs| - 1;
    if i < m {
      RemainingCount(xs[..m], i, now, window);
    } else {
      RecentNoLonger(xs[..m], now, window);
      if Elapsed(now, xs[m]) >= window {
        assert forall j :: 0 <= j < m ==> xs[j] <= xs[m];
        AllExpired(xs[..m], now, window);
      }
    }
  }

  lemma {:induction false} RecentNoLonger(xs: seq<int>, now: int, window: nat)
    ensures |Recent(xs, now, window)| <= |xs|
  {
    if xs != [] { RecentNoLonger(xs[..|xs| - 1], now, window); }
  }

  lemma {:induction false} AllExpired(xs: seq<int>, now: int, window: nat)
    requires forall j :: 0 <= j < |xs| ==> Elapsed(now, xs[j]) >= window
    ensures Recent(xs, now, window) == []
  {
    if xs != [] { AllExpired(xs[..|xs| - 1], now, window); }
  }

  /**
   A key locked out with `n` counted events is admitted again, with nothing recorded meanwhile,
   exactly when the event of index n - maxEvents has left the window.
   */
  lemma LockoutEnds(cfg: Config, ops: seq<Op>, key: string, start: int, now: int, later: int)
    requires cfg.maxEvents >= 1 && Ordered(ops, start) && Clock(ops, start) <= now <= later
    requires |Recent(FullLog(ops, key), now, cfg.window)| >= cfg.maxEvents
    ensures var counted := Recent(FullLog(ops, key), now, cfg.window);
            DoCheck(cfg, Run(cfg, ops), key, later).1.Ok?
            <==> Elapsed(later, counted[|counted| - cfg.maxEvents]) >= cfg.window
  {
    var counted := Recent(FullLog(ops, key), now, cfg.window);
    CheckCountsTheLog(cfg, ops, key, start, later);
    RecentAgain(FullLog(ops, key), now, later, cfg.window);
    LogAscends(ops, key, start);
    RecentAscends(FullLog(ops, key), now, cfg.window);
    RemainingCount(counted, |counted| - cfg.maxEvents, later, cfg.window);
  }

  lemma RetryCovers(cfg: Config, t: int, now: int)
    requires t <= now && Elapsed(now, t) < cfg.window
    ensures Elapsed(now + (RetryAfter(cfg, t, now) + 1) * SECOND, t) >= cfg.window
  {
    var left := cfg.window - Elapsed(now, t);
    assert (left / SECOND + 1) * SECOND > left;
  }

  /** The reported wait is the whole seconds until the oldest counted event leaves the window, at least one. */
  lemma RetryHintIsRemaining(cfg: Config, ops: seq<Op>, key: string, start: int, now: int)
    requires cfg.maxEvents >= 1 && Ordered(ops, start) && Clock(ops, start) <= now
    requires DoCheck(cfg, Run(cfg, ops), key, now).1.Err?
    ensures var counted := Recent(FullLog(ops, key), now, cfg.window);
            var hint := DoCheck(cfg, Run(cfg, ops), key, now).1.error;
            && |counted| >= cfg.maxEvents
            && (var left := counted[0] + cfg.window - now;
                hint >= 1 && left > 0 && left < (hint + 1) * SECOND && (hint * SECOND <= left || hint == 1))
  {
    CheckCountsTheLog(cfg, ops, key, start, now);
    MapRefinesLog(cfg, ops, key, start, now);
    LogAscends(ops, key, start);
    RecentAscends(FullLog(ops, key), now, cfg.window);
    RecentBounded(FullLog(ops, key), Clock(ops, start), now, cfg.window);
    HintBounds(cfg, Recent(FullLog(ops, key), now, cfg.window)[0], now);
  }

  lemma HintBounds(cfg: Config, t: int, now: int)
    requires t <= now && Elapsed(now, t) < cfg.window
    ensures var hint, left := RetryAfter(cfg, t, now), t + cfg.window - now;
            hint >= 1 && left > 0 && left < (hint + 1) * SECOND && (hint * SECOND <= left || hint == 1)
  {
    var left := cfg.window - Elapsed(now, t);
    assert left / SECOND * SECOND <= left < (left / SECOND + 1) * SECOND;
  }

  /** With exactly `maxEvents` counted, waiting the reported seconds plus one is enough. */
  lemma RetryHintSuffices(cfg: Config, ops: seq<Op>, key: string, start: int, now: int)
    requires cfg.maxEvents >= 1 && Ordered(ops, start) && Clock(ops, start) <= now
    requires |Recent(FullLog(ops, key), now, cfg.window)| == cfg.maxEvents
    ensures var refusal := DoCheck(cfg, Run(cfg, ops), key, now).1;
            refusal.Err? && DoCheck(cfg, Run(cfg, ops), key, now + (refusal.error + 1) * SECOND).1.Ok?
  {
    CheckCountsTheLog(cfg, ops, key, start, now);
    MapRefinesLog(cfg, ops, key, start, now);
    LogAscends(ops, key, start);
    RecentAscends(FullLog(ops, key), now, cfg.window);
    RecentBounded(FullLog(ops, key), Clock(ops, start), now, cfg.window);
    var oldest := Recent(FullLog(ops, key), now, cfg.window)[0];
    var retry := RetryAfter(cfg, oldest, now);
    assert DoCheck(cfg, Run(cfg, ops), key, now).1 == Err(retry);
    RetryCovers(cfg, oldest, now);
    LockoutEnds(cfg, ops, key, start, now, now + (retry + 1) * SECOND);
  }

  /** In general, the reported wait plus one second is enough exactly when the deciding event has left by then. */
  lemma RetryHintSufficesIff(cfg: Config, ops: seq<Op>, key: string, start: int, now: int)
    requires cfg.maxEvents >= 1 && Ordered(ops, start) && Clock(ops, start) <= now
    requires |Recent(FullLog(ops, key), now, cfg.window)| >= cfg.maxEvents
    ensures var counted := Recent(FullLog(ops, key), now, cfg.window);
            var later := now + (RetryAfter(cfg, counted[0], now) + 1) * SECOND;
            && DoCheck(cfg, Run(cfg, ops), key, now).1 == Err(RetryAfter(cfg, counted[0], now))
            && (DoCheck(cfg, Run(cfg, ops), key, later).1.Ok?
                <==> Elapsed(later, counted[|counted| - cfg.maxEvents]) >= cfg.window)
  {
    var counted := Recent(FullLog(ops, key), now, cfg.window);
    CheckCountsTheLog(cfg, ops, key, start, now);
    MapRefinesLog(cfg, ops, key, start, now);
    LockoutEnds(cfg, ops, key, start, now, now + (RetryAfter(cfg, counted[0], now) + 1) * SECOND);
  }

  /** One event at time 0, then `n` events at time `at`: more than the cap when checks overlap. */
  function Burst(key: string, n: nat, at: int): seq<Op> {
    if n == 0 then [Record(key, 0, 0)] else Burst(key, n - 1, at) + [Record(key, at, at)]
  }

  function BurstLog(n: nat, at: int): (log: seq<int>)
    ensures |log| == n + 1 && log[0] == 0 && forall i :: 1 <= i <= n ==> log[i] == at
  {
    [0] + seq(n, _ => at)
  }

  lemma {:induction false} BurstIsLogged(key: string, n: nat, at: nat)
    ensures Ordered(Burst(key, n, at), 0) && 0 <= Clock(Burst(key, n, at), 0) <= at
    ensures FullLog(Burst(key, n, at), key) == BurstLog(n, at)
  {
    if n == 0 {
      FirstRecord(key);
    } else {
      BurstIsLogged(key, n - 1, at);
      OneMoreRecord(Burst(key, n - 1, at), key, at);
      BurstLogStep(n, at);
      hide Ordered, Clock, FullLog, BurstLog;
    }
  }

  lemma BurstLogStep(n: nat, at: int)
    requires n >= 1
    ensures BurstLog(n, at) == BurstLog(n - 1, at) + [at]
  {
  }

  lemma OneMoreRecord(ops: seq<Op>, key: string, at: int)
    requires Ordered(ops, 0) && Clock(ops, 0) <= at
    ensures var more := ops + [Record(key, at, at)];
            Ordered(more, 0) && Clock(more, 0) == at && FullLog(more, key) == FullLog(ops, key) + [at]
  {
    hide Ordered, Clock, FullLog;
    OrderedStep(ops, Record(key, at, at), 0);
    FullLogStep(ops, Record(key, at, at), key);
  }

  lemma FirstRecord(key: string)
    ensures var ops := [Record(key, 0, 0)]; Ordered(ops, 0) && Clock(ops, 0) == 0 && FullLog(ops, key) == [0]
  {
    var op := Record(key, 0, 0);
    OrderedStep([], op, 0);
    FullLogStep([], op, key);
    assert [] + [op] == [op];
  }

  lemma {:induction false} AllRecent(xs: seq<int>, now: int, window: nat)
    requires forall i :: 0 <= i < |xs| ==> Elapsed(now, xs[i]) < window
    ensures Recent(xs, now, window) == xs
  {
    if xs != [] { AllRecent(xs[..|xs| - 1], now, window); }
  }

  /**
   With more than `maxEvents` counted the hint, taken from the oldest event, fails under every
   configuration whose window exceeds two seconds: a burst just before the oldest event leaves.
   */
  lemma RetryHintTooShort(cfg: Config, key: string)
    requires cfg.maxEvents >= 1 && cfg.window > 2 * SECOND
    ensures var ops, now := Burst(key, cfg.maxEvents, cfg.window - SECOND), cfg.window - SECOND;
            var refusal := DoCheck(cfg, Run(cfg, ops), key, now).1;
            && refusal == Err(1)
            && DoCheck(cfg, Run(cfg, ops), key, now + (refusal.error + 1) * SECOND).1.Err?
  {
    hide DoCheck, Run, Burst, BurstLog, FullLog, Recent, RetryAfter, Ordered, Clock;
    var now: nat := cfg.window - SECOND;
    BurstHint(cfg);
    BurstIsLogged(key, cfg.maxEvents, now);
    AllRecent(BurstLog(cfg.maxEvents, now), now, cfg.window);
    RetryHintSufficesIff(cfg, Burst(key, cfg.maxEvents, now), key, 0, now);
    assert Elapsed(now + 2 * SECOND, now) < cfg.window;
  }

  lemma BurstHint(cfg: Config)
    requires cfg.window > 2 * SECOND
    ensures RetryAfter(cfg, 0, cfg.window - SECOND) == 1
  {
  }

  // ---------------------------------------------------------------------------
  // Admission control: check, then record when the check passes
  // ---------------------------------------------------------------------------

  datatype Attempt = Attempt(key: string, checkAt: int, sweepAt: int, recordAt: int)

  /** The operations a sequence of signup attempts performs. */
  function Attempts(cfg: Config, atts: seq<Attempt>): seq<Op>
    requires cfg.maxEvents >= 1
  {
    if atts == [] then []
    else
      var ops, a := Attempts(cfg, atts[..|atts| - 1]), atts[|atts| - 1];
      ops + [Check(a.key, a.checkAt)] +
      if DoCheck(cfg, Run(cfg, ops), a.key, a.checkAt).1.Ok? then [Record(a.key, a.sweepAt, a.recordAt)] else []
  }

  ghost predicate AttemptsOrdered(atts: seq<Attempt>) {
    && (forall i :: 0 <= i < |atts| ==> atts[i].checkAt <= atts[i].sweepAt <= atts[i].recordAt)
    && (forall i, j :: 0 <= i < j < |atts| ==> atts[i].recordAt <= atts[j].checkAt)
  }

  function CountWithin(xs: seq<int>, lo: int, hi: int): nat {
    if xs == [] then 0
    else CountWithin(xs[..|xs| - 1], lo, hi) + if lo <= xs[|xs| - 1] < hi then 1 else 0
  }

  lemma {:induction false} IntervalIsRecent(xs: seq<int>, lo: int, hi: int, now: int, window: nat)
    requires now - window < lo
    ensures CountWithin(xs, lo, hi) <= |Recent(xs, now, window)| || window == 0
  {
    if xs != [] { IntervalIsRecent(xs[..|xs| - 1], lo, hi, now, window); }
  }

  lemma FullLogStep(ops: seq<Op>, op: Op, key: string)
    ensures FullLog(ops + [op], key) == LogStep(FullLog(ops, key), op, key)
  {
    assert (ops + [op])[..|ops|] == ops;
  }

  lemma OrderedStep(ops: seq<Op>, op: Op, start: int)
    requires Ordered(ops, start)
    requires op.Check? ==> Clock(ops, start) <= op.now
    requires op.Record? ==> Clock(ops, start) <= op.sweepAt <= op.now
    ensures Ordered(ops + [op], start) && Clock(ops + [op], start) == ClockAfter(op, Clock(ops, start))
  {
    assert (ops + [op])[..|ops|] == ops;
  }

  lemma {:induction false} AttemptsAreOrdered(cfg: Config, atts: seq<Attempt>, start: int)
    requires cfg.maxEvents >= 1 && AttemptsOrdered(atts)
    requires forall i :: 0 <= i < |atts| ==> start <= atts[i].checkAt
    ensures Ordered(Attempts(cfg, atts), start)
    ensures Clock(Attempts(cfg, atts), start) <= if atts == [] then start else atts[|atts| - 1].recordAt
  {
    if atts != [] {
      var front, a := atts[..|atts| - 1], atts[|atts| - 1];
      AttemptsAreOrdered(cfg, front, start);
      var ops := Attempts(cfg, front);
      OrderedStep(ops, Check(a.key, a.checkAt), start);
      OrderedStep(ops + [Check(a.key, a.checkAt)], Record(a.key, a.sweepAt, a.recordAt), start);
      assert ops + [Check(a.key, a.checkAt)] + [] == ops + [Check(a.key, a.checkAt)];
    }
  }

  /** An admitted attempt keeps every window-long interval within the cap. */
  lemma AdmittedFits(cfg: Config, ops: seq<Op>, a: Attempt, lo: int, start: int)
    requires cfg.maxEvents >= 1 && Ordered(ops, start) && Clock(ops, start) <= a.checkAt <= a.recordAt
    requires DoCheck(cfg, Run(cfg, ops), a.key, a.checkAt).1.Ok?
    requires CountWithin(FullLog(ops, a.key), lo, lo + cfg.window) <= cfg.maxEvents
    ensures CountWithin(FullLog(ops, a.key) + [a.recordAt], lo, lo + cfg.window) <= cfg.maxEvents
  {
    var log := FullLog(ops, a.key);
    assert (log + [a.recordAt])[..|log|] == log;
    if lo <= a.recordAt < lo + cfg.window {
      CheckCountsTheLog(cfg, ops, a.key, start, a.checkAt);
      IntervalIsRecent(log, lo, lo + cfg.window, a.checkAt, cfg.window);
    }
  }

  lemma AttemptLog(cfg: Config, atts: seq<Attempt>, a: Attempt, key: string)
    requires cfg.maxEvents >= 1
    ensures var ops := Attempts(cfg, atts);
            FullLog(Attempts(cfg, atts + [a]), key)
            == if a.key == key && DoCheck(cfg, Run(cfg, ops), a.key, a.checkAt).1.Ok?
               then FullLog(ops, key) + [a.recordAt] else FullLog(ops, key)
  {
    assert (atts + [a])[..|atts|] == atts;
    var ops := Attempts(cfg, atts);
    var checked := ops + [Check(a.key, a.checkAt)];
    FullLogStep(ops, Check(a.key, a.checkAt), key);
    FullLogStep(checked, Record(a.key, a.sweepAt, a.recordAt), key);
    assert checked + [] == checked;
  }

  /** In every half-open interval one window long, at most `maxEvents` attempts per key are admitted. */
  lemma {:induction false} AdmissionBound(cfg: Config, atts: seq<Attempt>, key: string, lo: int, start: int)
    requires cfg.maxEvents >= 1 && AttemptsOrdered(atts)
    requires forall i :: 0 <= i < |atts| ==> start <= atts[i].checkAt
    ensures CountWithin(FullLog(Attempts(cfg, atts), key), lo, lo + cfg.window) <= cfg.maxEvents
  {
    if atts != [] {
      var front, a := atts[..|atts| - 1], atts[|atts| - 1];
      AdmissionBound(cfg, front, key, lo, start);
      AttemptsAreOrdered(cfg, front, start);
      AttemptLog(cfg, front, a, key);
      assert atts == front + [a];
      if a.key == key && DoCheck(cfg, Run(cfg, Attempts(cfg, front)), key, a.checkAt).1.Ok? {
        AdmittedFits(cfg, Attempts(cfg, front), a, lo, start);
      }
    }
  }

  // ---------------------------------------------------------------------------
  // The implementation
  // ---------------------------------------------------------------------------

  class SlidingWindowCounter {
    var events: Events
    const cfg: Config

    constructor (maxEvents: nat, window: nat)
      ensures events == map[] && cfg == Config(maxEvents, window)
    {
      events, cfg := map[], Config(maxEvents, window);
    }

    method Check(key: string, now: int) returns (r: Result<(), nat>)
      requires cfg.maxEvents >= 1
      modifies this`events
      ensures (events, r) == DoCheck(cfg, old(events), key, now)
    {
      if key in events {
        var times := Recent(events[key], now, cfg.window);
        events := events[key := times];
        if |times| >= cfg.maxEvents {
          return Err(RetryAfter(cfg, times[0], now));
        }
      }
      r := Ok(());
    }

    method Record(key: string, sweepAt: int, now: int)
      modifies this`events
      ensures events == DoRecord(cfg, old(events), key, sweepAt, now)
    {
      if |events| > SWEEP_THRESHOLD {
        events := Sweep(cfg, events, sweepAt);
      }
      events := events[key := Get(events, key) + [now]];
    }

    method Clear(key: string)
      modifies this`events
      ensures events == old(events) - {key}
    {
      events := events - {key};
    }
  }
}
