/** `runRpsStage` (server/bench/_common.ts) as a state machine.  Wall-clock
    readings, the 2 ms pacing sleep, `Promise.race` and `Promise.all` are
    replaced by events the environment offers in any order: a pacing tick
    with its clock readings, the launch of one operation, the settlement of
    one in-flight operation, and the end of the final drain. */
module StageRunner {
  import opened Wrappers
  import opened Stats

  datatype StageConfig = StageConfig(targetRps: nat, durationMs: real, concurrency: int)

  /** What an operation may resolve with: a bare boolean or a record whose
      latency is optional. */
  datatype OperationOutcome = BoolOutcome(ok: bool) | ResultOutcome(ok: bool, latencyMs: Option<real>)

  /** How an operation settled: it returned an outcome, or it threw. */
  datatype Settlement = Returned(outcome: OperationOutcome) | Threw

  /** `normalizeOutcome`: a boolean becomes a record without latency. */
  function NormalizeOutcome(o: OperationOutcome): (r: OperationOutcome)
    ensures r.ResultOutcome? && r.ok == o.ok
    ensures o.BoolOutcome? ==> r.latencyMs.None?
    ensures o.ResultOutcome? ==> r == o
  {
    match o
    case BoolOutcome(ok) => ResultOutcome(ok, None)
    case ResultOutcome(_, _) => o
  }

  /** The body of one launched task: count the outcome as success or error
      and record its latency, which is the operation's own `latencyMs` when
      it supplies one (0 included) and the wall-clock time since launch
      otherwise; a thrown error is one error with the wall-clock latency. */
  function RecordCompletion(t: StageTotals, s: Settlement, wallMs: real): (r: StageTotals)
    ensures r.total == t.total + 1
    ensures r.ok + r.errors == t.ok + t.errors + 1
    ensures r.ok == t.ok + 1 <==> s.Returned? && s.outcome.ok
    ensures r.errors == t.errors + 1 <==> s.Threw? || !s.outcome.ok
    ensures |r.latenciesMs| == |t.latenciesMs| + 1
    ensures r.latenciesMs[..|t.latenciesMs|] == t.latenciesMs
    ensures r.latenciesMs[|t.latenciesMs|] ==
              if s.Returned? && s.outcome.ResultOutcome? && s.outcome.latencyMs.Some?
              then s.outcome.latencyMs.value else wallMs
  {
    match s
    case Threw =>
      StageTotals(t.total + 1, t.ok, t.errors + 1, t.latenciesMs + [wallMs])
    case Returned(o) =>
      var outcome := NormalizeOutcome(o);
      var latency := outcome.latencyMs.GetOr(wallMs);
      if outcome.ok then StageTotals(t.total + 1, t.ok + 1, t.errors, t.latenciesMs + [latency])
      else StageTotals(t.total + 1, t.ok, t.errors + 1, t.latenciesMs + [latency])
  }

  /** Where the loop is: sleeping between ticks, launching towards the goal
      of the latest tick, waiting for the in-flight set to drain, returned. */
  datatype Phase = Pacing | Launching | Draining | Finished

  datatype Runner = Runner(
    phase: Phase,
    scheduled: nat,
    goal: nat,
    lastElapsedMs: real,
    inFlight: map<nat, real>,
    totals: StageTotals)

  /** `Math.floor((elapsedMs / 1000) * targetRps)`: how many operations the
      schedule calls for after `elapsedMs`. */
  function Goal(cfg: StageConfig, elapsedMs: real): (g: nat)
    requires elapsedMs >= 0.0
    ensures g as real <= (elapsedMs / 1000.0) * cfg.targetRps as real < g as real + 1.0
  {
    var x := (elapsedMs / 1000.0) * cfg.targetRps as real;
    assert x >= 0.0;
    x.Floor
  }

  /** The schedule never goes backwards as time passes. */
  lemma GoalMonotone(cfg: StageConfig, e1: real, e2: real)
    requires 0.0 <= e1 <= e2
    ensures Goal(cfg, e1) <= Goal(cfg, e2)
  {
    var r := cfg.targetRps as real;
    ScaleMonotone(e1 / 1000.0, e2 / 1000.0, r);
    FloorMonotone((e1 / 1000.0) * r, (e2 / 1000.0) * r);
  }

  lemma ScaleMonotone(a: real, b: real, r: real)
    requires 0.0 <= a <= b && r >= 0.0
    ensures a * r <= b * r
  {
  }

  lemma FloorMonotone(x: real, y: real)
    requires x <= y
    ensures x.Floor <= y.Floor
  {
  }

  const Init := Runner(Pacing, 0, 0, 0.0, map[], StageTotals(0, 0, 0, []))

  /** The invariant of every reachable state. */
  ghost predicate Valid(cfg: StageConfig, s: Runner) {
    && s.lastElapsedMs >= 0.0
    && s.goal == Goal(cfg, s.lastElapsedMs)
    && s.totals.total == s.totals.ok + s.totals.errors == |s.totals.latenciesMs|
    && s.scheduled == s.totals.total + |s.inFlight|
    && (forall id :: id in s.inFlight ==> id < s.scheduled)
    && |s.inFlight| <= Max(0, cfg.concurrency)
    && (s.phase == Launching ==> s.scheduled < s.goal)
    && (s.phase != Launching ==> s.scheduled == s.goal)
    && (s.phase == Finished ==> |s.inFlight| == 0)
  }

  lemma InitValid(cfg: StageConfig)
    ensures Valid(cfg, Init)
  {
  }

  /** One pass of the outer loop head: the duration check on one clock
      reading, then the goal from a second, later reading. */
  function Tick(cfg: StageConfig, s: Runner, checkMs: real, elapsedMs: real): (r: Runner)
    requires Valid(cfg, s) && s.phase == Pacing
    requires s.lastElapsedMs <= checkMs <= elapsedMs
    ensures Valid(cfg, r)
    ensures checkMs >= cfg.durationMs ==> r == s.(phase := Draining)
    ensures checkMs < cfg.durationMs ==>
              && r.goal == Goal(cfg, elapsedMs) && r.goal >= s.goal
              && r.scheduled == s.scheduled && r.inFlight == s.inFlight && r.totals == s.totals
              && (r.phase == Launching <==> s.scheduled < r.goal)
  {
    if checkMs >= cfg.durationMs then s.(phase := Draining)
    else
      GoalMonotone(cfg, s.lastElapsedMs, elapsedMs);
      var goal := Goal(cfg, elapsedMs);
      s.(goal := goal, lastElapsedMs := elapsedMs,
         phase := if s.scheduled < goal then Launching else Pacing)
  }

  /** Launching is possible only below the goal and below the cap
      (`while (inFlight.size >= concurrency) await Promise.race(inFlight)`). */
  predicate CanLaunch(cfg: StageConfig, s: Runner) {
    s.phase == Launching && |s.inFlight| < cfg.concurrency
  }

  /** Launch one operation at `nowMs`; its id is its issue number. */
  function LaunchOne(cfg: StageConfig, s: Runner, nowMs: real): (r: Runner)
    requires Valid(cfg, s) && CanLaunch(cfg, s)
    ensures Valid(cfg, r)
    ensures s.scheduled !in s.inFlight
    ensures r.scheduled == s.scheduled + 1 && r.inFlight == s.inFlight[s.scheduled := nowMs]
    ensures r.totals == s.totals && r.goal == s.goal
    ensures r.phase == (if r.scheduled == s.goal then Pacing else Launching)
  {
    var inFlight := s.inFlight[s.scheduled := nowMs];
    assert inFlight.Keys == s.inFlight.Keys + {s.scheduled};
    s.(scheduled := s.scheduled + 1, inFlight := inFlight,
       phase := if s.scheduled + 1 == s.goal then Pacing else Launching)
  }

  /** The in-flight task `id` settles at `nowMs` and leaves the set. */
  function CompleteTask(cfg: StageConfig, s: Runner, id: nat, settlement: Settlement, nowMs: real): (r: Runner)
    requires Valid(cfg, s) && id in s.inFlight
    ensures Valid(cfg, r)
    ensures r.inFlight == s.inFlight - {id} && |r.inFlight| == |s.inFlight| - 1
    ensures r.totals == RecordCompletion(s.totals, settlement, nowMs - s.inFlight[id])
    ensures r.scheduled == s.scheduled && r.phase == s.phase && r.goal == s.goal
  {
    var inFlight := s.inFlight - {id};
    assert inFlight.Keys == s.inFlight.Keys - {id};
    s.(inFlight := inFlight, totals := RecordCompletion(s.totals, settlement, nowMs - s.inFlight[id]))
  }

  /** `await Promise.all(inFlight)` returns once nothing is in flight; the
      totals then account for every operation issued. */
  function FinishDrain(cfg: StageConfig, s: Runner): (r: Runner)
    requires Valid(cfg, s) && s.phase == Draining && |s.inFlight| == 0
    ensures Valid(cfg, r) && r.phase == Finished
    ensures r.totals.total == r.scheduled == r.totals.ok + r.totals.errors == |r.totals.latenciesMs|
    ensures r.scheduled == s.goal
  {
    s.(phase := Finished)
  }

  datatype Event =
    | TickAt(checkMs: real, elapsedMs: real)
    | LaunchAt(nowMs: real)
    | Settle(id: nat, settlement: Settlement, nowMs: real)
    | AllSettled

  /** One event, or `None` when it cannot happen in `s`. */
  function Step(cfg: StageConfig, s: Runner, e: Event): (r: Option<Runner>)
    requires Valid(cfg, s)
    ensures r.Some? ==> Valid(cfg, r.value)
    ensures r.Some? ==> r.value.scheduled >= s.scheduled && r.value.goal >= s.goal
    ensures r.Some? ==> r.value.totals.total >= s.totals.total
    ensures r.Some? && r.value.phase == Pacing ==> r.value.scheduled == Goal(cfg, r.value.lastElapsedMs)
  {
    match e
    case TickAt(checkMs, elapsedMs) =>
      if s.phase == Pacing && s.lastElapsedMs <= checkMs <= elapsedMs
      then Some(Tick(cfg, s, checkMs, elapsedMs)) else None
    case LaunchAt(nowMs) =>
      if CanLaunch(cfg, s) then Some(LaunchOne(cfg, s, nowMs)) else None
    case Settle(id, settlement, nowMs) =>
      if id in s.inFlight then Some(CompleteTask(cfg, s, id, settlement, nowMs)) else None
    case AllSettled =>
      if s.phase == Draining && |s.inFlight| == 0 then Some(FinishDrain(cfg, s)) else None
  }

  /** A whole trace of events from `s`, or `None` if some event is impossible. */
  function Run(cfg: StageConfig, s: Runner, events: seq<Event>): (r: Option<Runner>)
    requires Valid(cfg, s)
    ensures r.Some? ==> Valid(cfg, r.value)
    ensures r.Some? ==> r.value.scheduled >= s.scheduled && r.value.goal >= s.goal
    decreases |events|
  {
    if |events| == 0 then Some(s)
    else
      match Step(cfg, s, events[0])
      case None => None
      case Some(next) => Run(cfg, next, events[1..])
  }

  /** On every trace from a reachable state (`Init` is one, by `InitValid`),
      the in-flight count stays within a positive cap, and a stage that
      returned accounts for exactly the scheduled operations. */
  lemma RunKeepsCapAndCounters(cfg: StageConfig, s: Runner, events: seq<Event>)
    requires cfg.concurrency >= 1 && Valid(cfg, s)
    ensures var r := Run(cfg, s, events);
            r.Some? ==>
              && |r.value.inFlight| <= cfg.concurrency
              && r.value.totals.total == r.value.totals.ok + r.value.totals.errors == |r.value.totals.latenciesMs|
              && (r.value.phase == Finished ==> r.value.totals.total == r.value.scheduled)
  {
  }

  /** With a cap of 0 or less, `Promise.race` over the empty in-flight set
      never settles: once a tick asks for a launch, no event can happen. */
  lemma NoCapacityNeverLaunches(cfg: StageConfig, s: Runner, e: Event)
    requires cfg.concurrency <= 0
    requires Valid(cfg, s) && s.phase == Launching
    ensures Step(cfg, s, e).None?
  {
  }
}
