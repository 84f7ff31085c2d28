/** Whole runs of the engine: events, configuration changes, restarts and clears. */
module EngineRun {
  import opened Model
  import opened Detection
  import opened Sequences

  datatype Op =
    | Process(ev: Event, clock: Clock)
    | Configure(cfg: Config)
    | Restart
    | ClearMetrics
    | ClearAlerts

  /**
   An event that passed the duplicate check, as clamped, with the clock readings at its arrival and at
   that check, and the window durations configured then.
   */
  datatype Admission = Admission(ev: Event, at: int, checked: int, windows: seq<int>)

  /** The engine with two records of its past: events admitted since restart, alerts since clear. */
  datatype State = State(cfg: Config, core: Core, history: seq<Admission>, log: seq<Alert>) {
    ghost predicate Valid() {
      cfg.Valid() && ValidCore(core)
    }
  }

  ghost predicate ValidOp(op: Op) {
    op.Configure? ==> op.cfg.Valid()
  }

  ghost function Apply(s: State, op: Op): (s': State)
    requires s.Valid() && ValidOp(op)
    ensures s'.Valid()
  {
    match op
    case Process(ev, clock) =>
      var o := Step(s.cfg, s.core, ev, clock);
      var admission :=
        Admission(Clamp(s.cfg.detection, ev, clock), clock(AtStart), clock(AtDedupe), s.cfg.detection.windows);
      State(s.cfg, o.core, if o.admitted then s.history + [admission] else s.history, s.log + o.alerts)
    case Configure(cfg) => s.(cfg := cfg)
    case Restart => State(s.cfg, EMPTY_CORE, [], [])
    case ClearMetrics => s
    case ClearAlerts => s.(log := [])
  }

  ghost predicate ValidOps(ops: seq<Op>) {
    forall i :: 0 <= i < |ops| ==> ValidOp(ops[i])
  }

  /** The engine after a run that begins with an empty engine under the given configuration. */
  ghost function RunOps(cfg: Config, ops: seq<Op>): (s: State)
    requires cfg.Valid() && ValidOps(ops)
    ensures s.Valid()
  {
    if |ops| == 0 then State(cfg, EMPTY_CORE, [], [])
    else Apply(RunOps(cfg, ops[..|ops| - 1]), ops[|ops| - 1])
  }

  lemma RunSnoc(cfg: Config, ops: seq<Op>, op: Op)
    requires cfg.Valid() && ValidOps(ops) && ValidOp(op)
    ensures ValidOps(ops + [op]) && RunOps(cfg, ops + [op]) == Apply(RunOps(cfg, ops), op)
  {
    hide Apply;
    assert (ops + [op])[..|ops|] == ops;
  }

  /** No configuration change happens during the run. */
  ghost predicate FixedConfig(ops: seq<Op>) {
    forall i :: 0 <= i < |ops| ==> !ops[i].Configure?
  }

  /** The readings at the duplicate checks of the run's events never go back, and none is past now. */
  ghost predicate ChecksAdvance(ops: seq<Op>, now: int) {
    && (forall i :: 0 <= i < |ops| && ops[i].Process? ==> ops[i].clock(AtDedupe) <= now)
    && (forall i, j :: 0 <= i < j < |ops| && ops[i].Process? && ops[j].Process? ==>
          ops[i].clock(AtDedupe) <= ops[j].clock(AtDedupe))
  }

  // ---------- The alert buffer of a run ----------

  /** A buffer of the given size after a run, each event appending the alerts it raised. */
  ghost function BufferAfter(cfg: Config, ops: seq<Op>, limit: nat): seq<Alert>
    requires cfg.Valid() && ValidOps(ops)
  {
    if |ops| == 0 then []
    else
      var front, op := ops[..|ops| - 1], ops[|ops| - 1];
      var buffer, s := BufferAfter(cfg, front, limit), RunOps(cfg, front);
      match op
      case Process(ev, clock) => LastN(buffer + Step(s.cfg, s.core, ev, clock).alerts, limit)
      case Restart => []
      case ClearAlerts => []
      case Configure(_) => buffer
      case ClearMetrics => buffer
  }

  /** It always holds the last alerts of all those raised since the last clear or restart, in order. */
  lemma {:induction false} BufferHoldsEndOfLog(cfg: Config, ops: seq<Op>, limit: nat)
    requires cfg.Valid() && ValidOps(ops)
    ensures BufferAfter(cfg, ops, limit) == LastN(RunOps(cfg, ops).log, limit)
    ensures IsSuffix(BufferAfter(cfg, ops, limit), RunOps(cfg, ops).log)
  {
    hide Step;
    LastNIsSuffix(RunOps(cfg, ops).log, limit);
    if |ops| > 0 {
      var front, op := ops[..|ops| - 1], ops[|ops| - 1];
      BufferHoldsEndOfLog(cfg, front, limit);
      if op.Process? {
        var s := RunOps(cfg, front);
        LastNAppend(s.log, Step(s.cfg, s.core, op.ev, op.clock).alerts, limit);
      }
    }
  }
}
