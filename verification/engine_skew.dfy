/** Clamping against the clock: what it guarantees for windows, and what it costs the duplicate check. */
module EngineSkew {
  import opened Model
  import opened Detection
  import opened EngineRun
  import opened EngineHistory
  import opened EngineProperties
  import opened WindowHistory
  import opened Measures
  import Dedupe
  import Keys
  import Window

  /** Clamped timestamps stay within the skews of the clock exactly when both skews are set. */
  lemma ClampBounds(now: int, past: int, future: int)
    ensures past > 0 && future > 0 <==>
            forall ts :: now - past <= ClampTimestamp(ts, now, past, future) <= now + future
  {
    if past <= 0 {
      var ts := (if now < 0 then now else 0) - 1;
      assert ClampTimestamp(ts, now, past, future) == ts < now - past;
    } else if future <= 0 {
      var ts := (if now > 0 then now else 0) + 1;
      assert ClampTimestamp(ts, now, past, future) == ts > now + future;
    }
  }

  // ---------- Bounded error over runs ----------

  /** The clock readings at which one reader's events were admitted. */
  function ClockOf(history: seq<Admission>, id: string): seq<int> {
    if history == [] then []
    else
      var front, a := ClockOf(history[..|history| - 1], id), history[|history| - 1];
      if ReaderKey(a.ev.readerID) == id then front + [a.at] else front
  }

  lemma ClockOfSnoc(history: seq<Admission>, a: Admission, id: string)
    ensures ClockOf(history + [a], id) ==
            if ReaderKey(a.ev.readerID) == id then ClockOf(history, id) + [a.at] else ClockOf(history, id)
  {
    assert (history + [a])[..|history|] == history;
  }

  ghost predicate ClampedFor(history: seq<Admission>, id: string, past: int, future: int, now: int) {
    && Clamped(Entries(EventsOf(history, id)), ClockOf(history, id), past, future)
    && forall i :: 0 <= i < |ClockOf(history, id)| ==> ClockOf(history, id)[i] <= now
  }

  lemma ClampedSnoc(history: seq<Admission>, a: Admission, id: string, past: int, future: int, now: int)
    requires ClampedFor(history, id, past, future, now) && now <= a.at
    requires a.at - past <= a.ev.timestamp <= a.at + future
    ensures ClampedFor(history + [a], id, past, future, a.at)
  {
    EventsOfSnoc(history, a, id);
    ClockOfSnoc(history, a, id);
    EntriesSnoc(EventsOf(history, id), a.ev);
    hide EventsOf, ClockOf, ReaderKey, Entries;
  }

  /** The readings at the start of the run's events never go back, and none is past now. */
  ghost predicate StartAdvances(ops: seq<Op>, now: int) {
    && (forall i :: 0 <= i < |ops| && ops[i].Process? ==> ops[i].clock(AtStart) <= now)
    && (forall i, j :: 0 <= i < j < |ops| && ops[i].Process? && ops[j].Process? ==>
          ops[i].clock(AtStart) <= ops[j].clock(AtStart))
  }

  ghost predicate AllClamped(s: State, now: int) {
    forall id :: ClampedFor(s.history, id, s.cfg.detection.maxClockSkew, s.cfg.detection.maxFutureSkew, now)
  }

  lemma AllClampedLater(s: State, now: int, later: int)
    requires AllClamped(s, now) && now <= later
    ensures AllClamped(s, later)
  {
    hide EventsOf, ClockOf, Entries;
    forall id
      ensures ClampedFor(s.history, id, s.cfg.detection.maxClockSkew, s.cfg.detection.maxFutureSkew, later)
    {
      assert ClampedFor(s.history, id, s.cfg.detection.maxClockSkew, s.cfg.detection.maxFutureSkew, now);
    }
  }

  lemma ProcessKeepsClamped(s: State, ev: Event, clock: Clock, now: int)
    requires s.Valid() && AllClamped(s, now) && now <= clock(AtStart)
    requires s.cfg.detection.maxClockSkew > 0 && s.cfg.detection.maxFutureSkew > 0
    ensures AllClamped(Apply(s, Process(ev, clock)), clock(AtStart))
  {
    var cfg, e := s.cfg.detection, Clamp(s.cfg.detection, ev, clock);
    var a, s' := Admission(e, clock(AtStart), clock(AtDedupe), cfg.windows), Apply(s, Process(ev, clock));
    assert s'.cfg == s.cfg && (s'.history == s.history || s'.history == s.history + [a]);
    hide Apply, ClampedFor;
    if s'.history == s.history {
      AllClampedLater(s, now, clock(AtStart));
    } else {
      forall id
        ensures ClampedFor(s'.history, id, cfg.maxClockSkew, cfg.maxFutureSkew, clock(AtStart))
      {
        ClampedSnoc(s.history, a, id, cfg.maxClockSkew, cfg.maxFutureSkew, now);
      }
    }
  }

  lemma NothingClamped(s: State, now: int)
    requires s.history == []
    ensures AllClamped(s, now)
  {
  }

  lemma {:induction false} RunsAreClamped(cfg: Config, ops: seq<Op>, now: int)
    requires cfg.Valid() && ValidOps(ops) && FixedConfig(ops) && StartAdvances(ops, now)
    requires cfg.detection.maxClockSkew > 0 && cfg.detection.maxFutureSkew > 0
    ensures RunOps(cfg, ops).cfg == cfg && AllClamped(RunOps(cfg, ops), now)
  {
    if |ops| == 0 {
      NothingClamped(RunOps(cfg, ops), now);
    } else {
      var n := |ops| - 1;
      var front, s := ops[..n], RunOps(cfg, ops[..n]);
      assert RunOps(cfg, ops) == Apply(s, ops[n]);
      if ops[n].Process? {
        var arrival := ops[n].clock(AtStart);
        RunsAreClamped(cfg, front, arrival);
        ProcessKeepsClamped(s, ops[n].ev, ops[n].clock, arrival);
        hide RunOps, Apply, AllClamped;
        AllClampedLater(Apply(s, ops[n]), arrival, now);
      } else {
        RunsAreClamped(cfg, front, now);
        if ops[n].Restart? {
          NothingClamped(Apply(s, ops[n]), now);
        }
        hide RunOps, ClampedFor;
      }
    }
  }

  /** Counts of history entries that bound a window's attempts, with nowReading the clock at arrival. */
  ghost predicate SandwichedAt(cfg: DetectionConfig, sec: int, es: seq<Event>, nowReading: int, wm: WindowMetrics)
    requires es != []
  {
    && sec in NewWindows(cfg.windows)
    && |Since(es, nowReading + cfg.maxFutureSkew - DurationOf(cfg, sec))| <= wm.attempts
    && wm.attempts <= |Since(es, es[|es| - 1].timestamp - DurationOf(cfg, sec) - (cfg.maxClockSkew + cfg.maxFutureSkew))|
  }

  lemma SandwichFromHistory(cfg: DetectionConfig, sec: int, es: seq<Event>, readings: seq<int>, wm: WindowMetrics)
    requires es != [] && MetricsAt(cfg, sec, es, wm)
    requires Clamped(Entries(es), readings, cfg.maxClockSkew, cfg.maxFutureSkew)
    ensures SandwichedAt(cfg, sec, es, readings[|es| - 1], wm)
  {
    hide NewWindows, LiveAfter, From, Since;
    var d, skews := DurationOf(cfg, sec), cfg.maxClockSkew + cfg.maxFutureSkew;
    SandwichedAttempts(d, Entries(es), readings, cfg.maxClockSkew, cfg.maxFutureSkew);
    FromIsSince(es, readings[|es| - 1] + cfg.maxFutureSkew - d);
    FromIsSince(es, es[|es| - 1].timestamp - d - skews);
    EntriesMeaningShort(es);
  }

  lemma FromIsSince(es: seq<Event>, t: int)
    ensures |From(Entries(es), t)| == |Since(es, t)|
  {
    FilterEntries(es, (e: Event) => e.timestamp >= t, (e: Window.EventEntry) => e.timestamp >= t);
    EntriesMeaningShort(Since(es, t));
  }

  /**
   For every event of every run, however disordered the timestamps: each window's attempts lie between
   two counts over all the reader's admitted events, apart by no more than the skews allow.
   */
  lemma AttemptsAreSandwiched(cfg: Config, ops: seq<Op>, ev: Event, clock: Clock, i: nat)
    requires cfg.Valid() && ValidOps(ops) && FixedConfig(ops) && StartAdvances(ops, clock(AtStart))
    requires cfg.detection.maxClockSkew > 0 && cfg.detection.maxFutureSkew > 0
    requires IsNew(RunOps(cfg, ops), ev, clock) && i < |ConfiguredKeys(cfg.detection)|
    ensures i < |Result(RunOps(cfg, ops), ev, clock).metrics|
    ensures HistoryWith(RunOps(cfg, ops), ev, clock) != []
    ensures SandwichedAt(cfg.detection, ConfiguredKeys(cfg.detection)[i], HistoryWith(RunOps(cfg, ops), ev, clock),
                         clock(AtStart), Result(RunOps(cfg, ops), ev, clock).metrics[i])
  {
    var s, e := RunOps(cfg, ops), Clamp(cfg.detection, ev, clock);
    StateFollowsHistory(cfg, ops);
    RunsAreClamped(cfg, ops, clock(AtStart));
    hide RunOps, Result, ConfiguredKeys, FollowsHistory, MetricsAt;
    MetricsAtIndex(s, ev, clock, i);
    var id, a := ReaderKey(ev.readerID), Admission(e, clock(AtStart), clock(AtDedupe), cfg.detection.windows);
    assert ClampedFor(s.history, id, cfg.detection.maxClockSkew, cfg.detection.maxFutureSkew, clock(AtStart));
    ClampedSnoc(s.history, a, id, cfg.detection.maxClockSkew, cfg.detection.maxFutureSkew, clock(AtStart));
    EventsOfSnoc(s.history, a, id);
    ClockOfSnoc(s.history, a, id);
    var readings := ClockOf(s.history, id) + [a.at];
    hide EventsOf, ClockOf, SandwichedAt;
    SandwichFromHistory(cfg.detection, ConfiguredKeys(cfg.detection)[i], HistoryWith(s, ev, clock), readings,
                        Result(s, ev, clock).metrics[i]);
  }

  // ---------- Duplicates of clamped events ----------

  function DedupeKeyAt(cfg: Config, ev: Event, clock: Clock): string {
    Keys.DedupeKey(Clamp(cfg.detection, ev, clock))
  }

  /** The cache holds no unexpired entry for this event as clamped. */
  ghost predicate Unseen(cfg: Config, core: Core, ev: Event, clock: Clock) {
    !Dedupe.Fresh(core.dedupe, DedupeKeyAt(cfg, ev, clock), clock(AtDedupe), cfg.detection.dedupeWindow)
  }

  /**
   Sending the same event twice, neither time recently seen before: the copy is suppressed exactly when
   it comes within the dedupe window and is clamped to the same instant as the first one.
   */
  lemma ResubmissionSuppressed(cfg: Config, core: Core, ev: Event, first: Clock, second: Clock)
    requires cfg.Valid() && ValidCore(core)
    requires Unseen(cfg, core, ev, first) && Unseen(cfg, core, ev, second)
    ensures Step(cfg, core, ev, first).admitted
    ensures !Step(cfg, Step(cfg, core, ev, first).core, ev, second).admitted <==>
            && cfg.detection.dedupeWindow > 0
            && second(AtDedupe) - first(AtDedupe) <= cfg.detection.dedupeWindow
            && Clamp(cfg.detection, ev, first).timestamp == Clamp(cfg.detection, ev, second).timestamp
  {
    DedupeAfterAdmission(cfg, core, ev, first);
    var c := Clamp(cfg.detection, ev, first).timestamp;
    Keys.DedupeKeyTellsTimestamps(ev, c, Clamp(cfg.detection, ev, second).timestamp);
    hide Keys.DedupeKey, Admit, ClampTimestamp;
  }

  lemma DedupeAfterAdmission(cfg: Config, core: Core, ev: Event, clock: Clock)
    requires cfg.Valid() && ValidCore(core) && Unseen(cfg, core, ev, clock)
    ensures var o, key := Step(cfg, core, ev, clock), DedupeKeyAt(cfg, ev, clock);
            && o.admitted
            && (cfg.detection.dedupeWindow <= 0 ==> o.core.dedupe == core.dedupe)
            && (cfg.detection.dedupeWindow > 0 ==>
                  && key in o.core.dedupe && o.core.dedupe[key] == clock(AtDedupe)
                  && forall k :: k in o.core.dedupe && k != key ==> k in core.dedupe && o.core.dedupe[k] == core.dedupe[k])
  {
    hide Keys.DedupeKey, ClampTimestamp, EvaluateAccess, EvaluateAuthStreak, OpenReader, WindowPass, SortedKeys, NextStreak;
  }

  /** The event bears a stamp that is neither too old nor too new for the skews at this reading. */
  predicate Timely(cfg: DetectionConfig, ev: Event, clock: Clock) {
    && ev.timestamp != 0
    && (cfg.maxClockSkew > 0 ==> clock(AtStart) - ev.timestamp <= cfg.maxClockSkew)
    && (cfg.maxFutureSkew > 0 ==> ev.timestamp - clock(AtStart) <= cfg.maxFutureSkew)
  }

  /** The stamp an event keeps, or else the reading of its arrival; it is kept exactly when timely. */
  lemma ClampedStamp(cfg: DetectionConfig, ev: Event, clock: Clock)
    ensures Clamp(cfg, ev, clock) == ev.(timestamp := if Timely(cfg, ev, clock) then ev.timestamp else clock(AtStart))
    ensures Clamp(cfg, ev, clock).timestamp == ev.timestamp <==> Timely(cfg, ev, clock) || ev.timestamp == clock(AtStart)
  {
  }

  /** Two readings clamp an event alike only by leaving its stamp alone. */
  lemma ClampedAlike(cfg: DetectionConfig, ev: Event, first: Clock, second: Clock)
    requires first(AtStart) < second(AtStart)
    ensures Clamp(cfg, ev, first).timestamp == Clamp(cfg, ev, second).timestamp <==>
            Timely(cfg, ev, first) && Timely(cfg, ev, second)
  {
  }

  /**
   So at a later reading the copy is suppressed within the dedupe window exactly when the event is timely
   both times: one without a stamp, too old or too new is never recognised as a duplicate of itself.
   */
  lemma SkewedDuplicateIsAdmitted(cfg: Config, core: Core, ev: Event, first: Clock, second: Clock)
    requires cfg.Valid() && ValidCore(core)
    requires Unseen(cfg, core, ev, first) && Unseen(cfg, core, ev, second)
    requires first(AtStart) < second(AtStart)
    ensures Step(cfg, Step(cfg, core, ev, first).core, ev, second).admitted <==>
            || cfg.detection.dedupeWindow <= 0
            || second(AtDedupe) - first(AtDedupe) > cfg.detection.dedupeWindow
            || !Timely(cfg.detection, ev, first) || !Timely(cfg.detection, ev, second)
  {
    hide Step, Clamp, Timely, Unseen;
    ResubmissionSuppressed(cfg, core, ev, first, second);
    ClampedAlike(cfg.detection, ev, first, second);
  }
}
