/** What metrics and alerts say about a reader's history, for every event of every run. */
module EngineProperties {
  import opened Model
  import opened Detection
  import opened EngineRun
  import opened EngineHistory
  import opened Window
  import opened WindowHistory
  import opened Measures
  import Variance

  // ---------- Metrics of an admitted event ----------

  /** The reader's admitted events with the one at hand. */
  function HistoryWith(s: State, ev: Event, clock: Clock): seq<Event> {
    var e := Clamp(s.cfg.detection, ev, clock);
    EventsOf(s.history, ReaderKey(ev.readerID)) + [e]
  }

  ghost function Result(s: State, ev: Event, clock: Clock): Outcome
    requires s.Valid()
  {
    Step(s.cfg, s.core, ev, clock)
  }

  /** The event, as clamped, passes the duplicate check. */
  predicate IsNew(s: State, ev: Event, clock: Clock) {
    !CheckDuplicate(s.cfg.detection, s.core.dedupe, Clamp(s.cfg.detection, ev, clock), clock).0
  }

  function ConfiguredKeys(cfg: DetectionConfig): seq<int> {
    SortedKeys(NewWindows(cfg.windows).Keys)
  }

  function DurationOf(cfg: DetectionConfig, sec: int): int
    requires sec in NewWindows(cfg.windows)
  {
    NewWindows(cfg.windows)[sec].duration
  }

  lemma DurationsPositive(cfg: DetectionConfig, sec: int)
    requires cfg.Valid() && sec in NewWindows(cfg.windows)
    ensures DurationOf(cfg, sec) > 0 && WholeSeconds(DurationOf(cfg, sec)) == sec
  {
    NewWindowsPositive(cfg.windows);
    NewWindowsAreEmpty(cfg.windows);
  }

  /** The metrics recorded for a window are those of what that window holds after the whole history. */
  ghost predicate MetricsAt(cfg: DetectionConfig, sec: int, es: seq<Event>, wm: WindowMetrics) {
    && sec in NewWindows(cfg.windows)
    && DurationOf(cfg, sec) > 0
    && wm == MetricsOf(DurationOf(cfg, sec), LiveAfter(DurationOf(cfg, sec), Entries(es)))
  }

  lemma AdmittedIffNew(s: State, ev: Event, clock: Clock)
    requires s.Valid()
    ensures Result(s, ev, clock).admitted <==> IsNew(s, ev, clock)
  {
    hide Admit, CheckDuplicate, Clamp;
  }

  lemma AdmittedStep(s: State, ev: Event, clock: Clock)
    requires s.Valid() && IsNew(s, ev, clock)
    ensures var dedupe := CheckDuplicate(s.cfg.detection, s.core.dedupe, Clamp(s.cfg.detection, ev, clock), clock).1;
            Result(s, ev, clock) == Admit(s.cfg, s.core.(dedupe := dedupe), Clamp(s.cfg.detection, ev, clock), clock)
  {
    hide Admit, CheckDuplicate, Clamp;
  }

  lemma MeasuredOverHistory(s: State, ev: Event, clock: Clock)
    requires s.Valid() && FollowsHistory(s) && IsNew(s, ev, clock)
    ensures Measured(EntryOf(Clamp(s.cfg.detection, ev, clock)),
                     WindowsOf(s.cfg.detection, EventsOf(s.history, ReaderKey(ev.readerID))),
                     ConfiguredKeys(s.cfg.detection), Result(s, ev, clock).metrics)
  {
    AdmittedStep(s, ev, clock);
    var cfg := s.cfg.detection;
    var e := Clamp(cfg, ev, clock);
    hide Result, CheckDuplicate, Admit, EventsOf, OpenReader, After, Measured, NewWindows, SortedKeys, StreaksOf, LiveAfter;
    AdmitReader(s.cfg, s.core.(dedupe := CheckDuplicate(cfg, s.core.dedupe, e, clock).1), e, clock);
    OpenedFollowsHistory(s, ReaderKey(e.readerID));
    assert WindowsOf(cfg, EventsOf(s.history, ReaderKey(e.readerID))).Keys == NewWindows(cfg.windows).Keys;
  }

  lemma MeasuredIsMetrics(cfg: DetectionConfig, es: seq<Event>, e: Event, sec: int, wm: WindowMetrics)
    requires cfg.Valid() && MeasuredAt(EntryOf(e), WindowsOf(cfg, es), sec, wm)
    ensures MetricsAt(cfg, sec, es + [e], wm)
  {
    hide NewWindows, LiveAfter, MetricsOf;
    WindowsSnoc(cfg, es, e, sec);
  }

  /** The metrics declared on the events that no later one has outrun by the window's duration. */
  ghost predicate MeasuredAlong(cfg: DetectionConfig, sec: int, es: seq<Event>, wm: WindowMetrics) {
    && sec in NewWindows(cfg.windows)
    && DurationOf(cfg, sec) > 0
    && exists k: nat :: OldestLive(DurationOf(cfg, sec), es, k) && wm == Declared(DurationOf(cfg, sec), es[k..])
  }

  lemma MetricsAlong(cfg: DetectionConfig, sec: int, es: seq<Event>, wm: WindowMetrics)
    requires es != [] && MetricsAt(cfg, sec, es, wm)
    ensures MeasuredAlong(cfg, sec, es, wm)
  {
    hide NewWindows, LiveAfter, MetricsOf, Outrun, Declared, Entries, OldestLive;
    var d := DurationOf(cfg, sec);
    var k := LiveFromOldest(d, es);
    InsideHistory(d, es, k);
    MetricsAreDeclared(d, es[k..]);
    assert OldestLive(d, es, k) && wm == Declared(d, es[k..]);
  }

  lemma InsideHistory(duration: int, es: seq<Event>, k: nat)
    requires OldestLive(duration, es, k)
    ensures k < |es| && es[k..] != []
  {
  }

  /** Window by window, shortest first, an event's metrics are those of what its reader's history leaves in the window. */
  lemma MetricsFollowHistory(s: State, ev: Event, clock: Clock)
    requires s.Valid() && FollowsHistory(s) && IsNew(s, ev, clock)
    ensures |Result(s, ev, clock).metrics| == |ConfiguredKeys(s.cfg.detection)|
    ensures forall i :: 0 <= i < |ConfiguredKeys(s.cfg.detection)| ==>
              MetricsAt(s.cfg.detection, ConfiguredKeys(s.cfg.detection)[i], HistoryWith(s, ev, clock),
                        Result(s, ev, clock).metrics[i])
    ensures forall i :: 0 <= i < |ConfiguredKeys(s.cfg.detection)| ==>
              MeasuredAlong(s.cfg.detection, ConfiguredKeys(s.cfg.detection)[i], HistoryWith(s, ev, clock),
                            Result(s, ev, clock).metrics[i])
  {
    var cfg := s.cfg.detection;
    var e, es := Clamp(cfg, ev, clock), EventsOf(s.history, ReaderKey(ev.readerID));
    var keys, metrics := ConfiguredKeys(cfg), Result(s, ev, clock).metrics;
    MeasuredOverHistory(s, ev, clock);
    hide Result, ConfiguredKeys, Clamp, EventsOf, WindowsOf, MeasuredAt, MetricsAt, MeasuredAlong;
    forall i | 0 <= i < |keys|
      ensures MetricsAt(cfg, keys[i], es + [e], metrics[i])
      ensures MeasuredAlong(cfg, keys[i], es + [e], metrics[i])
    {
      MeasuredIsMetrics(cfg, es, e, keys[i], metrics[i]);
      MetricsAlong(cfg, keys[i], es + [e], metrics[i]);
    }
  }

  lemma MetricsAtIndex(s: State, ev: Event, clock: Clock, i: nat)
    requires s.Valid() && FollowsHistory(s) && IsNew(s, ev, clock)
    requires i < |ConfiguredKeys(s.cfg.detection)|
    ensures i < |Result(s, ev, clock).metrics|
    ensures MetricsAt(s.cfg.detection, ConfiguredKeys(s.cfg.detection)[i], HistoryWith(s, ev, clock),
                      Result(s, ev, clock).metrics[i])
  {
    MetricsFollowHistory(s, ev, clock);
  }

  /** Stamps never go back along the reader's events. */
  ghost predicate StampsInOrder(es: seq<Event>) {
    forall i, j :: 0 <= i < j < |es| ==> es[i].timestamp <= es[j].timestamp
  }

  /** A window's metrics are those declared on exactly the events stamped within its duration up to t. */
  ghost predicate ExactAt(cfg: DetectionConfig, sec: int, es: seq<Event>, t: int, wm: WindowMetrics) {
    && sec in NewWindows(cfg.windows)
    && DurationOf(cfg, sec) > 0
    && Span(es, t - DurationOf(cfg, sec), t) != []
    && wm == Declared(DurationOf(cfg, sec), Span(es, t - DurationOf(cfg, sec), t))
  }

  lemma ExactFromHistory(cfg: DetectionConfig, sec: int, es: seq<Event>, wm: WindowMetrics)
    requires es != [] && StampsInOrder(es) && MetricsAt(cfg, sec, es, wm)
    ensures ExactAt(cfg, sec, es, es[|es| - 1].timestamp, wm)
  {
    hide NewWindows, MetricsOf, LiveAfter, Within, Declared, Span;
    var d, t := DurationOf(cfg, sec), es[|es| - 1].timestamp;
    EntriesMeaningShort(es);
    assert InOrder(Entries(es));
    ExactWhenInOrder(d, Entries(es));
    SpanOfEntries(es, t - d, t);
    SpanHasLast(es, d);
    MetricsAreDeclared(d, Span(es, t - d, t));
  }

  lemma SpanHasLast(es: seq<Event>, duration: int)
    requires es != [] && duration > 0
    ensures var t := es[|es| - 1].timestamp; Span(es, t - duration, t) != []
  {
  }

  /** With the reader's timestamps in order, each window's metrics are those of exactly its time span. */
  lemma MetricsExactInOrder(s: State, ev: Event, clock: Clock, i: nat)
    requires s.Valid() && FollowsHistory(s) && IsNew(s, ev, clock)
    requires StampsInOrder(HistoryWith(s, ev, clock))
    requires i < |ConfiguredKeys(s.cfg.detection)|
    ensures i < |Result(s, ev, clock).metrics|
    ensures ExactAt(s.cfg.detection, ConfiguredKeys(s.cfg.detection)[i], HistoryWith(s, ev, clock),
                    Clamp(s.cfg.detection, ev, clock).timestamp, Result(s, ev, clock).metrics[i])
  {
    var cfg, es := s.cfg.detection, HistoryWith(s, ev, clock);
    assert es[|es| - 1] == Clamp(cfg, ev, clock);
    hide Result, HistoryWith, MetricsAt, ExactAt, ConfiguredKeys, Clamp, FollowsHistory, StampsInOrder;
    MetricsAtIndex(s, ev, clock, i);
    ExactFromHistory(cfg, ConfiguredKeys(cfg)[i], es, Result(s, ev, clock).metrics[i]);
  }

  /** Along the sorted windows attempts, failures and distinct UIDs never decrease, in whatever order events came. */
  lemma MetricsNest(s: State, ev: Event, clock: Clock, i: nat, j: nat)
    requires s.Valid() && FollowsHistory(s) && IsNew(s, ev, clock)
    requires i < j < |Result(s, ev, clock).metrics|
    ensures var m := Result(s, ev, clock).metrics;
            m[i].windowSec < m[j].windowSec && CountsNest(m[i], m[j])
  {
    MetricsFollowHistory(s, ev, clock);
    var cfg, es, keys := s.cfg.detection, HistoryWith(s, ev, clock), ConfiguredKeys(s.cfg.detection);
    SortedKeysAscend(NewWindows(cfg.windows).Keys);
    assert keys[i] < keys[j];
    hide Result, HistoryWith, ConfiguredKeys, LiveAfter, NewWindows, CountsNest;
    assert MetricsAt(cfg, keys[i], es, Result(s, ev, clock).metrics[i]);
    assert MetricsAt(cfg, keys[j], es, Result(s, ev, clock).metrics[j]);
    DurationsPositive(cfg, keys[i]);
    DurationsPositive(cfg, keys[j]);
    assert Entries(es)[0..] == Entries(es);
    CountsGrowWithDuration(DurationOf(cfg, keys[i]), DurationOf(cfg, keys[j]), Entries(es), 0);
  }

  // ---------- Scores ----------

  /** Each weight acts on its own metric: what raising it adds to the score, from nothing without weights. */
  lemma ScoreWeighs(cfg: DetectionConfig, wm: WindowMetrics, d: real)
    requires cfg.epsilon > 0.0 && wm.tv >= 0.0
    ensures var w := cfg.weights;
            && Score(cfg.(weights := w.(aps := w.aps + d)), wm) == Score(cfg, wm) + d * wm.aps
            && Score(cfg.(weights := w.(fr := w.fr + d)), wm) == Score(cfg, wm) + d * wm.fr
            && Score(cfg.(weights := w.(uds := w.uds + d)), wm) == Score(cfg, wm) + d * wm.uds
            && Score(cfg.(weights := w.(tv := w.tv + d)), wm) == Score(cfg, wm) + d * (1.0 / (wm.tv + cfg.epsilon))
            && Score(cfg.(weights := Weights(0.0, 0.0, 0.0, 0.0)), wm) == 0.0
  {
    var w, q := cfg.weights, 1.0 / (wm.tv + cfg.epsilon);
    assert (w.aps + d) * wm.aps == w.aps * wm.aps + d * wm.aps;
    assert (w.fr + d) * wm.fr == w.fr * wm.fr + d * wm.fr;
    assert (w.uds + d) * wm.uds == w.uds * wm.uds + d * wm.uds;
    assert (w.tv + d) * q == w.tv * q + d * q;
  }

  /** The score, read off the events of the window. */
  function DeclaredScore(cfg: DetectionConfig, duration: int, es: seq<Event>): real
    requires cfg.epsilon > 0.0 && duration > 0 && es != []
  {
    var n, variance := |es| as real, Variance.PopulationVariance(Lapses(es));
    Variance.VarianceSign(Lapses(es));
    cfg.weights.aps * (n / Length(duration))
    + cfg.weights.fr * (|Failed(es)| as real / n)
    + cfg.weights.uds * (|UidsIn(es)| as real / n)
    + cfg.weights.tv * (1.0 / (variance + cfg.epsilon))
  }

  lemma ScoreIsDeclared(cfg: DetectionConfig, duration: int, es: seq<Event>)
    requires cfg.epsilon > 0.0 && duration > 0 && es != []
    ensures Score(cfg, MetricsOf(duration, Entries(es))) == DeclaredScore(cfg, duration, es)
  {
    hide MetricsOf, Entries, Lapses, UidsIn, Failed, Variance.PopulationVariance;
    MetricsAreDeclared(duration, es);
  }

  // ---------- Rules ----------

  /** More events than the rate allows in the window's time. */
  predicate RateAbove(es: seq<Event>, duration: int, perSecond: real) {
    |es| as real > perSecond * Length(duration)
  }

  /** More of the window's events than a ratio allows. */
  predicate ShareAbove(count: nat, es: seq<Event>, ratio: real) {
    count as real > ratio * |es| as real
  }

  /** The rules, read off the events of the window: counts against thresholds, but for the score. */
  function DeclaredRules(cfg: DetectionConfig, duration: int, es: seq<Event>): seq<string>
    requires cfg.epsilon > 0.0 && duration > 0 && es != []
  {
    RuleIf(RateAbove(es, duration, cfg.apsThreshold), "excessive_attempt_rate")
    + RuleIf(ShareAbove(|Failed(es)|, es, cfg.failureRatioThreshold) && |es| >= cfg.minAttempts, "failure_spike")
    + RuleIf(ShareAbove(|UidsIn(es)|, es, cfg.uidDiversityThreshold)
             && RateAbove(es, duration, cfg.apsElevatedThreshold), "uid_spraying")
    + RuleIf(Variance.PopulationVariance(Lapses(es)) < cfg.timingVarianceThreshold
             && RateAbove(es, duration, cfg.apsElevatedThreshold), "machine_timing")
    + RuleIf(DeclaredScore(cfg, duration, es) > cfg.attackScoreThreshold && |es| >= cfg.minAttempts
             && RateAbove(es, duration, cfg.apsElevatedThreshold), "attack_score")
  }

  lemma QuotientAbove(x: real, y: real, t: real)
    requires y > 0.0
    ensures x / y > t <==> x > t * y
  {
    assert x == (x / y) * y;
    if x / y > t {
      assert (x / y - t) * y > 0.0;
    } else {
      assert (t - x / y) * y >= 0.0;
    }
  }

  lemma RatesAreDeclared(duration: int, es: seq<Event>, perSecond: real)
    requires duration > 0 && es != []
    ensures Declared(duration, es).aps > perSecond <==> RateAbove(es, duration, perSecond)
  {
    hide Lapses, UidsIn, Failed, Variance.PopulationVariance;
    QuotientAbove(|es| as real, Length(duration), perSecond);
  }

  lemma RatiosAreDeclared(duration: int, es: seq<Event>, ratio: real)
    requires duration > 0 && es != []
    ensures Declared(duration, es).fr > ratio <==> ShareAbove(|Failed(es)|, es, ratio)
    ensures Declared(duration, es).uds > ratio <==> ShareAbove(|UidsIn(es)|, es, ratio)
  {
    hide Lapses, UidsIn, Failed, Variance.PopulationVariance, Length;
    QuotientAbove(|Failed(es)| as real, |es| as real, ratio);
    QuotientAbove(|UidsIn(es)| as real, |es| as real, ratio);
  }

  /** The severity, read off the same events. */
  function DeclaredSeverity(cfg: DetectionConfig, duration: int, es: seq<Event>): string
    requires cfg.epsilon > 0.0 && duration > 0 && es != []
  {
    var score := DeclaredScore(cfg, duration, es);
    if RateAbove(es, duration, 2.0 * cfg.apsThreshold) || score > 2.0 * cfg.attackScoreThreshold then "critical"
    else if |DeclaredRules(cfg, duration, es)| < 2 && score <= cfg.attackScoreThreshold then "medium"
    else "high"
  }

  lemma RulesAreDeclared(cfg: DetectionConfig, duration: int, es: seq<Event>)
    requires cfg.epsilon > 0.0 && duration > 0 && es != []
    ensures Rules(cfg, MetricsOf(duration, Entries(es))) == DeclaredRules(cfg, duration, es)
  {
    hide MetricsOf, Entries, Score, DeclaredScore, Failed, UidsIn, Lapses, Variance.PopulationVariance, RuleIf, Length, RateAbove,
         ShareAbove;
    MetricsAreDeclared(duration, es);
    ScoreIsDeclared(cfg, duration, es);
    RatesAreDeclared(duration, es, cfg.apsThreshold);
    RatesAreDeclared(duration, es, cfg.apsElevatedThreshold);
    RatiosAreDeclared(duration, es, cfg.failureRatioThreshold);
    RatiosAreDeclared(duration, es, cfg.uidDiversityThreshold);
  }

  lemma SeverityIsDeclared(cfg: DetectionConfig, duration: int, es: seq<Event>)
    requires cfg.epsilon > 0.0 && duration > 0 && es != []
    ensures Severity(cfg, MetricsOf(duration, Entries(es))) == DeclaredSeverity(cfg, duration, es)
  {
    hide MetricsOf, Entries, Score, DeclaredScore, Rules, DeclaredRules, RateAbove, Declared;
    MetricsAreDeclared(duration, es);
    ScoreIsDeclared(cfg, duration, es);
    RulesAreDeclared(cfg, duration, es);
    RatesAreDeclared(duration, es, 2.0 * cfg.apsThreshold);
  }
}
