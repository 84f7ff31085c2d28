/** What an alert says, field by field, about the event that raised it. */
module AlertFields {
  import opened Model
  import opened Detection
  import Access
  import Cooldowns
  import Keys
  import Window

  /** The context of an alert about a UID. */
  ghost predicate ReportsUid(ev: Event, context: map<string, string>) {
    && context.Keys == {"uid", "uid_raw", "source", "result", "error_code"}
    && context["uid"] == Access.Canonical(ev.uid) && context["uid_raw"] == ev.uid
    && context["source"] == ev.source && context["result"] == ev.result && context["error_code"] == ev.errorCode
  }

  ghost predicate ReportsPolicy(ev: Event, clock: Clock, a: Alert, severity: string) {
    && a.timestamp == clock(AtAccessStamp) && a.readerID == ev.readerID && a.severity == severity
    && a.windowSec == 0 && a.metrics == WindowMetrics(0, 0, 0, 0.0, 0.0, 0.0, 0.0) && a.score == 0.0
    && a.rules == [a.alertType] && ReportsUid(ev, a.context)
  }

  ghost predicate ReportsStreak(ev: Event, clock: Clock, a: Alert) {
    && a.timestamp == clock(AtStreakStamp) && a.severity == "medium"
    && a.readerID == (if ev.readerID == "" then "unknown" else ev.readerID)
    && a.windowSec == 0 && a.metrics == WindowMetrics(0, 0, 0, 0.0, 0.0, 0.0, 0.0) && a.score == 0.0
    && a.rules == [a.alertType] && ReportsUid(ev, a.context)
  }

  ghost predicate ReportsWindow(ev: Event, clock: Clock, a: Alert) {
    && a.timestamp == clock(AtWindowStamp(a.windowSec)) && a.readerID == ev.readerID
    && a.windowSec == a.metrics.windowSec && a.rules != []
    && a.context == map["engine" := "rfguard"]
  }

  /** Every alert is of one of four types, and bears what that type reports of the event. */
  ghost predicate Reports(ev: Event, clock: Clock, a: Alert) {
    || (a.alertType == "blacklisted_uid" && ReportsPolicy(ev, clock, a, "critical"))
    || (a.alertType == "whitelist_violation" && ReportsPolicy(ev, clock, a, "high"))
    || (a.alertType == "repeated_auth_failure" && ReportsStreak(ev, clock, a))
    || (a.alertType == "possible_bruteforce" && ReportsWindow(ev, clock, a))
  }

  ghost predicate AllReport(ev: Event, clock: Clock, alerts: seq<Alert>) {
    forall i :: 0 <= i < |alerts| ==> Reports(ev, clock, alerts[i])
  }

  lemma ContextOfUid(ev: Event)
    ensures ReportsUid(ev, UidContext(ev))
  {
    hide Access.Canonical;
  }

  lemma AccessReports(cfg: Config, ev: Event, cooldown: map<string, int>, clock: Clock)
    ensures AllReport(ev, clock, EvaluateAccess(cfg, ev, cooldown, clock).alerts)
  {
    hide Access.Compile, Access.Canonical, Access.IsBlacklisted, Access.IsWhitelisted, Keys.WindowKey, Cooldowns.Permit,
         ReportsUid, UidContext;
    ContextOfUid(ev);
  }

  lemma AuthReports(cfg: DetectionConfig, streak: map<string, int>, ev: Event, cooldown: map<string, int>, clock: Clock)
    ensures AllReport(ev, clock, EvaluateAuthStreak(cfg, ReaderKey(ev.readerID), streak, ev, cooldown, clock).alerts)
  {
    hide Access.Canonical, Keys.AuthKey, Cooldowns.Permit, ReportsUid, UidContext, NextStreak;
    OwnStreakKnown(streak, ev);
    ContextOfUid(ev);
  }

  lemma OwnStreakKnown(streak: map<string, int>, ev: Event)
    ensures Access.Canonical(ev.uid) != "" ==> Access.Canonical(ev.uid) in NextStreak(streak, ev)
  {
    hide Access.Canonical;
  }

  lemma EvaluateReports(cfg: DetectionConfig, ev: Event, wm: WindowMetrics, cooldown: map<string, int>, clock: Clock)
    requires cfg.Valid() && wm.tv >= 0.0
    ensures AllReport(ev, clock, Evaluate(cfg, ev.readerID, wm, cooldown, clock).alerts)
  {
    hide Rules, Score, Severity, Keys.WindowKey, Cooldowns.Permit;
  }

  lemma ReportsJoined(ev: Event, clock: Clock, a: seq<Alert>, b: seq<Alert>)
    requires AllReport(ev, clock, a) && AllReport(ev, clock, b)
    ensures AllReport(ev, clock, a + b)
  {
    hide Reports;
  }

  lemma {:induction false} PassReports(
    cfg: DetectionConfig, ev: Event, e: Window.EventEntry, windows: map<int, WindowView>, keys: seq<int>,
    cooldown: map<string, int>, clock: Clock)
    requires cfg.Valid() && PositiveDurations(windows)
    requires forall i :: 0 <= i < |keys| ==> keys[i] in windows
    ensures AllReport(ev, clock, WindowPass(cfg, ev.readerID, e, windows, keys, cooldown, clock).alerts)
  {
    if keys != [] {
      var front, k := keys[..|keys| - 1], keys[|keys| - 1];
      PassReports(cfg, ev, e, windows, front, cooldown, clock);
      var p := WindowPass(cfg, ev.readerID, e, windows, front, cooldown, clock);
      var wm := MetricsOfView(PushView(p.windows[k], e));
      EvaluateReports(cfg, ev, wm, p.cooldown, clock);
      hide Evaluate, AllReport, MetricsOfView, PushView;
      ReportsJoined(ev, clock, p.alerts, Evaluate(cfg, ev.readerID, wm, p.cooldown, clock).alerts);
    }
  }

  lemma AdmitReports(cfg: Config, core: Core, ev: Event, clock: Clock)
    requires cfg.Valid() && ValidCore(core)
    ensures AllReport(ev, clock, Admit(cfg, core, ev, clock).alerts)
  {
    var d, id := cfg.detection, ReaderKey(ev.readerID);
    OpenReaderPositive(d, core, id);
    hide EvaluateAccess, EvaluateAuthStreak, OpenReader, WindowPass, SortedKeys, NextStreak, AllReport, ReaderKey;
    var access := EvaluateAccess(cfg, ev, core.cooldown, clock);
    var reader := OpenReader(d, core.readers, id);
    var auth := EvaluateAuthStreak(d, id, reader.streak, ev, access.cooldown, clock);
    var keys := SortedKeys(reader.windows.Keys);
    AccessReports(cfg, ev, core.cooldown, clock);
    AuthReports(d, reader.streak, ev, access.cooldown, clock);
    PassReports(d, ev, EntryOf(ev), reader.windows, keys, auth.cooldown, clock);
    ReportsJoined(ev, clock, access.alerts, auth.alerts);
    ReportsJoined(ev, clock, access.alerts + auth.alerts,
                  WindowPass(d, ev.readerID, EntryOf(ev), reader.windows, keys, auth.cooldown, clock).alerts);
  }

  /** Whatever the state of the engine, each alert of an event reports it, with the reading at its own making. */
  lemma AlertsReportTheirEvent(cfg: Config, core: Core, ev: Event, clock: Clock)
    requires cfg.Valid() && ValidCore(core)
    ensures AllReport(ev, clock, Step(cfg, core, ev, clock).alerts)
  {
    hide Admit, CheckDuplicate, ReportsUid, ClampTimestamp, Reports;
    var e := Clamp(cfg.detection, ev, clock);
    AdmitReports(cfg, core.(dedupe := CheckDuplicate(cfg.detection, core.dedupe, e, clock).1), e, clock);
    forall a: Alert
      ensures Reports(e, clock, a) <==> Reports(ev, clock, a)
    {
      SameReport(ev, e, clock, a);
    }
  }

  lemma SameReport(ev: Event, e: Event, clock: Clock, a: Alert)
    requires e == ev.(timestamp := e.timestamp)
    ensures Reports(e, clock, a) <==> Reports(ev, clock, a)
  {
    hide Access.Canonical;
  }
}
