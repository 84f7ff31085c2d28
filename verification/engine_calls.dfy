/** The alerts an event calls for, as a function of its reader's history, and which of them are sent. */
module EngineCalls {
  import opened Model
  import opened Detection
  import opened EngineRun
  import opened EngineHistory
  import opened EngineProperties
  import opened EngineReconfigured
  import opened Coherence
  import opened Window
  import opened WindowHistory
  import opened Sending
  import Access
  import Cooldowns
  import Keys

  const BRUTEFORCE := "possible_bruteforce"
  const AUTH_FAILURE := "repeated_auth_failure"
  const BLACKLISTED := "blacklisted_uid"
  const NOT_WHITELISTED := "whitelist_violation"

  // ---------- Causes ----------

  /** The policy is on, and its blacklists name this UID for this reader. */
  ghost predicate Denied(cfg: AccessConfig, ev: Event) {
    var uid := Access.Canonical(ev.uid);
    cfg.enabled && uid != "" && Access.ListedFor(cfg.blacklist, cfg.readerBlacklists, ev.readerID, uid)
  }

  /** The policy admits listed UIDs only; neither a blacklist nor a whitelist names this one. */
  ghost predicate Unlisted(cfg: AccessConfig, ev: Event) {
    var uid := Access.Canonical(ev.uid);
    && cfg.enabled && cfg.whitelistOnly && uid != "" && !Denied(cfg, ev)
    && !Access.ListedFor(cfg.whitelist, cfg.readerWhitelists, ev.readerID, uid)
  }

  /** The last two events of this UID are both failures with an error code. */
  ghost predicate TwoInARow(es: seq<Event>, uid: string) {
    var own := ForUid(es, uid);
    && uid != "" && |own| >= 2
    && own[|own| - 1].result == "failure" && own[|own| - 1].errorCode != ""
    && own[|own| - 2].result == "failure" && own[|own| - 2].errorCode != ""
  }

  ghost predicate Breaks(cfg: DetectionConfig, wm: WindowMetrics) {
    cfg.epsilon > 0.0 && wm.tv >= 0.0 && wm.attempts != 0 && Rules(cfg, wm) != []
  }

  // ---------- Calls ----------

  function AccessCall(ev: Event, severity: string, rule: string, clock: Clock): Call {
    Call(Keys.WindowKey(ev.readerID, 0), clock(AtAccess), UidAlert(ev, ev.readerID, severity, rule, clock(AtAccessStamp)))
  }

  ghost function AccessCalls(cfg: AccessConfig, ev: Event, clock: Clock): seq<Call> {
    if Denied(cfg, ev) then [AccessCall(ev, "critical", BLACKLISTED, clock)]
    else if Unlisted(cfg, ev) then [AccessCall(ev, "high", NOT_WHITELISTED, clock)]
    else []
  }

  function AuthCalls(cause: bool, ev: Event, clock: Clock): seq<Call> {
    var id := ReaderKey(ev.readerID);
    if cause then [Call(Keys.AuthKey(id, Access.Canonical(ev.uid)), clock(AtStreak),
                        UidAlert(ev, id, "medium", AUTH_FAILURE, clock(AtStreakStamp)))]
    else []
  }

  function WindowCall(cfg: DetectionConfig, readerID: string, wm: WindowMetrics, clock: Clock): Call
    requires cfg.epsilon > 0.0 && wm.tv >= 0.0
  {
    Call(Keys.WindowKey(readerID, wm.windowSec), clock(AtWindow(wm.windowSec)),
         WindowAlert(cfg, readerID, wm, clock(AtWindowStamp(wm.windowSec))))
  }

  ghost function WindowCalls(cfg: DetectionConfig, readerID: string, metrics: seq<WindowMetrics>, clock: Clock): seq<Call> {
    if metrics == [] then []
    else
      var front, wm := WindowCalls(cfg, readerID, metrics[..|metrics| - 1], clock), metrics[|metrics| - 1];
      if Breaks(cfg, wm) then front + [WindowCall(cfg, readerID, wm, clock)] else front
  }

  /** The metrics of all configured windows, computed from the reader's events. */
  function HistoryMetrics(cfg: DetectionConfig, es: seq<Event>): seq<WindowMetrics>
    requires cfg.Valid()
  {
    NewWindowsPositive(cfg.windows);
    var keys := ConfiguredKeys(cfg);
    seq(|keys|, i requires 0 <= i < |keys| && keys[i] in NewWindows(cfg.windows) && DurationOf(cfg, keys[i]) > 0 =>
          MetricsOf(DurationOf(cfg, keys[i]), LiveAfter(DurationOf(cfg, keys[i]), Entries(es))))
  }

  /** All the alerts that the last event of a reader's history calls for, whatever the cooldown says. */
  ghost function EventCalls(cfg: Config, es: seq<Event>, clock: Clock): seq<Call>
    requires cfg.Valid() && es != []
  {
    var ev := es[|es| - 1];
    AccessCalls(cfg.access, ev, clock)
    + AuthCalls(TwoInARow(es, Access.Canonical(ev.uid)), ev, clock)
    + WindowCalls(cfg.detection, ev.readerID, HistoryMetrics(cfg.detection, es), clock)
  }

  // ---------- Each stage sends its calls ----------

  function VerdictOf(s: Sent): Verdict {
    Verdict(AlertsOf(s.calls), s.last)
  }

  lemma VerdictOfOne(c: Call, last: map<string, int>, cooldown: int)
    ensures VerdictOf(Send([c], last, cooldown)) ==
            Verdict(if Ready(last, c.key, c.at, cooldown) then [c.alert] else [],
                    Cooldowns.Permit(last, c.key, c.at, cooldown).1)
    ensures Cooldowns.Permit(last, c.key, c.at, cooldown).0 == Ready(last, c.key, c.at, cooldown)
    ensures VerdictOf(Send([], last, cooldown)) == Verdict([], last)
  {
    SendOne(c, last, cooldown);
    assert AlertsOf([c]) == [c.alert] && AlertsOf([]) == [];
  }

  lemma AccessSends(cfg: Config, ev: Event, cooldown: map<string, int>, clock: Clock)
    ensures EvaluateAccess(cfg, ev, cooldown, clock) ==
            VerdictOf(Send(AccessCalls(cfg.access, ev, clock), cooldown, cfg.detection.alertCooldown))
  {
    assert Access.Compile(cfg.access).enabled == cfg.access.enabled;
    assert cfg.access.enabled ==> Access.Compile(cfg.access).whitelistOnly == cfg.access.whitelistOnly;
    if cfg.access.enabled && Access.Canonical(ev.uid) != "" {
      Access.LookupMeaning(cfg.access, ev.readerID, ev.uid);
    }
    assert Access.Canonical("") == "";
    hide Access.Compile, Access.Canonical, Access.IsBlacklisted, Access.IsWhitelisted, Access.ListedFor, Keys.WindowKey, Send,
         Cooldowns.Permit, Ready, VerdictOf;
    VerdictOfOne(AccessCall(ev, "critical", BLACKLISTED, clock), cooldown, cfg.detection.alertCooldown);
    VerdictOfOne(AccessCall(ev, "high", NOT_WHITELISTED, clock), cooldown, cfg.detection.alertCooldown);
  }

  lemma StreakOfOwnUid(streak: map<string, int>, ev: Event)
    ensures Access.Canonical(ev.uid) != "" ==> Access.Canonical(ev.uid) in NextStreak(streak, ev)
  {
    hide Access.Canonical;
  }

  ghost predicate StreakOfTwoOrMore(streak: map<string, int>, uid: string) {
    uid != "" && uid in streak && streak[uid] >= 2
  }

  lemma AuthSends(cfg: DetectionConfig, streak: map<string, int>, ev: Event, cooldown: map<string, int>, clock: Clock)
    ensures EvaluateAuthStreak(cfg, ReaderKey(ev.readerID), streak, ev, cooldown, clock) ==
            VerdictOf(Send(AuthCalls(StreakOfTwoOrMore(NextStreak(streak, ev), Access.Canonical(ev.uid)), ev, clock),
                           cooldown, cfg.alertCooldown))
  {
    StreakOfOwnUid(streak, ev);
    hide Access.Canonical, Keys.AuthKey, Send, Cooldowns.Permit, Ready, VerdictOf, NextStreak, ReaderKey;
    var id, uid := ReaderKey(ev.readerID), Access.Canonical(ev.uid);
    VerdictOfOne(Call(Keys.AuthKey(id, uid), clock(AtStreak), UidAlert(ev, id, "medium", AUTH_FAILURE, clock(AtStreakStamp))),
                 cooldown, cfg.alertCooldown);
  }

  lemma WindowSends(cfg: DetectionConfig, readerID: string, wm: WindowMetrics, cooldown: map<string, int>, clock: Clock)
    requires cfg.Valid() && wm.tv >= 0.0
    ensures Evaluate(cfg, readerID, wm, cooldown, clock) ==
            VerdictOf(Send(if Breaks(cfg, wm) then [WindowCall(cfg, readerID, wm, clock)] else [], cooldown, cfg.alertCooldown))
  {
    hide Rules, Score, Severity, Keys.WindowKey, Send, Cooldowns.Permit, Ready, VerdictOf;
    VerdictOfOne(WindowCall(cfg, readerID, wm, clock), cooldown, cfg.alertCooldown);
  }

  lemma WindowCallsSnoc(cfg: DetectionConfig, readerID: string, metrics: seq<WindowMetrics>, wm: WindowMetrics, clock: Clock)
    ensures WindowCalls(cfg, readerID, metrics + [wm], clock) ==
            WindowCalls(cfg, readerID, metrics, clock)
            + (if Breaks(cfg, wm) then [WindowCall(cfg, readerID, wm, clock)] else [])
  {
    hide Breaks, WindowCall;
    assert (metrics + [wm])[..|metrics|] == metrics;
  }

  lemma VerdictsJoin(a: seq<Call>, b: seq<Call>, last: map<string, int>, cooldown: int)
    ensures var v := VerdictOf(Send(a, last, cooldown)); var w := VerdictOf(Send(b, v.cooldown, cooldown));
            VerdictOf(Send(a + b, last, cooldown)) == Verdict(v.alerts + w.alerts, w.cooldown)
  {
    SendAppend(a, b, last, cooldown);
    hide Send;
    AlertsOfAppend(Send(a, last, cooldown).calls, Send(b, Send(a, last, cooldown).last, cooldown).calls);
  }

  /** The alerts of a pass over the windows are those of its calls that the cooldown lets through. */
  lemma {:induction false} PassSends(
    cfg: DetectionConfig, readerID: string, e: EventEntry, windows: map<int, WindowView>, keys: seq<int>,
    cooldown: map<string, int>, clock: Clock)
    requires cfg.Valid() && PositiveDurations(windows)
    requires forall i :: 0 <= i < |keys| ==> keys[i] in windows
    ensures var p := WindowPass(cfg, readerID, e, windows, keys, cooldown, clock);
            Verdict(p.alerts, p.cooldown) ==
            VerdictOf(Send(WindowCalls(cfg, readerID, p.metrics, clock), cooldown, cfg.alertCooldown))
  {
    if keys != [] {
      var front, k := keys[..|keys| - 1], keys[|keys| - 1];
      PassSends(cfg, readerID, e, windows, front, cooldown, clock);
      var p := WindowPass(cfg, readerID, e, windows, front, cooldown, clock);
      var wm := MetricsOfView(PushView(p.windows[k], e));
      hide Evaluate, Breaks, MetricsOfView, PushView, WindowCalls, WindowCall, Send, VerdictOf;
      WindowSends(cfg, readerID, wm, p.cooldown, clock);
      WindowCallsSnoc(cfg, readerID, p.metrics, wm, clock);
      VerdictsJoin(WindowCalls(cfg, readerID, p.metrics, clock),
                   if Breaks(cfg, wm) then [WindowCall(cfg, readerID, wm, clock)] else [], cooldown, cfg.alertCooldown);
    }
  }

  // ---------- One event ----------

  lemma StreakOfTwo(es: seq<Event>, uid: string)
    ensures StreakOfTwoOrMore(StreaksOf(es), uid) <==> TwoInARow(es, uid)
  {
    var own := ForUid(es, uid);
    if uid != "" && uid !in UidsSeen(es) {
      UnseenHasNoEvents(es, uid);
    }
    NoEmptyUid(es);
    TailFailuresIsLongest(own);
    if |own| >= 2 {
      var front := own[..|own| - 1];
      assert front[|front| - 1] == own[|own| - 2];
      assert TailFailures(front) >= 1 <==> IsAuthFailure(own[|own| - 2]);
    }
    hide ForUid, UidsSeen;
  }

  lemma MetricsAreHistoryMetrics(s: State, ev: Event, clock: Clock)
    requires s.Valid() && FollowsHistory(s) && IsNew(s, ev, clock)
    ensures Result(s, ev, clock).metrics == HistoryMetrics(s.cfg.detection, HistoryWith(s, ev, clock))
  {
    hide Result, HistoryWith, ConfiguredKeys, NewWindows, MetricsOf, LiveAfter, IsNew, FollowsHistory;
    MetricsFollowHistory(s, ev, clock);
    var keys, metrics := ConfiguredKeys(s.cfg.detection), Result(s, ev, clock).metrics;
    forall i | 0 <= i < |keys|
      ensures metrics[i] == HistoryMetrics(s.cfg.detection, HistoryWith(s, ev, clock))[i]
    {
      assert MetricsAt(s.cfg.detection, keys[i], HistoryWith(s, ev, clock), metrics[i]);
    }
  }

  /** Every reader has its windows under their own seconds, and the streaks of its admitted events. */
  ghost predicate Tracks(s: State) {
    && WellKeyed(s.core)
    && forall id ::
         if id in s.core.readers then s.core.readers[id].streak == StreaksOf(EventsOf(s.history, id))
         else EventsOf(s.history, id) == []
  }

  lemma HistoryIsTracked(s: State)
    requires s.Valid() && FollowsHistory(s)
    ensures Tracks(s)
  {
    hide EventsOf, StreaksOf, NewWindows;
    forall id | id in s.core.readers
      ensures KeyedBySeconds(s.core.readers[id].windows)
    {
      NewWindowsKeyed(s.cfg.detection.windows);
    }
  }

  /** So it is after any run, whatever configuration changes it has. */
  lemma RunsAreTracked(cfg: Config, ops: seq<Op>)
    requires cfg.Valid() && ValidOps(ops)
    ensures Tracks(RunOps(cfg, ops))
  {
    hide RunOps, FollowsReconfigured;
    StateFollowsReconfiguredHistory(cfg, ops);
    ReconfiguredIsTracked(RunOps(cfg, ops));
  }

  lemma ReconfiguredIsTracked(s: State)
    requires s.Valid() && FollowsReconfigured(s)
    ensures Tracks(s)
  {
    hide EventsOf, ConfigsOf, StreaksOf;
    forall id | id in s.core.readers
      ensures KeyedBySeconds(s.core.readers[id].windows)
    {
      assert PositiveDurations(s.core.readers[id].windows);
      assert ReaderFollows(EventsOf(s.history, id), ConfigsOf(s.history, id), ViewOf(s.core.readers, id));
      FollowedIsKeyed(EventsOf(s.history, id), ConfigsOf(s.history, id), s.core.readers[id]);
    }
    forall id
      ensures if id in s.core.readers then s.core.readers[id].streak == StreaksOf(EventsOf(s.history, id))
              else EventsOf(s.history, id) == []
    {
      assert ReaderFollows(EventsOf(s.history, id), ConfigsOf(s.history, id), ViewOf(s.core.readers, id));
    }
  }

  lemma FollowedIsKeyed(es: seq<Event>, configs: seq<seq<int>>, v: ReaderView)
    requires ReaderFollows(es, configs, v) && PositiveDurations(v.windows)
    ensures KeyedBySeconds(v.windows)
  {
    hide StreaksOf, LiveAfter;
    forall sec | sec in v.windows
      ensures WholeSeconds(v.windows[sec].duration) == sec
    {
      assert WindowFollows(es, configs, sec, v.windows[sec]);
    }
  }

  lemma OpenedStreak(s: State, id: string)
    requires Tracks(s)
    ensures OpenReader(s.cfg.detection, s.core.readers, id).streak == StreaksOf(EventsOf(s.history, id))
  {
    hide EventsOf, WellKeyed, AddMissing, NewWindows;
    assert StreaksOf([]) == map[];
  }

  /** The three stages of an admitted event, each sending its own calls. */
  lemma StagesSend(s: State, ev: Event, clock: Clock)
    requires s.Valid() && Tracks(s) && IsNew(s, ev, clock)
    ensures HistoryWith(s, ev, clock) != []
    ensures var o, es, cd := Result(s, ev, clock), HistoryWith(s, ev, clock), s.cfg.detection.alertCooldown;
            var e := es[|es| - 1];
            var a := VerdictOf(Send(AccessCalls(s.cfg.access, e, clock), s.core.cooldown, cd));
            var u := VerdictOf(Send(AuthCalls(TwoInARow(es, Access.Canonical(e.uid)), e, clock), a.cooldown, cd));
            var p := VerdictOf(Send(WindowCalls(s.cfg.detection, e.readerID, o.metrics, clock), u.cooldown, cd));
            o.alerts == a.alerts + u.alerts + p.alerts && o.core.cooldown == p.cooldown
  {
    var cfg, e := s.cfg.detection, Clamp(s.cfg.detection, ev, clock);
    var core := s.core.(dedupe := CheckDuplicate(cfg, s.core.dedupe, e, clock).1);
    var id, es := ReaderKey(e.readerID), EventsOf(s.history, ReaderKey(e.readerID));
    var uid := Access.Canonical(e.uid);
    AdmittedStep(s, ev, clock);
    OpenedStreak(s, id);
    OpenReaderPositive(cfg, core, id);
    StreaksSnoc(es, e);
    assert e.readerID == ev.readerID;
    hide Result, CheckDuplicate, Clamp, EventsOf, OpenReader, WindowsOf, StreaksOf, NextStreak, SortedKeys, Send, VerdictOf,
         AccessCalls, AuthCalls, WindowCalls, TwoInARow, StreakOfTwoOrMore, Access.Canonical, EvaluateAccess,
         EvaluateAuthStreak, WindowPass;
    var reader := OpenReader(cfg, core.readers, id);
    var v := EvaluateAccess(s.cfg, e, core.cooldown, clock);
    var w := EvaluateAuthStreak(cfg, id, reader.streak, e, v.cooldown, clock);
    StreakOfTwo(es + [e], uid);
    AccessSends(s.cfg, e, core.cooldown, clock);
    AuthSends(cfg, reader.streak, e, v.cooldown, clock);
    PassSends(cfg, e.readerID, EntryOf(e), reader.windows, SortedKeys(reader.windows.Keys), w.cooldown, clock);
  }

  /**
   What an admitted event raises is exactly what its reader's history calls for, as far as the cooldown
   lets it through.
   */
  lemma EventSends(s: State, ev: Event, clock: Clock)
    requires s.Valid() && FollowsHistory(s) && IsNew(s, ev, clock)
    ensures HistoryWith(s, ev, clock) != []
    ensures Verdict(Result(s, ev, clock).alerts, Result(s, ev, clock).core.cooldown) ==
            VerdictOf(Send(EventCalls(s.cfg, HistoryWith(s, ev, clock), clock), s.core.cooldown, s.cfg.detection.alertCooldown))
  {
    hide Result, HistoryWith, IsNew, FollowsHistory, Tracks, Send, VerdictOf, AccessCalls, AuthCalls, WindowCalls, TwoInARow,
         HistoryMetrics, Access.Canonical;
    HistoryIsTracked(s);
    StagesSend(s, ev, clock);
    MetricsAreHistoryMetrics(s, ev, clock);
    var es, cd := HistoryWith(s, ev, clock), s.cfg.detection.alertCooldown;
    var e := es[|es| - 1];
    var a, u := AccessCalls(s.cfg.access, e, clock), AuthCalls(TwoInARow(es, Access.Canonical(e.uid)), e, clock);
    var w := WindowCalls(s.cfg.detection, e.readerID, Result(s, ev, clock).metrics, clock);
    VerdictsJoin(a, u, s.core.cooldown, cd);
    VerdictsJoin(a + u, w, s.core.cooldown, cd);
  }

  // ---------- Runs ----------

  /** All the calls of a run since its last restart, in order. */
  ghost function CallsSince(cfg: Config, ops: seq<Op>): seq<Call>
    requires cfg.Valid() && ValidOps(ops)
  {
    if |ops| == 0 then []
    else
      var front, op := ops[..|ops| - 1], ops[|ops| - 1];
      var before, s := CallsSince(cfg, front), RunOps(cfg, front);
      match op
      case Process(ev, clock) =>
        if IsNew(s, ev, clock) then before + EventCalls(s.cfg, HistoryWith(s, ev, clock), clock) else before
      case Restart => []
      case Configure(_) => before
      case ClearMetrics => before
      case ClearAlerts => before
  }

  /** All the alerts returned by the events of a run since its last restart, in order. */
  ghost function RaisedSince(cfg: Config, ops: seq<Op>): seq<Alert>
    requires cfg.Valid() && ValidOps(ops)
  {
    if |ops| == 0 then []
    else
      var front, op := ops[..|ops| - 1], ops[|ops| - 1];
      var before := RaisedSince(cfg, front);
      match op
      case Process(ev, clock) => before + Result(RunOps(cfg, front), ev, clock).alerts
      case Restart => []
      case Configure(_) => before
      case ClearMetrics => before
      case ClearAlerts => before
  }

  lemma DuplicateRaisesNothing(s: State, ev: Event, clock: Clock)
    requires s.Valid() && !IsNew(s, ev, clock)
    ensures Result(s, ev, clock).alerts == [] && Result(s, ev, clock).core.cooldown == s.core.cooldown
  {
    hide Admit, CheckDuplicate, Clamp;
  }

  /** In any run the alerts raised, and the cooldown left behind, are those of sending all its calls. */
  lemma {:induction false} RunsSend(cfg: Config, ops: seq<Op>)
    requires cfg.Valid() && ValidOps(ops) && FixedConfig(ops)
    ensures Verdict(RaisedSince(cfg, ops), RunOps(cfg, ops).core.cooldown) ==
            VerdictOf(Send(CallsSince(cfg, ops), map[], cfg.detection.alertCooldown))
  {
    if |ops| > 0 {
      var front, op := ops[..|ops| - 1], ops[|ops| - 1];
      RunsSend(cfg, front);
      if op.Process? {
        var s, before := RunOps(cfg, front), CallsSince(cfg, front);
        assert RunOps(cfg, ops).core == Result(s, op.ev, op.clock).core;
        StateFollowsHistory(cfg, front);
        hide RunOps, Result, IsNew, HistoryWith, FollowsHistory, EventCalls, Send, VerdictOf;
        if IsNew(s, op.ev, op.clock) {
          EventSends(s, op.ev, op.clock);
          VerdictsJoin(before, EventCalls(s.cfg, HistoryWith(s, op.ev, op.clock), op.clock), map[], cfg.detection.alertCooldown);
        } else {
          DuplicateRaisesNothing(s, op.ev, op.clock);
        }
      } else {
        hide Send, Step;
        assert op.Restart? ==> VerdictOf(Send([], map[], cfg.detection.alertCooldown)) == Verdict([], map[]) by {
          SendNothing(cfg.detection.alertCooldown);
        }
      }
    }
  }

  lemma SendNothing(cooldown: int)
    ensures VerdictOf(Send([], map[], cooldown)) == Verdict([], map[])
  {
  }

  /**
   Hence in any run with a positive cooldown the alerts sent under a key are the greedy schedule of the
   events that called for one under it, so they are a cooldown apart.
   */
  lemma AlertsAreGreedy(cfg: Config, ops: seq<Op>, key: string)
    requires cfg.Valid() && ValidOps(ops) && FixedConfig(ops) && cfg.detection.alertCooldown > 0
    ensures var calls, cd := CallsSince(cfg, ops), cfg.detection.alertCooldown;
            var sent := Send(calls, map[], cd).calls;
            && RaisedSince(cfg, ops) == AlertsOf(sent)
            && Cooldowns.TimesOf(Requests(sent), key) == Cooldowns.Greedy(Cooldowns.TimesOf(Requests(calls), key), cd)
            && Cooldowns.Spaced(Cooldowns.TimesOf(Requests(sent), key), cd)
  {
    hide CallsSince, RaisedSince, RunOps, Send, Requests, Cooldowns.TimesOf, Cooldowns.Greedy, Cooldowns.Spaced;
    RunsSend(cfg, ops);
    SendIsGreedy(CallsSince(cfg, ops), cfg.detection.alertCooldown, key);
  }
}
