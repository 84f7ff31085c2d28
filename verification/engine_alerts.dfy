/** When each kind of alert is raised, for every event of every run and any cooldown. */
module EngineAlerts {
  import opened Model
  import opened Detection
  import opened EngineRun
  import opened EngineHistory
  import opened EngineProperties
  import opened EngineCalls
  import opened Coherence
  import opened Window
  import opened WindowHistory
  import opened Measures
  import Variance
  import opened Sending
  import Access
  import Keys

  ghost predicate HasType(alerts: seq<Alert>, alertType: string) {
    exists i :: 0 <= i < |alerts| && alerts[i].alertType == alertType
  }

  ghost predicate AllOfType(alerts: seq<Alert>, alertType: string) {
    forall i :: 0 <= i < |alerts| ==> alerts[i].alertType == alertType
  }

  lemma TypeInGroups(a: seq<Alert>, b: seq<Alert>, c: seq<Alert>, alertType: string)
    ensures HasType(a + b + c, alertType) <==> HasType(a, alertType) || HasType(b, alertType) || HasType(c, alertType)
  {
    var all := a + b + c;
    if i :| 0 <= i < |a| && a[i].alertType == alertType {
      assert all[i] == a[i];
    }
    if i :| 0 <= i < |b| && b[i].alertType == alertType {
      assert all[|a| + i] == b[i];
    }
    if i :| 0 <= i < |c| && c[i].alertType == alertType {
      assert all[|a| + |b| + i] == c[i];
    }
  }

  lemma OtherType(alerts: seq<Alert>, alertType: string, other: string)
    requires AllOfType(alerts, alertType) && alertType != other
    ensures !HasType(alerts, other)
  {
  }

  // ---------- The three groups ----------

  lemma AccessGroup(cfg: AccessConfig, ev: Event, last: map<string, int>, cooldown: int, clock: Clock)
    ensures var alerts := VerdictOf(Send(AccessCalls(cfg, ev, clock), last, cooldown)).alerts;
            var ready := Ready(last, Keys.WindowKey(ev.readerID, 0), clock(AtAccess), cooldown);
            && (HasType(alerts, BLACKLISTED) <==> Denied(cfg, ev) && ready)
            && (HasType(alerts, NOT_WHITELISTED) <==> Unlisted(cfg, ev) && ready)
            && !HasType(alerts, AUTH_FAILURE) && !HasType(alerts, BRUTEFORCE)
  {
    hide Denied, Keys.WindowKey, Send, Ready, VerdictOf;
    VerdictOfOne(AccessCall(ev, "critical", BLACKLISTED, clock), last, cooldown);
    VerdictOfOne(AccessCall(ev, "high", NOT_WHITELISTED, clock), last, cooldown);
    assert !(Denied(cfg, ev) && Unlisted(cfg, ev));
    var alerts := VerdictOf(Send(AccessCalls(cfg, ev, clock), last, cooldown)).alerts;
    assert |alerts| <= 1;
    assert forall kind :: HasType(alerts, kind) <==> alerts != [] && alerts[0].alertType == kind;
  }

  lemma AuthGroup(cause: bool, ev: Event, last: map<string, int>, cooldown: int, clock: Clock)
    ensures var alerts := VerdictOf(Send(AuthCalls(cause, ev, clock), last, cooldown)).alerts;
            && (HasType(alerts, AUTH_FAILURE) <==>
                cause && Ready(last, Keys.AuthKey(ReaderKey(ev.readerID), Access.Canonical(ev.uid)), clock(AtStreak), cooldown))
            && AllOfType(alerts, AUTH_FAILURE)
  {
    hide Keys.AuthKey, Send, Ready, VerdictOf, Access.Canonical, ReaderKey;
    var id := ReaderKey(ev.readerID);
    VerdictOfOne(Call(Keys.AuthKey(id, Access.Canonical(ev.uid)), clock(AtStreak),
                      UidAlert(ev, id, "medium", AUTH_FAILURE, clock(AtStreakStamp))), last, cooldown);
    var alerts := VerdictOf(Send(AuthCalls(cause, ev, clock), last, cooldown)).alerts;
    assert |alerts| <= 1;
    assert HasType(alerts, AUTH_FAILURE) <==> alerts != [] && alerts[0].alertType == AUTH_FAILURE;
  }

  ghost predicate CalledBy(cfg: DetectionConfig, readerID: string, wm: WindowMetrics, clock: Clock, c: Call) {
    Breaks(cfg, wm) && c == WindowCall(cfg, readerID, wm, clock)
  }

  ghost predicate CalledBySome(cfg: DetectionConfig, readerID: string, metrics: seq<WindowMetrics>, clock: Clock, c: Call) {
    exists j :: 0 <= j < |metrics| && CalledBy(cfg, readerID, metrics[j], clock, c)
  }

  lemma CalledBySnoc(cfg: DetectionConfig, readerID: string, metrics: seq<WindowMetrics>, wm: WindowMetrics, clock: Clock, c: Call)
    ensures CalledBySome(cfg, readerID, metrics + [wm], clock, c) <==>
            CalledBySome(cfg, readerID, metrics, clock, c) || CalledBy(cfg, readerID, wm, clock, c)
  {
    hide CalledBy;
    var all := metrics + [wm];
    if CalledBySome(cfg, readerID, metrics, clock, c) {
      var j :| 0 <= j < |metrics| && CalledBy(cfg, readerID, metrics[j], clock, c);
      assert all[j] == metrics[j];
    }
    assert all[|metrics|] == wm;
  }

  /** One call for each window that breaks a rule. */
  lemma {:induction false} WindowCallsAre(cfg: DetectionConfig, readerID: string, metrics: seq<WindowMetrics>, clock: Clock)
    ensures forall c :: c in WindowCalls(cfg, readerID, metrics, clock) <==> CalledBySome(cfg, readerID, metrics, clock, c)
  {
    if metrics != [] {
      var front, wm := metrics[..|metrics| - 1], metrics[|metrics| - 1];
      WindowCallsAre(cfg, readerID, front, clock);
      hide Breaks, WindowCall, CalledBySome;
      forall c
        ensures CalledBySome(cfg, readerID, front + [wm], clock, c) <==>
                CalledBySome(cfg, readerID, front, clock, c) || CalledBy(cfg, readerID, wm, clock, c)
      {
        CalledBySnoc(cfg, readerID, front, wm, clock, c);
      }
      assert metrics == front + [wm];
    }
  }

  ghost predicate Ordered(metrics: seq<WindowMetrics>) {
    forall i, j :: 0 <= i < j < |metrics| ==> metrics[i].windowSec < metrics[j].windowSec
  }

  lemma {:induction false} WindowCallsDistinct(cfg: DetectionConfig, readerID: string, metrics: seq<WindowMetrics>, clock: Clock)
    requires Ordered(metrics)
    ensures DistinctKeys(WindowCalls(cfg, readerID, metrics, clock))
  {
    if metrics != [] {
      var front, wm := metrics[..|metrics| - 1], metrics[|metrics| - 1];
      var calls := WindowCalls(cfg, readerID, front, clock);
      WindowCallsDistinct(cfg, readerID, front, clock);
      WindowCallsAre(cfg, readerID, front, clock);
      forall i | 0 <= i < |calls|
        ensures calls[i].key != Keys.WindowKey(readerID, wm.windowSec)
      {
        KeyOfCall(cfg, readerID, front, clock, calls[i], wm.windowSec);
      }
      hide Breaks, CalledBySome, Keys.WindowKey;
    }
  }

  lemma KeyOfCall(cfg: DetectionConfig, readerID: string, metrics: seq<WindowMetrics>, clock: Clock, c: Call, sec: int)
    requires CalledBySome(cfg, readerID, metrics, clock, c)
    requires forall j :: 0 <= j < |metrics| ==> metrics[j].windowSec < sec
    ensures c.key != Keys.WindowKey(readerID, sec)
  {
    hide Breaks, Keys.WindowKey;
    var j :| 0 <= j < |metrics| && CalledBy(cfg, readerID, metrics[j], clock, c);
    Keys.WindowKeyInjective(readerID, metrics[j].windowSec, readerID, sec);
  }

  /** Exactly the windows that break a rule and whose key is ready are alerted. */
  lemma WindowGroup(cfg: DetectionConfig, readerID: string, metrics: seq<WindowMetrics>, last: map<string, int>,
                    cooldown: int, clock: Clock)
    requires Ordered(metrics)
    ensures var alerts := VerdictOf(Send(WindowCalls(cfg, readerID, metrics, clock), last, cooldown)).alerts;
            && AllOfType(alerts, BRUTEFORCE)
            && forall a :: a in alerts <==> SentBySome(cfg, readerID, metrics, last, cooldown, clock, a)
  {
    hide WindowCalls, Send, DistinctKeys, CalledBySome, Ordered, Ready;
    var calls := WindowCalls(cfg, readerID, metrics, clock);
    var sent := Send(calls, last, cooldown).calls;
    WindowCallsAre(cfg, readerID, metrics, clock);
    WindowCallsDistinct(cfg, readerID, metrics, clock);
    SendDistinct(calls, last, cooldown);
    forall a
      ensures a in AlertsOf(sent) <==> SentBySome(cfg, readerID, metrics, last, cooldown, clock, a)
    {
      SentAlert(cfg, readerID, metrics, last, cooldown, clock, sent, a);
    }
    assert forall a :: SentBySome(cfg, readerID, metrics, last, cooldown, clock, a) ==> a.alertType == BRUTEFORCE;
    var alerts := AlertsOf(sent);
    assert forall i :: 0 <= i < |alerts| ==> alerts[i] in alerts;
  }

  ghost predicate SentBy(cfg: DetectionConfig, readerID: string, wm: WindowMetrics, last: map<string, int>, cooldown: int,
                         clock: Clock, a: Alert) {
    && Breaks(cfg, wm)
    && Ready(last, Keys.WindowKey(readerID, wm.windowSec), clock(AtWindow(wm.windowSec)), cooldown)
    && a == WindowAlert(cfg, readerID, wm, clock(AtWindowStamp(wm.windowSec)))
  }

  ghost predicate SentBySome(cfg: DetectionConfig, readerID: string, metrics: seq<WindowMetrics>, last: map<string, int>,
                             cooldown: int, clock: Clock, a: Alert) {
    exists j :: 0 <= j < |metrics| && SentBy(cfg, readerID, metrics[j], last, cooldown, clock, a)
  }

  lemma SentAlert(cfg: DetectionConfig, readerID: string, metrics: seq<WindowMetrics>, last: map<string, int>,
                  cooldown: int, clock: Clock, sent: seq<Call>, a: Alert)
    requires forall c :: c in sent <==>
               CalledBySome(cfg, readerID, metrics, clock, c) && Ready(last, c.key, c.at, cooldown)
    ensures a in AlertsOf(sent) <==> SentBySome(cfg, readerID, metrics, last, cooldown, clock, a)
  {
    hide Breaks, WindowAlert, Keys.WindowKey, Ready;
    if a in AlertsOf(sent) {
      var i :| 0 <= i < |sent| && AlertsOf(sent)[i] == a;
      assert sent[i] in sent;
      var j :| 0 <= j < |metrics| && CalledBy(cfg, readerID, metrics[j], clock, sent[i]);
      assert SentBy(cfg, readerID, metrics[j], last, cooldown, clock, a);
    }
    if SentBySome(cfg, readerID, metrics, last, cooldown, clock, a) {
      var j :| 0 <= j < |metrics| && SentBy(cfg, readerID, metrics[j], last, cooldown, clock, a);
      CallOf(cfg, readerID, metrics[j], last, cooldown, clock, a);
      var c :| CalledBy(cfg, readerID, metrics[j], clock, c) && Ready(last, c.key, c.at, cooldown) && c.alert == a;
      assert c in sent;
      var i :| 0 <= i < |sent| && sent[i] == c;
      assert AlertsOf(sent)[i] == a;
    }
  }

  lemma CallOf(cfg: DetectionConfig, readerID: string, wm: WindowMetrics, last: map<string, int>, cooldown: int,
               clock: Clock, a: Alert)
    requires SentBy(cfg, readerID, wm, last, cooldown, clock, a)
    ensures exists c :: CalledBy(cfg, readerID, wm, clock, c) && Ready(last, c.key, c.at, cooldown) && c.alert == a
  {
    assert cfg.epsilon > 0.0 && wm.tv >= 0.0;
    hide Breaks, WindowAlert, Keys.WindowKey, Ready;
    assert CalledBy(cfg, readerID, wm, clock, WindowCall(cfg, readerID, wm, clock));
  }

  // ---------- The alerts of one event ----------

  /** A reader's window keys and streak keys never meet. */
  lemma OwnKeysApart(readerID: string, sec: int, uid: string)
    ensures Keys.WindowKey(readerID, sec) != Keys.AuthKey(ReaderKey(readerID), Access.Canonical(uid))
  {
    Access.CanonicalIsHex(uid);
    hide Access.Canonical, Keys.WindowKey, Keys.AuthKey;
    Keys.WindowKeyMeetsAuthKey(readerID, sec, ReaderKey(readerID), Access.Canonical(uid));
    assert |Keys.AUTH_PREFIX + ReaderKey(readerID)| > |readerID|;
  }

  lemma ReadyAfterAccess(cfg: AccessConfig, ev: Event, last: map<string, int>, cooldown: int, clock: Clock, key: string, at: int)
    requires key != Keys.WindowKey(ev.readerID, 0)
    ensures Ready(Send(AccessCalls(cfg, ev, clock), last, cooldown).last, key, at, cooldown) <==> Ready(last, key, at, cooldown)
  {
    hide Send, Keys.WindowKey, Denied, Unlisted;
    OtherKeysKept(AccessCalls(cfg, ev, clock), last, cooldown, key);
  }

  lemma ReadyAfterAuth(cause: bool, ev: Event, last: map<string, int>, cooldown: int, clock: Clock, sec: int, at: int)
    ensures Ready(Send(AuthCalls(cause, ev, clock), last, cooldown).last, Keys.WindowKey(ev.readerID, sec), at, cooldown) <==>
            Ready(last, Keys.WindowKey(ev.readerID, sec), at, cooldown)
  {
    hide Send, Keys.WindowKey, Keys.AuthKey, Access.Canonical, ReaderKey;
    OwnKeysApart(ev.readerID, sec, ev.uid);
    OtherKeysKept(AuthCalls(cause, ev, clock), last, cooldown, Keys.WindowKey(ev.readerID, sec));
  }

  lemma SentAfterAuth(cfg: DetectionConfig, cause: bool, ev: Event, metrics: seq<WindowMetrics>, last: map<string, int>,
                      cooldown: int, clock: Clock, a: Alert)
    ensures SentBySome(cfg, ev.readerID, metrics, Send(AuthCalls(cause, ev, clock), last, cooldown).last, cooldown, clock, a) <==>
            SentBySome(cfg, ev.readerID, metrics, last, cooldown, clock, a)
  {
    var last' := Send(AuthCalls(cause, ev, clock), last, cooldown).last;
    forall j | 0 <= j < |metrics|
      ensures SentBy(cfg, ev.readerID, metrics[j], last', cooldown, clock, a) <==>
              SentBy(cfg, ev.readerID, metrics[j], last, cooldown, clock, a)
    {
      var sec := metrics[j].windowSec;
      ReadyAfterAuth(cause, ev, last, cooldown, clock, sec, clock(AtWindow(sec)));
      hide Send, Ready, AuthCalls, Keys.WindowKey, Breaks, WindowAlert;
    }
    hide Send, SentBy, AuthCalls;
  }

  /** The cooldown map once the access policy has had its say. */
  function AfterAccess(s: State, ev: Event, clock: Clock): map<string, int> {
    EvaluateAccess(s.cfg, Clamp(s.cfg.detection, ev, clock), s.core.cooldown, clock).cooldown
  }

  /** Only the key of window 0 can differ: for windows of a second or more this is the cooldown before. */
  lemma AfterAccessElsewhere(s: State, ev: Event, clock: Clock, sec: int, at: int)
    requires sec != 0
    ensures Ready(AfterAccess(s, ev, clock), Keys.WindowKey(ev.readerID, sec), at, s.cfg.detection.alertCooldown) <==>
            Ready(s.core.cooldown, Keys.WindowKey(ev.readerID, sec), at, s.cfg.detection.alertCooldown)
  {
    var e := Clamp(s.cfg.detection, ev, clock);
    assert e.readerID == ev.readerID;
    hide Send, Ready, Keys.WindowKey, Clamp, EvaluateAccess, AccessCalls;
    AccessSends(s.cfg, e, s.core.cooldown, clock);
    Keys.WindowKeyInjective(ev.readerID, sec, ev.readerID, 0);
    ReadyAfterAccess(s.cfg.access, e, s.core.cooldown, s.cfg.detection.alertCooldown, clock,
                     Keys.WindowKey(ev.readerID, sec), at);
  }

  lemma OrderedMetrics(s: State, ev: Event, clock: Clock)
    requires s.Valid() && Tracks(s) && IsNew(s, ev, clock)
    ensures Ordered(Result(s, ev, clock).metrics)
  {
    hide IsNew, Result, WellKeyed, KeyedBySeconds, OpenReader, Measured, After, Clamp, CheckDuplicate, SortedKeys, Ordered;
    var cfg, e := s.cfg.detection, Clamp(s.cfg.detection, ev, clock);
    var core := s.core.(dedupe := CheckDuplicate(cfg, s.core.dedupe, e, clock).1);
    AdmittedStep(s, ev, clock);
    AdmitReader(s.cfg, core, e, clock);
    OpenedIsKeyed(cfg, s.core, ReaderKey(e.readerID));
    MeasuredInOrder(EntryOf(e), OpenReader(cfg, s.core.readers, ReaderKey(e.readerID)).windows, Result(s, ev, clock).metrics);
  }

  lemma MeasuredInOrder(e: EventEntry, windows: map<int, WindowView>, metrics: seq<WindowMetrics>)
    requires KeyedBySeconds(windows) && Measured(e, windows, SortedKeys(windows.Keys), metrics)
    ensures Ordered(metrics)
  {
    hide SortedKeys;
    var keys := SortedKeys(windows.Keys);
    SortedKeysAscend(windows.Keys);
    forall i | 0 <= i < |metrics|
      ensures metrics[i].windowSec == keys[i]
    {
      assert MeasuredAt(e, windows, keys[i], metrics[i]);
    }
  }

  /** The alerts of an event in three groups, each with its exact cause and the cooldown's exact say. */
  lemma AlertGroups(s: State, ev: Event, clock: Clock) returns (a: seq<Alert>, u: seq<Alert>, p: seq<Alert>)
    requires s.Valid() && Tracks(s) && IsNew(s, ev, clock)
    ensures Result(s, ev, clock).alerts == a + u + p
    ensures var cd := s.cfg.detection.alertCooldown;
            var ready := Ready(s.core.cooldown, Keys.WindowKey(ev.readerID, 0), clock(AtAccess), cd);
            && (HasType(a, BLACKLISTED) <==> Denied(s.cfg.access, ev) && ready)
            && (HasType(a, NOT_WHITELISTED) <==> Unlisted(s.cfg.access, ev) && ready)
            && !HasType(a, AUTH_FAILURE) && !HasType(a, BRUTEFORCE)
    ensures var uid, cd := Access.Canonical(ev.uid), s.cfg.detection.alertCooldown;
            && (HasType(u, AUTH_FAILURE) <==>
                && TwoInARow(HistoryWith(s, ev, clock), uid)
                && Ready(s.core.cooldown, Keys.AuthKey(ReaderKey(ev.readerID), uid), clock(AtStreak), cd))
            && AllOfType(u, AUTH_FAILURE)
    ensures AllOfType(p, BRUTEFORCE)
    ensures forall x :: x in p <==> SentBySome(s.cfg.detection, ev.readerID, Result(s, ev, clock).metrics,
                                               AfterAccess(s, ev, clock), s.cfg.detection.alertCooldown, clock, x)
  {
    var es, cd := HistoryWith(s, ev, clock), s.cfg.detection.alertCooldown;
    var e, before := Clamp(s.cfg.detection, ev, clock), s.core.cooldown;
    assert es[|es| - 1] == e && e.readerID == ev.readerID && e.uid == ev.uid;
    assert Denied(s.cfg.access, e) == Denied(s.cfg.access, ev) && Unlisted(s.cfg.access, e) == Unlisted(s.cfg.access, ev);
    hide Result, HistoryWith, IsNew, Tracks, Send, AccessCalls, AuthCalls, WindowCalls, TwoInARow, Denied, Unlisted,
         Clamp, Access.Canonical, Keys.AuthKey, Keys.WindowKey, Ready, EvaluateAccess, SentBySome, HasType, AllOfType, Ordered,
         ReaderKey;
    StagesSend(s, ev, clock);
    OrderedMetrics(s, ev, clock);
    var uid, id, metrics := Access.Canonical(ev.uid), ReaderKey(ev.readerID), Result(s, ev, clock).metrics;
    var cause := TwoInARow(es, uid);
    var sa := Send(AccessCalls(s.cfg.access, e, clock), before, cd);
    var su := Send(AuthCalls(cause, e, clock), sa.last, cd);
    var sp := Send(WindowCalls(s.cfg.detection, e.readerID, metrics, clock), su.last, cd);
    a, u, p := VerdictOf(sa).alerts, VerdictOf(su).alerts, VerdictOf(sp).alerts;
    AccessSends(s.cfg, e, before, clock);
    AccessGroup(s.cfg.access, e, before, cd, clock);
    AuthGroup(cause, e, sa.last, cd, clock);
    OwnKeysApart(ev.readerID, 0, ev.uid);
    ReadyAfterAccess(s.cfg.access, e, before, cd, clock, Keys.AuthKey(id, uid), clock(AtStreak));
    WindowGroup(s.cfg.detection, e.readerID, metrics, su.last, cd, clock);
    forall x
      ensures SentBySome(s.cfg.detection, e.readerID, metrics, su.last, cd, clock, x) <==>
              SentBySome(s.cfg.detection, e.readerID, metrics, sa.last, cd, clock, x)
    {
      SentAfterAuth(s.cfg.detection, cause, e, metrics, sa.last, cd, clock, x);
    }
  }

  /**
   A blacklist or whitelist alert is raised exactly when the configured lists call for it and no access
   alert of this reader went out within the cooldown.
   */
  lemma AccessAlertMeaning(s: State, ev: Event, clock: Clock)
    requires s.Valid() && Tracks(s) && IsNew(s, ev, clock)
    ensures var alerts := Result(s, ev, clock).alerts;
            var ready := Ready(s.core.cooldown, Keys.WindowKey(ev.readerID, 0), clock(AtAccess), s.cfg.detection.alertCooldown);
            && (HasType(alerts, BLACKLISTED) <==> Denied(s.cfg.access, ev) && ready)
            && (HasType(alerts, NOT_WHITELISTED) <==> Unlisted(s.cfg.access, ev) && ready)
  {
    hide Result, HistoryWith, Tracks, IsNew, Denied, Unlisted, TwoInARow, Access.Canonical, Ready, HasType, AllOfType,
         SentBySome, AfterAccess, Keys.WindowKey, Keys.AuthKey, ReaderKey;
    var a, u, p := AlertGroups(s, ev, clock);
    OtherType(u, AUTH_FAILURE, BLACKLISTED);
    OtherType(u, AUTH_FAILURE, NOT_WHITELISTED);
    OtherType(p, BRUTEFORCE, BLACKLISTED);
    OtherType(p, BRUTEFORCE, NOT_WHITELISTED);
    TypeInGroups(a, u, p, BLACKLISTED);
    TypeInGroups(a, u, p, NOT_WHITELISTED);
  }

  /**
   A repeated-failure alert is raised exactly when this event and the previous one of its canonical UID
   on its reader are failures with an error code, and none went out for them within the cooldown.
   */
  lemma AuthAlertMeaning(s: State, ev: Event, clock: Clock)
    requires s.Valid() && Tracks(s) && IsNew(s, ev, clock)
    ensures var uid := Access.Canonical(ev.uid);
            HasType(Result(s, ev, clock).alerts, AUTH_FAILURE) <==>
            && TwoInARow(HistoryWith(s, ev, clock), uid)
            && Ready(s.core.cooldown, Keys.AuthKey(ReaderKey(ev.readerID), uid), clock(AtStreak), s.cfg.detection.alertCooldown)
  {
    hide Result, HistoryWith, Tracks, IsNew, Denied, Unlisted, TwoInARow, Access.Canonical, Ready, HasType, AllOfType,
         SentBySome, AfterAccess, Keys.WindowKey, Keys.AuthKey, ReaderKey;
    var a, u, p := AlertGroups(s, ev, clock);
    OtherType(p, BRUTEFORCE, AUTH_FAILURE);
    TypeInGroups(a, u, p, AUTH_FAILURE);
  }

  // ---------- Brute force ----------

  /**
   For timestamps in any order, the brute-force alerts are exactly those of the measured windows that
   break a rule and whose key is ready.
   */
  lemma WindowAlertMeaning(s: State, ev: Event, clock: Clock, x: Alert)
    requires s.Valid() && Tracks(s) && IsNew(s, ev, clock)
    ensures x in Result(s, ev, clock).alerts && x.alertType == BRUTEFORCE <==>
            SentBySome(s.cfg.detection, ev.readerID, Result(s, ev, clock).metrics,
                       AfterAccess(s, ev, clock), s.cfg.detection.alertCooldown, clock, x)
  {
    hide Result, HistoryWith, Tracks, IsNew, Denied, Unlisted, TwoInARow, Access.Canonical, Ready,
         SentBySome, AfterAccess, Keys.WindowKey, Keys.AuthKey, ReaderKey;
    var a, u, p := AlertGroups(s, ev, clock);
    assert x in Result(s, ev, clock).alerts <==> x in a || x in u || x in p;
    TypeOfMember(a, x);
    TypeOfMember(u, x);
    TypeOfMember(p, x);
  }

  /** While the configuration stays, those metrics are computed from the reader's history. */
  lemma WindowAlertsFollowHistory(s: State, ev: Event, clock: Clock, x: Alert)
    requires s.Valid() && FollowsHistory(s) && IsNew(s, ev, clock)
    ensures x in Result(s, ev, clock).alerts && x.alertType == BRUTEFORCE <==>
            SentBySome(s.cfg.detection, ev.readerID, HistoryMetrics(s.cfg.detection, HistoryWith(s, ev, clock)),
                       AfterAccess(s, ev, clock), s.cfg.detection.alertCooldown, clock, x)
  {
    hide Result, HistoryWith, FollowsHistory, Tracks, IsNew, SentBySome, AfterAccess, HistoryMetrics;
    HistoryIsTracked(s);
    MetricsAreHistoryMetrics(s, ev, clock);
    WindowAlertMeaning(s, ev, clock, x);
  }

  lemma TypeOfMember(alerts: seq<Alert>, x: Alert)
    ensures x in alerts ==> HasType(alerts, x.alertType)
    ensures x in alerts ==> forall t :: AllOfType(alerts, t) ==> x.alertType == t
  {
  }

  /** The events of a history stamped within a window's duration up to t. */
  function TimeSpan(cfg: DetectionConfig, sec: int, es: seq<Event>, t: int): seq<Event>
    requires sec in NewWindows(cfg.windows)
  {
    Span(es, t - DurationOf(cfg, sec), t)
  }

  /**
   A brute-force alert of one window whose metrics, score, rules and severity are those declared on the
   events of its time span.
   */
  ghost predicate DeclaredAt(cfg: DetectionConfig, sec: int, es: seq<Event>, t: int, a: Alert) {
    && sec in NewWindows(cfg.windows) && DurationOf(cfg, sec) > 0 && cfg.epsilon > 0.0
    && TimeSpan(cfg, sec, es, t) != []
    && var d, span := DurationOf(cfg, sec), TimeSpan(cfg, sec, es, t);
       && a.alertType == BRUTEFORCE && a.windowSec == sec
       && a.metrics == Declared(d, span)
       && a.score == DeclaredScore(cfg, d, span)
       && a.rules == DeclaredRules(cfg, d, span) != []
       && a.severity == DeclaredSeverity(cfg, d, span)
  }

  /** With exact metrics, breaking a rule and alerting it are what is declared on the time span. */
  lemma ExactIsDeclared(cfg: DetectionConfig, sec: int, es: seq<Event>, wm: WindowMetrics)
    requires cfg.Valid() && es != [] && ExactAt(cfg, sec, es, es[|es| - 1].timestamp, wm)
    ensures wm.windowSec == sec
    ensures TimeSpan(cfg, sec, es, es[|es| - 1].timestamp) != []
    ensures var d, span := DurationOf(cfg, sec), TimeSpan(cfg, sec, es, es[|es| - 1].timestamp);
            Breaks(cfg, wm) <==> DeclaredRules(cfg, d, span) != []
    ensures Breaks(cfg, wm) ==>
              forall readerID, at :: DeclaredAt(cfg, sec, es, es[|es| - 1].timestamp, WindowAlert(cfg, readerID, wm, at))
  {
    hide NewWindows, MetricsOf, Rules, DeclaredRules, Severity, DeclaredSeverity, Score, DeclaredScore, Span, Entries,
         WholeSeconds, UidsIn, Failed, Lapses, Variance.PopulationVariance, Length;
    var d, span := DurationOf(cfg, sec), TimeSpan(cfg, sec, es, es[|es| - 1].timestamp);
    DurationsPositive(cfg, sec);
    SecondsMeaning(d);
    MetricsAreDeclared(d, span);
    RulesAreDeclared(cfg, d, span);
    SeverityIsDeclared(cfg, d, span);
    ScoreIsDeclared(cfg, d, span);
  }

  /** The i-th configured window of an event, with the reader's timestamps in order. */
  lemma ExactWindow(s: State, ev: Event, clock: Clock, i: nat)
    requires s.Valid() && FollowsHistory(s) && IsNew(s, ev, clock)
    requires StampsInOrder(HistoryWith(s, ev, clock))
    requires i < |ConfiguredKeys(s.cfg.detection)|
    ensures |HistoryMetrics(s.cfg.detection, HistoryWith(s, ev, clock))| == |ConfiguredKeys(s.cfg.detection)|
    ensures HistoryWith(s, ev, clock) != []
    ensures var cfg, es := s.cfg.detection, HistoryWith(s, ev, clock);
            && es[|es| - 1].timestamp == Clamp(cfg, ev, clock).timestamp
            && ExactAt(cfg, ConfiguredKeys(cfg)[i], es, es[|es| - 1].timestamp, HistoryMetrics(cfg, es)[i])
  {
    var cfg, es := s.cfg.detection, HistoryWith(s, ev, clock);
    assert es[|es| - 1] == Clamp(cfg, ev, clock);
    hide Result, HistoryWith, ConfiguredKeys, Clamp, FollowsHistory, IsNew, ExactAt, NewWindows, StampsInOrder;
    MetricsAreHistoryMetrics(s, ev, clock);
    MetricsExactInOrder(s, ev, clock, i);
    assert |HistoryMetrics(cfg, es)| == |ConfiguredKeys(cfg)|;
  }

  /**
   End to end, with the reader's timestamps in order: every brute-force alert names one configured
   window and exactly the metrics, rules and severity declared on the events of its time span.
   */
  lemma BruteforceAlertsAreDeclared(s: State, ev: Event, clock: Clock, a: Alert)
    requires s.Valid() && FollowsHistory(s) && IsNew(s, ev, clock)
    requires StampsInOrder(HistoryWith(s, ev, clock))
    requires a in Result(s, ev, clock).alerts && a.alertType == BRUTEFORCE
    ensures exists i :: && 0 <= i < |ConfiguredKeys(s.cfg.detection)|
                        && DeclaredAt(s.cfg.detection, ConfiguredKeys(s.cfg.detection)[i], HistoryWith(s, ev, clock),
                                      Clamp(s.cfg.detection, ev, clock).timestamp, a)
  {
    var cfg, es, cd := s.cfg.detection, HistoryWith(s, ev, clock), s.cfg.detection.alertCooldown;
    var metrics, last := HistoryMetrics(cfg, es), AfterAccess(s, ev, clock);
    assert |metrics| == |ConfiguredKeys(cfg)|;
    hide Result, HistoryWith, ConfiguredKeys, Clamp, FollowsHistory, IsNew, ExactAt, DeclaredAt, NewWindows, HistoryMetrics, StampsInOrder,
         AfterAccess, Ready, Keys.WindowKey, Breaks, WindowAlert, DeclaredRules, TimeSpan;
    WindowAlertsFollowHistory(s, ev, clock, a);
    var i :| 0 <= i < |metrics| && SentBy(cfg, ev.readerID, metrics[i], last, cd, clock, a);
    ExactWindow(s, ev, clock, i);
    ExactIsDeclared(cfg, ConfiguredKeys(cfg)[i], es, metrics[i]);
  }

  /**
   Conversely, a window's alert is raised exactly when its declared rules are not empty and none of this
   reader and window went out within the cooldown.
   */
  lemma DeclaredRulesRaiseAlerts(s: State, ev: Event, clock: Clock, i: nat)
    requires s.Valid() && FollowsHistory(s) && IsNew(s, ev, clock)
    requires StampsInOrder(HistoryWith(s, ev, clock))
    requires i < |ConfiguredKeys(s.cfg.detection)|
    ensures var cfg, sec, es, t := s.cfg.detection, ConfiguredKeys(s.cfg.detection)[i], HistoryWith(s, ev, clock),
                                   Clamp(s.cfg.detection, ev, clock).timestamp;
            && sec in NewWindows(cfg.windows) && DurationOf(cfg, sec) > 0 && TimeSpan(cfg, sec, es, t) != []
            && ((exists a :: a in Result(s, ev, clock).alerts && DeclaredAt(cfg, sec, es, t, a)) <==>
                && DeclaredRules(cfg, DurationOf(cfg, sec), TimeSpan(cfg, sec, es, t)) != []
                && Ready(AfterAccess(s, ev, clock), Keys.WindowKey(ev.readerID, sec), clock(AtWindow(sec)), cfg.alertCooldown))
  {
    var cfg, es, keys := s.cfg.detection, HistoryWith(s, ev, clock), ConfiguredKeys(s.cfg.detection);
    var metrics, last, t, sec := HistoryMetrics(cfg, es), AfterAccess(s, ev, clock), Clamp(cfg, ev, clock).timestamp, keys[i];
    ExactWindow(s, ev, clock, i);
    ExactIsDeclared(cfg, sec, es, metrics[i]);
    hide Result, HistoryWith, ConfiguredKeys, Clamp, FollowsHistory, IsNew, NewWindows, HistoryMetrics,
         AfterAccess, Ready, Keys.WindowKey, Breaks, WindowAlert, DeclaredRules, TimeSpan, MetricsOf, StampsInOrder, DeclaredScore, Declared, SentBySome, DeclaredSeverity;
    if x :| x in Result(s, ev, clock).alerts && DeclaredAt(cfg, sec, es, t, x) {
      SentIsReady(s, ev, clock, x);
    }
    if Breaks(cfg, metrics[i]) && Ready(last, Keys.WindowKey(ev.readerID, sec), clock(AtWindow(sec)), cfg.alertCooldown) {
      var x := WindowAlert(cfg, ev.readerID, metrics[i], clock(AtWindowStamp(sec)));
      assert SentBy(cfg, ev.readerID, metrics[i], last, cfg.alertCooldown, clock, x);
      SentAtIsSent(cfg, ev.readerID, metrics, last, cfg.alertCooldown, clock, i, x);
      WindowAlertsFollowHistory(s, ev, clock, x);
      assert DeclaredAt(cfg, sec, es, t, x);
    }
  }

  lemma SentAtIsSent(cfg: DetectionConfig, readerID: string, metrics: seq<WindowMetrics>, last: map<string, int>,
                     cooldown: int, clock: Clock, i: nat, x: Alert)
    requires i < |metrics| && SentBy(cfg, readerID, metrics[i], last, cooldown, clock, x)
    ensures SentBySome(cfg, readerID, metrics, last, cooldown, clock, x) && x.alertType == BRUTEFORCE
  {
    hide Breaks, Ready, Keys.WindowKey;
  }

  /** A brute-force alert was sent under the key of the window that it names. */
  lemma SentIsReady(s: State, ev: Event, clock: Clock, x: Alert)
    requires s.Valid() && FollowsHistory(s) && IsNew(s, ev, clock)
    requires x in Result(s, ev, clock).alerts && x.alertType == BRUTEFORCE
    ensures Ready(AfterAccess(s, ev, clock), Keys.WindowKey(ev.readerID, x.windowSec), clock(AtWindow(x.windowSec)),
                  s.cfg.detection.alertCooldown)
  {
    hide Result, HistoryWith, ConfiguredKeys, FollowsHistory, IsNew, HistoryMetrics, AfterAccess, Ready, Keys.WindowKey, Breaks;
    WindowAlertsFollowHistory(s, ev, clock, x);
    var metrics := HistoryMetrics(s.cfg.detection, HistoryWith(s, ev, clock));
    var j :| 0 <= j < |metrics| && SentBy(s.cfg.detection, ev.readerID, metrics[j], AfterAccess(s, ev, clock),
                                          s.cfg.detection.alertCooldown, clock, x);
    assert x.windowSec == metrics[j].windowSec;
  }
}
