/** Which pairs of readers can disturb each other under a given configuration, and how. */
module Interference {
  import opened Model
  import opened Keys
  import opened Detection
  import opened EngineRun
  import opened EngineHistory
  import opened EngineProperties
  import opened EngineCalls
  import opened EngineAlerts
  import opened EngineDuplicates
  import opened NonInterference
  import opened Sending
  import Access

  /** All events of the run are normal, and of one of two readers. */
  ghost predicate Between(ops: seq<Op>, r: string, q: string) {
    forall i :: 0 <= i < |ops| && ops[i].Process? ==>
      Normal(ops[i].ev) && (ops[i].ev.readerID == r || ops[i].ev.readerID == q)
  }

  /** A run of these two readers, under this detection configuration and some access policy. */
  ghost predicate RunOfTwo(cfg: Config, ops: seq<Op>, now: int, r: string, q: string) {
    cfg.Valid() && ValidOps(ops) && Steady(cfg.detection, ops) && ChecksAdvance(ops, now) && Between(ops, r, q)
  }

  /** In every such run neither reader disturbs the other. */
  ghost predicate NeverDisturb(d: DetectionConfig, r: string, q: string) {
    forall access: AccessConfig, ops: seq<Op>, now: int ::
      RunOfTwo(Config(d, access), ops, now, r, q) ==>
        Undisturbed(Config(d, access), ops, r) && Undisturbed(Config(d, access), ops, q)
  }

  // ---------- Events at one instant ----------

  function Frozen(now: int): Clock {
    (site: Site) => now
  }

  function At(ev: Event): Op {
    Process(ev, Frozen(ev.timestamp))
  }

  /** Events of one instant, none of them seen before. */
  ghost predicate Instant(ops: seq<Op>, now: int) {
    forall i :: 0 <= i < |ops| ==> ops[i].Process? && ops[i] == At(ops[i].ev) && ops[i].ev.timestamp == now
  }

  lemma InstantRun(cfg: Config, ops: seq<Op>, now: int)
    requires cfg.Valid() && Instant(ops, now)
    ensures ValidOps(ops) && FixedConfig(ops) && Steady(cfg.detection, ops) && ChecksAdvance(ops, now)
    ensures FollowsHistory(RunOps(cfg, ops)) && RunOps(cfg, ops).cfg == cfg
  {
    assert ValidOps(ops) && FixedConfig(ops);
    hide FollowsHistory, RunOps;
    StateFollowsHistory(cfg, ops);
  }

  /** No admission of the history bears this key. */
  ghost predicate Unheard(history: seq<Admission>, key: string) {
    forall i :: 0 <= i < |history| ==> DedupeKey(history[i].ev) != key
  }

  /** An event with a key of its own is admitted, and recorded as it is. */
  lemma UnheardIsAdmitted(cfg: Config, ops: seq<Op>, ev: Event)
    requires cfg.Valid() && Instant(ops, ev.timestamp) && ValidOps(ops)
    requires Unheard(RunOps(cfg, ops).history, DedupeKey(ev))
    ensures var s := RunOps(cfg, ops);
            && s.cfg == cfg && Clamp(cfg.detection, ev, Frozen(ev.timestamp)) == ev
            && IsNew(s, ev, Frozen(ev.timestamp)) && Result(s, ev, Frozen(ev.timestamp)).admitted
  {
    var s, clock := RunOps(cfg, ops), Frozen(ev.timestamp);
    assert Clamp(cfg.detection, ev, clock) == ev && clock(AtDedupe) == ev.timestamp;
    hide RunOps, Result, IsNew, DedupeKey, FollowsHistory, Clamp, Frozen;
    InstantRun(cfg, ops, ev.timestamp);
    AdmittedUnlessRecent(cfg, ops, ev, clock);
    AdmittedIffNew(s, ev, clock);
  }

  lemma ApplyAdmitted(s: State, ev: Event, clock: Clock)
    requires s.Valid() && Result(s, ev, clock).admitted
    ensures var s', o, cfg := Apply(s, Process(ev, clock)), Result(s, ev, clock), s.cfg.detection;
            && s'.history == s.history + [Admission(Clamp(cfg, ev, clock), clock(AtStart), clock(AtDedupe), cfg.windows)]
            && s'.core == o.core && s'.log == s.log + o.alerts
  {
    hide Step, Clamp;
  }

  /** What one more such event adds to a run. */
  lemma InstantSnoc(cfg: Config, ops: seq<Op>, ev: Event)
    requires cfg.Valid() && Instant(ops, ev.timestamp) && ValidOps(ops)
    requires Unheard(RunOps(cfg, ops).history, DedupeKey(ev))
    ensures Instant(ops + [At(ev)], ev.timestamp) && ValidOps(ops + [At(ev)])
    ensures var s, s' := RunOps(cfg, ops), RunOps(cfg, ops + [At(ev)]); var o := Result(s, ev, Frozen(ev.timestamp));
            && s'.history == s.history + [Admission(ev, ev.timestamp, ev.timestamp, cfg.detection.windows)]
            && s'.core == o.core && s'.log == s.log + o.alerts
  {
    hide RunOps, IsNew, DedupeKey, Result, Apply, Unheard;
    UnheardIsAdmitted(cfg, ops, ev);
    RunSnoc(cfg, ops, At(ev));
    ApplyAdmitted(RunOps(cfg, ops), ev, Frozen(ev.timestamp));
  }

  lemma EmptyRun(cfg: Config)
    requires cfg.Valid()
    ensures RunOps(cfg, []) == State(cfg, EMPTY_CORE, [], [])
    ensures forall r :: Only([], r) == []
  {
  }

  lemma OnlySnoc(ops: seq<Op>, ev: Event, r: string)
    ensures Only(ops + [At(ev)], r) == if ev.readerID == r then Only(ops, r) + [At(ev)] else Only(ops, r)
  {
    assert (ops + [At(ev)])[..|ops|] == ops;
  }

  lemma EventsOfFirst(a: Admission, id: string)
    requires a.ev.readerID != ""
    ensures EventsOf([a], id) == if a.ev.readerID == id then [a.ev] else []
  {
    EventsOfSnoc([], a, id);
    assert [] + [a] == [a];
  }

  /** The run of one event. */
  lemma FirstEvent(cfg: Config, ev: Event)
    requires cfg.Valid()
    ensures Instant([At(ev)], ev.timestamp) && ValidOps([At(ev)])
    ensures var s0, s := RunOps(cfg, []), RunOps(cfg, [At(ev)]); var o := Result(s0, ev, Frozen(ev.timestamp));
            && s.history == [Admission(ev, ev.timestamp, ev.timestamp, cfg.detection.windows)]
            && s.core == o.core && s.log == o.alerts
  {
    EmptyRun(cfg);
    assert [] + [At(ev)] == [At(ev)];
    hide RunOps, Result, DedupeKey;
    InstantSnoc(cfg, [], ev);
    assert RunOps(cfg, []).history + [Admission(ev, ev.timestamp, ev.timestamp, cfg.detection.windows)]
        == [Admission(ev, ev.timestamp, ev.timestamp, cfg.detection.windows)];
    assert RunOps(cfg, []).log + Result(RunOps(cfg, []), ev, Frozen(ev.timestamp)).alerts
        == Result(RunOps(cfg, []), ev, Frozen(ev.timestamp)).alerts;
  }

  // ---------- A shared dedupe key ----------

  /** A second event with the first one's key leaves no trace in the readers. */
  lemma SecondIsSilenced(cfg: Config, d: Event, e: Event)
    requires cfg.Valid() && cfg.detection.dedupeWindow > 0
    requires d.timestamp == e.timestamp && DedupeKey(d) == DedupeKey(e)
    ensures ValidOps([At(d)] + [At(e)])
    ensures RunOps(cfg, [At(d)] + [At(e)]).core.readers == RunOps(cfg, [At(d)]).core.readers
  {
    var clock := Frozen(e.timestamp);
    FirstEvent(cfg, d);
    var s := RunOps(cfg, [At(d)]);
    assert s.history[0].ev == d && s.history[0].checked == e.timestamp;
    assert Clamp(cfg.detection, e, clock) == e;
    hide RunOps, DedupeKey, Result, FollowsHistory, Clamp;
    InstantRun(cfg, [At(d)], d.timestamp);
    assert AdmittedWithin(s.history, DedupeKey(e), clock(AtDedupe), cfg.detection.dedupeWindow);
    AdmittedUnlessRecent(cfg, [At(d)], e, clock);
    RunSnoc(cfg, [At(d)], At(e));
    RejectedLeavesReaders(s, e, clock);
  }

  lemma RejectedLeavesReaders(s: State, ev: Event, clock: Clock)
    requires s.Valid() && !Result(s, ev, clock).admitted
    ensures Apply(s, Process(ev, clock)).core.readers == s.core.readers
  {
    hide Admit, CheckDuplicate, Clamp;
  }

  /** Two events of one instant whose joined fields coincide: the first reader's silences the second's. */
  lemma SharedKeyInterferes(cfg: Config, d: Event, e: Event)
    requires cfg.Valid() && cfg.detection.dedupeWindow > 0
    requires d.timestamp == e.timestamp && DedupeKey(d) == DedupeKey(e)
    requires d.readerID != "" && e.readerID != "" && d.readerID != e.readerID
    ensures var ops := [At(d)] + [At(e)];
            && ValidOps(ops) && Instant(ops, d.timestamp)
            && e.readerID !in RunOps(cfg, ops).core.readers
            && e.readerID in RunOps(cfg, Only(ops, e.readerID)).core.readers
            && !Undisturbed(cfg, ops, e.readerID)
  {
    hide RunOps, DedupeKey, About, Result, Only, EventsOf;
    EmptyRun(cfg);
    OnlySnoc([], d, e.readerID);
    OnlySnoc([At(d)], e, e.readerID);
    assert [] + [At(d)] == [At(d)] && [] + [At(e)] == [At(e)];
    SecondIsSilenced(cfg, d, e);
    OneReader(cfg, d, e.readerID);
    OneReader(cfg, e, e.readerID);
  }

  lemma OneReader(cfg: Config, ev: Event, id: string)
    requires cfg.Valid() && ev.readerID != ""
    ensures ValidOps([At(ev)]) && (id in RunOps(cfg, [At(ev)]).core.readers <==> ev.readerID == id)
  {
    hide RunOps, DedupeKey, Result, EventsOf;
    FirstEvent(cfg, ev);
    InstantRun(cfg, [At(ev)], ev.timestamp);
    EventsOfFirst(RunOps(cfg, [At(ev)]).history[0], id);
    assert RunOps(cfg, [At(ev)]).history == [RunOps(cfg, [At(ev)]).history[0]];
  }

  // ---------- A shared cooldown key ----------

  /** The access policy that blacklists one UID for one reader. */
  function OneListed(reader: string): AccessConfig {
    AccessConfig(true, false, [], [], map[], map[reader := ["0"]])
  }

  function Refusal(reader: string, code: string): Event {
    Event(1, reader, "0", RESULT_FAILURE, code, "")
  }

  lemma CanonicalZero()
    ensures Access.Canonical("0") == "0"
  {
    Access.CanonicalOfHex("0");
  }

  lemma ZeroIsListed()
    ensures Access.Lists(["0"], "0")
  {
    CanonicalZero();
    hide Access.Canonical;
    assert "0" in ["0"];
  }

  /** The policy denies the UID to the listed reader, and says nothing about others. */
  lemma OnlyListedIsDenied(listed: string, ev: Event)
    requires ev.uid == "0"
    ensures Denied(OneListed(listed), ev) <==> ev.readerID == listed
    ensures !Unlisted(OneListed(listed), ev)
  {
    hide Access.Canonical, Access.Lists;
    CanonicalZero();
    ZeroIsListed();
    NothingListed("0");
  }

  lemma NothingListed(uid: string)
    ensures !Access.Lists([], uid)
  {
  }

  /** The listed reader's access key is the streak key of the reader whose id it prefixes. */
  lemma AccessKeyIsStreakKey(r: string)
    ensures WindowKey(AUTH_PREFIX + r, 0) == AuthKey(r, "0")
  {
    assert Digits(0) == "0" && IsHex("0");
    WindowKeyMeetsAuthKey(AUTH_PREFIX + r, 0, r, "0");
  }

  ghost predicate AllAt(calls: seq<Call>, now: int) {
    forall i :: 0 <= i < |calls| ==> calls[i].at == now
  }

  lemma {:induction false} WindowCallsAt(cfg: DetectionConfig, readerID: string, metrics: seq<WindowMetrics>, now: int)
    ensures AllAt(WindowCalls(cfg, readerID, metrics, Frozen(now)), now)
  {
    hide Breaks, WindowAlert, WindowKey;
    if metrics != [] {
      WindowCallsAt(cfg, readerID, metrics[..|metrics| - 1], now);
    }
  }

  lemma EventCallsAt(cfg: Config, es: seq<Event>, now: int)
    requires cfg.Valid() && es != []
    ensures AllAt(EventCalls(cfg, es, Frozen(now)), now)
  {
    hide WindowCalls, HistoryMetrics, Denied, Unlisted, TwoInARow, WindowKey, AuthKey, Access.Canonical;
    WindowCallsAt(cfg.detection, es[|es| - 1].readerID, HistoryMetrics(cfg.detection, es), now);
  }

  ghost predicate NeverAsks(calls: seq<Call>, key: string) {
    forall i :: 0 <= i < |calls| ==> calls[i].key != key
  }

  /** A key taken at an instant stays taken through whatever asks at that instant. */
  lemma {:induction false} StaysTaken(calls: seq<Call>, last: map<string, int>, cooldown: int, key: string, now: int)
    requires AllAt(calls, now) && cooldown > 0 && key in last && last[key] == now
    ensures var after := Send(calls, last, cooldown).last; key in after && after[key] == now
  {
    if calls != [] {
      StaysTaken(calls[..|calls| - 1], last, cooldown, key, now);
    }
  }

  /** The first call of an empty cooldown takes its key. */
  lemma FirstCallTakes(c: Call, rest: seq<Call>, cooldown: int, now: int)
    requires AllAt([c] + rest, now) && cooldown > 0
    ensures var after := Send([c] + rest, map[], cooldown).last; c.key in after && after[c.key] == now
  {
    assert ([c] + rest)[0] == c && forall i :: 0 <= i < |rest| ==> rest[i] == ([c] + rest)[i + 1];
    SendOne(c, map[], cooldown);
    SendAppend([c], rest, map[], cooldown);
    StaysTaken(rest, Send([c], map[], cooldown).last, cooldown, c.key, now);
    hide Send;
  }

  /** The listed reader's event asks under the other's streak key before anything else. */
  lemma ListedAsksFirst(cfg: Config, r: string, es: seq<Event>) returns (c: Call, rest: seq<Call>)
    requires cfg.Valid() && cfg.access == OneListed(AUTH_PREFIX + r)
    requires es != [] && es[|es| - 1] == Refusal(AUTH_PREFIX + r, "E")
    ensures EventCalls(cfg, es, Frozen(1)) == [c] + rest && c.key == AuthKey(r, "0")
  {
    hide WindowKey, AuthKey, WindowCalls, AuthCalls, HistoryMetrics, TwoInARow, Access.Canonical, OneListed, Denied, Unlisted;
    var y, clock := es[|es| - 1], Frozen(1);
    OnlyListedIsDenied(AUTH_PREFIX + r, y);
    AccessKeyIsStreakKey(r);
    c := AccessCall(y, "critical", BLACKLISTED, clock);
    var u := AuthCalls(TwoInARow(es, Access.Canonical(y.uid)), y, clock);
    var w := WindowCalls(cfg.detection, y.readerID, HistoryMetrics(cfg.detection, es), clock);
    rest := u + w;
    assert [c] + u + w == [c] + (u + w);
  }

  lemma HistoryOfFirst(s: State, ev: Event, clock: Clock)
    requires ev.readerID != "" && Clamp(s.cfg.detection, ev, clock) == ev && EventsOf(s.history, ev.readerID) == []
    ensures HistoryWith(s, ev, clock) == [ev]
  {
  }

  /** After the listed reader's event the other's streak key is taken. */
  lemma KeyTaken(cfg: Config, r: string, y: Event)
    requires cfg.Valid() && cfg.detection.alertCooldown > 0 && cfg.access == OneListed(AUTH_PREFIX + r)
    requires y == Refusal(AUTH_PREFIX + r, "E")
    ensures ValidOps([At(y)])
    ensures var last := RunOps(cfg, [At(y)]).core.cooldown; AuthKey(r, "0") in last && last[AuthKey(r, "0")] == 1
  {
    hide RunOps, Result, IsNew, HistoryWith, FollowsHistory, Tracks, WindowKey, AuthKey, Send, EventCalls, Clamp, DedupeKey, OneListed;
    var s0, clock := RunOps(cfg, []), Frozen(1);
    FirstEvent(cfg, y);
    EmptyRun(cfg);
    InstantRun(cfg, [], 1);
    UnheardIsAdmitted(cfg, [], y);
    HistoryOfFirst(s0, y, clock);
    EventSends(s0, y, clock);
    EventCallsAt(cfg, [y], 1);
    var c, rest := ListedAsksFirst(cfg, r, [y]);
    FirstCallTakes(c, rest, cfg.detection.alertCooldown, 1);
  }

  /** What a reader's first refusal does to the cooldown: it leaves its streak key as it is. */
  lemma RefusalKeepsKey(cfg: Config, ops: seq<Op>, r: string, x: Event)
    requires cfg.Valid() && cfg.detection.alertCooldown > 0 && cfg.access == OneListed(AUTH_PREFIX + r) && r != ""
    requires Instant(ops, 1) && ValidOps(ops) && x == Refusal(r, x.errorCode)
    requires Unheard(RunOps(cfg, ops).history, DedupeKey(x)) && EventsOf(RunOps(cfg, ops).history, r) == []
    ensures ValidOps(ops + [At(x)])
    ensures var key, last, after := AuthKey(r, "0"), RunOps(cfg, ops).core.cooldown, RunOps(cfg, ops + [At(x)]).core.cooldown;
            && (key !in last ==> key !in after)
            && (key in last && last[key] == 1 ==> key in after && after[key] == 1)
    ensures !HasType(Result(RunOps(cfg, ops), x, Frozen(1)).alerts, AUTH_FAILURE)
  {
    hide RunOps, Result, IsNew, HistoryWith, FollowsHistory, Tracks, WindowKey, AuthKey, Send, DedupeKey, Clamp, TwoInARow,
         Access.Canonical, OneListed, EventCalls, Ready, EventsOf, HasType, Unheard;
    var s, clock, cd := RunOps(cfg, ops), Frozen(1), cfg.detection.alertCooldown;
    InstantSnoc(cfg, ops, x);
    InstantRun(cfg, ops, 1);
    UnheardIsAdmitted(cfg, ops, x);
    HistoryOfFirst(s, x, clock);
    OneEventIsNoStreak(x);
    EventSends(s, x, clock);
    EventCallsAt(cfg, [x], 1);
    HistoryIsTracked(s);
    AuthAlertMeaning(s, x, clock);
    KeyThroughCalls(EventCalls(cfg, [x], clock), s.core.cooldown, cd, AuthKey(r, "0"));
    NoStreakKeyAsked(cfg, r, x);
  }

  lemma KeyThroughCalls(calls: seq<Call>, last: map<string, int>, cooldown: int, key: string)
    requires AllAt(calls, 1) && cooldown > 0
    ensures var after := Send(calls, last, cooldown).last;
            && (key in last && last[key] == 1 ==> key in after && after[key] == 1)
            && (NeverAsks(calls, key) && key !in last ==> key !in after)
  {
    hide Send;
    if key in last && last[key] == 1 {
      StaysTaken(calls, last, cooldown, key, 1);
    }
    if NeverAsks(calls, key) {
      OtherKeysKept(calls, last, cooldown, key);
    }
  }

  lemma OneEventIsNoStreak(x: Event)
    ensures !TwoInARow([x], Access.Canonical(x.uid))
  {
    hide Access.Canonical;
    var uid := Access.Canonical(x.uid);
    ForUidSnoc([], x, uid);
    assert [] + [x] == [x] && |ForUid([x], uid)| <= 1;
  }

  /** A reader's first refusal asks for nothing but what its windows call for. */
  lemma FirstRefusalCalls(cfg: Config, r: string, x: Event)
    requires cfg.Valid() && cfg.access == OneListed(AUTH_PREFIX + r) && r != "" && x == Refusal(r, x.errorCode)
    ensures EventCalls(cfg, [x], Frozen(1)) ==
            WindowCalls(cfg.detection, r, HistoryMetrics(cfg.detection, [x]), Frozen(1))
  {
    hide WindowKey, AuthKey, HistoryMetrics, TwoInARow, Access.Canonical, OneListed, Denied, Unlisted, WindowCalls;
    assert |AUTH_PREFIX + r| > |r|;
    OnlyListedIsDenied(AUTH_PREFIX + r, x);
    OneEventIsNoStreak(x);
    var calls := WindowCalls(cfg.detection, r, HistoryMetrics(cfg.detection, [x]), Frozen(1));
    assert [x][|[x]| - 1] == x && x.readerID == r;
    assert [] + [] + calls == calls;
  }

  lemma WindowsNeverAsk(cfg: DetectionConfig, r: string, metrics: seq<WindowMetrics>, clock: Clock)
    requires r != ""
    ensures NeverAsks(WindowCalls(cfg, r, metrics, clock), AuthKey(r, "0"))
  {
    hide WindowKey, AuthKey, WindowCalls, CalledBySome;
    var calls := WindowCalls(cfg, r, metrics, clock);
    WindowCallsAre(cfg, r, metrics, clock);
    forall i | 0 <= i < |calls|
      ensures calls[i].key != AuthKey(r, "0")
    {
      assert calls[i] in calls;
      WindowCallKey(cfg, r, metrics, clock, calls[i]);
    }
  }

  /** So it asks under no streak key. */
  lemma NoStreakKeyAsked(cfg: Config, r: string, x: Event)
    requires cfg.Valid() && cfg.access == OneListed(AUTH_PREFIX + r) && r != "" && x == Refusal(r, x.errorCode)
    ensures NeverAsks(EventCalls(cfg, [x], Frozen(1)), AuthKey(r, "0"))
  {
    hide AuthKey, HistoryMetrics, OneListed, WindowCalls, EventCalls, NeverAsks;
    FirstRefusalCalls(cfg, r, x);
    WindowsNeverAsk(cfg.detection, r, HistoryMetrics(cfg.detection, [x]), Frozen(1));
  }

  lemma WindowCallKey(cfg: DetectionConfig, r: string, metrics: seq<WindowMetrics>, clock: Clock, c: Call)
    requires CalledBySome(cfg, r, metrics, clock, c) && r != ""
    ensures c.key != AuthKey(r, "0")
  {
    hide Breaks, WindowKey, AuthKey, Access.Canonical, WindowAlert;
    var j :| 0 <= j < |metrics| && CalledBy(cfg, r, metrics[j], clock, c);
    OwnKeysApart(r, metrics[j].windowSec, "0");
    CanonicalZero();
  }

  lemma TwoEventsAreStreak(x: Event, y: Event)
    requires x.uid == "0" && y.uid == "0" && IsAuthFailure(x) && IsAuthFailure(y)
    ensures TwoInARow([x] + [y], "0")
  {
    CanonicalZero();
    hide Access.Canonical;
    ForUidSnoc([], x, "0");
    ForUidSnoc([x], y, "0");
    assert [] + [x] == [x];
  }

  lemma EventsOfTwo(history: seq<Admission>, a: Admission, id: string)
    requires a.ev.readerID == id != "" && EventsOf(history, id) == []
    ensures EventsOf(history + [a], id) == [a.ev]
  {
    EventsOfSnoc(history, a, id);
  }

  lemma AlertsAboutOwn(s: State, ev: Event, clock: Clock)
    requires s.Valid() && ev.readerID != ""
    ensures forall i :: 0 <= i < |Result(s, ev, clock).alerts| ==> Result(s, ev, clock).alerts[i].readerID == ev.readerID
  {
    hide Step, CheckDuplicate;
    StepConfined(s.cfg, s.core, ev, clock);
  }

  /** The second refusal in a row calls for an alert, which is raised if its key is ready. */
  lemma SecondRefusal(cfg: Config, ops: seq<Op>, r: string, x: Event, y: Event)
    requires cfg.Valid() && r != "" && Instant(ops, 1) && ValidOps(ops)
    requires x == Refusal(r, "E") && y == Refusal(r, "F")
    requires Unheard(RunOps(cfg, ops).history, DedupeKey(x)) && Unheard(RunOps(cfg, ops).history, DedupeKey(y))
    requires DedupeKey(x) != DedupeKey(y) && EventsOf(RunOps(cfg, ops).history, r) == []
    ensures ValidOps(ops + [At(x)]) && Instant(ops + [At(x)], 1)
    ensures Unheard(RunOps(cfg, ops + [At(x)]).history, DedupeKey(y))
    ensures var s := RunOps(cfg, ops + [At(x)]);
            HasType(Result(s, y, Frozen(1)).alerts, AUTH_FAILURE) <==>
            Ready(s.core.cooldown, AuthKey(r, "0"), 1, cfg.detection.alertCooldown)
  {
    hide RunOps, Result, IsNew, HistoryWith, FollowsHistory, Tracks, AuthKey, DedupeKey, TwoInARow, Access.Canonical, Ready, EventsOf,
         HasType;
    InstantSnoc(cfg, ops, x);
    var s, clock, more := RunOps(cfg, ops + [At(x)]), Frozen(1), ops + [At(x)];
    InstantRun(cfg, more, 1);
    EventsOfTwo(RunOps(cfg, ops).history, Admission(x, 1, 1, cfg.detection.windows), r);
    UnheardIsAdmitted(cfg, more, y);
    HistoryOfSecond(s, x, y, clock);
    TwoEventsAreStreak(x, y);
    CanonicalZero();
    HistoryIsTracked(s);
    AuthAlertMeaning(s, y, clock);
  }

  lemma HistoryOfSecond(s: State, x: Event, y: Event, clock: Clock)
    requires y.readerID != "" && Clamp(s.cfg.detection, y, clock) == y && EventsOf(s.history, y.readerID) == [x]
    ensures HistoryWith(s, y, clock) == [x] + [y]
  {
  }

  lemma RefusalKeysDiffer(r: string)
    ensures DedupeKey(Refusal(r, "E")) != DedupeKey(Refusal(r, "F"))
    ensures DedupeKey(Refusal(AUTH_PREFIX + r, "E")) != DedupeKey(Refusal(r, "E"))
    ensures DedupeKey(Refusal(AUTH_PREFIX + r, "E")) != DedupeKey(Refusal(r, "F"))
  {
    var x, y, z := Refusal(r, "E"), Refusal(r, "F"), Refusal(AUTH_PREFIX + r, "E");
    var p := r + BAR + ("0" + BAR + (RESULT_FAILURE + BAR));
    assert DedupeKey(x) == p + ("E" + BAR + Itoa(1)) && DedupeKey(y) == p + ("F" + BAR + Itoa(1));
    assert DedupeKey(x)[|p|] == 'E' && DedupeKey(y)[|p|] == 'F';
    assert |DedupeKey(z)| == |DedupeKey(x)| + |AUTH_PREFIX| == |DedupeKey(y)| + |AUTH_PREFIX|;
  }

  /** Two refusals of a reader not met before: its repeated-failure alert goes out iff its key is free. */
  lemma TwoRefusals(cfg: Config, ops: seq<Op>, r: string) returns (more: seq<Alert>)
    requires cfg.Valid() && cfg.detection.alertCooldown > 0 && cfg.access == OneListed(AUTH_PREFIX + r) && r != ""
    requires Instant(ops, 1) && ValidOps(ops) && EventsOf(RunOps(cfg, ops).history, r) == []
    requires Unheard(RunOps(cfg, ops).history, DedupeKey(Refusal(r, "E")))
    requires Unheard(RunOps(cfg, ops).history, DedupeKey(Refusal(r, "F")))
    ensures var all := ops + [At(Refusal(r, "E"))] + [At(Refusal(r, "F"))];
            Instant(all, 1) && ValidOps(all) && RunOps(cfg, all).log == RunOps(cfg, ops).log + more
    ensures forall i :: 0 <= i < |more| ==> more[i].readerID == r
    ensures var key, last := AuthKey(r, "0"), RunOps(cfg, ops).core.cooldown;
            && (key !in last ==> HasType(more, AUTH_FAILURE))
            && (key in last && last[key] == 1 ==> !HasType(more, AUTH_FAILURE))
  {
    hide RunOps, Result, AuthKey, DedupeKey, EventsOf, HasType, OneListed, Unheard;
    var x, y, clock := Refusal(r, "E"), Refusal(r, "F"), Frozen(1);
    RefusalKeysDiffer(r);
    RefusalKeepsKey(cfg, ops, r, x);
    SecondRefusal(cfg, ops, r, x, y);
    InstantSnoc(cfg, ops, x);
    InstantSnoc(cfg, ops + [At(x)], y);
    var s1, s2 := RunOps(cfg, ops), RunOps(cfg, ops + [At(x)]);
    AlertsAboutOwn(s1, x, clock);
    AlertsAboutOwn(s2, y, clock);
    var a, b := Result(s1, x, clock).alerts, Result(s2, y, clock).alerts;
    more := a + b;
    assert s1.log + a + b == s1.log + more;
    TypeInBoth(a, b, AUTH_FAILURE);
  }

  lemma TypeInBoth(a: seq<Alert>, b: seq<Alert>, alertType: string)
    ensures HasType(a + b, alertType) <==> HasType(a, alertType) || HasType(b, alertType)
  {
    TypeInGroups(a, b, [], alertType);
    assert a + b + [] == a + b;
  }

  /**
   A reader whose id is another's with the prefix: its blacklist alert takes the other's streak key, and
   the other's repeated-failure alert is lost, under any detection configuration with a cooldown.
   */
  lemma PrefixedReaderSilencesStreak(d: DetectionConfig, r: string)
    requires d.Valid() && d.alertCooldown > 0 && r != ""
    ensures var q := AUTH_PREFIX + r; var cfg := Config(d, OneListed(q));
            var ops := [At(Refusal(q, "E"))] + [At(Refusal(r, "E"))] + [At(Refusal(r, "F"))];
            && Instant(ops, 1) && ValidOps(ops)
            && HasType(RunOps(cfg, Only(ops, r)).log, AUTH_FAILURE)
            && !HasType(About(RunOps(cfg, ops).log, r), AUTH_FAILURE)
            && !Undisturbed(cfg, ops, r)
  {
    hide RunOps, Result, AuthKey, DedupeKey, HasType, OneListed, About, Only, EventsOf;
    var q, x, y := AUTH_PREFIX + r, Refusal(r, "E"), Refusal(r, "F");
    var cfg, z := Config(d, OneListed(q)), Refusal(q, "E");
    var ops, own := [At(z)] + [At(x)] + [At(y)], [] + [At(x)] + [At(y)];
    assert q != r by {
      assert |q| > |r|;
    }
    EmptyRun(cfg);
    NoEventsOfNone(r);
    var mine := TwoRefusals(cfg, [], r);
    assert [] + mine == mine;
    FirstEvent(cfg, z);
    KeyTaken(cfg, r, z);
    RefusalKeysDiffer(r);
    EventsOfFirst(RunOps(cfg, [At(z)]).history[0], r);
    assert RunOps(cfg, [At(z)]).history == [RunOps(cfg, [At(z)]).history[0]];
    var more := TwoRefusals(cfg, [At(z)], r);
    AlertsAboutOwn(RunOps(cfg, []), z, Frozen(1));
    AboutOthers(RunOps(cfg, [At(z)]).log, more, r, q);
    OnlyLast(z, x, y, r);
  }

  lemma NoEventsOfNone(id: string)
    ensures EventsOf([], id) == []
  {
  }

  lemma AboutOthers(before: seq<Alert>, more: seq<Alert>, r: string, q: string)
    requires r != q
    requires forall i :: 0 <= i < |before| ==> before[i].readerID == q
    requires forall i :: 0 <= i < |more| ==> more[i].readerID == r
    ensures About(before + more, r) == more
  {
    AboutOwn([], before, r, q);
    AboutOwn(before, more, r, r);
    assert [] + before == before && About([], r) == [];
  }

  lemma OnlyLast(z: Event, x: Event, y: Event, r: string)
    requires z.readerID != r && x.readerID == r && y.readerID == r
    ensures Only([At(z)] + [At(x)] + [At(y)], r) == [] + [At(x)] + [At(y)]
  {
    OnlySnoc([], z, r);
    OnlySnoc([At(z)], x, r);
    OnlySnoc([At(z)] + [At(x)], y, r);
    assert [] + [At(z)] == [At(z)];
  }

  // ---------- The exact condition ----------

  lemma UnlessDisturbed(d: DetectionConfig, access: AccessConfig, ops: seq<Op>, now: int, r: string, q: string)
    requires RunOfTwo(Config(d, access), ops, now, r, q)
    requires !Undisturbed(Config(d, access), ops, r)
    ensures !NeverDisturb(d, r, q) && !NeverDisturb(d, q, r)
  {
    hide Undisturbed, Steady, ChecksAdvance;
    assert Between(ops, q, r);
    assert RunOfTwo(Config(d, access), ops, now, q, r);
  }

  /** Events of one instant and of the two readers. */
  lemma InstantOfTwo(cfg: Config, ops: seq<Op>, now: int, r: string, q: string)
    requires cfg.Valid() && Instant(ops, now) && Between(ops, r, q)
    ensures RunOfTwo(cfg, ops, now, r, q)
  {
    hide Instant, Between;
    InstantRun(cfg, ops, now);
  }

  lemma BetweenNone(r: string, q: string)
    ensures Between([], r, q)
  {
  }

  lemma BetweenSnoc(ops: seq<Op>, ev: Event, r: string, q: string)
    requires Between(ops, r, q) && Normal(ev) && (ev.readerID == r || ev.readerID == q)
    ensures Between(ops + [At(ev)], r, q)
  {
    hide Normal;
  }

  lemma RefusalIsNormal(r: string, code: string)
    requires r != "" && (code == "E" || code == "F")
    ensures Normal(Refusal(r, code))
  {
  }

  lemma BetweenRefusals(r: string, q: string)
    requires r != "" && q != ""
    ensures Between([At(Refusal(q, "E"))] + [At(Refusal(r, "E"))] + [At(Refusal(r, "F"))], r, q)
  {
    hide Between, Normal;
    RefusalIsNormal(q, "E");
    RefusalIsNormal(r, "E");
    RefusalIsNormal(r, "F");
    BetweenNone(r, q);
    BetweenSnoc([], Refusal(q, "E"), r, q);
    assert [] + [At(Refusal(q, "E"))] == [At(Refusal(q, "E"))];
    BetweenSnoc([At(Refusal(q, "E"))], Refusal(r, "E"), r, q);
    BetweenSnoc([At(Refusal(q, "E"))] + [At(Refusal(r, "E"))], Refusal(r, "F"), r, q);
  }

  lemma PrefixDisturbs(d: DetectionConfig, r: string)
    requires d.Valid() && d.alertCooldown > 0 && r != ""
    ensures !NeverDisturb(d, r, AUTH_PREFIX + r) && !NeverDisturb(d, AUTH_PREFIX + r, r)
  {
    hide Undisturbed, NeverDisturb, OneListed, Refusal, At, RunOfTwo, Between, Instant;
    var q := AUTH_PREFIX + r;
    var cfg, ops := Config(d, OneListed(q)), [At(Refusal(q, "E"))] + [At(Refusal(r, "E"))] + [At(Refusal(r, "F"))];
    PrefixedReaderSilencesStreak(d, r);
    BetweenRefusals(r, q);
    InstantOfTwo(cfg, ops, 1, r, q);
    UnlessDisturbed(d, cfg.access, ops, 1, r, q);
  }

  /** One id goes on past a bar after the other: some event of one silences one of the other. */
  lemma ExtensionDisturbs(d: DetectionConfig, r: string, q: string)
    requires d.Valid() && d.dedupeWindow > 0 && r != "" && Extends(r, q)
    ensures !NeverDisturb(d, r, q) && !NeverDisturb(d, q, r)
  {
    hide Undisturbed, NeverDisturb, DedupeKey, Normal, RunOfTwo, Between, Instant, RunOps, Only, At;
    var access := AccessConfig(false, false, [], [], map[], map[]);
    var e, f := ExtensionSharesDedupeKey(r, q, 1);
    assert |q| > |r|;
    SharedKeyInterferes(Config(d, access), f, e);
    BetweenNone(r, q);
    BetweenSnoc([], f, r, q);
    assert [] + [At(f)] == [At(f)];
    BetweenSnoc([At(f)], e, r, q);
    InstantOfTwo(Config(d, access), [At(f)] + [At(e)], 1, r, q);
    UnlessDisturbed(d, access, [At(f)] + [At(e)], 1, r, q);
  }

  lemma IndependentUndisturbed(cfg: Config, ops: seq<Op>, now: int, r: string, q: string)
    requires r != "" && q != "" && IndependentUnder(cfg.detection, r, q) && RunOfTwo(cfg, ops, now, r, q)
    ensures Undisturbed(cfg, ops, r) && Undisturbed(cfg, ops, q)
  {
    hide Undisturbed, Extends;
    assert IndependentOf(cfg.detection, ops, r) && IndependentOf(cfg.detection, ops, q);
    ReaderNonInterference(cfg, ops, r, now);
    ReaderNonInterference(cfg, ops, q, now);
  }

  /**
   For every detection configuration: two readers never disturb each other, in any run of the two under
   any access policy, exactly when, as far as dedupe is in use, neither id goes on past a bar after the
   other, and, as far as the cooldown is in use, neither is the other with the prefix of the streak keys.
   */
  lemma IndependentIffNeverDisturb(d: DetectionConfig, r: string, q: string)
    requires d.Valid() && r != "" && q != "" && r != q
    ensures IndependentUnder(d, r, q) <==> NeverDisturb(d, r, q)
  {
    hide Undisturbed, Extends, Between, Steady, ChecksAdvance;
    if IndependentUnder(d, r, q) {
      forall access: AccessConfig, ops: seq<Op>, now: int | RunOfTwo(Config(d, access), ops, now, r, q)
        ensures Undisturbed(Config(d, access), ops, r) && Undisturbed(Config(d, access), ops, q)
      {
        IndependentUndisturbed(Config(d, access), ops, now, r, q);
      }
    } else if d.dedupeWindow > 0 && Extends(r, q) {
      ExtensionDisturbs(d, r, q);
    } else if d.dedupeWindow > 0 && Extends(q, r) {
      ExtensionDisturbs(d, q, r);
    } else if q == AUTH_PREFIX + r {
      PrefixDisturbs(d, r);
    } else {
      PrefixDisturbs(d, q);
    }
  }
}
