/** Every reader's state, metrics and alerts as functions of the events admitted since restart. */
module EngineHistory {
  import opened Model
  import opened Sequences
  import opened Detection
  import opened EngineRun
  import opened Window
  import opened WindowHistory
  import Access

  // ---------- One step, seen from its reader ----------

  /** A reader after one more event: every window pushed, the event's own streak advanced. */
  function After(reader: ReaderView, ev: Event): ReaderView {
    ReaderView(map s | s in reader.windows :: PushView(reader.windows[s], EntryOf(ev)), NextStreak(reader.streak, ev))
  }

  ghost predicate Pushed(e: EventEntry, windows: map<int, WindowView>, keys: seq<int>, windows': map<int, WindowView>) {
    && windows'.Keys == windows.Keys
    && forall s :: s in windows ==> windows'[s] == if s in keys then PushView(windows[s], e) else windows[s]
  }

  /** The metrics list of a pass: each window measured after this event was pushed to it. */
  ghost predicate Measured(e: EventEntry, windows: map<int, WindowView>, keys: seq<int>, metrics: seq<WindowMetrics>) {
    && |metrics| == |keys|
    && forall i :: 0 <= i < |keys| ==> MeasuredAt(e, windows, keys[i], metrics[i])
  }

  ghost predicate MeasuredAt(e: EventEntry, windows: map<int, WindowView>, key: int, wm: WindowMetrics) {
    key in windows && windows[key].duration > 0 && wm == MetricsOfView(PushView(windows[key], e))
  }

  lemma PushedSnoc(e: EventEntry, windows: map<int, WindowView>, front: seq<int>, k: int, windows': map<int, WindowView>)
    requires Pushed(e, windows, front, windows') && k in windows && k !in front
    ensures Pushed(e, windows, front + [k], windows'[k := PushView(windows'[k], e)])
  {
    hide PushView;
    forall s | s in windows && s != k
      ensures s in front + [k] <==> s in front
    {
    }
  }

  lemma MeasuredSnoc(e: EventEntry, windows: map<int, WindowView>, front: seq<int>, k: int,
                     metrics: seq<WindowMetrics>, wm: WindowMetrics)
    requires Measured(e, windows, front, metrics) && MeasuredAt(e, windows, k, wm)
    ensures Measured(e, windows, front + [k], metrics + [wm])
  {
    hide MeasuredAt;
  }

  lemma AscendingFront(keys: seq<int>)
    requires keys != [] && Ascending(keys)
    ensures Ascending(keys[..|keys| - 1]) && keys[|keys| - 1] !in keys[..|keys| - 1]
    ensures keys == keys[..|keys| - 1] + [keys[|keys| - 1]]
  {
  }

  lemma {:induction false} PassShape(
    cfg: DetectionConfig, readerID: string, e: EventEntry, windows: map<int, WindowView>, keys: seq<int>,
    cooldown: map<string, int>, clock: Clock)
    requires cfg.Valid() && PositiveDurations(windows)
    requires forall i :: 0 <= i < |keys| ==> keys[i] in windows
    requires Ascending(keys)
    ensures var p := WindowPass(cfg, readerID, e, windows, keys, cooldown, clock);
            Pushed(e, windows, keys, p.windows) && Measured(e, windows, keys, p.metrics)
  {
    if keys != [] {
      var front, k := keys[..|keys| - 1], keys[|keys| - 1];
      AscendingFront(keys);
      PassShape(cfg, readerID, e, windows, front, cooldown, clock);
      var p := WindowPass(cfg, readerID, e, windows, front, cooldown, clock);
      assert k in windows && k !in front;
      PushedSnoc(e, windows, front, k, p.windows);
      assert p.windows[k] == windows[k];
      var wm := MetricsOfView(PushView(windows[k], e));
      MeasuredSnoc(e, windows, front, k, p.metrics, wm);
      hide Evaluate, Pushed, Measured, MetricsOfView, PushView, Ascending;
    }
  }

  lemma PushedEverywhere(e: EventEntry, reader: ReaderView, windows': map<int, WindowView>)
    requires Pushed(e, reader.windows, SortedKeys(reader.windows.Keys), windows')
    ensures windows' == map s | s in reader.windows :: PushView(reader.windows[s], e)
  {
    hide PushView;
  }

  lemma AdmitReader(cfg: Config, core: Core, ev: Event, clock: Clock)
    requires cfg.Valid() && ValidCore(core)
    ensures var id := ReaderKey(ev.readerID);
            var reader := OpenReader(cfg.detection, core.readers, id);
            var o := Admit(cfg, core, ev, clock);
            && o.core.readers == core.readers[id := After(reader, ev)]
            && Measured(EntryOf(ev), reader.windows, SortedKeys(reader.windows.Keys), o.metrics)
  {
    var id := ReaderKey(ev.readerID);
    var access := EvaluateAccess(cfg, ev, core.cooldown, clock);
    var reader := OpenReader(cfg.detection, core.readers, id);
    OpenReaderPositive(cfg.detection, core, id);
    var auth := EvaluateAuthStreak(cfg.detection, id, reader.streak, ev, access.cooldown, clock);
    var keys := SortedKeys(reader.windows.Keys);
    SortedKeysAscend(reader.windows.Keys);
    PassShape(cfg.detection, ev.readerID, EntryOf(ev), reader.windows, keys, auth.cooldown, clock);
    var p := WindowPass(cfg.detection, ev.readerID, EntryOf(ev), reader.windows, keys, auth.cooldown, clock);
    PushedEverywhere(EntryOf(ev), reader, p.windows);
    hide EvaluateAccess, EvaluateAuthStreak, OpenReader, WindowPass, SortedKeys, NextStreak, PushView, Pushed, Measured;
  }

  // ---------- Histories ----------

  /** The admitted events of one reader, in order. */
  function EventsOf(history: seq<Admission>, id: string): seq<Event> {
    if history == [] then []
    else
      var front, a := EventsOf(history[..|history| - 1], id), history[|history| - 1];
      if ReaderKey(a.ev.readerID) == id then front + [a.ev] else front
  }

  function Entries(es: seq<Event>): seq<EventEntry> {
    seq(|es|, i requires 0 <= i < |es| => EntryOf(es[i]))
  }

  lemma EntriesSnoc(es: seq<Event>, e: Event)
    ensures Entries(es + [e]) == Entries(es) + [EntryOf(e)]
  {
  }

  /** The events of one canonical UID. */
  function ForUid(es: seq<Event>, uid: string): seq<Event> {
    Filter(es, (e: Event) => Access.Canonical(e.uid) == uid)
  }

  /** How many events at the end of the sequence are failures with an error code. */
  function TailFailures(es: seq<Event>): nat {
    if es == [] || !IsAuthFailure(es[|es| - 1]) then 0 else 1 + TailFailures(es[..|es| - 1])
  }

  /** That number is the longest run: all of those are failures, and the one before is not. */
  lemma {:induction false} TailFailuresIsLongest(es: seq<Event>)
    ensures var n := TailFailures(es);
            && n <= |es|
            && (forall i :: |es| - n <= i < |es| ==> es[i].result == "failure" && es[i].errorCode != "")
            && (n < |es| ==> es[|es| - n - 1].result != "failure" || es[|es| - n - 1].errorCode == "")
  {
    if es != [] && IsAuthFailure(es[|es| - 1]) {
      TailFailuresIsLongest(es[..|es| - 1]);
    }
  }

  function UidsSeen(es: seq<Event>): set<string> {
    if es == [] then {}
    else
      var uid := Access.Canonical(es[|es| - 1].uid);
      UidsSeen(es[..|es| - 1]) + (if uid == "" then {} else {uid})
  }

  function StreaksOf(es: seq<Event>): map<string, int> {
    map uid | uid in UidsSeen(es) :: TailFailures(ForUid(es, uid))
  }

  function WindowsOf(cfg: DetectionConfig, es: seq<Event>): map<int, WindowView> {
    var configured := NewWindows(cfg.windows);
    map s | s in configured ::
      WindowView(configured[s].duration, LiveAfter(configured[s].duration, Entries(es)))
  }

  /** A reader's whole state, computed from its admitted events alone. */
  function ReaderOf(cfg: DetectionConfig, es: seq<Event>): ReaderView {
    ReaderView(WindowsOf(cfg, es), StreaksOf(es))
  }

  lemma ForUidSnoc(es: seq<Event>, e: Event, uid: string)
    ensures ForUid(es + [e], uid) == if Access.Canonical(e.uid) == uid then ForUid(es, uid) + [e] else ForUid(es, uid)
  {
    assert (es + [e])[..|es|] == es;
  }

  lemma TailFailuresSnoc(es: seq<Event>, e: Event)
    ensures TailFailures(es + [e]) == if IsAuthFailure(e) then TailFailures(es) + 1 else 0
  {
    assert (es + [e])[..|es|] == es;
  }

  lemma {:induction false} UnseenHasNoEvents(es: seq<Event>, uid: string)
    requires uid != "" && uid !in UidsSeen(es)
    ensures ForUid(es, uid) == []
  {
    if es != [] {
      UnseenHasNoEvents(es[..|es| - 1], uid);
    }
  }

  lemma UidsSeenSnoc(es: seq<Event>, e: Event)
    ensures var u := Access.Canonical(e.uid);
            UidsSeen(es + [e]) == if u == "" then UidsSeen(es) else UidsSeen(es) + {u}
  {
    assert (es + [e])[..|es|] == es;
  }

  /** What one event does to the streak of any UID, computed from the history. */
  lemma TailFailuresOfUid(es: seq<Event>, e: Event, uid: string)
    requires uid != ""
    ensures TailFailures(ForUid(es + [e], uid)) ==
            if uid != Access.Canonical(e.uid) then TailFailures(ForUid(es, uid))
            else if !IsAuthFailure(e) then 0
            else (if uid in UidsSeen(es) then TailFailures(ForUid(es, uid)) else 0) + 1
  {
    ForUidSnoc(es, e, uid);
    TailFailuresSnoc(ForUid(es, uid), e);
    if uid !in UidsSeen(es) {
      UnseenHasNoEvents(es, uid);
    }
  }

  lemma StreaksSnocAt(es: seq<Event>, e: Event, uid: string)
    ensures uid in NextStreak(StreaksOf(es), e) <==> uid in StreaksOf(es + [e])
    ensures uid in StreaksOf(es + [e]) ==> NextStreak(StreaksOf(es), e)[uid] == StreaksOf(es + [e])[uid]
  {
    NoEmptyUid(es);
    UidsSeenSnoc(es, e);
    if uid != "" {
      TailFailuresOfUid(es, e, uid);
    }
    hide Access.Canonical, UidsSeen, IsAuthFailure, ForUid, TailFailures;
  }

  lemma StreaksSnoc(es: seq<Event>, e: Event)
    ensures NextStreak(StreaksOf(es), e) == StreaksOf(es + [e])
  {
    hide NextStreak, StreaksOf;
    forall uid
      ensures uid in NextStreak(StreaksOf(es), e) <==> uid in StreaksOf(es + [e])
      ensures uid in StreaksOf(es + [e]) ==> NextStreak(StreaksOf(es), e)[uid] == StreaksOf(es + [e])[uid]
    {
      StreaksSnocAt(es, e, uid);
    }
  }

  lemma {:induction false} NoEmptyUid(es: seq<Event>)
    ensures "" !in UidsSeen(es)
  {
    if es != [] {
      NoEmptyUid(es[..|es| - 1]);
    }
  }

  lemma WindowsSnoc(cfg: DetectionConfig, es: seq<Event>, e: Event, s: int)
    requires s in NewWindows(cfg.windows)
    ensures WindowsOf(cfg, es + [e])[s] == PushView(WindowsOf(cfg, es)[s], EntryOf(e))
  {
    EntriesSnoc(es, e);
    var h := Entries(es) + [EntryOf(e)];
    assert h[..|h| - 1] == Entries(es);
  }

  /** The reader state computed from a history grows with it just as the engine's does. */
  lemma ReaderOfSnoc(cfg: DetectionConfig, es: seq<Event>, e: Event)
    ensures After(ReaderOf(cfg, es), e) == ReaderOf(cfg, es + [e])
  {
    StreaksSnoc(es, e);
    forall s | s in NewWindows(cfg.windows)
      ensures WindowsOf(cfg, es + [e])[s] == PushView(WindowsOf(cfg, es)[s], EntryOf(e))
    {
      WindowsSnoc(cfg, es, e, s);
    }
    hide NewWindows, NextStreak, StreaksOf, PushView, LiveAfter;
    assert After(ReaderOf(cfg, es), e).windows == WindowsOf(cfg, es + [e]);
  }

  lemma {:induction false} NewWindowsAreEmpty(durations: seq<int>)
    ensures forall s :: s in NewWindows(durations) ==>
              NewWindows(durations)[s].live == [] && WholeSeconds(NewWindows(durations)[s].duration) == s
    ensures forall i :: 0 <= i < |durations| ==> WholeSeconds(durations[i]) in NewWindows(durations)
  {
    if durations != [] {
      NewWindowsAreEmpty(durations[..|durations| - 1]);
    }
  }

  lemma {:induction false} NothingMissing(windows: map<int, WindowView>, durations: seq<int>)
    requires forall i :: 0 <= i < |durations| ==> WholeSeconds(durations[i]) in windows
    ensures AddMissing(windows, durations) == windows
  {
    if durations != [] {
      NothingMissing(windows, durations[..|durations| - 1]);
    }
  }

  /** Opening a reader whose state is that of its history changes nothing; a new one starts empty. */
  lemma OpenReaderOfHistory(cfg: DetectionConfig, readers: map<string, ReaderView>, id: string, es: seq<Event>)
    requires id in readers ==> readers[id] == ReaderOf(cfg, es)
    requires id !in readers ==> es == []
    ensures OpenReader(cfg, readers, id) == ReaderOf(cfg, es)
  {
    NewWindowsAreEmpty(cfg.windows);
    if id in readers {
      NothingMissing(readers[id].windows, cfg.windows);
    } else {
      assert Entries([]) == [];
      forall s | s in NewWindows(cfg.windows)
        ensures NewWindows(cfg.windows)[s] == WindowsOf(cfg, [])[s]
      {
      }
      assert NewWindows(cfg.windows) == WindowsOf(cfg, []);
      assert StreaksOf([]) == map[];
    }
  }

  // ---------- The invariant of every run ----------

  /** Each reader known to the engine has admitted events, and its state is a function of them. */
  ghost predicate FollowsHistory(s: State) {
    forall id :: && (id in s.core.readers <==> EventsOf(s.history, id) != [])
                 && (id in s.core.readers ==> s.core.readers[id] == ReaderOf(s.cfg.detection, EventsOf(s.history, id)))
  }

  lemma EventsOfSnoc(history: seq<Admission>, a: Admission, id: string)
    ensures EventsOf(history + [a], id) ==
            if ReaderKey(a.ev.readerID) == id then EventsOf(history, id) + [a.ev] else EventsOf(history, id)
  {
    assert (history + [a])[..|history|] == history;
  }

  /** How a run's state moves with one admitted event of a reader. */
  lemma AdmissionFollowsHistory(s: State, s': State, a: Admission)
    requires FollowsHistory(s) && s'.cfg == s.cfg && s'.history == s.history + [a]
    requires var key := ReaderKey(a.ev.readerID);
             s'.core.readers ==
             s.core.readers[key := ReaderOf(s.cfg.detection, EventsOf(s.history, key) + [a.ev])]
    ensures FollowsHistory(s')
  {
    hide ReaderOf, ReaderKey, EventsOf;
    forall id
      ensures EventsOf(s'.history, id) ==
              if ReaderKey(a.ev.readerID) == id then EventsOf(s.history, id) + [a.ev] else EventsOf(s.history, id)
    {
      EventsOfSnoc(s.history, a, id);
    }
  }

  /** Opening the reader of an event finds the state that its history prescribes. */
  lemma OpenedFollowsHistory(s: State, id: string)
    requires FollowsHistory(s)
    ensures OpenReader(s.cfg.detection, s.core.readers, id) == ReaderOf(s.cfg.detection, EventsOf(s.history, id))
  {
    hide ReaderOf, EventsOf;
    OpenReaderOfHistory(s.cfg.detection, s.core.readers, id, EventsOf(s.history, id));
  }

  /** What one event does to the readers and the history, in outline. */
  ghost predicate Admitted(s: State, s': State, a: Admission) {
    var key := ReaderKey(a.ev.readerID);
    && s'.history == s.history + [a]
    && s'.core.readers == s.core.readers[key := After(OpenReader(s.cfg.detection, s.core.readers, key), a.ev)]
  }

  lemma ProcessOutline(s: State, ev: Event, clock: Clock)
    requires s.Valid()
    ensures var s', cfg := Apply(s, Process(ev, clock)), s.cfg.detection;
            && s'.cfg == s.cfg
            && (|| (s'.core.readers == s.core.readers && s'.history == s.history)
                || Admitted(s, s', Admission(Clamp(cfg, ev, clock), clock(AtStart), clock(AtDedupe), cfg.windows)))
  {
    hide Admit, CheckDuplicate, Clamp, OpenReader, After, ReaderKey, Measured;
    var e := Clamp(s.cfg.detection, ev, clock);
    var dedupe := CheckDuplicate(s.cfg.detection, s.core.dedupe, e, clock).1;
    AdmitReader(s.cfg, s.core.(dedupe := dedupe), e, clock);
  }

  lemma ProcessFollowsHistory(s: State, ev: Event, clock: Clock)
    requires s.Valid() && FollowsHistory(s)
    ensures FollowsHistory(Apply(s, Process(ev, clock)))
  {
    hide Apply, Clamp, ReaderOf, EventsOf, OpenReader, After, ReaderKey;
    ProcessOutline(s, ev, clock);
    var cfg := s.cfg.detection;
    var s', a := Apply(s, Process(ev, clock)), Admission(Clamp(cfg, ev, clock), clock(AtStart), clock(AtDedupe), cfg.windows);
    if Admitted(s, s', a) {
      var key := ReaderKey(a.ev.readerID);
      OpenedFollowsHistory(s, key);
      ReaderOfSnoc(cfg, EventsOf(s.history, key), a.ev);
      AdmissionFollowsHistory(s, s', a);
    }
  }

  /**
   Under a fixed configuration, after any run of events, restarts and clears, every reader's windows
   and streaks are those recomputed from its admitted events since the last restart.
   */
  lemma {:induction false} StateFollowsHistory(cfg: Config, ops: seq<Op>)
    requires cfg.Valid() && ValidOps(ops) && FixedConfig(ops)
    ensures FollowsHistory(RunOps(cfg, ops)) && RunOps(cfg, ops).cfg == cfg
  {
    if |ops| > 0 {
      var n := |ops| - 1;
      StateFollowsHistory(cfg, ops[..n]);
      var s := RunOps(cfg, ops[..n]);
      if ops[n].Process? {
        ProcessFollowsHistory(s, ops[n].ev, ops[n].clock);
      }
    }
  }
}
