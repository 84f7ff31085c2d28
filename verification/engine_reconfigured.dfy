/** Readers' windows and streaks as functions of history when the configuration changes along the way. */
module EngineReconfigured {
  import opened Model
  import opened Sequences
  import opened Detection
  import opened EngineRun
  import opened EngineHistory
  import opened EngineProperties
  import opened EngineSkew
  import opened Window
  import opened WindowHistory
  import Keys

  // ---------- When a window came to be ----------

  ghost predicate HasSeconds(durations: seq<int>, sec: int) {
    exists k :: 0 <= k < |durations| && WholeSeconds(durations[k]) == sec
  }

  ghost predicate Configures(durations: seq<int>, sec: int, d: int) {
    exists k :: 0 <= k < |durations| && durations[k] == d && WholeSeconds(d) == sec
  }

  /** The durations configured at each of a reader's admitted events. */
  function ConfigsOf(history: seq<Admission>, id: string): seq<seq<int>> {
    if history == [] then []
    else
      var front, a := ConfigsOf(history[..|history| - 1], id), history[|history| - 1];
      if ReaderKey(a.ev.readerID) == id then front + [a.windows] else front
  }

  lemma ConfigsOfSnoc(history: seq<Admission>, a: Admission, id: string)
    ensures ConfigsOf(history + [a], id) ==
            if ReaderKey(a.ev.readerID) == id then ConfigsOf(history, id) + [a.windows] else ConfigsOf(history, id)
  {
    assert (history + [a])[..|history|] == history;
  }

  /** The first event at which a window of these seconds was configured; past the end if there is none. */
  ghost function Birth(configs: seq<seq<int>>, sec: int): (c: nat)
    ensures c <= |configs|
    ensures c < |configs| ==> HasSeconds(configs[c], sec)
    ensures forall i :: 0 <= i < c ==> !HasSeconds(configs[i], sec)
  {
    if configs == [] then 0
    else
      var n := |configs| - 1;
      var c := Birth(configs[..n], sec);
      if c < n then c else if HasSeconds(configs[n], sec) then n else n + 1
  }

  lemma BirthSnoc(configs: seq<seq<int>>, durations: seq<int>, sec: int)
    ensures var c := Birth(configs, sec);
            Birth(configs + [durations], sec) ==
            if c < |configs| then c else if HasSeconds(durations, sec) then |configs| else |configs| + 1
  {
    hide HasSeconds;
    assert (configs + [durations])[..|configs|] == configs;
  }

  /** A window of a configured duration that holds what has come since its birth. */
  ghost predicate WindowFollows(es: seq<Event>, configs: seq<seq<int>>, sec: int, w: WindowView) {
    var c := Birth(configs, sec);
    && c < |configs| == |es|
    && Configures(configs[c], sec, w.duration)
    && w.live == LiveAfter(w.duration, Entries(es[c..]))
  }

  /** The reader has exactly the windows ever configured since its first event, each following its history. */
  ghost predicate ReaderFollows(es: seq<Event>, configs: seq<seq<int>>, v: ReaderView) {
    && |configs| == |es|
    && v.streak == StreaksOf(es)
    && (forall sec :: sec in v.windows <==> Birth(configs, sec) < |configs|)
    && forall sec :: sec in v.windows ==> WindowFollows(es, configs, sec, v.windows[sec])
  }

  // ---------- Opening a reader ----------

  /** The windows of a configuration added to those there were. */
  ghost predicate Extends(windows: map<int, WindowView>, durations: seq<int>, windows': map<int, WindowView>) {
    && (forall s :: s in windows' <==> s in windows || HasSeconds(durations, s))
    && (forall s :: s in windows ==> s in windows' && windows'[s] == windows[s])
    && forall s :: s in windows' && s !in windows ==> windows'[s].live == [] && Configures(durations, s, windows'[s].duration)
  }

  /** What the last duration adds. */
  ghost predicate GrowsByLast(durations: seq<int>, sec: int)
    requires durations != []
  {
    var n := |durations| - 1;
    && (HasSeconds(durations, sec) <==> HasSeconds(durations[..n], sec) || WholeSeconds(durations[n]) == sec)
    && (forall d :: Configures(durations[..n], sec, d) ==> Configures(durations, sec, d))
    && (WholeSeconds(durations[n]) == sec ==> Configures(durations, sec, durations[n]))
  }

  lemma HasSecondsSnoc(durations: seq<int>, sec: int)
    requires durations != []
    ensures GrowsByLast(durations, sec)
  {
    var n := |durations| - 1;
    hide WholeSeconds;
    if HasSeconds(durations[..n], sec) {
      var k :| 0 <= k < n && WholeSeconds(durations[..n][k]) == sec;
      assert durations[k] == durations[..n][k];
    }
    if HasSeconds(durations, sec) {
      var k :| 0 <= k < |durations| && WholeSeconds(durations[k]) == sec;
      assert k < n ==> durations[..n][k] == durations[k];
    }
    forall d | Configures(durations[..n], sec, d)
      ensures Configures(durations, sec, d)
    {
      var k :| 0 <= k < n && durations[..n][k] == d && WholeSeconds(d) == sec;
      assert durations[k] == d;
    }
  }

  /** Going on to the last duration: its window is there, or is added empty. */
  lemma ExtendsByLast(windows: map<int, WindowView>, durations: seq<int>, before: map<int, WindowView>, after: map<int, WindowView>)
    requires durations != [] && Extends(windows, durations[..|durations| - 1], before)
    requires var d := durations[|durations| - 1]; var sec := WholeSeconds(d);
             || (sec in before && after == before)
             || (sec !in windows && after == before[sec := WindowView(d, [])])
    ensures Extends(windows, durations, after)
  {
    hide HasSeconds, Configures, WholeSeconds;
    forall s
      ensures GrowsByLast(durations, s)
    {
      HasSecondsSnoc(durations, s);
    }
    forall s
      ensures s in after <==> s in windows || HasSeconds(durations, s)
    {
      assert GrowsByLast(durations, s);
    }
    forall s | s in after && s !in windows
      ensures after[s].live == [] && Configures(durations, s, after[s].duration)
    {
      assert GrowsByLast(durations, s);
    }
  }

  lemma {:induction false} NewWindowsExtend(durations: seq<int>)
    ensures Extends(map[], durations, NewWindows(durations))
  {
    if durations != [] {
      var front := durations[..|durations| - 1];
      NewWindowsExtend(front);
      hide Extends;
      ExtendsByLast(map[], durations, NewWindows(front), NewWindows(durations));
    }
  }

  lemma {:induction false} AddMissingExtends(windows: map<int, WindowView>, durations: seq<int>)
    ensures Extends(windows, durations, AddMissing(windows, durations))
  {
    if durations != [] {
      var front := durations[..|durations| - 1];
      AddMissingExtends(windows, front);
      OldWindowsStay(windows, front, AddMissing(windows, front));
      hide Extends;
      ExtendsByLast(windows, durations, AddMissing(windows, front), AddMissing(windows, durations));
    }
  }

  lemma OldWindowsStay(windows: map<int, WindowView>, durations: seq<int>, windows': map<int, WindowView>)
    requires Extends(windows, durations, windows')
    ensures forall s :: s in windows ==> s in windows'
  {
  }

  /** Of durations with the same whole seconds a new reader takes the last, and a known one the first. */
  lemma {:induction false} SameSecondsCollapse(durations: seq<int>, windows: map<int, WindowView>, k: nat)
    requires k < |durations|
    ensures var sec := WholeSeconds(durations[k]);
            (forall i :: k < i < |durations| ==> WholeSeconds(durations[i]) != sec) ==>
              sec in NewWindows(durations) && NewWindows(durations)[sec].duration == durations[k]
    ensures var sec := WholeSeconds(durations[k]);
            sec !in windows && (forall i :: 0 <= i < k ==> WholeSeconds(durations[i]) != sec) ==>
              sec in AddMissing(windows, durations) && AddMissing(windows, durations)[sec].duration == durations[k]
  {
    hide WholeSeconds;
    var n := |durations| - 1;
    var front, sec := durations[..n], WholeSeconds(durations[k]);
    assert forall i :: 0 <= i < n ==> front[i] == durations[i];
    if k < n {
      SameSecondsCollapse(front, windows, k);
    } else if sec !in windows && forall i :: 0 <= i < n ==> WholeSeconds(durations[i]) != sec {
      AddMissingExtends(windows, front);
      assert !HasSeconds(front, sec);
    }
  }

  // ---------- One more event ----------

  lemma OldWindowFollows(es: seq<Event>, e: Event, configs: seq<seq<int>>, durations: seq<int>, sec: int, w: WindowView)
    requires WindowFollows(es, configs, sec, w)
    ensures WindowFollows(es + [e], configs + [durations], sec, PushView(w, EntryOf(e)))
  {
    hide HasSeconds, Configures, Push;
    BirthSnoc(configs, durations, sec);
    var c := Birth(configs, sec);
    assert (es + [e])[c..] == es[c..] + [e];
    EntriesSnoc(es[c..], e);
    var h := Entries(es[c..]);
    assert (h + [EntryOf(e)])[..|h|] == h;
  }

  lemma NewWindowFollows(es: seq<Event>, e: Event, configs: seq<seq<int>>, durations: seq<int>, sec: int, w: WindowView)
    requires |configs| == |es| && Birth(configs, sec) == |configs|
    requires Configures(durations, sec, w.duration) && w.live == []
    ensures WindowFollows(es + [e], configs + [durations], sec, PushView(w, EntryOf(e)))
  {
    assert HasSeconds(durations, sec);
    hide HasSeconds, Configures, Push;
    BirthSnoc(configs, durations, sec);
    assert (es + [e])[|es|..] == [e];
    assert Entries([e]) == [EntryOf(e)];
    assert [EntryOf(e)][..0] == [];
    assert LiveAfter(w.duration, []) == [];
  }

  /** A reader that follows its history, opened under any configuration and given one more event. */
  lemma AfterFollows(es: seq<Event>, e: Event, configs: seq<seq<int>>, durations: seq<int>, v: ReaderView, grown: ReaderView)
    requires ReaderFollows(es, configs, v)
    requires grown.streak == v.streak && Extends(v.windows, durations, grown.windows)
    ensures ReaderFollows(es + [e], configs + [durations], After(grown, e))
  {
    hide HasSeconds, Configures, WindowFollows, PushView, NextStreak, StreaksOf;
    StreaksSnoc(es, e);
    forall sec
      ensures sec in After(grown, e).windows <==> Birth(configs + [durations], sec) < |configs| + 1
    {
      BirthSnoc(configs, durations, sec);
    }
    forall sec | sec in grown.windows
      ensures WindowFollows(es + [e], configs + [durations], sec, PushView(grown.windows[sec], EntryOf(e)))
    {
      if sec in v.windows {
        OldWindowFollows(es, e, configs, durations, sec, v.windows[sec]);
      } else {
        NewWindowFollows(es, e, configs, durations, sec, grown.windows[sec]);
      }
    }
  }

  lemma NoEvents(v: ReaderView)
    requires v == ReaderView(map[], map[])
    ensures ReaderFollows([], [], v)
  {
  }

  // ---------- The invariant of every run ----------

  /** The reader with this id, or one that has seen nothing. */
  function ViewOf(readers: map<string, ReaderView>, id: string): ReaderView {
    if id in readers then readers[id] else ReaderView(map[], map[])
  }

  /** Every reader with admitted events is known, and follows them under the configurations of their time. */
  ghost predicate FollowsReconfigured(s: State) {
    forall id :: && (id in s.core.readers <==> EventsOf(s.history, id) != [])
                 && ReaderFollows(EventsOf(s.history, id), ConfigsOf(s.history, id), ViewOf(s.core.readers, id))
  }

  lemma OpenExtends(cfg: DetectionConfig, readers: map<string, ReaderView>, id: string)
    ensures var v, grown := ViewOf(readers, id), OpenReader(cfg, readers, id);
            grown.streak == v.streak && Extends(v.windows, cfg.windows, grown.windows)
  {
    hide Extends, AddMissing, NewWindows;
    NewWindowsExtend(cfg.windows);
    if id in readers {
      AddMissingExtends(readers[id].windows, cfg.windows);
    }
  }

  lemma AdmissionFollows(s: State, s': State, a: Admission, grown: ReaderView)
    requires FollowsReconfigured(s) && s'.history == s.history + [a]
    requires var id := ReaderKey(a.ev.readerID);
             && grown.streak == ViewOf(s.core.readers, id).streak
             && Extends(ViewOf(s.core.readers, id).windows, a.windows, grown.windows)
             && s'.core.readers == s.core.readers[id := After(grown, a.ev)]
    ensures FollowsReconfigured(s')
  {
    hide ReaderFollows, Extends, ReaderKey, After, EventsOf, ConfigsOf;
    forall id
      ensures (id in s'.core.readers <==> EventsOf(s'.history, id) != [])
      ensures ReaderFollows(EventsOf(s'.history, id), ConfigsOf(s'.history, id), ViewOf(s'.core.readers, id))
    {
      EventsOfSnoc(s.history, a, id);
      ConfigsOfSnoc(s.history, a, id);
      if id == ReaderKey(a.ev.readerID) {
        AfterFollows(EventsOf(s.history, id), a.ev, ConfigsOf(s.history, id), a.windows, ViewOf(s.core.readers, id), grown);
      }
    }
  }

  lemma ProcessFollows(s: State, ev: Event, clock: Clock)
    requires s.Valid() && FollowsReconfigured(s)
    ensures FollowsReconfigured(Apply(s, Process(ev, clock)))
  {
    hide Apply, Clamp, EventsOf, ConfigsOf, OpenReader, After, ReaderKey, ReaderFollows, Extends, ViewOf;
    ProcessOutline(s, ev, clock);
    var cfg := s.cfg.detection;
    var s', a := Apply(s, Process(ev, clock)), Admission(Clamp(cfg, ev, clock), clock(AtStart), clock(AtDedupe), cfg.windows);
    if Admitted(s, s', a) {
      var key := ReaderKey(a.ev.readerID);
      OpenExtends(cfg, s.core.readers, key);
      AdmissionFollows(s, s', a, OpenReader(cfg, s.core.readers, key));
    }
  }

  lemma NoReaders(s: State)
    requires s.history == [] && s.core.readers == map[]
    ensures FollowsReconfigured(s)
  {
    forall id
      ensures ReaderFollows(EventsOf(s.history, id), ConfigsOf(s.history, id), ViewOf(s.core.readers, id))
    {
      NoEvents(ViewOf(s.core.readers, id));
    }
  }

  /**
   After any run, with configuration changes anywhere in it, every reader's streaks are those of its
   admitted events since the last restart, and each of its windows holds what it would if it had been
   fed exactly the events since the first one admitted under a configuration that has it.
   */
  lemma {:induction false} StateFollowsReconfiguredHistory(cfg: Config, ops: seq<Op>)
    requires cfg.Valid() && ValidOps(ops)
    ensures FollowsReconfigured(RunOps(cfg, ops))
  {
    if |ops| == 0 {
      NoReaders(RunOps(cfg, ops));
    } else {
      var n := |ops| - 1;
      StateFollowsReconfiguredHistory(cfg, ops[..n]);
      var s := RunOps(cfg, ops[..n]);
      if ops[n].Process? {
        ProcessFollows(s, ops[n].ev, ops[n].clock);
      } else if ops[n].Restart? {
        NoReaders(Apply(s, ops[n]));
      }
      hide ReaderFollows, Step;
    }
  }

  // ---------- Nesting across configurations ----------

  lemma FollowsAt(es: seq<Event>, configs: seq<seq<int>>, v: ReaderView, sec: int)
    requires ReaderFollows(es, configs, v) && sec in v.windows
    ensures WindowFollows(es, configs, sec, v.windows[sec])
  {
  }

  /**
   Of two windows of a reader the shorter one's entries are a suffix of the longer one's if the longer
   one is at least as old; otherwise exactly if the shorter one has dropped what came before the longer.
   */
  lemma WindowsNestAcrossConfigurations(es: seq<Event>, configs: seq<seq<int>>, v: ReaderView, i: int, j: int)
    requires ReaderFollows(es, configs, v) && i in v.windows && j in v.windows
    requires 0 <= v.windows[i].duration <= v.windows[j].duration
    ensures var b, c := Birth(configs, i), Birth(configs, j);
            IsSuffix(v.windows[i].live, v.windows[j].live) <==>
            c <= b || c - b <= Start(v.windows[i].duration, Entries(es[b..]))
  {
    hide HasSeconds, Configures, LiveAfter, Start, IsSuffix, StreaksOf, Entries, ReaderFollows;
    var b, c := Birth(configs, i), Birth(configs, j);
    var w, x := v.windows[i], v.windows[j];
    FollowsAt(es, configs, v, i);
    FollowsAt(es, configs, v, j);
    if c <= b {
      TailOfEntries(es, c, b);
      WindowNesting(w.duration, x.duration, Entries(es[c..]), b - c);
    } else {
      TailOfEntries(es, b, c);
      LateWindowNesting(w.duration, x.duration, Entries(es[b..]), c - b);
    }
  }

  lemma TailOfEntries(es: seq<Event>, c: nat, b: nat)
    requires c <= b <= |es|
    ensures |Entries(es[c..])| == |es| - c
    ensures Entries(es[c..])[b - c..] == Entries(es[b..])
  {
  }

  // ---------- Metrics ----------

  /** The metrics of an admitted event are those of all the reader's windows as it leaves them, shortest first. */
  lemma MetricsAcrossConfigurations(s: State, ev: Event, clock: Clock)
    requires s.Valid() && IsNew(s, ev, clock)
    ensures var id, s' := ReaderKey(ev.readerID), Apply(s, Process(ev, clock));
            && id in s'.core.readers
            && MeasuredNow(s'.core.readers[id].windows, Result(s, ev, clock).metrics)
  {
    var cfg, e := s.cfg.detection, Clamp(s.cfg.detection, ev, clock);
    var core := s.core.(dedupe := CheckDuplicate(cfg, s.core.dedupe, e, clock).1);
    AdmittedStep(s, ev, clock);
    assert Apply(s, Process(ev, clock)).core == Result(s, ev, clock).core && e.readerID == ev.readerID;
    hide Apply, Result, IsNew, CheckDuplicate, Clamp, OpenReader, Measured, MeasuredNow, After, ReaderKey;
    AdmitReader(s.cfg, core, e, clock);
    MeasuredAfter(OpenReader(cfg, core.readers, ReaderKey(e.readerID)), e, Result(s, ev, clock).metrics);
  }

  ghost predicate MeasuredNow(windows: map<int, WindowView>, metrics: seq<WindowMetrics>) {
    && |metrics| == |SortedKeys(windows.Keys)|
    && forall i :: 0 <= i < |metrics| ==> MeasuredAtKey(windows, SortedKeys(windows.Keys)[i], metrics[i])
  }

  ghost predicate MeasuredAtKey(windows: map<int, WindowView>, key: int, wm: WindowMetrics) {
    key in windows && windows[key].duration > 0 && wm == MetricsOfView(windows[key])
  }

  lemma MeasuredAfter(reader: ReaderView, ev: Event, metrics: seq<WindowMetrics>)
    requires Measured(EntryOf(ev), reader.windows, SortedKeys(reader.windows.Keys), metrics)
    ensures MeasuredNow(After(reader, ev).windows, metrics)
  {
    assert After(reader, ev).windows.Keys == reader.windows.Keys;
    hide SortedKeys, MetricsOfView, NextStreak;
    var keys := SortedKeys(reader.windows.Keys);
    forall i | 0 <= i < |metrics|
      ensures MeasuredAtKey(After(reader, ev).windows, keys[i], metrics[i])
    {
      assert MeasuredAt(EntryOf(ev), reader.windows, keys[i], metrics[i]);
    }
  }

  /** So counts never decrease from a shorter window to a longer one that is at least as old. */
  lemma MetricsNestAcrossConfigurations(es: seq<Event>, configs: seq<seq<int>>, v: ReaderView, i: int, j: int,
                                        a: WindowMetrics, b: WindowMetrics)
    requires ReaderFollows(es, configs, v)
    requires MeasuredAtKey(v.windows, i, a) && MeasuredAtKey(v.windows, j, b)
    requires v.windows[i].duration <= v.windows[j].duration && Birth(configs, j) <= Birth(configs, i)
    ensures CountsNest(a, b)
  {
    hide ReaderFollows, MetricsOf, IsSuffix, CountsNest;
    WindowsNestAcrossConfigurations(es, configs, v, i, j);
    SuffixMetricsNest(v.windows[i].duration, v.windows[j].duration, v.windows[i].live, v.windows[j].live);
  }

  // ---------- A run that breaks the nesting ----------

  /** An event with a key of its own, stamped at the reading of its arrival, is admitted as it is. */
  lemma AdmittedAsIs(s: State, ev: Event, clock: Clock)
    requires s.Valid() && ev.timestamp == clock(AtStart) && Keys.DedupeKey(ev) !in s.core.dedupe
    ensures var s' := Apply(s, Process(ev, clock));
            && s'.cfg == s.cfg
            && s'.history == s.history + [Admission(ev, clock(AtStart), clock(AtDedupe), s.cfg.detection.windows)]
            && forall k :: k in s'.core.dedupe ==> k == Keys.DedupeKey(ev) || k in s.core.dedupe
  {
    assert Clamp(s.cfg.detection, ev, clock) == ev;
    hide Step, Keys.DedupeKey, Clamp;
    DedupeAfterAdmission(s.cfg, s.core, ev, clock);
  }

  /** What one reader's two events leave in the history when a configuration comes in between. */
  lemma TwoEventsAround(cfg: Config, later: Config, e: Event, f: Event, clock: Clock)
    requires cfg.Valid() && later.Valid() && e.readerID == f.readerID != ""
    requires e.timestamp == f.timestamp == clock(AtStart) && Keys.DedupeKey(e) != Keys.DedupeKey(f)
    ensures var ops := [Process(e, clock)] + [Configure(later)] + [Process(f, clock)];
            && ValidOps(ops)
            && EventsOf(RunOps(cfg, ops).history, e.readerID) == [e] + [f]
            && ConfigsOf(RunOps(cfg, ops).history, e.readerID) == [cfg.detection.windows] + [later.detection.windows]
  {
    hide RunOps, Step, Apply, Keys.DedupeKey, EventsOf, ConfigsOf, Clamp;
    var s0, s1 := RunOps(cfg, []), RunOps(cfg, [] + [Process(e, clock)]);
    NothingRun(cfg);
    RunSnoc(cfg, [], Process(e, clock));
    assert [] + [Process(e, clock)] == [Process(e, clock)];
    AdmittedAsIs(s0, e, clock);
    RunSnoc(cfg, [Process(e, clock)], Configure(later));
    var s2 := Apply(s1, Configure(later));
    Reconfigured(s1, later);
    AdmittedAsIs(s2, f, clock);
    RunSnoc(cfg, [Process(e, clock)] + [Configure(later)], Process(f, clock));
    TwoInHistory(Admission(e, clock(AtStart), clock(AtDedupe), cfg.detection.windows),
                 Admission(f, clock(AtStart), clock(AtDedupe), later.detection.windows));
  }

  lemma NothingRun(cfg: Config)
    requires cfg.Valid()
    ensures RunOps(cfg, []) == State(cfg, EMPTY_CORE, [], [])
  {
  }

  lemma Reconfigured(s: State, later: Config)
    requires s.Valid() && later.Valid()
    ensures Apply(s, Configure(later)) == s.(cfg := later)
  {
  }

  lemma TwoInHistory(a: Admission, b: Admission)
    requires a.ev.readerID == b.ev.readerID != ""
    ensures EventsOf([] + [a] + [b], a.ev.readerID) == [a.ev] + [b.ev]
    ensures ConfigsOf([] + [a] + [b], a.ev.readerID) == [a.windows] + [b.windows]
  {
    var id := a.ev.readerID;
    EventsOfSnoc([], a, id);
    EventsOfSnoc([] + [a], b, id);
    ConfigsOfSnoc([], a, id);
    ConfigsOfSnoc([] + [a], b, id);
    assert [] + [a.ev] == [a.ev] && [] + [a.windows] == [a.windows];
  }

  /** A window of the old configuration and one that only the new one has, after one event under each. */
  lemma LateWindowHoldsLess(e: Event, f: Event, shorter: int, longer: int, v: ReaderView)
    requires 0 < shorter < longer && WholeSeconds(shorter) != WholeSeconds(longer) && e.timestamp == f.timestamp
    requires ReaderFollows([e] + [f], [[shorter]] + [[shorter, longer]], v)
    ensures var i, j := WholeSeconds(shorter), WholeSeconds(longer);
            && i in v.windows && j in v.windows
            && v.windows[i].duration == shorter && v.windows[j].duration == longer
            && |v.windows[j].live| < |v.windows[i].live|
  {
    var es, configs, i, j := [e] + [f], [[shorter]] + [[shorter, longer]], WholeSeconds(shorter), WholeSeconds(longer);
    SecondsOf(shorter, longer);
    BirthSnoc([], [shorter], i);
    BirthSnoc([], [shorter], j);
    assert [] + [[shorter]] == [[shorter]];
    BirthSnoc([[shorter]], [shorter, longer], i);
    BirthSnoc([[shorter]], [shorter, longer], j);
    hide HasSeconds, Configures, LiveAfter, StreaksOf, WholeSeconds;
    assert Birth(configs, i) == 0 && Birth(configs, j) == 1;
    assert WindowFollows(es, configs, i, v.windows[i]) && WindowFollows(es, configs, j, v.windows[j]);
    assert configs[0] == [shorter] && configs[1] == [shorter, longer];
    var h := Entries(es);
    assert es[0..] == es && Entries(es[1..]) == h[1..];
    assert h[0].timestamp == h[1].timestamp;
    NothingDropped(shorter, h);
    LiveFromFirstNotOvertaken(shorter, h);
    LiveFromFirstNotOvertaken(longer, h[1..]);
  }

  lemma SecondsOf(shorter: int, longer: int)
    requires WholeSeconds(shorter) != WholeSeconds(longer)
    ensures HasSeconds([shorter], WholeSeconds(shorter)) && !HasSeconds([shorter], WholeSeconds(longer))
    ensures HasSeconds([shorter, longer], WholeSeconds(longer))
    ensures forall d :: Configures([shorter], WholeSeconds(shorter), d) ==> d == shorter
    ensures forall d :: Configures([shorter, longer], WholeSeconds(longer), d) ==> d == longer
  {
    hide WholeSeconds;
    assert [shorter][0] == shorter && [shorter, longer][1] == longer;
  }

  /**
   A run in which a longer window ends with fewer entries than a shorter one: a new configuration adds it
   between two events of one reader, stamped alike.
   */
  lemma ReconfigurationBreaksNesting(cfg: Config, later: Config, e: Event, f: Event, clock: Clock)
    requires cfg.Valid() && later.Valid() && e.readerID == f.readerID != ""
    requires e.timestamp == f.timestamp == clock(AtStart) && Keys.DedupeKey(e) != Keys.DedupeKey(f)
    requires |cfg.detection.windows| == 1 && |later.detection.windows| == 2
    requires cfg.detection.windows[0] == later.detection.windows[0] < later.detection.windows[1]
    requires WholeSeconds(later.detection.windows[0]) != WholeSeconds(later.detection.windows[1])
    ensures var ops := [Process(e, clock)] + [Configure(later)] + [Process(f, clock)];
            var i, j := WholeSeconds(later.detection.windows[0]), WholeSeconds(later.detection.windows[1]);
            && ValidOps(ops) && e.readerID in RunOps(cfg, ops).core.readers
            && var v := RunOps(cfg, ops).core.readers[e.readerID];
               i in v.windows && j in v.windows && |v.windows[j].live| < |v.windows[i].live|
  {
    var ops := [Process(e, clock)] + [Configure(later)] + [Process(f, clock)];
    var shorter, longer := later.detection.windows[0], later.detection.windows[1];
    assert cfg.detection.windows == [shorter] && later.detection.windows == [shorter, longer];
    hide RunOps, ReaderFollows, Keys.DedupeKey, EventsOf, ConfigsOf, WholeSeconds;
    TwoEventsAround(cfg, later, e, f, clock);
    StateFollowsReconfiguredHistory(cfg, ops);
    var s := RunOps(cfg, ops);
    assert EventsOf(s.history, e.readerID) != [];
    LateWindowHoldsLess(e, f, shorter, longer, s.core.readers[e.readerID]);
  }
}
