/** The metrics store never disagrees with the live windows, through any run of the engine. */
module Coherence {
  import opened Model
  import opened Detection
  import opened EngineRun
  import opened EngineHistory
  import opened MetricsStore
  import opened Window

  /** Every window is filed under its own whole seconds. */
  ghost predicate KeyedBySeconds(windows: map<int, WindowView>) {
    PositiveDurations(windows) && forall s :: s in windows ==> WholeSeconds(windows[s].duration) == s
  }

  ghost predicate WellKeyed(core: Core) {
    forall r :: r in core.readers ==> KeyedBySeconds(core.readers[r].windows)
  }

  /** A stored table has one row per live window, and each row is that window's metrics now. */
  ghost predicate Mirrors(table: Table, windows: map<int, WindowView>) {
    && (forall s :: s in table <==> s in windows)
    && forall s :: s in windows ==> windows[s].duration > 0 && table[s] == MetricsOfView(windows[s])
  }

  ghost predicate Coherent(core: Core, v: View) {
    && v.Valid()
    && forall r :: r in v.byReader ==> r in core.readers && Mirrors(v.byReader[r], core.readers[r].windows)
  }

  // ---------- Merging one pass ----------

  lemma {:induction false} MergeMeasured(
    table: Table, e: EventEntry, windows: map<int, WindowView>, keys: seq<int>, metrics: seq<WindowMetrics>)
    requires KeyedBySeconds(windows) && Measured(e, windows, keys, metrics)
    ensures forall s :: s in Merge(table, metrics) <==> s in table || s in keys
    ensures forall s :: s in keys ==>
              s in windows && windows[s].duration > 0
              && Merge(table, metrics)[s] == MetricsOfView(PushView(windows[s], e))
  {
    if metrics != [] {
      var n := |metrics| - 1;
      MeasuredFront(e, windows, keys, metrics);
      MergeMeasured(table, e, windows, keys[..n], metrics[..n]);
      hide Measured, KeyedBySeconds, MetricsOfView, PushView;
      assert keys == keys[..n] + [keys[n]];
    }
  }

  lemma MeasuredFront(e: EventEntry, windows: map<int, WindowView>, keys: seq<int>, metrics: seq<WindowMetrics>)
    requires metrics != [] && KeyedBySeconds(windows) && Measured(e, windows, keys, metrics)
    ensures var n := |metrics| - 1;
            && Measured(e, windows, keys[..n], metrics[..n])
            && MeasuredAt(e, windows, keys[n], metrics[n])
            && metrics[n].windowSec == keys[n]
  {
    var n := |metrics| - 1;
    assert MeasuredAt(e, windows, keys[n], metrics[n]);
    assert forall i :: 0 <= i < n ==> MeasuredAt(e, windows, keys[i], metrics[i]);
  }

  lemma AfterWindows(reader: ReaderView, ev: Event)
    ensures forall s :: s in After(reader, ev).windows <==> s in SortedKeys(reader.windows.Keys)
    ensures forall s :: s in SortedKeys(reader.windows.Keys) ==>
              && s in reader.windows
              && After(reader, ev).windows[s] == PushView(reader.windows[s], EntryOf(ev))
              && After(reader, ev).windows[s].duration == reader.windows[s].duration
  {
    hide NextStreak;
  }

  lemma PassMirrors(table: Table, reader: ReaderView, ev: Event, metrics: seq<WindowMetrics>)
    requires KeyedBySeconds(reader.windows)
    requires Measured(EntryOf(ev), reader.windows, SortedKeys(reader.windows.Keys), metrics)
    requires forall s :: s in table ==> s in reader.windows
    ensures Mirrors(Merge(table, metrics), After(reader, ev).windows)
  {
    AfterWindows(reader, ev);
    MergeMeasured(table, EntryOf(ev), reader.windows, SortedKeys(reader.windows.Keys), metrics);
    hide Merge, MetricsOfView, Measured, KeyedBySeconds, After, PushView;
  }

  // ---------- Opening a reader ----------

  lemma {:induction false} NewWindowsKeyed(durations: seq<int>)
    requires forall i :: 0 <= i < |durations| ==> durations[i] > 0
    ensures KeyedBySeconds(NewWindows(durations))
  {
    if durations != [] {
      NewWindowsKeyed(durations[..|durations| - 1]);
    }
  }

  lemma {:induction false} AddMissingKeyed(windows: map<int, WindowView>, durations: seq<int>)
    requires KeyedBySeconds(windows) && forall i :: 0 <= i < |durations| ==> durations[i] > 0
    ensures KeyedBySeconds(AddMissing(windows, durations))
    ensures forall s :: s in windows ==> s in AddMissing(windows, durations)
  {
    if durations != [] {
      AddMissingKeyed(windows, durations[..|durations| - 1]);
    }
  }

  lemma OpenedIsKeyed(cfg: DetectionConfig, core: Core, id: string)
    requires cfg.Valid() && WellKeyed(core)
    ensures KeyedBySeconds(OpenReader(cfg, core.readers, id).windows)
    ensures id in core.readers ==> forall s :: s in core.readers[id].windows ==> s in OpenReader(cfg, core.readers, id).windows
  {
    NewWindowsKeyed(cfg.windows);
    if id in core.readers {
      AddMissingKeyed(core.readers[id].windows, cfg.windows);
    }
  }

  lemma AfterIsKeyed(reader: ReaderView, ev: Event)
    requires KeyedBySeconds(reader.windows)
    ensures KeyedBySeconds(After(reader, ev).windows)
  {
    hide NextStreak;
  }

  // ---------- Steps ----------

  /** What one operation may do to the store's contents. */
  ghost predicate StoreAfter(s: State, op: Op, limit: nat, v: View, v': View)
    requires s.Valid()
  {
    match op
    case Process(ev, clock) =>
      var metrics := Step(s.cfg, s.core, ev, clock).metrics;
      if |metrics| > 0 then Updated(v, ev.readerID, metrics, clock(AtMetrics), limit, v') else v' == v
    case Restart => v' == EMPTY
    case ClearMetrics => v' == EMPTY
    case Configure(_) => v' == v
    case ClearAlerts => v' == v
  }

  lemma InsertionIsCoherent(core: Core, v: View, id: string, reader: ReaderView, ev: Event, metrics: seq<WindowMetrics>,
                            now: int)
    requires Coherent(core, v) && id != "" && KeyedBySeconds(reader.windows)
    requires id in core.readers ==> forall s :: s in core.readers[id].windows ==> s in reader.windows
    requires Measured(EntryOf(ev), reader.windows, SortedKeys(reader.windows.Keys), metrics)
    ensures Coherent(core.(readers := core.readers[id := After(reader, ev)]), Inserted(v, id, metrics, now))
  {
    hide Merge, Mirrors, Measured, After, KeyedBySeconds;
    var table := if id in v.byReader then v.byReader[id] else map[];
    if id in v.byReader {
      MirrorsKeys(table, core.readers[id].windows, reader.windows);
    }
    PassMirrors(table, reader, ev, metrics);
  }

  lemma MirrorsKeys(table: Table, windows: map<int, WindowView>, more: map<int, WindowView>)
    requires Mirrors(table, windows) && forall s :: s in windows ==> s in more
    ensures forall s :: s in table ==> s in more
  {
    hide MetricsOfView;
  }

  lemma EvictionIsCoherent(core: Core, v: View, victim: string)
    requires Coherent(core, v)
    ensures Coherent(core, v.Without(victim))
  {
    hide Mirrors;
  }

  lemma EmptyPassIsCoherent(core: Core, v: View, id: string, reader: ReaderView, ev: Event)
    requires Coherent(core, v) && reader.windows == map[]
    requires id in core.readers ==> forall s :: s in core.readers[id].windows ==> s in reader.windows
    ensures Coherent(core.(readers := core.readers[id := After(reader, ev)]), v)
  {
    hide MetricsOfView, NextStreak;
    assert After(reader, ev).windows == map[];
  }

  lemma CoherentReadersOnly(core: Core, core': Core, v: View)
    requires Coherent(core, v) && core'.readers == core.readers
    ensures Coherent(core', v)
  {
    hide Mirrors;
  }

  lemma NoKeysNoWindows(windows: map<int, WindowView>)
    requires |SortedKeys(windows.Keys)| == 0
    ensures windows == map[]
  {
    forall s | s in windows
      ensures s in SortedKeys(windows.Keys)
    {
    }
  }

  /** The store after a pass over at least one window, possibly with an eviction. */
  lemma UpdateIsCoherent(core: Core, v: View, v': View, id: string, reader: ReaderView, ev: Event,
                         metrics: seq<WindowMetrics>, now: int, limit: nat)
    requires Coherent(core, v) && id != "" && KeyedBySeconds(reader.windows)
    requires id in core.readers ==> forall s :: s in core.readers[id].windows ==> s in reader.windows
    requires Measured(EntryOf(ev), reader.windows, SortedKeys(reader.windows.Keys), metrics)
    requires Updated(v, id, metrics, now, limit, v')
    ensures Coherent(core.(readers := core.readers[id := After(reader, ev)]), v')
  {
    InsertionIsCoherent(core, v, id, reader, ev, metrics, now);
    hide Coherent, Measured, KeyedBySeconds, After, Inserted;
    var w := Inserted(v, id, metrics, now);
    if |w.byReader| > limit {
      var victim :| IsOldest(w.updatedAt, victim) && v' == w.Without(victim);
      EvictionIsCoherent(core.(readers := core.readers[id := After(reader, ev)]), w, victim);
    }
  }

  lemma AdmitIsCoherent(cfg: Config, core: Core, ev: Event, clock: Clock, limit: nat, v: View, v': View)
    requires cfg.Valid() && ValidCore(core) && WellKeyed(core) && Coherent(core, v) && ev.readerID != ""
    requires var metrics := Admit(cfg, core, ev, clock).metrics;
             if |metrics| > 0 then Updated(v, ev.readerID, metrics, clock(AtMetrics), limit, v') else v' == v
    ensures WellKeyed(Admit(cfg, core, ev, clock).core)
    ensures Coherent(Admit(cfg, core, ev, clock).core, v')
  {
    var id := ev.readerID;
    var reader := OpenReader(cfg.detection, core.readers, id);
    var o := Admit(cfg, core, ev, clock);
    AdmitReader(cfg, core, ev, clock);
    OpenedIsKeyed(cfg.detection, core, id);
    AfterIsKeyed(reader, ev);
    hide Admit, OpenReader, After, KeyedBySeconds, Coherent, Measured, Updated;
    assert WellKeyed(o.core);
    if |o.metrics| > 0 {
      UpdateIsCoherent(core, v, v', id, reader, ev, o.metrics, clock(AtMetrics), limit);
    } else {
      MeasuredLength(EntryOf(ev), reader, o.metrics);
      NoKeysNoWindows(reader.windows);
      EmptyPassIsCoherent(core, v, id, reader, ev);
    }
    CoherentReadersOnly(core.(readers := core.readers[id := After(reader, ev)]), o.core, v');
  }

  lemma MeasuredLength(e: EventEntry, reader: ReaderView, metrics: seq<WindowMetrics>)
    requires Measured(e, reader.windows, SortedKeys(reader.windows.Keys), metrics)
    ensures |metrics| == |SortedKeys(reader.windows.Keys)|
  {
  }

  lemma ProcessIsCoherent(s: State, ev: Event, clock: Clock, limit: nat, v: View, v': View)
    requires s.Valid() && WellKeyed(s.core) && Coherent(s.core, v) && ev.readerID != ""
    requires StoreAfter(s, Process(ev, clock), limit, v, v')
    ensures WellKeyed(Apply(s, Process(ev, clock)).core)
    ensures Coherent(Apply(s, Process(ev, clock)).core, v')
  {
    var e := Clamp(s.cfg.detection, ev, clock);
    var (duplicate, dedupe) := CheckDuplicate(s.cfg.detection, s.core.dedupe, e, clock);
    var core := s.core.(dedupe := dedupe);
    CoherentReadersOnly(s.core, core, v);
    assert WellKeyed(core);
    hide Admit, CheckDuplicate, KeyedBySeconds, Coherent;
    if !duplicate {
      AdmitIsCoherent(s.cfg, core, e, clock, limit, v, v');
    }
  }

  // ---------- Runs ----------

  /** The store can hold v after this run, whatever ties its evictions had to break. */
  ghost predicate StoreReaches(cfg: Config, ops: seq<Op>, limit: nat, v: View)
    requires cfg.Valid() && ValidOps(ops)
  {
    if |ops| == 0 then v == EMPTY
    else
      var front := ops[..|ops| - 1];
      exists v0 :: StoreReaches(cfg, front, limit, v0) && StoreAfter(RunOps(cfg, front), ops[|ops| - 1], limit, v0, v)
  }

  ghost predicate NamedReaders(ops: seq<Op>) {
    forall i :: 0 <= i < |ops| && ops[i].Process? ==> ops[i].ev.readerID != ""
  }

  /**
   After any run, with configuration changes, restarts and clears anywhere in it, each stored reader
   has exactly the rows of its live windows, each equal to that window's metrics.
   */
  lemma {:induction false} StoreIsCoherent(cfg: Config, ops: seq<Op>, limit: nat, v: View)
    requires cfg.Valid() && ValidOps(ops) && NamedReaders(ops) && StoreReaches(cfg, ops, limit, v)
    ensures WellKeyed(RunOps(cfg, ops).core) && Coherent(RunOps(cfg, ops).core, v)
  {
    if |ops| > 0 {
      var n := |ops| - 1;
      var front, s := ops[..n], RunOps(cfg, ops[..n]);
      var v0 :| StoreReaches(cfg, front, limit, v0) && StoreAfter(s, ops[n], limit, v0, v);
      StoreIsCoherent(cfg, front, limit, v0);
      if ops[n].Process? {
        ProcessIsCoherent(s, ops[n].ev, ops[n].clock, limit, v0, v);
      }
    }
  }

  // ---------- The most recently updated readers ----------

  /** The updates that a run makes to the store since it was last cleared. */
  ghost function TouchesOf(cfg: Config, ops: seq<Op>): seq<Touch>
    requires cfg.Valid() && ValidOps(ops)
  {
    if |ops| == 0 then []
    else
      var front, op := ops[..|ops| - 1], ops[|ops| - 1];
      var before, s := TouchesOf(cfg, front), RunOps(cfg, front);
      match op
      case Process(ev, clock) =>
        var metrics := Step(s.cfg, s.core, ev, clock).metrics;
        if |metrics| > 0 then before + [Touch(ev.readerID, metrics, clock(AtMetrics))] else before
      case Restart => []
      case ClearMetrics => []
      case Configure(_) => before
      case ClearAlerts => before
  }

  lemma ReachesSnoc(run: seq<Touch>, t: Touch, limit: nat, v: View)
    ensures Reaches(run + [t], limit, v) <==>
            exists v0 :: Reaches(run, limit, v0) && Updated(v0, t.readerID, t.list, t.at, limit, v)
  {
    hide Updated;
    var all := run + [t];
    assert all[..|all| - 1] == run && all[|all| - 1] == t;
    assert Reaches(all, limit, v) <==>
           exists v0 :: Reaches(all[..|all| - 1], limit, v0) && Updated(v0, t.readerID, t.list, t.at, limit, v);
  }

  /** What the store can hold after a run of the engine is what it can hold after those updates. */
  lemma {:induction false} StoreIsTouched(cfg: Config, ops: seq<Op>, limit: nat, v: View)
    requires cfg.Valid() && ValidOps(ops)
    ensures StoreReaches(cfg, ops, limit, v) <==> Reaches(TouchesOf(cfg, ops), limit, v)
  {
    if |ops| > 0 {
      var front, op := ops[..|ops| - 1], ops[|ops| - 1];
      var s, before := RunOps(cfg, front), TouchesOf(cfg, front);
      forall v0
        ensures StoreReaches(cfg, front, limit, v0) <==> Reaches(before, limit, v0)
      {
        StoreIsTouched(cfg, front, limit, v0);
      }
      SomethingReached(before, limit);
      hide Step, RunOps, Reaches, Updated;
      if op.Process? {
        var metrics := Step(s.cfg, s.core, op.ev, op.clock).metrics;
        ReachesSnoc(before, Touch(op.ev.readerID, metrics, op.clock(AtMetrics)), limit, v);
      }
      NothingReached(limit, v);
    }
  }

  lemma NothingReached(limit: nat, v: View)
    ensures Reaches([], limit, v) <==> v == EMPTY
  {
  }

  /** Some state is always reached: there is always an oldest reader to evict. */
  lemma {:induction false} SomethingReached(run: seq<Touch>, limit: nat)
    ensures exists v :: Reaches(run, limit, v)
  {
    if run == [] {
      NothingReached(limit, EMPTY);
      assert Reaches(run, limit, EMPTY);
    } else {
      var front, t := run[..|run| - 1], run[|run| - 1];
      SomethingReached(front, limit);
      var v0 :| Reaches(front, limit, v0);
      var v := SomeUpdate(v0, t, limit);
      assert Reaches(run, limit, v);
    }
  }

  lemma SomeUpdate(v0: View, t: Touch, limit: nat) returns (v: View)
    ensures Updated(v0, t.readerID, t.list, t.at, limit, v)
  {
    if t.readerID == "" {
      v := v0;
    } else {
      var w := Inserted(v0, t.readerID, t.list, t.at);
      if |w.byReader| <= limit {
        v := w;
      } else {
        var victim := OldestReader(w.updatedAt, t.readerID);
        v := w.Without(victim);
      }
    }
  }

  lemma {:induction false} OldestReader(updatedAt: map<string, int>, r: string) returns (victim: string)
    requires r in updatedAt
    ensures IsOldest(updatedAt, victim)
  {
    var rest := updatedAt - {r};
    if q :| q in rest {
      var other := OldestReader(rest, q);
      victim := if updatedAt[r] <= updatedAt[other] then r else other;
      forall x | x in updatedAt
        ensures updatedAt[victim] <= updatedAt[x]
      {
        assert x == r || x in rest;
      }
    } else {
      victim := r;
      forall x | x in updatedAt
        ensures x == r
      {
        assert x == r || x in rest;
      }
    }
  }

  /** The readings at which the run's events update the store never go back; strictly: they advance. */
  ghost predicate MetricsAdvance(ops: seq<Op>, strict: bool) {
    forall i, j :: 0 <= i < j < |ops| && ops[i].Process? && ops[j].Process? ==>
      Earlier(ops[i].clock(AtMetrics), ops[j].clock(AtMetrics), strict)
  }

  ghost predicate TouchedAtSome(ops: seq<Op>, at: int) {
    exists i :: 0 <= i < |ops| && ops[i].Process? && ops[i].clock(AtMetrics) == at
  }

  ghost predicate AllTouched(ops: seq<Op>, touches: seq<Touch>) {
    forall k :: 0 <= k < |touches| ==> TouchedAtSome(ops, touches[k].at)
  }

  lemma AllTouchedSnoc(ops: seq<Op>, op: Op, touches: seq<Touch>)
    requires AllTouched(ops, touches)
    ensures AllTouched(ops + [op], touches)
    ensures op.Process? ==> forall t: Touch :: t.at == op.clock(AtMetrics) ==> AllTouched(ops + [op], touches + [t])
  {
    forall k | 0 <= k < |touches|
      ensures TouchedAtSome(ops + [op], touches[k].at)
    {
      assert TouchedAtSome(ops, touches[k].at);
      var i :| 0 <= i < |ops| && ops[i].Process? && ops[i].clock(AtMetrics) == touches[k].at;
      assert (ops + [op])[i] == ops[i];
    }
    assert (ops + [op])[|ops|] == op;
  }

  lemma {:induction false} TouchesAreTouched(cfg: Config, ops: seq<Op>)
    requires cfg.Valid() && ValidOps(ops)
    ensures AllTouched(ops, TouchesOf(cfg, ops))
  {
    hide Step, TouchedAtSome;
    if |ops| > 0 {
      var front, op := ops[..|ops| - 1], ops[|ops| - 1];
      TouchesAreTouched(cfg, front);
      AllTouchedSnoc(front, op, TouchesOf(cfg, front));
      assert front + [op] == ops;
    }
  }

  lemma ChronologicalSnoc(run: seq<Touch>, t: Touch, strict: bool)
    requires Chronological(run, strict) && forall k :: 0 <= k < |run| ==> Earlier(run[k].at, t.at, strict)
    ensures Chronological(run + [t], strict)
  {
    hide Earlier;
  }

  lemma {:induction false} TouchesAreChronological(cfg: Config, ops: seq<Op>, strict: bool)
    requires cfg.Valid() && ValidOps(ops) && MetricsAdvance(ops, strict)
    ensures Chronological(TouchesOf(cfg, ops), strict)
  {
    hide Step, RunOps, TouchedAtSome, Earlier, Chronological;
    NothingChronological(strict);
    if |ops| > 0 {
      var front, op := ops[..|ops| - 1], ops[|ops| - 1];
      var before, s := TouchesOf(cfg, front), RunOps(cfg, front);
      TouchesAreChronological(cfg, front, strict);
      if op.Process? {
        TouchesAreTouched(cfg, front);
        forall k | 0 <= k < |before|
          ensures Earlier(before[k].at, op.clock(AtMetrics), strict)
        {
          TouchedEarlier(ops, strict, before[k].at);
        }
        ChronologicalSnoc(before, Touch(op.ev.readerID, Step(s.cfg, s.core, op.ev, op.clock).metrics, op.clock(AtMetrics)), strict);
      }
    }
  }

  lemma NothingChronological(strict: bool)
    ensures Chronological([], strict)
  {
  }

  lemma TouchedEarlier(ops: seq<Op>, strict: bool, at: int)
    requires ops != [] && MetricsAdvance(ops, strict) && ops[|ops| - 1].Process?
    requires TouchedAtSome(ops[..|ops| - 1], at)
    ensures Earlier(at, ops[|ops| - 1].clock(AtMetrics), strict)
  {
    var n := |ops| - 1;
    var i :| 0 <= i < n && ops[..n][i].Process? && ops[..n][i].clock(AtMetrics) == at;
    assert ops[..n][i] == ops[i];
  }

  /**
   After any run of the engine the store holds as many readers as fit, none updated earlier since the
   last clear than one it forgot, with the times of their last updates.
   */
  lemma StoreKeepsMostRecent(cfg: Config, ops: seq<Op>, limit: nat, v: View, strict: bool)
    requires cfg.Valid() && ValidOps(ops) && limit > 0
    requires MetricsAdvance(ops, strict) && StoreReaches(cfg, ops, limit, v)
    ensures Stamped(TouchesOf(cfg, ops), v) && MostRecent(TouchesOf(cfg, ops), limit, v.byReader.Keys, strict)
  {
    hide TouchesOf, StoreReaches, Reaches, Stamped, MostRecent, Chronological, MetricsAdvance;
    TouchesAreChronological(cfg, ops, strict);
    StoreIsTouched(cfg, ops, limit, v);
    StoreHoldsMostRecent(TouchesOf(cfg, ops), limit, v, strict);
  }
}
