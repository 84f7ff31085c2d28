/** The alerts of a run as a schedule: with an advancing clock, no cooldown lets more of them through. */
module EngineSchedule {
  import opened Model
  import opened Detection
  import opened EngineRun
  import opened EngineHistory
  import opened EngineProperties
  import opened EngineCalls
  import opened EngineAlerts
  import opened Sending
  import opened Cooldowns
  import Access
  import Keys
  import Window
  import WindowHistory

  /** One call of ProcessEvent reads the clock in program order. */
  ghost predicate ReadsInOrder(clock: Clock) {
    && clock(AtAccess) <= clock(AtStreak)
    && (forall s :: clock(AtStreak) <= clock(AtWindow(s)))
    && (forall s, t :: s < t ==> clock(AtWindow(s)) <= clock(AtWindow(t)))
  }

  /** The clock advances within each event of a run, and from one event to the next. */
  ghost predicate ReadingsAdvance(ops: seq<Op>) {
    && (forall i :: 0 <= i < |ops| && ops[i].Process? ==> ReadsInOrder(ops[i].clock))
    && (forall i, j, a, b :: 0 <= i < j < |ops| && ops[i].Process? && ops[j].Process? ==>
          ops[i].clock(a) <= ops[j].clock(b))
  }

  ghost predicate InTime(calls: seq<Call>) {
    forall i, j :: 0 <= i < j < |calls| ==> calls[i].at <= calls[j].at
  }

  /** Every call of the first sequence is made before every call of the second. */
  ghost predicate Before(a: seq<Call>, b: seq<Call>) {
    forall i, j :: 0 <= i < |a| && 0 <= j < |b| ==> a[i].at <= b[j].at
  }

  lemma InTimeJoined(a: seq<Call>, b: seq<Call>)
    requires InTime(a) && InTime(b) && Before(a, b)
    ensures InTime(a + b)
  {
  }

  ghost predicate ReadAt(clock: Clock, at: int) {
    exists a :: at == clock(a)
  }

  ghost predicate ReadBy(clock: Clock, calls: seq<Call>) {
    forall i :: 0 <= i < |calls| ==> ReadAt(clock, calls[i].at)
  }

  lemma {:induction false} WindowCallsInTime(cfg: DetectionConfig, readerID: string, metrics: seq<WindowMetrics>, clock: Clock)
    requires Ordered(metrics) && ReadsInOrder(clock)
    ensures var calls := WindowCalls(cfg, readerID, metrics, clock); InTime(calls) && ReadBy(clock, calls)
    ensures var calls := WindowCalls(cfg, readerID, metrics, clock);
            forall i :: 0 <= i < |calls| ==>
              clock(AtStreak) <= calls[i].at <= clock(AtWindow(metrics[|metrics| - 1].windowSec))
  {
    hide Breaks, WindowAlert, Keys.WindowKey;
    if metrics != [] {
      var front, wm := metrics[..|metrics| - 1], metrics[|metrics| - 1];
      WindowCallsInTime(cfg, readerID, front, clock);
      assert front != [] ==> clock(AtWindow(front[|front| - 1].windowSec)) <= clock(AtWindow(wm.windowSec));
    }
  }

  lemma HistoryMetricsOrdered(cfg: DetectionConfig, es: seq<Event>)
    requires cfg.Valid()
    ensures Ordered(HistoryMetrics(cfg, es))
  {
    hide Window.MetricsOf, WindowHistory.LiveAfter, NewWindows;
    var keys, metrics := ConfiguredKeys(cfg), HistoryMetrics(cfg, es);
    SortedKeysAscend(NewWindows(cfg.windows).Keys);
    forall i | 0 <= i < |keys|
      ensures metrics[i].windowSec == keys[i]
    {
      DurationsPositive(cfg, keys[i]);
      SecondsOfMetrics(DurationOf(cfg, keys[i]), WindowHistory.LiveAfter(DurationOf(cfg, keys[i]), Entries(es)));
    }
  }

  lemma SecondsOfMetrics(duration: int, live: seq<Window.EventEntry>)
    requires duration > 0
    ensures Window.MetricsOf(duration, live).windowSec == Window.WholeSeconds(duration)
  {
    hide Window.Failures, Window.Uids, Window.Gaps;
  }

  lemma EventCallsInTime(cfg: Config, es: seq<Event>, clock: Clock)
    requires cfg.Valid() && es != [] && ReadsInOrder(clock)
    ensures InTime(EventCalls(cfg, es, clock)) && ReadBy(clock, EventCalls(cfg, es, clock))
  {
    hide Denied, Unlisted, TwoInARow, HistoryMetrics, WindowCalls, Ordered, Keys.WindowKey, Keys.AuthKey, Access.Canonical;
    var ev, metrics := es[|es| - 1], HistoryMetrics(cfg.detection, es);
    HistoryMetricsOrdered(cfg.detection, es);
    WindowCallsInTime(cfg.detection, ev.readerID, metrics, clock);
    var a := AccessCalls(cfg.access, ev, clock);
    var u := AuthCalls(TwoInARow(es, Access.Canonical(ev.uid)), ev, clock);
    var w := WindowCalls(cfg.detection, ev.readerID, metrics, clock);
    assert |a| <= 1 && |u| <= 1;
    assert Before(a, u) && InTime(a) && InTime(u);
    InTimeJoined(a, u);
    assert Before(a + u, w);
    InTimeJoined(a + u, w);
    ReadByJoined(clock, a, u);
    ReadByJoined(clock, a + u, w);
  }

  lemma ReadByJoined(clock: Clock, a: seq<Call>, b: seq<Call>)
    requires ReadBy(clock, a) && ReadBy(clock, b)
    ensures ReadBy(clock, a + b)
  {
    hide ReadAt;
  }

  // ---------- Runs ----------

  /** Every call is made at a reading of some event of the run. */
  ghost predicate MadeIn(ops: seq<Op>, calls: seq<Call>) {
    forall i :: 0 <= i < |calls| ==> MadeAt(ops, calls[i].at)
  }

  ghost predicate MadeAt(ops: seq<Op>, at: int) {
    exists j, a :: 0 <= j < |ops| && ops[j].Process? && at == ops[j].clock(a)
  }

  lemma MadeInSnoc(ops: seq<Op>, op: Op, calls: seq<Call>, more: seq<Call>)
    requires MadeIn(ops, calls) && (more != [] ==> op.Process? && ReadBy(op.clock, more))
    ensures MadeIn(ops + [op], calls + more)
  {
    var all := ops + [op];
    forall i | 0 <= i < |calls + more|
      ensures MadeAt(all, (calls + more)[i].at)
    {
      if i < |calls| {
        assert MadeAt(ops, calls[i].at);
        var j, a :| 0 <= j < |ops| && ops[j].Process? && calls[i].at == ops[j].clock(a);
        assert all[j] == ops[j];
      } else {
        assert all[|ops|] == op && (calls + more)[i] == more[i - |calls|];
        assert ReadAt(op.clock, more[i - |calls|].at);
        var a :| more[i - |calls|].at == op.clock(a);
      }
    }
  }

  lemma MadeBefore(ops: seq<Op>, op: Op, calls: seq<Call>, more: seq<Call>)
    requires ReadingsAdvance(ops + [op]) && op.Process?
    requires MadeIn(ops, calls) && ReadBy(op.clock, more)
    ensures Before(calls, more)
  {
    var all := ops + [op];
    assert all[|ops|] == op;
    forall i, k | 0 <= i < |calls| && 0 <= k < |more|
      ensures calls[i].at <= more[k].at
    {
      assert MadeAt(ops, calls[i].at);
      var j, a :| 0 <= j < |ops| && ops[j].Process? && calls[i].at == ops[j].clock(a);
      assert ReadAt(op.clock, more[k].at);
      var b :| more[k].at == op.clock(b);
      assert all[j] == ops[j];
    }
  }

  lemma {:induction false} CallsInTime(cfg: Config, ops: seq<Op>)
    requires cfg.Valid() && ValidOps(ops) && ReadingsAdvance(ops)
    ensures InTime(CallsSince(cfg, ops)) && MadeIn(ops, CallsSince(cfg, ops))
  {
    if |ops| > 0 {
      var front, op := ops[..|ops| - 1], ops[|ops| - 1];
      var s, before := RunOps(cfg, front), CallsSince(cfg, front);
      assert front + [op] == ops;
      AdvanceOfFront(front, op);
      CallsInTime(cfg, front);
      hide RunOps, EventCalls, InTime, MadeIn, ReadBy, ReadingsAdvance, IsNew, HistoryWith, Before;
      if op.Process? && IsNew(s, op.ev, op.clock) {
        HistoryHasLast(s, op.ev, op.clock);
        var more := EventCalls(s.cfg, HistoryWith(s, op.ev, op.clock), op.clock);
        EventCallsInTime(s.cfg, HistoryWith(s, op.ev, op.clock), op.clock);
        MadeBefore(front, op, before, more);
        InTimeJoined(before, more);
        MadeInSnoc(front, op, before, more);
      } else {
        MadeInSnoc(front, op, before, []);
        assert before + [] == before;
      }
    }
    NoCalls(ops);
  }

  lemma NoCalls(ops: seq<Op>)
    ensures InTime([]) && MadeIn(ops, [])
  {
  }

  lemma HistoryHasLast(s: State, ev: Event, clock: Clock)
    ensures HistoryWith(s, ev, clock) != []
  {
  }

  lemma AdvanceOfFront(ops: seq<Op>, op: Op)
    requires ReadingsAdvance(ops + [op])
    ensures ReadingsAdvance(ops) && (op.Process? ==> ReadsInOrder(op.clock))
  {
    var all := ops + [op];
    assert all[|ops|] == op && forall i :: 0 <= i < |ops| ==> all[i] == ops[i];
    hide ReadsInOrder;
    forall i, j, a, b | 0 <= i < j < |ops| && ops[i].Process? && ops[j].Process?
      ensures ops[i].clock(a) <= ops[j].clock(b)
    {
      assert all[i] == ops[i] && all[j] == ops[j];
    }
  }

  /** The times of one key's calls never go back either. */
  lemma {:induction false} TimesInTime(calls: seq<Call>, key: string, bound: int)
    requires InTime(calls) && forall i :: 0 <= i < |calls| ==> calls[i].at <= bound
    ensures var times := TimesOf(Requests(calls), key);
            Nondecreasing(times) && forall i :: 0 <= i < |times| ==> times[i] <= bound
  {
    if calls != [] {
      var front, c := calls[..|calls| - 1], calls[|calls| - 1];
      TimesInTime(front, key, c.at);
      TimesSnoc(front, c, key);
      assert front + [c] == calls;
      hide TimesOf, Requests;
    }
  }

  /**
   In any run with an advancing clock and a positive cooldown, no choice of the calls for alerts under a
   key that keeps them a cooldown apart is larger than what was sent.
   */
  lemma AlertsAreOptimal(cfg: Config, ops: seq<Op>, key: string, chosen: seq<int>)
    requires cfg.Valid() && ValidOps(ops) && FixedConfig(ops) && ReadingsAdvance(ops) && cfg.detection.alertCooldown > 0
    requires IsSchedule(TimesOf(Requests(CallsSince(cfg, ops)), key), cfg.detection.alertCooldown, chosen)
    ensures var sent := Send(CallsSince(cfg, ops), map[], cfg.detection.alertCooldown).calls;
            && RaisedSince(cfg, ops) == AlertsOf(sent)
            && |chosen| <= |TimesOf(Requests(sent), key)|
  {
    hide CallsSince, RaisedSince, Send, Requests, TimesOf, Spaced, ReadingsAdvance, InTime, RunOps, MadeIn, IsSchedule;
    var calls, cd := CallsSince(cfg, ops), cfg.detection.alertCooldown;
    CallsInTime(cfg, ops);
    AlertsAreGreedy(cfg, ops, key);
    TimesOfRun(calls, key);
    GreedyStaysAhead(TimesOf(Requests(calls), key), cd, chosen);
  }

  lemma TimesOfRun(calls: seq<Call>, key: string)
    requires InTime(calls)
    ensures Nondecreasing(TimesOf(Requests(calls), key))
  {
    hide TimesOf, Requests;
    TimesInTime(calls, key, if calls == [] then 0 else calls[|calls| - 1].at);
  }
}
