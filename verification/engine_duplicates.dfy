/** What the duplicate check answers in a whole run, in terms of the events admitted before. */
module EngineDuplicates {
  import opened Model
  import opened Detection
  import opened EngineRun
  import opened EngineHistory
  import opened EngineProperties
  import Dedupe
  import Keys

  /** Some admitted event with this key was checked no longer than the window before. */
  ghost predicate AdmittedWithin(history: seq<Admission>, key: string, now: int, window: int) {
    exists i :: 0 <= i < |history| && Keys.DedupeKey(history[i].ev) == key && now - history[i].checked <= window
  }

  ghost predicate IsStampOf(history: seq<Admission>, key: string, at: int) {
    exists i :: 0 <= i < |history| && Keys.DedupeKey(history[i].ev) == key && history[i].checked == at
  }

  /**
   Every entry of the cache is an admission, and every admission within the window is remembered by
   its key, or a later one is.
   */
  ghost predicate Reflects(items: map<string, int>, history: seq<Admission>, window: int, now: int) {
    && (forall k :: k in items ==> IsStampOf(history, k, items[k]))
    && forall i :: 0 <= i < |history| ==>
         && history[i].checked <= now
         && (now - history[i].checked <= window ==>
               && Keys.DedupeKey(history[i].ev) in items
               && history[i].checked <= items[Keys.DedupeKey(history[i].ev)])
  }

  lemma FreshMeansAdmittedWithin(items: map<string, int>, history: seq<Admission>, window: int, now: int, key: string, t: int)
    requires Reflects(items, history, window, now) && now <= t
    ensures Dedupe.Fresh(items, key, t, window) <==> AdmittedWithin(history, key, t, window)
  {
    hide Keys.DedupeKey;
    if Dedupe.Fresh(items, key, t, window) {
      assert IsStampOf(history, key, items[key]);
    }
  }

  lemma ReflectsLater(items: map<string, int>, history: seq<Admission>, window: int, now: int, later: int)
    requires Reflects(items, history, window, now) && now <= later
    ensures Reflects(items, history, window, later)
  {
    hide Keys.DedupeKey, IsStampOf;
  }

  lemma StampStays(history: seq<Admission>, a: Admission, key: string, at: int)
    requires IsStampOf(history, key, at)
    ensures IsStampOf(history + [a], key, at)
  {
    hide Keys.DedupeKey;
    var i :| 0 <= i < |history| && Keys.DedupeKey(history[i].ev) == key && history[i].checked == at;
    assert (history + [a])[i] == history[i];
  }

  /** What an admission leaves in the cache: its own key, and what had not expired. */
  lemma AfterAdmission(items: map<string, int>, key: string, t: int, window: int)
    requires !Dedupe.Fresh(items, key, t, window) && window > 0
    ensures var items' := Dedupe.Lookup(items, key, t, window, true).1;
            && (forall k :: k in items' && k != key ==> k in items && items'[k] == items[k])
            && (forall k :: k in items && k != key && t - items[k] <= window ==> k in items')
            && key in items' && items'[key] == t
  {
  }

  lemma Recalled(items: map<string, int>, items': map<string, int>, key: string, t: int, window: int, k: string, at: int)
    requires forall k :: k in items && k != key && t - items[k] <= window ==> k in items'
    requires forall k :: k in items' && k != key ==> k in items && items'[k] == items[k]
    requires key in items' && items'[key] == t
    requires at <= t && t - at <= window && k in items && at <= items[k]
    ensures k in items' && at <= items'[k]
  {
    if k != key {
      assert t - items[k] <= window;
    }
  }

  /** One admission entered, with or without compaction. */
  lemma AdmissionReflected(items: map<string, int>, history: seq<Admission>, window: int, now: int, a: Admission)
    requires Reflects(items, history, window, now) && now <= a.checked && window > 0
    requires !Dedupe.Fresh(items, Keys.DedupeKey(a.ev), a.checked, window)
    ensures Reflects(Dedupe.Lookup(items, Keys.DedupeKey(a.ev), a.checked, window, true).1, history + [a], window, a.checked)
  {
    hide Keys.DedupeKey, Dedupe.Lookup, IsStampOf;
    var key, t, history' := Keys.DedupeKey(a.ev), a.checked, history + [a];
    var items' := Dedupe.Lookup(items, key, t, window, true).1;
    AfterAdmission(items, key, t, window);
    forall k | k in items'
      ensures IsStampOf(history', k, items'[k])
    {
      if k == key {
        LastStamp(history, a);
      } else {
        StampStays(history, a, k, items[k]);
      }
    }
    forall i | 0 <= i < |history| && t - history[i].checked <= window
      ensures Keys.DedupeKey(history[i].ev) in items' && history[i].checked <= items'[Keys.DedupeKey(history[i].ev)]
    {
      Recalled(items, items', key, t, window, Keys.DedupeKey(history[i].ev), history[i].checked);
    }
  }

  lemma LastStamp(history: seq<Admission>, a: Admission)
    ensures IsStampOf(history + [a], Keys.DedupeKey(a.ev), a.checked)
  {
    hide Keys.DedupeKey;
    assert (history + [a])[|history|] == a;
  }

  lemma ProcessKeepsReflected(s: State, ev: Event, clock: Clock, now: int)
    requires s.Valid() && s.cfg.detection.dedupeWindow > 0
    requires Reflects(s.core.dedupe, s.history, s.cfg.detection.dedupeWindow, now) && now <= clock(AtDedupe)
    ensures var s' := Apply(s, Process(ev, clock));
            Reflects(s'.core.dedupe, s'.history, s.cfg.detection.dedupeWindow, clock(AtDedupe))
  {
    var cfg, e := s.cfg.detection, Clamp(s.cfg.detection, ev, clock);
    var (duplicate, dedupe) := CheckDuplicate(cfg, s.core.dedupe, e, clock);
    var s' := Apply(s, Process(ev, clock));
    var a := Admission(e, clock(AtStart), clock(AtDedupe), cfg.windows);
    assert duplicate <==> Dedupe.Fresh(s.core.dedupe, Keys.DedupeKey(e), clock(AtDedupe), cfg.dedupeWindow);
    if duplicate {
      assert s'.history == s.history && s'.core.dedupe == s.core.dedupe;
      hide Apply, Reflects, Keys.DedupeKey;
      ReflectsLater(s.core.dedupe, s.history, cfg.dedupeWindow, now, clock(AtDedupe));
    } else {
      AdmitKeepsDedupe(s.cfg, s.core.(dedupe := dedupe), e, clock);
      hide Reflects, Keys.DedupeKey, Admit;
      AdmissionReflected(s.core.dedupe, s.history, cfg.dedupeWindow, now, a);
    }
  }

  lemma AdmitKeepsDedupe(cfg: Config, core: Core, ev: Event, clock: Clock)
    requires cfg.Valid() && ValidCore(core)
    ensures Admit(cfg, core, ev, clock).core.dedupe == core.dedupe
  {
    hide EvaluateAccess, EvaluateAuthStreak, OpenReader, WindowPass, SortedKeys, NextStreak;
  }

  lemma {:induction false} RunsAreReflected(cfg: Config, ops: seq<Op>, now: int)
    requires cfg.Valid() && ValidOps(ops) && FixedConfig(ops) && ChecksAdvance(ops, now)
    requires cfg.detection.dedupeWindow > 0
    ensures var s := RunOps(cfg, ops);
            s.cfg == cfg && Reflects(s.core.dedupe, s.history, cfg.detection.dedupeWindow, now)
  {
    if |ops| > 0 {
      var n := |ops| - 1;
      var front, s := ops[..n], RunOps(cfg, ops[..n]);
      assert RunOps(cfg, ops) == Apply(s, ops[n]);
      if ops[n].Process? {
        var arrival := ops[n].clock(AtDedupe);
        RunsAreReflected(cfg, front, arrival);
        ProcessKeepsReflected(s, ops[n].ev, ops[n].clock, arrival);
        hide RunOps, Step, Reflects;
        var s' := Apply(s, ops[n]);
        ReflectsLater(s'.core.dedupe, s'.history, cfg.detection.dedupeWindow, arrival, now);
      } else {
        RunsAreReflected(cfg, front, now);
        hide RunOps, Step;
      }
    }
  }

  /**
   In any run an event is processed exactly when no event with the same joined fields, admitted since
   the last restart, was checked within the dedupe window before it.
   */
  lemma AdmittedUnlessRecent(cfg: Config, ops: seq<Op>, ev: Event, clock: Clock)
    requires cfg.Valid() && ValidOps(ops) && FixedConfig(ops) && ChecksAdvance(ops, clock(AtDedupe))
    ensures var window := cfg.detection.dedupeWindow;
            Result(RunOps(cfg, ops), ev, clock).admitted <==>
            || window <= 0
            || !AdmittedWithin(RunOps(cfg, ops).history, Keys.DedupeKey(Clamp(cfg.detection, ev, clock)), clock(AtDedupe), window)
  {
    var s, window := RunOps(cfg, ops), cfg.detection.dedupeWindow;
    StateFollowsHistory(cfg, ops);
    AdmittedIffNew(s, ev, clock);
    hide RunOps, Result, FollowsHistory, Clamp, Keys.DedupeKey, AdmittedWithin;
    if window > 0 {
      RunsAreReflected(cfg, ops, clock(AtDedupe));
      FreshMeansAdmittedWithin(s.core.dedupe, s.history, window, clock(AtDedupe),
                               Keys.DedupeKey(Clamp(cfg.detection, ev, clock)), clock(AtDedupe));
    }
  }
}
