/** The engine itself: shared caches, per-reader objects, and the stores it feeds. */
module Engines {
  import opened Model
  import opened Sequences
  import opened Window
  import opened Detection
  import opened ReaderStates
  import Access
  import AlertStore
  import Cooldowns
  import Dedupe
  import Keys
  import MetricsStore

  /** Every reader object is filed under its id and lies in its own footprint. */
  ghost predicate Owned(readers: map<string, ReaderState>, reprs: map<string, set<object>>, all: set<object>) {
    && readers.Keys == reprs.Keys
    && forall id :: id in readers ==> readers[id] in reprs[id] && reprs[id] <= all && readers[id].id == id
  }

  /** No object belongs to two readers. */
  ghost predicate Apart(reprs: map<string, set<object>>) {
    forall id, other :: id in reprs && other in reprs && id != other ==> reprs[id] !! reprs[other]
  }

  /** Footprints stay apart when one of them grows by objects that none of them had. */
  lemma ApartAfterGrowth(reprs: map<string, set<object>>, id: string, repr: set<object>, all: set<object>)
    requires Apart(reprs) && forall other :: other in reprs ==> reprs[other] <= all
    requires forall o :: o in repr ==> o !in all || (id in reprs && o in reprs[id])
    ensures Apart(reprs[id := repr])
  {
  }

  lemma OwnedAfterGrowth(readers: map<string, ReaderState>, reprs: map<string, set<object>>, all: set<object>,
                         id: string, reader: ReaderState, repr: set<object>)
    requires Owned(readers, reprs, all)
    requires reader in repr && reader.id == id
    ensures Owned(readers[id := reader], reprs[id := repr], all + repr)
  {
  }

  lemma OwnedBounds(readers: map<string, ReaderState>, reprs: map<string, set<object>>, all: set<object>)
    requires Owned(readers, reprs, all)
    ensures readers.Keys == reprs.Keys && forall id :: id in reprs ==> readers[id] in reprs[id] && reprs[id] <= all
  {
  }

  lemma OpenNew(cfg: DetectionConfig, views: map<string, ReaderView>, id: string)
    requires id !in views
    ensures OpenReader(cfg, views, id) == ReaderView(NewWindows(cfg.windows), map[])
  {
  }

  lemma OpenKnown(cfg: DetectionConfig, views: map<string, ReaderView>, id: string)
    requires id in views
    ensures OpenReader(cfg, views, id) == views[id].(windows := Detection.AddMissing(views[id].windows, cfg.windows))
  {
  }

  class Engine {
    var cfg: Config
    var access: Access.AccessSet
    var readers: map<string, ReaderState>
    var cooldown: Cooldowns.Cooldown
    var deDupe: Dedupe.DedupeCache
    const metrics: MetricsStore.Store
    const alerts: AlertStore.Store

    // What the reader objects stand for, the objects each is made of, and all of these together.
    ghost var views: map<string, ReaderView>
    ghost var reprs: map<string, set<object>>
    ghost var ReaderRepr: set<object>

    /** The reader objects are the engine's own, apart from each other, and each stands for its view. */
    ghost predicate RepresentedIn(rs: map<string, ReaderState>)
      reads this`views, this`reprs, this`ReaderRepr, ReaderRepr
    {
      && Owned(rs, reprs, ReaderRepr)
      && Apart(reprs)
      && rs.Keys == views.Keys
      && forall id :: id in rs ==> rs[id].Repr == reprs[id] && rs[id].Represents(views[id])
    }

    /** All readers but one stand for their views; the one left out may be changing. */
    ghost predicate OthersIntact(id: string)
      reads this`readers, this`views, this`reprs, this`ReaderRepr
      reads ReaderRepr - (if id in reprs then reprs[id] else {})
    {
      var others := ReaderRepr - (if id in reprs then reprs[id] else {});
      && readers.Keys == views.Keys == reprs.Keys
      && forall other :: other in readers && other != id ==>
           && readers[other] in reprs[other] && reprs[other] <= others
           && readers[other].Repr == reprs[other] && readers[other].Represents(views[other])
    }

    /** What is known of one reader and of all the others. */
    lemma FocusOn(id: string)
      requires ReadersValid()
      ensures OthersIntact(id)
      ensures Owned(readers, reprs, ReaderRepr) && Apart(reprs)
      ensures id in readers <==> id in views
      ensures id in readers <==> id in reprs
      ensures id in readers ==>
                && readers[id].id == id && readers[id] in readers[id].Repr && readers[id].Repr == reprs[id] <= ReaderRepr
                && readers[id].Represents(views[id])
    {
      hide ReaderState.Represents;
    }

    ghost predicate ReadersValid()
      reads this`readers, this`views, this`reprs, this`ReaderRepr, ReaderRepr
    {
      RepresentedIn(readers)
    }

    /** The part of validity that the stores have no share in. */
    ghost predicate OwnValid()
      reads this, ReaderRepr
    {
      cfg.Valid() && access == Access.Compile(cfg.access) && ReadersValid() && ValidCore(Core(views, map[], map[]))
    }

    ghost predicate Valid()
      reads this, ReaderRepr, metrics, alerts
    {
      && OwnValid()
      && metrics.Valid() && alerts.Valid()
      && {this, cooldown, deDupe, metrics, alerts, alerts.buf} !! ReaderRepr
    }

    lemma ConfigIsValid()
      requires Valid()
      ensures cfg.Valid()
    {
    }

    /** The engine's state as a value. */
    ghost function State(): Core
      reads this, cooldown, deDupe
    {
      Core(views, cooldown.last, deDupe.items)
    }

    constructor (cfg: Config, metricsStore: MetricsStore.Store, alertsStore: AlertStore.Store)
      requires cfg.Valid() && metricsStore.Valid() && alertsStore.Valid()
      ensures Valid() && this.cfg == cfg && State() == EMPTY_CORE
      ensures metrics == metricsStore && alerts == alertsStore
      ensures fresh(cooldown) && fresh(deDupe) && ReaderRepr == {}
    {
      hide Access.Compile, MetricsStore.Store.Valid;
      var ac := Access.BuildAccessControl(cfg.access);
      this.cfg := cfg;
      access := ac;
      readers := map[];
      views := map[];
      reprs := map[];
      ReaderRepr := {};
      metrics := metricsStore;
      alerts := alertsStore;
      cooldown := new Cooldowns.Cooldown();
      deDupe := new Dedupe.DedupeCache();
    }

    method UpdateConfig(cfg: Config)
      requires Valid() && cfg.Valid()
      modifies this`cfg, this`access
      ensures Valid() && this.cfg == cfg && State() == old(State())
    {
      hide ReadersValid, Access.Compile;
      this.cfg := cfg;
      var ac := Access.BuildAccessControl(cfg.access);
      access := ac;
    }

    method Reset()
      requires Valid()
      modifies this
      ensures Valid() && cfg == old(cfg) && State() == EMPTY_CORE
      ensures fresh(cooldown) && fresh(deDupe) && ReaderRepr == {}
    {
      hide Access.Compile, ReadersValid, RepresentedIn, MetricsStore.Store.Valid;
      ForgetReaders();
      cooldown := new Cooldowns.Cooldown();
      deDupe := new Dedupe.DedupeCache();
    }

    method ForgetReaders()
      modifies this`readers, this`views, this`reprs, this`ReaderRepr
      ensures ReadersValid() && views == map[] && ReaderRepr == {}
    {
      readers := map[];
      views := map[];
      reprs := map[];
      ReaderRepr := {};
    }

    method IsDuplicate(ev: Event, clock: Clock) returns (duplicate: bool)
      modifies deDupe
      ensures (duplicate, deDupe.items) == CheckDuplicate(cfg.detection, old(deDupe.items), ev, clock)
    {
      var dedupeWindow := cfg.detection.dedupeWindow;
      if dedupeWindow <= 0 {
        return false;
      }
      var key := ev.readerID + "|" + (ev.uid + "|" + (ev.result + "|" + (ev.errorCode + "|" + Keys.Itoa(ev.timestamp))));
      assert key == Keys.DedupeKey(ev);
      duplicate := deDupe.Seen(key, clock(AtDedupe), dedupeWindow);
    }

    method EvaluateAccess(ev: Event, clock: Clock) returns (out: seq<Alert>)
      requires access == Access.Compile(cfg.access)
      modifies cooldown
      ensures Verdict(out, cooldown.last) == Detection.EvaluateAccess(cfg, ev, old(cooldown.last), clock)
    {
      hide Access.Compile, Access.IsBlacklisted, Access.IsWhitelisted, Cooldowns.Permit, Keys.WindowKey;
      var ac := access;
      if !ac.enabled {
        return [];
      }
      if ev.uid == "" {
        return [];
      }
      var uid := Access.NormalizeUID(ev.uid);
      hide Access.Canonical;
      if uid == "" {
        return [];
      }
      if Access.IsBlacklisted(ac, ev.readerID, uid) {
        var allowed := cooldown.Allow(ev.readerID, 0, cfg.detection.alertCooldown, clock(AtAccess));
        if !allowed {
          return [];
        }
        return [Alert(clock(AtAccessStamp), ev.readerID, "critical", "blacklisted_uid", 0, NO_METRICS, 0.0,
                      ["blacklisted_uid"], map["uid" := uid, "uid_raw" := ev.uid, "source" := ev.source, "result" := ev.result,
                          "error_code" := ev.errorCode])];
      }
      if ac.whitelistOnly && !Access.IsWhitelisted(ac, ev.readerID, uid) {
        var allowed := cooldown.Allow(ev.readerID, 0, cfg.detection.alertCooldown, clock(AtAccess));
        if !allowed {
          return [];
        }
        return [Alert(clock(AtAccessStamp), ev.readerID, "high", "whitelist_violation", 0, NO_METRICS, 0.0,
                      ["whitelist_violation"], map["uid" := uid, "uid_raw" := ev.uid, "source" := ev.source, "result" := ev.result,
                          "error_code" := ev.errorCode])];
      }
      return [];
    }

    method EvaluateAuthStreak(reader: ReaderState, ev: Event, clock: Clock, ghost v: ReaderView) returns (out: seq<Alert>)
      requires reader.Represents(v) && cooldown !in reader.Repr
      modifies reader`uidFailureStreak, cooldown
      ensures reader.Represents(v.(streak := NextStreak(v.streak, ev)))
      ensures Verdict(out, cooldown.last) ==
              Detection.EvaluateAuthStreak(cfg.detection, reader.id, v.streak, ev, old(cooldown.last), clock)
    {
      hide Cooldowns.Permit, Keys.AuthKey, Access.Canonical, ReaderState.Represents;
      CanonicalOfNothing();
      if ev.uid == "" {
        return [];
      }
      var uid := Access.NormalizeUID(ev.uid);
      if uid == "" {
        return [];
      }
      if ev.result != RESULT_FAILURE || ev.errorCode == "" {
        reader.SetStreak(uid, 0, v);
        return [];
      }
      var streak := reader.StreakOf(uid, v);
      streak := streak + 1;
      reader.SetStreak(uid, streak, v);
      if streak < 2 {
        return [];
      }
      StreakKeyJoined(reader.id, uid);
      var allowed := cooldown.AllowKey("authfail|" + reader.id + "|" + uid, cfg.detection.alertCooldown, clock(AtStreak));
      if !allowed {
        return [];
      }
      return [Alert(clock(AtStreakStamp), reader.id, "medium", "repeated_auth_failure", 0, NO_METRICS, 0.0,
                    ["repeated_auth_failure"], map["uid" := uid, "uid_raw" := ev.uid, "source" := ev.source, "result" := ev.result,
                          "error_code" := ev.errorCode])];
    }

    static lemma StreakKeyJoined(readerID: string, uid: string)
      ensures "authfail|" + readerID + "|" + uid == Keys.AuthKey(readerID, uid)
    {
    }

    static lemma CanonicalOfNothing()
      ensures Access.Canonical("") == ""
    {
    }

    method Evaluate(readerID: string, wm: WindowMetrics, clock: Clock) returns (out: seq<Alert>)
      requires cfg.Valid() && wm.tv >= 0.0
      modifies cooldown
      ensures Verdict(out, cooldown.last) ==
              Detection.Evaluate(cfg.detection, readerID, wm, old(cooldown.last), clock)
    {
      hide Rules, Severity, Score, Cooldowns.Permit, Keys.WindowKey;
      if wm.attempts == 0 {
        return [];
      }
      ScoreIsWeighted(wm);
      var w := cfg.detection.weights;
      var score := w.aps * wm.aps + w.fr * wm.fr + w.uds * wm.uds + w.tv * (1.0 / (wm.tv + cfg.detection.epsilon));
      var rules := BrokenRules(wm, score);
      if |rules| == 0 {
        return [];
      }
      var allowed := cooldown.Allow(readerID, wm.windowSec, cfg.detection.alertCooldown, clock(AtWindow(wm.windowSec)));
      if !allowed {
        return [];
      }
      var severity := SeverityOf(wm, score, rules);
      return [Alert(clock(AtWindowStamp(wm.windowSec)), readerID, severity, "possible_bruteforce", wm.windowSec, wm,
                    score, rules, map["engine" := "rfguard"])];
    }

    lemma ScoreIsWeighted(wm: WindowMetrics)
      requires cfg.detection.epsilon > 0.0 && wm.tv >= 0.0
      ensures var w := cfg.detection.weights;
              Score(cfg.detection, wm) ==
              w.aps * wm.aps + w.fr * wm.fr + w.uds * wm.uds + w.tv * (1.0 / (wm.tv + cfg.detection.epsilon))
    {
    }

    method BrokenRules(wm: WindowMetrics, score: real) returns (rules: seq<string>)
      requires cfg.Valid() && wm.tv >= 0.0 && score == Score(cfg.detection, wm)
      ensures rules == Rules(cfg.detection, wm)
    {
      var d := cfg.detection;
      var rate, elevated, enough :=
        wm.aps > d.apsThreshold, wm.aps > d.apsElevatedThreshold, wm.attempts >= d.minAttempts;
      var failing, diverse, regular, scored :=
        wm.fr > d.failureRatioThreshold, wm.uds > d.uidDiversityThreshold, wm.tv < d.timingVarianceThreshold,
        score > d.attackScoreThreshold;
      hide Score, RuleIf;
      rules := [];
      if rate {
        rules := rules + ["excessive_attempt_rate"];
      }
      if failing && enough {
        rules := rules + ["failure_spike"];
      }
      if diverse && elevated {
        rules := rules + ["uid_spraying"];
      }
      if regular && elevated {
        rules := rules + ["machine_timing"];
      }
      if scored && enough && elevated {
        rules := rules + ["attack_score"];
      }
      assert rules == AppendedInTurn(rate, "excessive_attempt_rate", failing && enough, "failure_spike",
                                     diverse && elevated, "uid_spraying", regular && elevated, "machine_timing",
                                     scored && enough && elevated, "attack_score");
      InTurnIsConcatenation(rate, "excessive_attempt_rate", failing && enough, "failure_spike",
                            diverse && elevated, "uid_spraying", regular && elevated, "machine_timing",
                            scored && enough && elevated, "attack_score");
      hide AppendedInTurn;
    }

    static function AppendIf(rules: seq<string>, holds: bool, name: string): seq<string> {
      if holds then rules + [name] else rules
    }

    static function AppendedInTurn(a: bool, an: string, b: bool, bn: string, c: bool, cn: string,
                                   d: bool, dn: string, e: bool, en: string): seq<string> {
      AppendIf(AppendIf(AppendIf(AppendIf(AppendIf([], a, an), b, bn), c, cn), d, dn), e, en)
    }

    static lemma InTurnIsConcatenation(a: bool, an: string, b: bool, bn: string, c: bool, cn: string,
                                       d: bool, dn: string, e: bool, en: string)
      ensures AppendedInTurn(a, an, b, bn, c, cn, d, dn, e, en) ==
              RuleIf(a, an) + RuleIf(b, bn) + RuleIf(c, cn) + RuleIf(d, dn) + RuleIf(e, en)
    {
      hide AppendIf, RuleIf;
      AppendIfAppends([], a, an);
      var r1 := AppendIf([], a, an);
      AppendIfAppends(r1, b, bn);
      var r2 := AppendIf(r1, b, bn);
      AppendIfAppends(r2, c, cn);
      var r3 := AppendIf(r2, c, cn);
      AppendIfAppends(r3, d, dn);
      AppendIfAppends(AppendIf(r3, d, dn), e, en);
      assert [] + RuleIf(a, an) == RuleIf(a, an);
    }

    static lemma AppendIfAppends(rules: seq<string>, holds: bool, name: string)
      ensures AppendIf(rules, holds, name) == rules + RuleIf(holds, name)
    {
    }

    method SeverityOf(wm: WindowMetrics, score: real, rules: seq<string>) returns (severity: string)
      requires cfg.Valid() && wm.tv >= 0.0
      requires score == Score(cfg.detection, wm) && rules == Rules(cfg.detection, wm)
      ensures severity == Severity(cfg.detection, wm)
    {
      hide Score, Rules;
      severity := "medium";
      if score > cfg.detection.attackScoreThreshold * 2.0 || wm.aps > cfg.detection.apsThreshold * 2.0 {
        severity := "critical";
      } else if score > cfg.detection.attackScoreThreshold || |rules| >= 2 {
        severity := "high";
      }
    }

    method GetReader(readerID: string) returns (reader: ReaderState)
      requires cfg.Valid() && ReadersValid() && this !in ReaderRepr
      modifies this`readers, this`views, this`reprs, this`ReaderRepr, ReaderRepr
      ensures ReadersValid() && fresh(ReaderRepr - old(ReaderRepr))
      ensures ReaderKey(readerID) in readers && reader == readers[ReaderKey(readerID)]
      ensures var id := ReaderKey(readerID); views == old(views)[id := OpenReader(cfg.detection, old(views), id)]
    {
      hide ReaderKey, ReaderState.Represents, OpenReader, Owned, Apart, OthersIntact;
      var id := if readerID == "" then "unknown" else readerID;
      ReaderKeyOf(readerID);
      FocusOn(id);
      if id in readers {
        reader := KnownReader(id);
      } else {
        reader := NewReader(id);
      }
    }

    static lemma ReaderKeyOf(readerID: string)
      ensures ReaderKey(readerID) == if readerID == "" then "unknown" else readerID
    {
    }

    method KnownReader(id: string) returns (reader: ReaderState)
      requires cfg.Valid() && ReadersValid() && this !in ReaderRepr && id in readers
      modifies this`views, this`reprs, this`ReaderRepr, readers[id]
      ensures ReadersValid() && fresh(ReaderRepr - old(ReaderRepr))
      ensures reader == readers[id] && id in old(views)
      ensures views == old(views)[id := OpenReader(cfg.detection, old(views), id)]
    {
      hide Detection.AddMissing, ReaderState.Represents, OpenReader, Owned, Apart, RepresentedIn, ReadersValid, OthersIntact;
      FocusOn(id);
      OpenKnown(cfg.detection, views, id);
      reader := readers[id];
      reader.AddMissing(cfg.detection.windows, views[id]);
      RecordKnown(id, reader, OpenReader(cfg.detection, views, id));
    }

    method NewReader(id: string) returns (reader: ReaderState)
      requires cfg.Valid() && ReadersValid() && this !in ReaderRepr && id !in readers
      modifies this`readers, this`views, this`reprs, this`ReaderRepr
      ensures ReadersValid() && fresh(ReaderRepr - old(ReaderRepr))
      ensures id in readers && reader == readers[id]
      ensures views == old(views)[id := OpenReader(cfg.detection, old(views), id)]
    {
      hide NewWindows, ReaderState.Represents, OpenReader, Owned, Apart, RepresentedIn, OthersIntact;
      FocusOn(id);
      OpenNew(cfg.detection, views, id);
      reader := new ReaderState(id, cfg.detection.windows);
      RecordReader(id, reader, OpenReader(cfg.detection, views, id));
      readers := readers[id := reader];
    }

    ghost method RecordKnown(id: string, reader: ReaderState, v: ReaderView)
      requires Owned(readers, reprs, ReaderRepr) && Apart(reprs) && OthersIntact(id)
      requires id in readers && id in reprs && reader == readers[id]
      requires reader in reader.Repr && reader.id == id && reader.Represents(v)
      requires forall o :: o in reader.Repr ==> o !in ReaderRepr || o in reprs[id]
      requires this !in ReaderRepr && this !in reader.Repr
      modifies this`views, this`reprs, this`ReaderRepr
      ensures views == old(views)[id := v] && reprs == old(reprs)[id := reader.Repr]
      ensures ReaderRepr == old(ReaderRepr) + reader.Repr
      ensures ReadersValid()
    {
      hide ReaderState.Represents, Owned, Apart, RepresentedIn, OthersIntact;
      RecordReader(id, reader, v);
      assert readers[id := reader] == readers;
    }

    /** Notes what one reader object now stands for. */
    ghost method RecordReader(id: string, reader: ReaderState, v: ReaderView)
      requires Owned(readers, reprs, ReaderRepr) && Apart(reprs) && OthersIntact(id)
      requires reader in reader.Repr && reader.id == id && reader.Represents(v)
      requires forall o :: o in reader.Repr ==> o !in ReaderRepr || (id in reprs && o in reprs[id])
      requires this !in ReaderRepr && this !in reader.Repr
      modifies this`views, this`reprs, this`ReaderRepr
      ensures views == old(views)[id := v] && reprs == old(reprs)[id := reader.Repr]
      ensures ReaderRepr == old(ReaderRepr) + reader.Repr
      ensures RepresentedIn(readers[id := reader])
    {
      hide ReaderState.Represents, Owned, Apart;
      OwnedBounds(readers, reprs, ReaderRepr);
      ApartAfterGrowth(reprs, id, reader.Repr, ReaderRepr);
      OwnedAfterGrowth(readers, reprs, ReaderRepr, id, reader, reader.Repr);
      views := views[id := v];
      reprs := reprs[id := reader.Repr];
      ReaderRepr := ReaderRepr + reader.Repr;
      ghost var rs := readers[id := reader];
      forall other | other in rs
        ensures rs[other].Repr == reprs[other]
        ensures rs[other].Represents(views[other])
      {
        assert other != id ==> rs[other] == readers[other];
      }
    }

    /** Adds what one evaluation raised to the alert buffer. */
    method Record(found: seq<Alert>)
      requires alerts.Valid()
      modifies alerts`size, alerts.buf
      ensures alerts.Valid() && alerts.buf == old(alerts.buf)
      ensures alerts.Contents() == LastN(old(alerts.Contents()) + found, alerts.limit)
    {
      ghost var log0 := alerts.Contents();
      LastNAppendNothing(log0, alerts.limit);
      hide LastN;
      for i := 0 to |found|
        invariant alerts.Valid() && alerts.buf == old(alerts.buf)
        invariant alerts.Contents() == LastN(log0 + found[..i], alerts.limit)
      {
        LastNAppendTwice(log0, found[..i], [found[i]], alerts.limit);
        TakeSnoc(found, i);
        alerts.Add(found[i]);
      }
      assert found[..|found|] == found;
    }

    /** One turn of the pass: evict, add, measure, evaluate, record. */
    method ProcessWindow(reader: ReaderState, window: WindowState, ev: Event, clock: Clock,
                         ghost k: int, ghost streak: map<string, int>, ghost p: Pass)
      returns (wm: WindowMetrics, found: seq<Alert>)
      requires cfg.Valid() && alerts.Valid()
      requires reader.Represents(ReaderView(p.windows, streak)) && cooldown.last == p.cooldown
      requires reader.Repr !! {this, cooldown, alerts, alerts.buf}
      requires k in reader.windows && window == reader.windows[k]
      requires k in p.windows && p.windows[k].duration > 0
      modifies window, cooldown, alerts`size, alerts.buf
      ensures alerts.Valid() && alerts.buf == old(alerts.buf)
      ensures var q := PassOne(cfg.detection, ev.readerID, EntryOf(ev), k, p, clock);
              && reader.Represents(ReaderView(q.windows, streak)) && cooldown.last == q.cooldown
              && p.metrics + [wm] == q.metrics && p.alerts + found == q.alerts
      ensures alerts.Contents() == LastN(old(alerts.Contents()) + found, alerts.limit)
    {
      hide ReaderState.Represents, MetricsOfView, PushView, Detection.Evaluate, LastN;
      wm := reader.PushWindow(window, EventEntry(ev.timestamp, ev.uid, ev.result), k, ReaderView(p.windows, streak));
      found := Evaluate(ev.readerID, wm, clock);
      Record(found);
    }

    /** The pass over one reader's windows, shortest first. */
    method ProcessWindows(reader: ReaderState, ev: Event, clock: Clock, ghost v: ReaderView)
      returns (out: seq<Alert>, metricsList: seq<WindowMetrics>, ghost p: Pass)
      requires cfg.Valid() && alerts.Valid()
      requires reader.Represents(v) && PositiveDurations(v.windows) && reader.Repr !! {this, cooldown, alerts, alerts.buf}
      modifies reader.Repr - {reader}
      modifies cooldown, alerts`size, alerts.buf
      ensures alerts.Valid() && alerts.buf == old(alerts.buf)
      ensures p == FullPass(cfg.detection, ev, v.windows, old(cooldown.last), clock)
      ensures reader.Represents(ReaderView(p.windows, v.streak))
      ensures cooldown.last == p.cooldown && out == p.alerts && metricsList == p.metrics
      ensures alerts.Contents() == LastN(old(alerts.Contents()) + out, alerts.limit)
    {
      hide PassUpTo, FullPass, PassOne, ReaderState.Represents, LastN, SortedKeys, PositiveDurations;
      ghost var last0, log0, d := cooldown.last, alerts.Contents(), cfg.detection;
      p := Pass(v.windows, last0, [], []);
      PassUpToEnds(d, ev, v.windows, last0, clock);
      LastNAppendNothing(log0, alerts.limit);
      out, metricsList := [], [];
      var keys, sorted := reader.SortedWindows(v);
      for i := 0 to |sorted|
        invariant alerts.Valid() && alerts.buf == old(alerts.buf)
        invariant p == PassUpTo(d, ev, v.windows, i, last0, clock)
        invariant reader.Represents(ReaderView(p.windows, v.streak)) && cooldown.last == p.cooldown
        invariant out == p.alerts && metricsList == p.metrics
        invariant alerts.Contents() == LastN(log0 + out, alerts.limit)
      {
        PassUpToNext(d, ev, v.windows, i, last0, clock);
        var wm, found := ProcessWindow(reader, sorted[i], ev, clock, keys[i], v.streak, p);
        LastNAppendTwice(log0, out, found, alerts.limit);
        metricsList := metricsList + [wm];
        out := out + found;
        p := PassOne(d, ev.readerID, EntryOf(ev), keys[i], p, clock);
      }
    }

    /** The streak of a known reader, and its alert. */
    method ProcessStreak(id: string, ev: Event, clock: Clock) returns (auth: seq<Alert>)
      requires cfg.Valid() && ReadersValid() && alerts.Valid() && id in readers
      requires {this, cooldown, alerts, alerts.buf} !! ReaderRepr
      modifies this`views, this`reprs, this`ReaderRepr, ReaderRepr, cooldown, alerts`size, alerts.buf
      ensures ReadersValid() && ReaderRepr == old(ReaderRepr)
      ensures alerts.Valid() && alerts.buf == old(alerts.buf)
      ensures Verdict(auth, cooldown.last) ==
              Detection.EvaluateAuthStreak(cfg.detection, id, old(views[id]).streak, ev, old(cooldown.last), clock)
      ensures views == old(views)[id := old(views[id]).(streak := NextStreak(old(views[id]).streak, ev))]
      ensures alerts.Contents() == LastN(old(alerts.Contents()) + auth, alerts.limit)
    {
      hide ReaderState.Represents, Owned, Apart, RepresentedIn, ReadersValid, OthersIntact, Detection.EvaluateAuthStreak,
           NextStreak, LastN;
      FocusOn(id);
      var reader := readers[id];
      ghost var v := views[id];
      auth := EvaluateAuthStreak(reader, ev, clock, v);
      RecordKnown(id, reader, v.(streak := NextStreak(v.streak, ev)));
      Record(auth);
      assert ReaderRepr == old(ReaderRepr);
    }

    /** The windows of a known reader, their alerts and metrics. */
    method ProcessPass(id: string, ev: Event, clock: Clock)
      returns (pass: seq<Alert>, metricsList: seq<WindowMetrics>, ghost p: Pass)
      requires cfg.Valid() && ReadersValid() && alerts.Valid() && id in readers
      requires PositiveDurations(views[id].windows)
      requires {this, cooldown, alerts, alerts.buf} !! ReaderRepr
      modifies this`views, this`reprs, this`ReaderRepr, ReaderRepr, cooldown, alerts`size, alerts.buf
      ensures ReadersValid() && ReaderRepr == old(ReaderRepr)
      ensures alerts.Valid() && alerts.buf == old(alerts.buf)
      ensures p == FullPass(cfg.detection, ev, old(views[id]).windows, old(cooldown.last), clock)
      ensures pass == p.alerts && metricsList == p.metrics && cooldown.last == p.cooldown
      ensures views == old(views)[id := old(views[id]).(windows := p.windows)]
      ensures alerts.Contents() == LastN(old(alerts.Contents()) + pass, alerts.limit)
    {
      hide ReaderState.Represents, Owned, Apart, RepresentedIn, ReadersValid, OthersIntact, FullPass, PositiveDurations,
           LastN;
      FocusOn(id);
      var reader := readers[id];
      ghost var v := views[id];
      pass, metricsList, p := ProcessWindows(reader, ev, clock, v);
      RecordKnown(id, reader, v.(windows := p.windows));
      assert ReaderRepr == old(ReaderRepr);
    }

    /** The part of an admitted event that concerns its own reader. */
    method ProcessReader(ev: Event, clock: Clock)
      returns (out: seq<Alert>, metricsList: seq<WindowMetrics>, ghost auth: Verdict, ghost p: Pass)
      requires cfg.Valid() && ReadersValid() && alerts.Valid() && ValidCore(Core(views, map[], map[]))
      requires {this, cooldown, alerts, alerts.buf} !! ReaderRepr
      modifies this`readers, this`views, this`reprs, this`ReaderRepr, ReaderRepr, cooldown, alerts`size, alerts.buf
      ensures ReadersValid() && fresh(ReaderRepr - old(ReaderRepr))
      ensures alerts.Valid() && alerts.buf == old(alerts.buf)
      ensures var id := ReaderKey(ev.readerID); var reader := OpenReader(cfg.detection, old(views), id);
              && PositiveDurations(reader.windows)
              && auth == Detection.EvaluateAuthStreak(cfg.detection, id, reader.streak, ev, old(cooldown.last), clock)
              && p == FullPass(cfg.detection, ev, reader.windows, auth.cooldown, clock)
              && views == old(views)[id := ReaderView(p.windows, NextStreak(reader.streak, ev))]
      ensures cooldown.last == p.cooldown && out == auth.alerts + p.alerts && metricsList == p.metrics
      ensures alerts.Contents() == LastN(old(alerts.Contents()) + out, alerts.limit)
    {
      hide Detection.EvaluateAuthStreak, FullPass, NextStreak, OpenReader, ReadersValid, PositiveDurations, LastN, ReaderKey;
      ghost var log0 := alerts.Contents();
      var id := ReaderKey(ev.readerID);
      OpenReaderPositive(cfg.detection, Core(views, map[], map[]), id);
      var reader := GetReader(ev.readerID);
      out := ProcessStreak(id, ev, clock);
      auth := Verdict(out, cooldown.last);
      var pass;
      pass, metricsList, p := ProcessPass(id, ev, clock);
      LastNAppendTwice(log0, out, pass, alerts.limit);
      out := out + pass;
    }

    /** What follows for an event that is not a duplicate, up to the metrics store. */
    method ProcessAdmitted(ev: Event, clock: Clock)
      returns (alertsOut: seq<Alert>, metricsList: seq<WindowMetrics>, ghost o: Outcome)
      requires Valid()
      modifies this`readers, this`views, this`reprs, this`ReaderRepr, ReaderRepr, cooldown, alerts`size, alerts.buf
      ensures Valid() && fresh(ReaderRepr - old(ReaderRepr))
      ensures o == Admit(cfg, Core(old(views), old(cooldown.last), deDupe.items), ev, clock)
      ensures State() == o.core && alertsOut == o.alerts && metricsList == o.metrics
      ensures alerts.buf == old(alerts.buf)
      ensures alerts.Contents() == LastN(old(alerts.Contents()) + alertsOut, alerts.limit)
    {
      hide Admit, Access.Compile, Detection.EvaluateAccess, Detection.EvaluateAuthStreak, FullPass, NextStreak, OpenReader,
           ReadersValid, PositiveDurations, LastN, ReaderKey, MetricsStore.Store.Valid;
      ghost var log0 := alerts.Contents();
      AdmitInStages(cfg, State(), ev, clock);
      o := Admit(cfg, State(), ev, clock);
      var access := EvaluateAccess(ev, clock);
      Record(access);
      var own;
      ghost var auth, p;
      own, metricsList, auth, p := ProcessReader(ev, clock);
      LastNAppendTwice(log0, access, own, alerts.limit);
      alertsOut := access + own;
      assert alertsOut == access + auth.alerts + p.alerts;
    }

    method ProcessEvent(ev: Event, clock: Clock) returns (alertsOut: seq<Alert>, ghost o: Outcome)
      requires Valid()
      modifies this`readers, this`views, this`reprs, this`ReaderRepr, ReaderRepr
      modifies cooldown, deDupe, metrics, alerts`size, alerts.buf
      ensures Valid() && fresh(ReaderRepr - old(ReaderRepr)) && alerts.buf == old(alerts.buf)
      ensures o == Step(cfg, old(State()), ev, clock)
      ensures State() == o.core && alertsOut == o.alerts
      ensures alerts.Contents() == LastN(old(alerts.Contents()) + alertsOut, alerts.limit)
      ensures if |o.metrics| > 0 then
                MetricsStore.Updated(old(metrics.Contents()), ev.readerID, o.metrics, clock(AtMetrics), metrics.limit,
                                     metrics.Contents())
              else metrics.Contents() == old(metrics.Contents())
    {
      hide Admit, Access.Compile, ReadersValid, PositiveDurations, CheckDuplicate, ClampTimestamp, MetricsStore.Updated, LastN,
           MetricsStore.Store.Valid;
      var now := clock(AtStart);
      var clamped := ClampTimestamp(ev.timestamp, now, cfg.detection.maxClockSkew, cfg.detection.maxFutureSkew);
      var e := ev.(timestamp := clamped);
      o := Step(cfg, State(), ev, clock);
      var duplicate := IsDuplicate(e, clock);
      if duplicate {
        LastNAppendNothing(alerts.Contents(), alerts.limit);
        return [], o;
      }
      var metricsList;
      ghost var admitted;
      alertsOut, metricsList, admitted := ProcessAdmitted(e, clock);
      if |metricsList| > 0 {
        metrics.Update(e.readerID, metricsList, clock(AtMetrics));
      }
    }
  }
}
