/** Readers do not influence each other, although they share the duplicate cache and the cooldown. */
module NonInterference {
  import opened Model
  import opened Sequences
  import opened Keys
  import opened Detection
  import opened EngineRun
  import Window
  import Access
  import Cooldowns
  import Dedupe

  /** The same run without the events of all readers but one; nothing else is left out. */
  ghost function Only(ops: seq<Op>, r: string): (own: seq<Op>)
    ensures ValidOps(ops) ==> ValidOps(own)
  {
    if |ops| == 0 then []
    else
      var front, op := Only(ops[..|ops| - 1], r), ops[|ops| - 1];
      if op.Process? && op.ev.readerID != r then front else front + [op]
  }

  function About(alerts: seq<Alert>, r: string): seq<Alert> {
    Filter(alerts, (a: Alert) => a.readerID == r)
  }

  // ---------- What a reader can see of the engine ----------

  ghost predicate SameAt<V(!new)>(a: map<string, V>, b: map<string, V>, k: string) {
    (k in a <==> k in b) && (k in a ==> a[k] == b[k])
  }

  ghost predicate SameCooldown(r: string, a: map<string, int>, b: map<string, int>) {
    forall k :: CooldownKeyOf(r, k) ==> SameAt(a, b, k)
  }

  ghost predicate SameFresh(a: map<string, int>, b: map<string, int>, k: string, now: int, ttl: int) {
    && (Dedupe.Fresh(a, k, now, ttl) <==> Dedupe.Fresh(b, k, now, ttl))
    && (Dedupe.Fresh(a, k, now, ttl) ==> a[k] == b[k])
  }

  ghost predicate SameDedupe(r: string, a: map<string, int>, b: map<string, int>, now: int, ttl: int) {
    forall k :: DedupeKeyOf(r, k) ==> SameFresh(a, b, k, now, ttl)
  }

  /** Two engine states that look alike to reader r from the instant now on. */
  ghost predicate SameFor(r: string, a: Core, b: Core, now: int, ttl: int) {
    && SameAt(a.readers, b.readers, r)
    && SameCooldown(r, a.cooldown, b.cooldown)
    && SameDedupe(r, a.dedupe, b.dedupe, now, ttl)
  }

  lemma SameForLater(r: string, a: Core, b: Core, now: int, later: int, ttl: int)
    requires SameFor(r, a, b, now, ttl) && now <= later
    ensures SameFor(r, a, b, later, ttl)
  {
    forall k | DedupeKeyOf(r, k)
      ensures SameFresh(a.dedupe, b.dedupe, k, later, ttl)
    {
      assert SameFresh(a.dedupe, b.dedupe, k, now, ttl);
    }
  }

  // ---------- Cooldown requests ----------

  lemma ForeignPermit(r: string, q: string, last: map<string, int>, key: string, now: int, cd: int)
    requires r != q && (cd > 0 ==> ApartInCooldown(r, q)) && CooldownKeyOf(q, key)
    ensures SameCooldown(r, last, Cooldowns.Permit(last, key, now, cd).1)
  {
    if cd > 0 {
      forall k | CooldownKeyOf(r, k)
        ensures k != key
      {
        ApartCooldownKeys(r, q, k);
      }
    }
    hide CooldownKeyOf;
  }

  lemma OwnPermit(r: string, a: map<string, int>, b: map<string, int>, key: string, now: int, cd: int)
    requires CooldownKeyOf(r, key) && SameCooldown(r, a, b)
    ensures Cooldowns.Permit(a, key, now, cd).0 == Cooldowns.Permit(b, key, now, cd).0
    ensures SameCooldown(r, Cooldowns.Permit(a, key, now, cd).1, Cooldowns.Permit(b, key, now, cd).1)
  {
    assert SameAt(a, b, key);
    hide CooldownKeyOf;
  }

  lemma SameCooldownTransitive(r: string, a: map<string, int>, b: map<string, int>, c: map<string, int>)
    requires SameCooldown(r, a, b) && SameCooldown(r, b, c)
    ensures SameCooldown(r, a, c)
  {
    hide CooldownKeyOf;
    forall k | CooldownKeyOf(r, k)
      ensures SameAt(a, c, k)
    {
      assert SameAt(a, b, k) && SameAt(b, c, k);
    }
  }

  /** A verdict of reader q: alerts about q only, and no trace under another reader's keys. */
  ghost predicate Confined(q: string, cd: int, alerts: seq<Alert>, before: map<string, int>, after: map<string, int>) {
    && (forall i :: 0 <= i < |alerts| ==> alerts[i].readerID == q)
    && (forall r :: r != q && (cd > 0 ==> ApartInCooldown(r, q)) ==> SameCooldown(r, before, after))
  }

  lemma ConfinedPermit(q: string, alerts: seq<Alert>, last: map<string, int>, key: string, now: int, cd: int)
    requires CooldownKeyOf(q, key)
    requires forall i :: 0 <= i < |alerts| ==> alerts[i].readerID == q
    ensures Confined(q, cd, alerts, last, Cooldowns.Permit(last, key, now, cd).1)
  {
    forall r | r != q && (cd > 0 ==> ApartInCooldown(r, q))
      ensures SameCooldown(r, last, Cooldowns.Permit(last, key, now, cd).1)
    {
      ForeignPermit(r, q, last, key, now, cd);
    }
  }

  lemma ConfinedTogether(q: string, cd: int, a1: seq<Alert>, c0: map<string, int>, c1: map<string, int>,
                         a2: seq<Alert>, c2: map<string, int>)
    requires Confined(q, cd, a1, c0, c1) && Confined(q, cd, a2, c1, c2)
    ensures Confined(q, cd, a1 + a2, c0, c2)
  {
    forall r | r != q && (cd > 0 ==> ApartInCooldown(r, q))
      ensures SameCooldown(r, c0, c2)
    {
      SameCooldownTransitive(r, c0, c1, c2);
    }
  }

  /** Two verdicts that reader r cannot tell apart. */
  ghost predicate SameVerdict(r: string, a: Verdict, b: Verdict) {
    a.alerts == b.alerts && SameCooldown(r, a.cooldown, b.cooldown)
  }

  lemma WindowKeyIsOwn(r: string, sec: nat)
    ensures CooldownKeyOf(r, WindowKey(r, sec))
  {
  }

  lemma AuthKeyIsOwn(r: string, raw: string)
    ensures CooldownKeyOf(r, AuthKey(r, Access.Canonical(raw)))
  {
    Access.CanonicalIsHex(raw);
  }

  // ---------- Access policy ----------

  lemma AccessConfined(cfg: Config, ev: Event, cooldown: map<string, int>, clock: Clock)
    ensures var v := EvaluateAccess(cfg, ev, cooldown, clock); Confined(ev.readerID, cfg.detection.alertCooldown, v.alerts, cooldown, v.cooldown)
  {
    hide Access.Compile, Access.Canonical, Access.IsBlacklisted, Access.IsWhitelisted, Confined, Keys.WindowKey;
    WindowKeyIsOwn(ev.readerID, 0);
    var v := EvaluateAccess(cfg, ev, cooldown, clock);
    ConfinedPermit(ev.readerID, v.alerts, cooldown, WindowKey(ev.readerID, 0), clock(AtAccess), cfg.detection.alertCooldown);
    NothingConfined(ev.readerID, cfg.detection.alertCooldown, cooldown);
  }

  lemma NothingConfined(q: string, cd: int, c: map<string, int>)
    ensures Confined(q, cd, [], c, c)
  {
  }

  lemma AccessCongruent(cfg: Config, ev: Event, a: map<string, int>, b: map<string, int>, clock: Clock)
    requires SameCooldown(ev.readerID, a, b)
    ensures SameVerdict(ev.readerID, EvaluateAccess(cfg, ev, a, clock), EvaluateAccess(cfg, ev, b, clock))
  {
    hide Access.Compile, Access.Canonical, Access.IsBlacklisted, Access.IsWhitelisted, SameCooldown, Keys.WindowKey,
         Cooldowns.Permit;
    WindowKeyIsOwn(ev.readerID, 0);
    OwnPermit(ev.readerID, a, b, WindowKey(ev.readerID, 0), clock(AtAccess), cfg.detection.alertCooldown);
  }

  // ---------- Authentication streaks ----------

  lemma AuthConfined(cfg: DetectionConfig, id: string, streak: map<string, int>, ev: Event,
                     cooldown: map<string, int>, clock: Clock)
    ensures var v := EvaluateAuthStreak(cfg, id, streak, ev, cooldown, clock); Confined(id, cfg.alertCooldown, v.alerts, cooldown, v.cooldown)
  {
    var uid := Access.Canonical(ev.uid);
    AuthKeyIsOwn(id, ev.uid);
    hide Access.Canonical, Confined, Keys.AuthKey;
    var v := EvaluateAuthStreak(cfg, id, streak, ev, cooldown, clock);
    ConfinedPermit(id, v.alerts, cooldown, AuthKey(id, uid), clock(AtStreak), cfg.alertCooldown);
    NothingConfined(id, cfg.alertCooldown, cooldown);
  }

  lemma AuthCongruent(cfg: DetectionConfig, id: string, streak: map<string, int>, ev: Event,
                      a: map<string, int>, b: map<string, int>, clock: Clock)
    requires SameCooldown(id, a, b)
    ensures SameVerdict(id, EvaluateAuthStreak(cfg, id, streak, ev, a, clock),
                        EvaluateAuthStreak(cfg, id, streak, ev, b, clock))
  {
    AuthKeyIsOwn(id, ev.uid);
    hide Access.Canonical, SameCooldown, Keys.AuthKey, Cooldowns.Permit;
    OwnPermit(id, a, b, AuthKey(id, Access.Canonical(ev.uid)), clock(AtStreak), cfg.alertCooldown);
  }

  // ---------- Windows ----------

  lemma EvaluateConfined(cfg: DetectionConfig, q: string, wm: WindowMetrics, cooldown: map<string, int>, clock: Clock)
    requires cfg.Valid() && wm.tv >= 0.0 && wm.windowSec >= 0
    ensures var v := Evaluate(cfg, q, wm, cooldown, clock); Confined(q, cfg.alertCooldown, v.alerts, cooldown, v.cooldown)
  {
    hide Rules, Score, Severity, Confined, Keys.WindowKey;
    WindowKeyIsOwn(q, wm.windowSec);
    var v := Evaluate(cfg, q, wm, cooldown, clock);
    ConfinedPermit(q, v.alerts, cooldown, WindowKey(q, wm.windowSec), clock(AtWindow(wm.windowSec)), cfg.alertCooldown);
    NothingConfined(q, cfg.alertCooldown, cooldown);
  }

  lemma EvaluateCongruent(cfg: DetectionConfig, r: string, wm: WindowMetrics, a: map<string, int>, b: map<string, int>,
                          clock: Clock)
    requires cfg.Valid() && wm.tv >= 0.0 && wm.windowSec >= 0
    requires SameCooldown(r, a, b)
    ensures SameVerdict(r, Evaluate(cfg, r, wm, a, clock), Evaluate(cfg, r, wm, b, clock))
  {
    hide Rules, Score, Severity, SameCooldown, Keys.WindowKey, Cooldowns.Permit;
    WindowKeyIsOwn(r, wm.windowSec);
    OwnPermit(r, a, b, WindowKey(r, wm.windowSec), clock(AtWindow(wm.windowSec)), cfg.alertCooldown);
  }

  lemma {:induction false} PassConfined(
    cfg: DetectionConfig, q: string, e: Window.EventEntry, windows: map<int, WindowView>, keys: seq<int>,
    cooldown: map<string, int>, clock: Clock)
    requires cfg.Valid() && PositiveDurations(windows)
    requires forall i :: 0 <= i < |keys| ==> keys[i] in windows
    ensures var p := WindowPass(cfg, q, e, windows, keys, cooldown, clock);
            Confined(q, cfg.alertCooldown, p.alerts, cooldown, p.cooldown)
  {
    if keys == [] {
      NothingConfined(q, cfg.alertCooldown, cooldown);
    } else {
      var front, k := keys[..|keys| - 1], keys[|keys| - 1];
      PassConfined(cfg, q, e, windows, front, cooldown, clock);
      var p := WindowPass(cfg, q, e, windows, front, cooldown, clock);
      var w := PushView(p.windows[k], e);
      var wm := MetricsOfView(w);
      var v := Evaluate(cfg, q, wm, p.cooldown, clock);
      EvaluateConfined(cfg, q, wm, p.cooldown, clock);
      hide Evaluate, Confined;
      ConfinedTogether(q, cfg.alertCooldown, p.alerts, cooldown, p.cooldown, v.alerts, v.cooldown);
    }
  }

  lemma {:induction false} PassCongruent(
    cfg: DetectionConfig, r: string, e: Window.EventEntry, windows: map<int, WindowView>, keys: seq<int>,
    a: map<string, int>, b: map<string, int>, clock: Clock)
    requires cfg.Valid() && PositiveDurations(windows)
    requires forall i :: 0 <= i < |keys| ==> keys[i] in windows
    requires SameCooldown(r, a, b)
    ensures var p, q := WindowPass(cfg, r, e, windows, keys, a, clock), WindowPass(cfg, r, e, windows, keys, b, clock);
            && p.windows == q.windows && p.alerts == q.alerts && p.metrics == q.metrics
            && SameCooldown(r, p.cooldown, q.cooldown)
  {
    hide Evaluate, SameCooldown, Window.Push;
    if keys != [] {
      var front, k := keys[..|keys| - 1], keys[|keys| - 1];
      PassCongruent(cfg, r, e, windows, front, a, b, clock);
      var p := WindowPass(cfg, r, e, windows, front, a, clock);
      var q := WindowPass(cfg, r, e, windows, front, b, clock);
      EvaluateCongruent(cfg, r, MetricsOfView(PushView(p.windows[k], e)), p.cooldown, q.cooldown, clock);
    }
  }

  // ---------- Dedupe ----------

  lemma ForeignDuplicate(cfg: DetectionConfig, r: string, items: map<string, int>, ev: Event, clock: Clock)
    requires Normal(ev) && r != ev.readerID && (cfg.dedupeWindow > 0 ==> ApartInDedupe(r, ev.readerID))
    ensures SameDedupe(r, items, CheckDuplicate(cfg, items, ev, clock).1, clock(AtDedupe), cfg.dedupeWindow)
  {
    hide Keys.DedupeKey, DedupeKeyOf;
    var key := DedupeKey(ev);
    if cfg.dedupeWindow > 0 {
      OwnDedupeKey(ev);
      forall k | DedupeKeyOf(r, k)
        ensures k != key
      {
        ApartDedupeKeys(r, ev.readerID, key);
      }
    }
  }

  lemma OwnDedupeKey(ev: Event)
    requires Normal(ev)
    ensures DedupeKeyOf(ev.readerID, DedupeKey(ev))
  {
  }

  lemma LookupKeepsSameFresh(a: map<string, int>, b: map<string, int>, key: string, now: int, ttl: int, k: string)
    requires SameFresh(a, b, key, now, ttl) && SameFresh(a, b, k, now, ttl)
    ensures Dedupe.Lookup(a, key, now, ttl, true).0 == Dedupe.Lookup(b, key, now, ttl, true).0
    ensures SameFresh(Dedupe.Lookup(a, key, now, ttl, true).1, Dedupe.Lookup(b, key, now, ttl, true).1, k, now, ttl)
  {
  }

  lemma OwnDuplicate(cfg: DetectionConfig, a: map<string, int>, b: map<string, int>, ev: Event, clock: Clock)
    requires Normal(ev) && SameDedupe(ev.readerID, a, b, clock(AtDedupe), cfg.dedupeWindow)
    ensures CheckDuplicate(cfg, a, ev, clock).0 == CheckDuplicate(cfg, b, ev, clock).0
    ensures SameDedupe(ev.readerID, CheckDuplicate(cfg, a, ev, clock).1, CheckDuplicate(cfg, b, ev, clock).1,
                       clock(AtDedupe), cfg.dedupeWindow)
  {
    var key := DedupeKey(ev);
    OwnDedupeKey(ev);
    hide Keys.DedupeKey, DedupeKeyOf, Dedupe.Lookup, SameFresh;
    var now, ttl := clock(AtDedupe), cfg.dedupeWindow;
    LookupKeepsSameFresh(a, b, key, now, ttl, key);
    forall k | DedupeKeyOf(ev.readerID, k)
      ensures SameFresh(CheckDuplicate(cfg, a, ev, clock).1, CheckDuplicate(cfg, b, ev, clock).1, k, now, ttl)
    {
      LookupKeepsSameFresh(a, b, key, now, ttl, k);
    }
  }

  // ---------- Steps ----------

  ghost predicate OthersUntouched(q: string, a: Core, b: Core) {
    forall r :: r != q ==> SameAt(a.readers, b.readers, r)
  }

  lemma AdmitConfined(cfg: Config, core: Core, ev: Event, clock: Clock)
    requires cfg.Valid() && ValidCore(core) && ev.readerID != ""
    ensures var o := Admit(cfg, core, ev, clock);
            && Confined(ev.readerID, cfg.detection.alertCooldown, o.alerts, core.cooldown, o.core.cooldown)
            && o.core.dedupe == core.dedupe
            && OthersUntouched(ev.readerID, core, o.core)
  {
    var q := ev.readerID;
    var access := EvaluateAccess(cfg, ev, core.cooldown, clock);
    var reader := OpenReader(cfg.detection, core.readers, q);
    OpenReaderPositive(cfg.detection, core, q);
    var auth := EvaluateAuthStreak(cfg.detection, q, reader.streak, ev, access.cooldown, clock);
    var keys := SortedKeys(reader.windows.Keys);
    var pass := WindowPass(cfg.detection, q, EntryOf(ev), reader.windows, keys, auth.cooldown, clock);
    AccessConfined(cfg, ev, core.cooldown, clock);
    AuthConfined(cfg.detection, q, reader.streak, ev, access.cooldown, clock);
    PassConfined(cfg.detection, q, EntryOf(ev), reader.windows, keys, auth.cooldown, clock);
    hide Confined, EvaluateAccess, EvaluateAuthStreak, OpenReader, WindowPass, SortedKeys, NextStreak;
    ConfinedTogether(q, cfg.detection.alertCooldown, access.alerts, core.cooldown, access.cooldown, auth.alerts, auth.cooldown);
    ConfinedTogether(q, cfg.detection.alertCooldown, access.alerts + auth.alerts, core.cooldown, auth.cooldown, pass.alerts, pass.cooldown);
  }

  /** A step of reader q in outline: what it may touch outside q's own entries. */
  lemma StepConfined(cfg: Config, core: Core, ev: Event, clock: Clock)
    requires cfg.Valid() && ValidCore(core) && ev.readerID != ""
    ensures var o := Step(cfg, core, ev, clock);
            && Confined(ev.readerID, cfg.detection.alertCooldown, o.alerts, core.cooldown, o.core.cooldown)
            && o.core.dedupe == CheckDuplicate(cfg.detection, core.dedupe, Clamp(cfg.detection, ev, clock), clock).1
            && OthersUntouched(ev.readerID, core, o.core)
  {
    var e := Clamp(cfg.detection, ev, clock);
    var (duplicate, dedupe) := CheckDuplicate(cfg.detection, core.dedupe, e, clock);
    AdmitConfined(cfg, core.(dedupe := dedupe), e, clock);
    hide Confined, CheckDuplicate, Admit;
    if duplicate {
      NothingConfined(ev.readerID, cfg.detection.alertCooldown, core.cooldown);
    }
  }

  /** Two readers that share no entry of any cache that this configuration uses. */
  predicate IndependentUnder(d: DetectionConfig, r: string, q: string) {
    || r == q
    || ((d.dedupeWindow > 0 ==> ApartInDedupe(r, q)) && (d.alertCooldown > 0 ==> ApartInCooldown(r, q)))
  }

  /** An event of one reader is invisible to every independent one. */
  lemma ForeignStep(cfg: Config, core: Core, ev: Event, clock: Clock, r: string)
    requires cfg.Valid() && ValidCore(core)
    requires Normal(ev) && r != ev.readerID && IndependentUnder(cfg.detection, r, ev.readerID)
    ensures SameFor(r, core, Step(cfg, core, ev, clock).core, clock(AtDedupe), cfg.detection.dedupeWindow)
  {
    StepConfined(cfg, core, ev, clock);
    ForeignDuplicate(cfg.detection, r, core.dedupe, Clamp(cfg.detection, ev, clock), clock);
    hide Step, SameDedupe, SameCooldown, CheckDuplicate;
  }

  lemma OwnAdmit(cfg: Config, a: Core, b: Core, ev: Event, clock: Clock)
    requires cfg.Valid() && ValidCore(a) && ValidCore(b) && ev.readerID != ""
    requires SameAt(a.readers, b.readers, ev.readerID) && SameCooldown(ev.readerID, a.cooldown, b.cooldown)
    ensures var o, p := Admit(cfg, a, ev, clock), Admit(cfg, b, ev, clock);
            && o.alerts == p.alerts && o.metrics == p.metrics
            && SameAt(o.core.readers, p.core.readers, ev.readerID)
            && SameCooldown(ev.readerID, o.core.cooldown, p.core.cooldown)
  {
    var r := ev.readerID;
    var reader := OpenReader(cfg.detection, a.readers, r);
    assert reader == OpenReader(cfg.detection, b.readers, r);
    OpenReaderPositive(cfg.detection, a, r);
    var access1, access2 := EvaluateAccess(cfg, ev, a.cooldown, clock), EvaluateAccess(cfg, ev, b.cooldown, clock);
    AccessCongruent(cfg, ev, a.cooldown, b.cooldown, clock);
    var auth1 := EvaluateAuthStreak(cfg.detection, r, reader.streak, ev, access1.cooldown, clock);
    var auth2 := EvaluateAuthStreak(cfg.detection, r, reader.streak, ev, access2.cooldown, clock);
    AuthCongruent(cfg.detection, r, reader.streak, ev, access1.cooldown, access2.cooldown, clock);
    PassCongruent(cfg.detection, r, EntryOf(ev), reader.windows, SortedKeys(reader.windows.Keys),
                  auth1.cooldown, auth2.cooldown, clock);
    hide SameCooldown, EvaluateAccess, EvaluateAuthStreak, OpenReader, WindowPass, SortedKeys, NextStreak;
  }

  /** What a reader's own event does depends only on what that reader can see. */
  lemma OwnStep(cfg: Config, a: Core, b: Core, ev: Event, clock: Clock)
    requires cfg.Valid() && ValidCore(a) && ValidCore(b) && Normal(ev)
    requires SameFor(ev.readerID, a, b, clock(AtDedupe), cfg.detection.dedupeWindow)
    ensures var o, p := Step(cfg, a, ev, clock), Step(cfg, b, ev, clock);
            && SameFor(ev.readerID, o.core, p.core, clock(AtDedupe), cfg.detection.dedupeWindow)
            && o.admitted == p.admitted && o.alerts == p.alerts && o.metrics == p.metrics
  {
    var e := Clamp(cfg.detection, ev, clock);
    OwnDuplicate(cfg.detection, a.dedupe, b.dedupe, e, clock);
    var d1 := CheckDuplicate(cfg.detection, a.dedupe, e, clock).1;
    var d2 := CheckDuplicate(cfg.detection, b.dedupe, e, clock).1;
    hide SameDedupe, SameCooldown, CheckDuplicate, EvaluateAccess, EvaluateAuthStreak, OpenReader, WindowPass, SortedKeys,
         NextStreak;
    OwnAdmit(cfg, a.(dedupe := d1), b.(dedupe := d2), e, clock);
  }

  // ---------- Runs ----------

  /** Events are normal, and their readers independent of r. */
  ghost predicate IndependentOf(d: DetectionConfig, ops: seq<Op>, r: string) {
    forall i :: 0 <= i < |ops| && ops[i].Process? ==>
      Normal(ops[i].ev) && IndependentUnder(d, r, ops[i].ev.readerID)
  }

  /** No new configuration changes the dedupe window, or begins to use the cooldown. */
  ghost predicate Keeps(d: DetectionConfig, op: Op) {
    op.Configure? ==>
      && op.cfg.detection.dedupeWindow == d.dedupeWindow
      && (d.alertCooldown <= 0 ==> op.cfg.detection.alertCooldown <= 0)
  }

  ghost predicate Steady(d: DetectionConfig, ops: seq<Op>) {
    forall i :: 0 <= i < |ops| ==> Keeps(d, ops[i])
  }

  lemma AboutOwn(before: seq<Alert>, more: seq<Alert>, r: string, q: string)
    requires forall i :: 0 <= i < |more| ==> more[i].readerID == q
    ensures About(before + more, r) == About(before, r) + (if q == r then more else [])
  {
    var p := (a: Alert) => a.readerID == r;
    FilterAppend(before, more, p);
    if q == r {
      FilterAll(more, p);
    } else {
      FilterNone(more, p);
    }
  }

  /** A run and the one with reader r's events alone, as far as r can tell from the instant now on. */
  ghost predicate Alike(d: DetectionConfig, r: string, all: State, own: State, now: int) {
    && all.cfg == own.cfg
    && all.cfg.detection.dedupeWindow == d.dedupeWindow
    && (d.alertCooldown <= 0 ==> all.cfg.detection.alertCooldown <= 0)
    && SameFor(r, all.core, own.core, now, d.dedupeWindow)
    && About(all.log, r) == own.log
  }

  lemma AlikeLater(d: DetectionConfig, r: string, all: State, own: State, now: int, later: int)
    requires Alike(d, r, all, own, now) && now <= later
    ensures Alike(d, r, all, own, later)
  {
    hide SameFor, About;
    SameForLater(r, all.core, own.core, now, later, d.dedupeWindow);
  }

  lemma OwnProcess(d: DetectionConfig, r: string, all: State, own: State, ev: Event, clock: Clock)
    requires all.Valid() && own.Valid() && Normal(ev) && ev.readerID == r
    requires Alike(d, r, all, own, clock(AtDedupe))
    ensures Alike(d, r, Apply(all, Process(ev, clock)), Apply(own, Process(ev, clock)), clock(AtDedupe))
  {
    OwnStep(all.cfg, all.core, own.core, ev, clock);
    StepConfined(all.cfg, all.core, ev, clock);
    hide Step, SameFor, About;
    AboutOwn(all.log, Step(all.cfg, all.core, ev, clock).alerts, r, r);
  }

  lemma ForeignProcess(d: DetectionConfig, r: string, all: State, own: State, ev: Event, clock: Clock)
    requires all.Valid() && Normal(ev) && ev.readerID != r && IndependentUnder(d, r, ev.readerID)
    requires Alike(d, r, all, own, clock(AtDedupe))
    ensures Alike(d, r, Apply(all, Process(ev, clock)), own, clock(AtDedupe))
  {
    ForeignStep(all.cfg, all.core, ev, clock, r);
    StepConfined(all.cfg, all.core, ev, clock);
    hide Step, SameFor, About;
    var o := Step(all.cfg, all.core, ev, clock);
    AboutOwn(all.log, o.alerts, r, ev.readerID);
    SameForTransitive(r, o.core, all.core, own.core, clock(AtDedupe), d.dedupeWindow);
  }

  lemma OtherOp(d: DetectionConfig, r: string, all: State, own: State, op: Op, now: int)
    requires all.Valid() && own.Valid() && ValidOp(op) && !op.Process? && Keeps(d, op)
    requires Alike(d, r, all, own, now)
    ensures Alike(d, r, Apply(all, op), Apply(own, op), now)
  {
    assert About([], r) == [];
    assert SameFor(r, EMPTY_CORE, EMPTY_CORE, now, d.dedupeWindow);
    hide SameFor, About, Step;
  }

  lemma {:induction false} RunsLookAlike(cfg: Config, ops: seq<Op>, r: string, now: int)
    requires cfg.Valid() && ValidOps(ops) && Steady(cfg.detection, ops)
    requires r != "" && ChecksAdvance(ops, now) && IndependentOf(cfg.detection, ops, r)
    ensures Alike(cfg.detection, r, RunOps(cfg, ops), RunOps(cfg, Only(ops, r)), now)
  {
    hide Apply, SameFor;
    if |ops| == 0 {
      NothingAlike(cfg, r, now);
    } else {
      var n, d := |ops| - 1, cfg.detection;
      var front, op := ops[..n], ops[n];
      var at := if op.Process? then op.clock(AtDedupe) else now;
      RunsLookAlike(cfg, front, r, at);
      var all, own := RunOps(cfg, front), RunOps(cfg, Only(front, r));
      assert Keeps(d, op);
      if op.Process? && op.ev.readerID != r {
        ForeignProcess(d, r, all, own, op.ev, op.clock);
      } else {
        RunSnoc(cfg, Only(front, r), op);
        if op.Process? {
          OwnProcess(d, r, all, own, op.ev, op.clock);
        } else {
          OtherOp(d, r, all, own, op, now);
        }
      }
      AlikeLater(d, r, RunOps(cfg, ops), RunOps(cfg, Only(ops, r)), at, now);
    }
  }

  lemma NothingAlike(cfg: Config, r: string, now: int)
    requires cfg.Valid()
    ensures Alike(cfg.detection, r, RunOps(cfg, []), RunOps(cfg, []), now)
  {
    assert About([], r) == [];
  }

  lemma SameForTransitive(r: string, a: Core, b: Core, c: Core, now: int, ttl: int)
    requires SameFor(r, b, a, now, ttl) && SameFor(r, b, c, now, ttl)
    ensures SameFor(r, a, c, now, ttl)
  {
    hide CooldownKeyOf, DedupeKeyOf;
    forall k | CooldownKeyOf(r, k)
      ensures SameAt(a.cooldown, c.cooldown, k)
    {
      assert SameAt(b.cooldown, a.cooldown, k) && SameAt(b.cooldown, c.cooldown, k);
    }
    forall k | DedupeKeyOf(r, k)
      ensures SameFresh(a.dedupe, c.dedupe, k, now, ttl)
    {
      assert SameFresh(b.dedupe, a.dedupe, k, now, ttl) && SameFresh(b.dedupe, c.dedupe, k, now, ttl);
    }
  }

  /** Reader r ends as in the run with its own events alone, and the same is said about it. */
  ghost predicate Undisturbed(cfg: Config, ops: seq<Op>, r: string)
    requires cfg.Valid() && ValidOps(ops)
  {
    var all, own := RunOps(cfg, ops), RunOps(cfg, Only(ops, r));
    SameAt(all.core.readers, own.core.readers, r) && About(all.log, r) == own.log
  }

  /**
   For any interleaving of readers, restarts, clears and configuration changes, what reader r ends up
   with and every alert about it are those of the run without the others' events: nothing leaks through
   the shared caches or their compaction.
   */
  lemma ReaderNonInterference(cfg: Config, ops: seq<Op>, r: string, now: int)
    requires cfg.Valid() && ValidOps(ops) && Steady(cfg.detection, ops)
    requires r != "" && ChecksAdvance(ops, now) && IndependentOf(cfg.detection, ops, r)
    ensures Undisturbed(cfg, ops, r)
  {
    hide RunOps, About, SameAt;
    RunsLookAlike(cfg, ops, r, now);
    SeenAlike(r, RunOps(cfg, ops).core, RunOps(cfg, Only(ops, r)).core, now, cfg.detection.dedupeWindow);
  }

  lemma SeenAlike(r: string, a: Core, b: Core, now: int, ttl: int)
    requires SameFor(r, a, b, now, ttl)
    ensures SameAt(a.readers, b.readers, r)
  {
  }
}
