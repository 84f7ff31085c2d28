/**
 One call of ProcessEvent as a function: clamp, dedupe, access policy, authentication streak, and
 every sliding window of the reader with its rules, on values instead of objects.
 */
module Detection {
  import opened Model
  import opened Sequences
  import opened Window
  import Keys
  import Access
  import Cooldowns
  import Dedupe

  datatype WindowView = WindowView(duration: int, live: seq<EventEntry>)

  datatype ReaderView = ReaderView(windows: map<int, WindowView>, streak: map<string, int>)

  datatype Core = Core(readers: map<string, ReaderView>, cooldown: map<string, int>, dedupe: map<string, int>)

  const EMPTY_CORE := Core(map[], map[], map[])

  ghost predicate PositiveDurations(windows: map<int, WindowView>) {
    forall s :: s in windows ==> windows[s].duration > 0
  }

  ghost predicate ValidCore(core: Core) {
    forall r :: r in core.readers ==> PositiveDurations(core.readers[r].windows)
  }

  // ---------- Timestamps and duplicates ----------

  function ClampTimestamp(ts: int, now: int, maxPast: int, maxFuture: int): int {
    if ts == 0 then now
    else if maxPast > 0 && now - ts > maxPast then now
    else if maxFuture > 0 && ts - now > maxFuture then now
    else ts
  }

  function Clamp(cfg: DetectionConfig, ev: Event, clock: Clock): Event {
    ev.(timestamp := ClampTimestamp(ev.timestamp, clock(AtStart), cfg.maxClockSkew, cfg.maxFutureSkew))
  }

  function CheckDuplicate(cfg: DetectionConfig, dedupe: map<string, int>, ev: Event, clock: Clock)
    : (bool, map<string, int>)
  {
    if cfg.dedupeWindow <= 0 then (false, dedupe)
    else Dedupe.Lookup(dedupe, Keys.DedupeKey(ev), clock(AtDedupe), cfg.dedupeWindow, true)
  }

  // ---------- Access policy and streaks ----------

  /** At most one alert, and the cooldown map after asking for permission to send it. */
  datatype Verdict = Verdict(alerts: seq<Alert>, cooldown: map<string, int>)

  function UidContext(ev: Event): map<string, string> {
    map["uid" := Access.Canonical(ev.uid), "uid_raw" := ev.uid, "source" := ev.source,
        "result" := ev.result, "error_code" := ev.errorCode]
  }

  function UidAlert(ev: Event, readerID: string, severity: string, rule: string, at: int): Alert {
    Alert(at, readerID, severity, rule, 0, NO_METRICS, 0.0, [rule], UidContext(ev))
  }

  function AccessAlert(cfg: Config, ev: Event, severity: string, rule: string, cooldown: map<string, int>, clock: Clock)
    : Verdict
  {
    var (allowed, cooldown') :=
      Cooldowns.Permit(cooldown, Keys.WindowKey(ev.readerID, 0), clock(AtAccess), cfg.detection.alertCooldown);
    Verdict(if allowed then [UidAlert(ev, ev.readerID, severity, rule, clock(AtAccessStamp))] else [], cooldown')
  }

  function EvaluateAccess(cfg: Config, ev: Event, cooldown: map<string, int>, clock: Clock): Verdict {
    var ac, uid := Access.Compile(cfg.access), Access.Canonical(ev.uid);
    if !ac.enabled || ev.uid == "" || uid == "" then Verdict([], cooldown)
    else if Access.IsBlacklisted(ac, ev.readerID, uid) then
      AccessAlert(cfg, ev, "critical", "blacklisted_uid", cooldown, clock)
    else if ac.whitelistOnly && !Access.IsWhitelisted(ac, ev.readerID, uid) then
      AccessAlert(cfg, ev, "high", "whitelist_violation", cooldown, clock)
    else Verdict([], cooldown)
  }

  predicate IsAuthFailure(ev: Event) {
    ev.result == RESULT_FAILURE && ev.errorCode != ""
  }

  /** The streaks after one event: only that of its own UID changes. */
  function NextStreak(streak: map<string, int>, ev: Event): map<string, int> {
    var uid := Access.Canonical(ev.uid);
    if uid == "" then streak
    else if !IsAuthFailure(ev) then streak[uid := 0]
    else streak[uid := (if uid in streak then streak[uid] else 0) + 1]
  }

  function EvaluateAuthStreak(
    cfg: DetectionConfig, id: string, streak: map<string, int>, ev: Event, cooldown: map<string, int>, clock: Clock)
    : Verdict
  {
    var uid, streak' := Access.Canonical(ev.uid), NextStreak(streak, ev);
    if uid == "" || streak'[uid] < 2 then Verdict([], cooldown)
    else
      var (allowed, cooldown') :=
        Cooldowns.Permit(cooldown, Keys.AuthKey(id, uid), clock(AtStreak), cfg.alertCooldown);
      Verdict(if allowed then [UidAlert(ev, id, "medium", "repeated_auth_failure", clock(AtStreakStamp))] else [],
              cooldown')
  }

  // ---------- Readers and their windows ----------

  function NewWindows(durations: seq<int>): map<int, WindowView> {
    if durations == [] then map[]
    else
      var d := durations[|durations| - 1];
      NewWindows(durations[..|durations| - 1])[WholeSeconds(d) := WindowView(d, [])]
  }

  function AddMissing(windows: map<int, WindowView>, durations: seq<int>): map<int, WindowView> {
    if durations == [] then windows
    else
      var before, d := AddMissing(windows, durations[..|durations| - 1]), durations[|durations| - 1];
      if WholeSeconds(d) in before then before else before[WholeSeconds(d) := WindowView(d, [])]
  }

  /** The reader as getReader hands it out: new, or with any newly configured windows added. */
  function OpenReader(cfg: DetectionConfig, readers: map<string, ReaderView>, id: string): ReaderView {
    if id in readers then readers[id].(windows := AddMissing(readers[id].windows, cfg.windows))
    else ReaderView(NewWindows(cfg.windows), map[])
  }

  function ReaderKey(readerID: string): string {
    if readerID == "" then "unknown" else readerID
  }

  lemma LeastExists(s: set<int>)
    requires exists k :: k in s
    ensures exists m :: m in s && forall x :: x in s ==> m <= x
  {
    var k :| k in s;
    var rest := s - {k};
    if exists j :: j in rest {
      LeastExists(rest);
      var m :| m in rest && forall x :: x in rest ==> m <= x;
      var least := if m <= k then m else k;
      forall x | x in s
        ensures least <= x
      {
        assert x == k || x in rest;
      }
      assert least in s;
    } else {
      forall x | x in s
        ensures k <= x
      {
        assert x == k || x in rest;
      }
    }
  }

  function Least(s: set<int>): (m: int)
    requires exists k :: k in s
    ensures m in s && forall x :: x in s ==> m <= x
  {
    LeastExists(s);
    var m :| m in s && forall x :: x in s ==> m <= x;
    m
  }

  /** The keys in ascending order. */
  function SortedKeys(s: set<int>): (r: seq<int>)
    ensures forall k :: k in r <==> k in s
    ensures forall i :: 0 <= i < |r| ==> r[i] in s
    decreases s
  {
    if exists k :: k in s then [Least(s)] + SortedKeys(s - {Least(s)}) else []
  }

  ghost predicate Ascending(keys: seq<int>) {
    forall i, j :: 0 <= i < j < |keys| ==> keys[i] < keys[j]
  }

  lemma AscendingCons(m: int, rest: seq<int>)
    requires Ascending(rest) && forall j :: 0 <= j < |rest| ==> m < rest[j]
    ensures Ascending([m] + rest)
  {
  }

  lemma AboveLeast(s: set<int>, m: int, rest: seq<int>)
    requires m in s && forall x :: x in s ==> m <= x
    requires forall i :: 0 <= i < |rest| ==> rest[i] in s - {m}
    ensures forall j :: 0 <= j < |rest| ==> m < rest[j]
  {
  }

  lemma {:induction false} SortedKeysAscend(s: set<int>)
    ensures Ascending(SortedKeys(s))
    decreases s
  {
    if exists k :: k in s {
      var m := Least(s);
      var rest := SortedKeys(s - {m});
      SortedKeysAscend(s - {m});
      hide Least, Ascending;
      AboveLeast(s, m, rest);
      AscendingCons(m, rest);
    }
  }

  // ---------- Rules ----------

  function Score(cfg: DetectionConfig, wm: WindowMetrics): real
    requires cfg.epsilon > 0.0 && wm.tv >= 0.0
  {
    cfg.weights.aps * wm.aps + cfg.weights.fr * wm.fr + cfg.weights.uds * wm.uds
    + cfg.weights.tv * (1.0 / (wm.tv + cfg.epsilon))
  }

  function RuleIf(holds: bool, name: string): seq<string> {
    if holds then [name] else []
  }

  function Rules(cfg: DetectionConfig, wm: WindowMetrics): seq<string>
    requires cfg.epsilon > 0.0 && wm.tv >= 0.0
  {
    RuleIf(wm.aps > cfg.apsThreshold, "excessive_attempt_rate")
    + RuleIf(wm.fr > cfg.failureRatioThreshold && wm.attempts >= cfg.minAttempts, "failure_spike")
    + RuleIf(wm.uds > cfg.uidDiversityThreshold && wm.aps > cfg.apsElevatedThreshold, "uid_spraying")
    + RuleIf(wm.tv < cfg.timingVarianceThreshold && wm.aps > cfg.apsElevatedThreshold, "machine_timing")
    + RuleIf(Score(cfg, wm) > cfg.attackScoreThreshold && wm.attempts >= cfg.minAttempts
             && wm.aps > cfg.apsElevatedThreshold, "attack_score")
  }

  function Severity(cfg: DetectionConfig, wm: WindowMetrics): string
    requires cfg.epsilon > 0.0 && wm.tv >= 0.0
  {
    var score := Score(cfg, wm);
    if score > cfg.attackScoreThreshold * 2.0 || wm.aps > cfg.apsThreshold * 2.0 then "critical"
    else if score > cfg.attackScoreThreshold || |Rules(cfg, wm)| >= 2 then "high"
    else "medium"
  }

  function WindowAlert(cfg: DetectionConfig, readerID: string, wm: WindowMetrics, at: int): Alert
    requires cfg.epsilon > 0.0 && wm.tv >= 0.0
  {
    Alert(at, readerID, Severity(cfg, wm), "possible_bruteforce", wm.windowSec, wm, Score(cfg, wm), Rules(cfg, wm),
          map["engine" := "rfguard"])
  }

  function Evaluate(cfg: DetectionConfig, readerID: string, wm: WindowMetrics, cooldown: map<string, int>, clock: Clock)
    : Verdict
    requires cfg.epsilon > 0.0 && wm.tv >= 0.0
  {
    if wm.attempts == 0 || Rules(cfg, wm) == [] then Verdict([], cooldown)
    else
      var (allowed, cooldown') :=
        Cooldowns.Permit(cooldown, Keys.WindowKey(readerID, wm.windowSec), clock(AtWindow(wm.windowSec)), cfg.alertCooldown);
      Verdict(if allowed then [WindowAlert(cfg, readerID, wm, clock(AtWindowStamp(wm.windowSec)))] else [], cooldown')
  }

  // ---------- The pass over a reader's windows ----------

  function EntryOf(ev: Event): EventEntry {
    EventEntry(ev.timestamp, ev.uid, ev.result)
  }

  datatype Pass = Pass(
    windows: map<int, WindowView>,
    cooldown: map<string, int>,
    alerts: seq<Alert>,
    metrics: seq<WindowMetrics>)

  function PushView(w: WindowView, e: EventEntry): WindowView {
    w.(live := Push(w.duration, w.live, e))
  }

  function MetricsOfView(w: WindowView): (wm: WindowMetrics)
    requires w.duration > 0
    ensures wm.tv >= 0.0
  {
    MetricsOf(w.duration, w.live)
  }

  /** Every window pushed, measured and evaluated, in the order of the keys. */
  function WindowPass(
    cfg: DetectionConfig, readerID: string, e: EventEntry, windows: map<int, WindowView>, keys: seq<int>,
    cooldown: map<string, int>, clock: Clock) : (p: Pass)
    requires cfg.Valid() && PositiveDurations(windows)
    requires forall i :: 0 <= i < |keys| ==> keys[i] in windows
    ensures PositiveDurations(p.windows) && p.windows.Keys == windows.Keys
    ensures |p.metrics| == |keys|
  {
    if keys == [] then Pass(windows, cooldown, [], [])
    else
      var k := keys[|keys| - 1];
      var p := WindowPass(cfg, readerID, e, windows, keys[..|keys| - 1], cooldown, clock);
      var w := PushView(p.windows[k], e);
      var wm := MetricsOfView(w);
      var v := Evaluate(cfg, readerID, wm, p.cooldown, clock);
      Pass(p.windows[k := w], v.cooldown, p.alerts + v.alerts, p.metrics + [wm])
  }

  /** One more window of the pass. */
  function PassOne(cfg: DetectionConfig, readerID: string, e: EventEntry, k: int, p: Pass, clock: Clock): Pass
    requires cfg.Valid() && k in p.windows && p.windows[k].duration > 0
  {
    var w := PushView(p.windows[k], e);
    var v := Evaluate(cfg, readerID, MetricsOfView(w), p.cooldown, clock);
    Pass(p.windows[k := w], v.cooldown, p.alerts + v.alerts, p.metrics + [MetricsOfView(w)])
  }

  lemma PassSnoc(
    cfg: DetectionConfig, readerID: string, e: EventEntry, windows: map<int, WindowView>, front: seq<int>, k: int,
    cooldown: map<string, int>, clock: Clock)
    requires cfg.Valid() && PositiveDurations(windows) && k in windows
    requires forall i :: 0 <= i < |front| ==> front[i] in windows
    ensures var p := WindowPass(cfg, readerID, e, windows, front, cooldown, clock);
            && k in p.windows && p.windows[k].duration > 0
            && WindowPass(cfg, readerID, e, windows, front + [k], cooldown, clock) == PassOne(cfg, readerID, e, k, p, clock)
  {
    assert (front + [k])[..|front|] == front;
    hide Evaluate, MetricsOfView, PushView;
  }

  /** The pass over the first i windows of a reader, shortest first. */
  function PassUpTo(
    cfg: DetectionConfig, ev: Event, windows: map<int, WindowView>, i: nat, cooldown: map<string, int>, clock: Clock)
    : Pass
    requires cfg.Valid() && PositiveDurations(windows) && i <= |SortedKeys(windows.Keys)|
  {
    WindowPass(cfg, ev.readerID, EntryOf(ev), windows, SortedKeys(windows.Keys)[..i], cooldown, clock)
  }

  function FullPass(cfg: DetectionConfig, ev: Event, windows: map<int, WindowView>, cooldown: map<string, int>, clock: Clock)
    : Pass
    requires cfg.Valid() && PositiveDurations(windows)
  {
    WindowPass(cfg, ev.readerID, EntryOf(ev), windows, SortedKeys(windows.Keys), cooldown, clock)
  }

  lemma PassUpToEnds(
    cfg: DetectionConfig, ev: Event, windows: map<int, WindowView>, cooldown: map<string, int>, clock: Clock)
    requires cfg.Valid() && PositiveDurations(windows)
    ensures PassUpTo(cfg, ev, windows, 0, cooldown, clock) == Pass(windows, cooldown, [], [])
    ensures PassUpTo(cfg, ev, windows, |SortedKeys(windows.Keys)|, cooldown, clock) == FullPass(cfg, ev, windows, cooldown, clock)
  {
    var keys := SortedKeys(windows.Keys);
    assert keys[..|keys|] == keys;
  }

  lemma PassUpToNext(
    cfg: DetectionConfig, ev: Event, windows: map<int, WindowView>, i: nat, cooldown: map<string, int>, clock: Clock)
    requires cfg.Valid() && PositiveDurations(windows) && i < |SortedKeys(windows.Keys)|
    ensures var p, k := PassUpTo(cfg, ev, windows, i, cooldown, clock), SortedKeys(windows.Keys)[i];
            && k in p.windows && p.windows[k].duration > 0
            && PassUpTo(cfg, ev, windows, i + 1, cooldown, clock) == PassOne(cfg, ev.readerID, EntryOf(ev), k, p, clock)
  {
    var keys := SortedKeys(windows.Keys);
    hide SortedKeys, WindowPass, PassOne;
    PassSnoc(cfg, ev.readerID, EntryOf(ev), windows, keys[..i], keys[i], cooldown, clock);
    TakeSnoc(keys, i);
  }

  // ---------- ProcessEvent ----------

  datatype Outcome = Outcome(core: Core, admitted: bool, alerts: seq<Alert>, metrics: seq<WindowMetrics>)

  lemma {:induction false} NewWindowsPositive(durations: seq<int>)
    requires forall i :: 0 <= i < |durations| ==> durations[i] > 0
    ensures PositiveDurations(NewWindows(durations))
  {
    if durations != [] {
      NewWindowsPositive(durations[..|durations| - 1]);
    }
  }

  lemma {:induction false} AddMissingPositive(windows: map<int, WindowView>, durations: seq<int>)
    requires PositiveDurations(windows) && forall i :: 0 <= i < |durations| ==> durations[i] > 0
    ensures PositiveDurations(AddMissing(windows, durations))
  {
    if durations != [] {
      AddMissingPositive(windows, durations[..|durations| - 1]);
    }
  }

  lemma OpenReaderPositive(cfg: DetectionConfig, core: Core, id: string)
    requires cfg.Valid() && ValidCore(core)
    ensures PositiveDurations(OpenReader(cfg, core.readers, id).windows)
  {
    NewWindowsPositive(cfg.windows);
    if id in core.readers {
      AddMissingPositive(core.readers[id].windows, cfg.windows);
    }
  }

  /** What an admitted event does to its reader, the cooldown and the outputs. */
  function Admit(cfg: Config, core: Core, ev: Event, clock: Clock): (o: Outcome)
    requires cfg.Valid() && ValidCore(core)
    ensures ValidCore(o.core) && o.admitted
  {
    var id := ReaderKey(ev.readerID);
    var access := EvaluateAccess(cfg, ev, core.cooldown, clock);
    var reader := OpenReader(cfg.detection, core.readers, id);
    OpenReaderPositive(cfg.detection, core, id);
    var auth := EvaluateAuthStreak(cfg.detection, id, reader.streak, ev, access.cooldown, clock);
    var pass := WindowPass(cfg.detection, ev.readerID, EntryOf(ev), reader.windows, SortedKeys(reader.windows.Keys),
                           auth.cooldown, clock);
    Outcome(
      Core(core.readers[id := ReaderView(pass.windows, NextStreak(reader.streak, ev))], pass.cooldown, core.dedupe),
      true,
      access.alerts + auth.alerts + pass.alerts,
      pass.metrics)
  }

  /** The same, one stage after another. */
  lemma AdmitInStages(cfg: Config, core: Core, ev: Event, clock: Clock)
    requires cfg.Valid() && ValidCore(core)
    ensures var id := ReaderKey(ev.readerID);
            var access := EvaluateAccess(cfg, ev, core.cooldown, clock);
            var reader := OpenReader(cfg.detection, core.readers, id);
            var auth := EvaluateAuthStreak(cfg.detection, id, reader.streak, ev, access.cooldown, clock);
            && PositiveDurations(reader.windows)
            && var p := FullPass(cfg.detection, ev, reader.windows, auth.cooldown, clock);
               Admit(cfg, core, ev, clock) ==
               Outcome(Core(core.readers[id := ReaderView(p.windows, NextStreak(reader.streak, ev))], p.cooldown,
                            core.dedupe),
                       true, access.alerts + auth.alerts + p.alerts, p.metrics)
  {
    OpenReaderPositive(cfg.detection, core, ReaderKey(ev.readerID));
    hide EvaluateAccess, EvaluateAuthStreak, OpenReader, WindowPass, SortedKeys, NextStreak, PositiveDurations;
  }

  function Step(cfg: Config, core: Core, ev: Event, clock: Clock): (o: Outcome)
    requires cfg.Valid() && ValidCore(core)
    ensures ValidCore(o.core)
  {
    var e := Clamp(cfg.detection, ev, clock);
    var (duplicate, dedupe) := CheckDuplicate(cfg.detection, core.dedupe, e, clock);
    if duplicate then Outcome(core.(dedupe := dedupe), false, [], [])
    else Admit(cfg, core.(dedupe := dedupe), e, clock)
  }
}
