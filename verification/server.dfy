/** What the administrative endpoints do to the engine and its stores. */
module Servers {
  import AlertStore
  import opened Model
  import opened Coherence
  import opened Detection
  import opened EngineRun
  import opened Sequences
  import Engines
  import MetricsStore
  import Text

  const OK := 200
  const BAD_REQUEST := 400

  /** Lower case, as far as it is ASCII: besides A-Z, U+0130 becomes i and U+212A becomes k. */
  function LowerChar(c: char): char {
    if 'A' <= c <= 'Z' then c - 'A' + 'a'
    else if c == '\U{0130}' then 'i'
    else if c == '\U{212A}' then 'k'
    else c
  }

  function Lower(s: string): string {
    seq(|s|, i requires 0 <= i < |s| => LowerChar(s[i]))
  }

  /** The target of a clear request as the handler reads it. */
  function ClearTarget(raw: string): string {
    var target := Lower(Text.TrimSpace(raw));
    if target == "" then "all" else target
  }

  /** A target spells a name in either case of each letter. */
  ghost predicate Spells(s: string, name: string) {
    |s| == |name| && forall i :: 0 <= i < |s| ==>
      || s[i] == name[i]
      || ('a' <= name[i] <= 'z' && s[i] as int == name[i] as int - 32)
      || (name[i] == 'i' && s[i] == '\U{0130}')
      || (name[i] == 'k' && s[i] == '\U{212A}')
  }

  /** A request names a target iff it spells it between blanks; only a blank one also stands for all. */
  lemma ClearTargetMeaning(raw: string, name: string)
    requires name in {"all", "alerts", "logs", "metrics"}
    ensures ClearTarget(raw) == name <==>
            || Spells(Text.TrimSpace(raw), name)
            || (name == "all" && forall k :: 0 <= k < |raw| ==> Text.IsSpace(raw[k]))
  {
    var s := Text.TrimSpace(raw);
    Text.BlankIsEmpty(raw);
    hide Text.TrimSpace, Text.IsSpace;
    assert forall i :: 0 <= i < |name| ==> 'a' <= name[i] <= 'z';
    LowerSpells(s, name);
    assert s == "" <==> Lower(s) == "";
  }

  lemma LowerSpells(s: string, name: string)
    requires forall i :: 0 <= i < |name| ==> 'a' <= name[i] <= 'z'
    ensures Lower(s) == name <==> Spells(s, name)
  {
    if |s| == |name| {
      forall i | 0 <= i < |s|
        ensures LowerChar(s[i]) == name[i] <==>
                || s[i] == name[i]
                || ('a' <= name[i] <= 'z' && s[i] as int == name[i] as int - 32)
                || (name[i] == 'i' && s[i] == '\U{0130}')
                || (name[i] == 'k' && s[i] == '\U{212A}')
      {
      }
      if Spells(s, name) {
        assert forall i :: 0 <= i < |s| ==> Lower(s)[i] == LowerChar(s[i]);
      }
    }
  }

  class Server {
    const engine: Engines.Engine
    const metrics: MetricsStore.Store
    const alerts: AlertStore.Store

    /** The server looks at the stores that the engine feeds. */
    ghost predicate Valid()
      reads engine, engine.ReaderRepr, engine.metrics, engine.alerts
    {
      engine.Valid() && metrics == engine.metrics && alerts == engine.alerts
    }

    constructor (engine: Engines.Engine)
      requires engine.Valid()
      ensures Valid() && this.engine == engine
    {
      this.engine := engine;
      metrics := engine.metrics;
      alerts := engine.alerts;
    }

    method ClearMetrics()
      requires Valid()
      modifies metrics
      ensures Valid() && engine.State() == old(engine.State()) && engine.cfg == old(engine.cfg)
      ensures metrics.Contents() == MetricsStore.EMPTY && alerts.Contents() == old(alerts.Contents())
    {
      hide Engines.Engine.OwnValid;
      metrics.Clear();
    }

    method ClearAlerts()
      requires Valid()
      modifies alerts
      ensures Valid() && engine.State() == old(engine.State()) && engine.cfg == old(engine.cfg)
      ensures alerts.Contents() == [] && metrics.Contents() == old(metrics.Contents()) && fresh(alerts.buf)
    {
      hide Engines.Engine.OwnValid;
      alerts.Clear();
    }

    /** Restart empties the engine and both stores, and keeps the configuration. */
    method HandleRestart()
      requires Valid()
      modifies engine, metrics, alerts
      ensures Valid() && engine.cfg == old(engine.cfg)
      ensures engine.State() == EMPTY_CORE
      ensures metrics.Contents() == MetricsStore.EMPTY && alerts.Contents() == []
      ensures fresh(engine.cooldown) && fresh(engine.deDupe) && fresh(alerts.buf) && engine.ReaderRepr == {}
    {
      hide Engines.Engine.OwnValid;
      engine.Reset();
      ClearMetrics();
      ClearAlerts();
    }

    /** Clear empties the stores its target names, rejects any other target, and spares the engine. */
    method HandleClear(rawTarget: string) returns (status: int)
      requires Valid()
      modifies metrics, alerts
      ensures Valid() && engine.State() == old(engine.State())
      ensures var target := ClearTarget(rawTarget);
              && (status == OK <==> target in {"all", "alerts", "logs", "metrics"})
              && (status != OK ==> status == BAD_REQUEST)
              && metrics.Contents() == (if target in {"all", "metrics"} then MetricsStore.EMPTY else old(metrics.Contents()))
              && alerts.Contents() == (if target in {"all", "alerts", "logs"} then [] else old(alerts.Contents()))
    {
      hide Text.TrimSpace, Lower, Engines.Engine.OwnValid;
      var target := Lower(Text.TrimSpace(rawTarget));
      if target == "" {
        target := "all";
      }
      status := OK;
      match target {
        case "all" =>
          ClearMetrics();
          ClearAlerts();
        case "alerts" =>
          ClearAlerts();
        case "logs" =>
          ClearAlerts();
        case "metrics" =>
          ClearMetrics();
        case _ =>
          status := BAD_REQUEST;
      }
    }

    /** One operation on the engine and its stores, in the state s of a run. */
    method Perform(op: Op, ghost s: State)
      requires Valid() && s.Valid() && ValidOp(op)
      requires engine.cfg == s.cfg && engine.State() == s.core && alerts.Contents() == LastN(s.log, alerts.limit)
      modifies engine, engine.ReaderRepr, engine.cooldown, engine.deDupe, metrics, alerts, alerts.buf
      ensures Valid()
      ensures var s' := Apply(s, op);
              engine.cfg == s'.cfg && engine.State() == s'.core && alerts.Contents() == LastN(s'.log, alerts.limit)
      ensures StoreAfter(s, op, metrics.limit, old(metrics.Contents()), metrics.Contents())
      ensures fresh(engine.ReaderRepr - old(engine.ReaderRepr))
      ensures engine.cooldown == old(engine.cooldown) || fresh(engine.cooldown)
      ensures engine.deDupe == old(engine.deDupe) || fresh(engine.deDupe)
      ensures alerts.buf == old(alerts.buf) || fresh(alerts.buf)
    {
      hide Engines.Engine.OwnValid, Step, MetricsStore.Updated;
      match op {
        case Process(ev, clock) =>
          var found, o := engine.ProcessEvent(ev, clock);
          LastNAppend(s.log, found, alerts.limit);
        case Configure(cfg) =>
          engine.UpdateConfig(cfg);
        case Restart =>
          HandleRestart();
        case ClearMetrics =>
          ClearMetrics();
        case ClearAlerts =>
          ClearAlerts();
      }
    }

    /**
     Any sequence of operations, from an empty engine and empty stores: the objects end where the run does,
     the alert store with the end of its log, the metrics store in one of the states it can reach.
     */
    method Execute(ops: seq<Op>)
      requires Valid() && ValidOps(ops)
      requires engine.State() == EMPTY_CORE && metrics.Contents() == MetricsStore.EMPTY && alerts.Contents() == []
      modifies engine, engine.ReaderRepr, engine.cooldown, engine.deDupe, metrics, alerts, alerts.buf
      ensures Valid()
      ensures var s := RunOps(old(engine.cfg), ops);
              engine.cfg == s.cfg && engine.State() == s.core && alerts.Contents() == LastN(s.log, alerts.limit)
      ensures StoreReaches(old(engine.cfg), ops, metrics.limit, metrics.Contents())
    {
      hide Engines.Engine.OwnValid, Apply, StoreAfter, LastN;
      ghost var cfg := engine.cfg;
      engine.ConfigIsValid();
      StartOfRun(cfg, metrics.limit, alerts.limit);
      for i := 0 to |ops|
        invariant Valid() && cfg.Valid()
        invariant var s := RunOps(cfg, ops[..i]);
                  engine.cfg == s.cfg && engine.State() == s.core && alerts.Contents() == LastN(s.log, alerts.limit)
        invariant StoreReaches(cfg, ops[..i], metrics.limit, metrics.Contents())
        invariant fresh(engine.ReaderRepr - old(engine.ReaderRepr))
        invariant engine.cooldown == old(engine.cooldown) || fresh(engine.cooldown)
        invariant engine.deDupe == old(engine.deDupe) || fresh(engine.deDupe)
        invariant alerts.buf == old(alerts.buf) || fresh(alerts.buf)
      {
        ghost var before := metrics.Contents();
        Perform(ops[i], RunOps(cfg, ops[..i]));
        NextOfRun(cfg, ops, i, metrics.limit, before, metrics.Contents());
      }
      assert ops[..|ops|] == ops;
    }
  }

  lemma StartOfRun(cfg: Config, limit: nat, alertLimit: nat)
    requires cfg.Valid()
    ensures RunOps(cfg, []) == State(cfg, EMPTY_CORE, [], []) && StoreReaches(cfg, [], limit, MetricsStore.EMPTY)
    ensures LastN<Alert>([], alertLimit) == []
  {
  }

  lemma NextOfRun(cfg: Config, ops: seq<Op>, i: nat, limit: nat, v: MetricsStore.View, v': MetricsStore.View)
    requires cfg.Valid() && ValidOps(ops) && i < |ops|
    requires StoreReaches(cfg, ops[..i], limit, v) && StoreAfter(RunOps(cfg, ops[..i]), ops[i], limit, v, v')
    ensures RunOps(cfg, ops[..i + 1]) == Apply(RunOps(cfg, ops[..i]), ops[i])
    ensures StoreReaches(cfg, ops[..i + 1], limit, v')
  {
    hide Apply, StoreAfter;
    assert ops[..i + 1][..i] == ops[..i];
  }
}
