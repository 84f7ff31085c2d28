/** One sliding window of one reader: its meaning as a value, and the class that maintains it. */
module Window {
  import opened Model
  import Variance

  datatype EventEntry = EventEntry(timestamp: int, uid: string, result: string)

  // ---------- What a window means ----------

  /** The entries left after dropping from the front until one is not before the cutoff. */
  function Survivors(live: seq<EventEntry>, cutoff: int): seq<EventEntry> {
    if live == [] || live[0].timestamp >= cutoff then live else Survivors(live[1..], cutoff)
  }

  /** The live entries after one event: evict against its own timestamp, then append it. */
  function Push(duration: int, live: seq<EventEntry>, e: EventEntry): seq<EventEntry> {
    Survivors(live, e.timestamp - duration) + [e]
  }

  function Failures(s: seq<EventEntry>): (n: nat)
    ensures n <= |s|
  {
    if s == [] then 0
    else Failures(s[1..]) + (if s[0].result == RESULT_FAILURE then 1 else 0)
  }

  function Uids(s: seq<EventEntry>): set<string> {
    set e | e in s && e.uid != "" :: e.uid
  }

  function Occurrences(s: seq<EventEntry>, uid: string): nat {
    if s == [] then 0
    else Occurrences(s[1..], uid) + (if s[0].uid == uid then 1 else 0)
  }

  /** The gap between two arrivals in seconds, with a backward step counted as zero. */
  function GapSeconds(earlier: int, later: int): real {
    var delta := (later - earlier) as real / SECOND as real;
    if delta < 0.0 then 0.0 else delta
  }

  function Gap(s: seq<EventEntry>, i: nat): real
    requires i + 1 < |s|
  {
    GapSeconds(s[i].timestamp, s[i + 1].timestamp)
  }

  function Gaps(s: seq<EventEntry>): (r: seq<real>)
    ensures |r| == (if s == [] then 0 else |s| - 1)
    ensures forall i :: 0 <= i < |r| ==> r[i] == Gap(s, i)
  {
    seq(if s == [] then 0 else |s| - 1, i requires 0 <= i && i + 1 < |s| => Gap(s, i))
  }

  function Seconds(duration: int): real {
    duration as real / SECOND as real
  }

  /** int(d.Seconds()), the whole seconds of a positive duration. */
  function WholeSeconds(duration: int): int {
    duration / SECOND
  }

  /** The metrics of a window recomputed from nothing but its live entries. */
  function MetricsOf(duration: int, live: seq<EventEntry>): (wm: WindowMetrics)
    requires duration > 0
    ensures wm.tv >= 0.0
  {
    var n, tv := |live|, Variance.PopulationVariance(Gaps(live));
    Variance.VarianceSign(Gaps(live));
    WindowMetrics(
      WholeSeconds(duration),
      n,
      Failures(live),
      if n == 0 then 0.0 else n as real / Seconds(duration),
      if n == 0 then 0.0 else Failures(live) as real / n as real,
      if n == 0 then 0.0 else |Uids(live)| as real / n as real,
      tv)
  }

  // ---------- The incremental counters ----------

  datatype Tally = Tally(attempts: int, failures: int, uidCounts: map<string, int>) {
    /** Count one entry in. */
    function Plus(e: EventEntry): Tally {
      Tally(
        attempts + 1,
        if e.result == RESULT_FAILURE then failures + 1 else failures,
        if e.uid == "" then uidCounts
        else uidCounts[e.uid := (if e.uid in uidCounts then uidCounts[e.uid] else 0) + 1])
    }

    /** Count one entry out; a UID whose count was one disappears. */
    function Minus(e: EventEntry): Tally
      requires e.uid != "" ==> e.uid in uidCounts
    {
      Tally(
        attempts - 1,
        if e.result == RESULT_FAILURE then failures - 1 else failures,
        if e.uid == "" then uidCounts
        else if uidCounts[e.uid] <= 1 then uidCounts - {e.uid}
        else uidCounts[e.uid := uidCounts[e.uid] - 1])
    }
  }

  /** All the entries of s counted in, the last one first. */
  function TallyOf(s: seq<EventEntry>): Tally {
    if s == [] then Tally(0, 0, map[]) else TallyOf(s[1..]).Plus(s[0])
  }

  /**
   The counters mean what recomputation from the entries gives: their number, the failures among
   them, and exactly the nonempty UIDs with how often each occurs, none of them zero times.
   */
  lemma {:induction false} TallyMeaning(s: seq<EventEntry>)
    ensures TallyOf(s).attempts == |s|
    ensures TallyOf(s).failures == Failures(s)
    ensures TallyOf(s).uidCounts.Keys == Uids(s)
    ensures forall uid :: uid in Uids(s) ==> TallyOf(s).uidCounts[uid] == Occurrences(s, uid) > 0
  {
    if s != [] {
      TallyMeaning(s[1..]);
      UidsTail(s);
      hide Uids;
      forall uid | uid !in Uids(s[1..]) && uid != ""
        ensures Occurrences(s[1..], uid) == 0
      {
        OccurrencesPositive(s[1..], uid);
      }
    }
  }

  lemma UidsTail(s: seq<EventEntry>)
    requires s != []
    ensures Uids(s) == Uids(s[1..]) + (if s[0].uid == "" then {} else {s[0].uid})
  {
    assert s == [s[0]] + s[1..];
  }

  lemma {:induction false} OccurrencesPositive(s: seq<EventEntry>, uid: string)
    requires uid != ""
    ensures Occurrences(s, uid) > 0 <==> uid in Uids(s)
  {
    if s != [] {
      OccurrencesPositive(s[1..], uid);
      assert s == [s[0]] + s[1..];
    }
  }

  lemma PlusCommutes(t: Tally, a: EventEntry, b: EventEntry)
    ensures t.Plus(a).Plus(b) == t.Plus(b).Plus(a)
  {
  }

  lemma {:induction false} TallyAppend(s: seq<EventEntry>, e: EventEntry)
    ensures TallyOf(s + [e]) == TallyOf(s).Plus(e)
  {
    if s == [] {
      assert TallyOf([e]) == TallyOf([e][1..]).Plus(e);
    } else {
      assert (s + [e])[1..] == s[1..] + [e];
      TallyAppend(s[1..], e);
      PlusCommutes(TallyOf(s[1..]), e, s[0]);
    }
  }

  lemma PlusMinus(t: Tally, e: EventEntry)
    requires e.uid in t.uidCounts ==> t.uidCounts[e.uid] > 0
    ensures t.Plus(e).Minus(e) == t
  {
    assert t.Plus(e).Minus(e).uidCounts == t.uidCounts;
  }

  lemma TallyDrop(s: seq<EventEntry>)
    requires s != []
    ensures s[0].uid != "" ==> s[0].uid in TallyOf(s).uidCounts
    ensures TallyOf(s[1..]) == TallyOf(s).Minus(s[0])
  {
    TallyMeaning(s[1..]);
    PlusMinus(TallyOf(s[1..]), s[0]);
  }

  // ---------- The class ----------

  class WindowState {
    const duration: int
    var events: seq<EventEntry>
    var head: nat
    var attempts: int
    var failures: int
    var uidCounts: map<string, int>

    // Running totals of entries added, evicted, and copied by compaction.
    ghost var added: nat
    ghost var evicted: nat
    ghost var copied: nat

    ghost predicate Valid()
      reads this
    {
      && duration > 0
      && head <= |events|
      && Tally(attempts, failures, uidCounts) == TallyOf(Live())
      && (head == 0 || 2 * head < |events|)
      && added == evicted + |Live()|
      && copied + head <= evicted
    }

    function Live(): seq<EventEntry>
      reads this
      requires head <= |events|
    {
      events[head..]
    }

    constructor (duration: int)
      requires duration > 0
      ensures Valid() && Live() == []
      ensures this.duration == duration
      ensures added == 0
    {
      this.duration := duration;
      events, head, attempts, failures, uidCounts := [], 0, 0, 0, map[];
      added, evicted, copied := 0, 0, 0;
    }

    method Add(ev: EventEntry)
      requires Valid()
      modifies this
      ensures Valid()
      ensures Live() == old(Live()) + [ev]
      ensures added == old(added) + 1 && evicted == old(evicted) && copied == old(copied)
      ensures copied + head <= evicted <= added && |events| <= 2 * |Live()|
    {
      hide TallyOf;
      TallyAppend(Live(), ev);
      events := events + [ev];
      assert events[head..] == old(events[head..]) + [ev];
      attempts := attempts + 1;
      if ev.result == RESULT_FAILURE {
        failures := failures + 1;
      }
      if ev.uid != "" {
        uidCounts := uidCounts[ev.uid := (if ev.uid in uidCounts then uidCounts[ev.uid] else 0) + 1];
      }
      added := added + 1;
    }

    /** The counters' part of evicting one entry. */
    method CountOut(ev: EventEntry)
      requires ev.uid != "" ==> ev.uid in uidCounts
      modifies this`attempts, this`failures, this`uidCounts
      ensures Tally(attempts, failures, uidCounts) == old(Tally(attempts, failures, uidCounts)).Minus(ev)
    {
      attempts := attempts - 1;
      if ev.result == RESULT_FAILURE {
        failures := failures - 1;
      }
      if ev.uid != "" {
        var count := uidCounts[ev.uid];
        if count <= 1 {
          uidCounts := uidCounts - {ev.uid};
        } else {
          uidCounts := uidCounts[ev.uid := count - 1];
        }
      }
    }

    method Evict(cutoff: int)
      requires Valid()
      modifies this
      ensures Valid()
      ensures Live() == Survivors(old(Live()), cutoff)
      ensures added == old(added)
      ensures evicted == old(evicted) + |old(Live())| - |Live()|
      ensures copied == old(copied) + (if |events| < |old(events)| then |events| else 0)
      ensures copied + head <= evicted <= added && |events| <= 2 * |Live()|
    {
      hide TallyOf, Tally.Minus;
      while head < |events|
        invariant head <= |events| && events == old(events)
        invariant Tally(attempts, failures, uidCounts) == TallyOf(events[head..])
        invariant Survivors(events[head..], cutoff) == Survivors(old(Live()), cutoff)
        invariant added == old(added) == evicted + |events| - head
        invariant copied == old(copied) && copied + head <= evicted
        decreases |events| - head
      {
        var ev := events[head];
        if ev.timestamp >= cutoff {
          break;
        }
        ghost var live := events[head..];
        TallyDrop(live);
        CountOut(ev);
        head := head + 1;
        evicted := evicted + 1;
        assert events[head..] == live[1..];
      }
      if head > 0 && head * 2 >= |events| {
        copied := copied + (|events| - head);
        events := events[head..];
        head := 0;
      }
    }

    method Metrics() returns (wm: WindowMetrics)
      requires Valid()
      ensures wm == MetricsOf(duration, Live())
    {
      TallyMeaning(Live());
      var aps, fr, uds := 0.0, 0.0, 0.0;
      if attempts > 0 {
        aps := attempts as real / Seconds(duration);
        fr := failures as real / attempts as real;
        assert |uidCounts| == |uidCounts.Keys|;
        uds := |uidCounts| as real / attempts as real;
      }
      var tv := VarianceDelta(events, head);
      wm := WindowMetrics(WholeSeconds(duration), attempts, failures, aps, fr, uds, tv);
    }
  }

  /** The three assignments that fold one gap into the running mean and sum of squares. */
  method WelfordUpdate(n0: nat, mean0: real, m20: real, delta: real) returns (n: nat, mean: real, m2: real)
    ensures n == n0 + 1
    ensures mean == Variance.NextMean(n0 as real, mean0, delta)
    ensures m2 == Variance.NextM2(m20, mean0, mean, delta)
  {
    n := n0 + 1;
    var diff := delta - mean0;
    mean := mean0 + diff / n as real;
    m2 := m20 + diff * (delta - mean);
  }

  lemma GapIsClampedDifference(earlier: int, later: int)
    ensures var delta := (later - earlier) as real / SECOND as real;
            GapSeconds(earlier, later) == if delta < 0.0 then 0.0 else delta
  {
  }

  /** Welford's recurrence over the gaps from start on computes their population variance. */
  method VarianceDelta(events: seq<EventEntry>, start: nat) returns (r: real)
    requires start <= |events|
    ensures r == Variance.PopulationVariance(Gaps(events[start..]))
  {
    if |events| - start <= 1 {
      return 0.0;
    }
    var n, mean, m2 := 0, 0.0, 0.0;
    var prev := events[start].timestamp;
    ghost var gaps := Gaps(events[start..]);
    assert mean == Variance.Mean(gaps[..0]) && m2 == Variance.SquaredDeviation(gaps[..0], mean);
    hide Variance.Mean, Variance.SquaredDeviation, Variance.NextMean, Variance.NextM2, GapSeconds;
    for i := start + 1 to |events|
      invariant n == i - start - 1
      invariant prev == events[i - 1].timestamp
      invariant mean == Variance.Mean(gaps[..n])
      invariant m2 == Variance.SquaredDeviation(gaps[..n], mean)
    {
      var delta := (events[i].timestamp - prev) as real / SECOND as real;
      if delta < 0.0 {
        delta := 0.0;
      }
      GapIsClampedDifference(prev, events[i].timestamp);
      assert delta == gaps[n];
      assert gaps[..n] + [delta] == gaps[..n + 1];
      Variance.WelfordStep(gaps[..n], delta);
      n, mean, m2 := WelfordUpdate(n, mean, m2, delta);
      prev := events[i].timestamp;
    }
    assert gaps[..n] == gaps;
    if n == 0 {
      return 0.0;
    }
    return m2 / n as real;
  }

  /** Timing variance is never negative, and is zero exactly for a perfectly regular stream. */
  lemma TimingVarianceSign(duration: int, live: seq<EventEntry>)
    requires duration > 0
    ensures MetricsOf(duration, live).tv >= 0.0
    ensures MetricsOf(duration, live).tv == 0.0 <==>
            forall i, j :: 0 <= i && i + 1 < |live| && 0 <= j && j + 1 < |live| ==> Gap(live, i) == Gap(live, j)
  {
    Variance.VarianceSign(Gaps(live));
    forall i, j | 0 <= i && i + 1 < |live| && 0 <= j && j + 1 < |live|
      ensures Gap(live, i) == Gap(live, j) <==> Gaps(live)[i] == Gaps(live)[j]
    {
    }
  }
}
