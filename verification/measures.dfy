/** What a window measures, said of a reader's events alone: their number, results, UIDs and stamps. */
module Measures {
  import opened Model
  import opened Sequences
  import opened EngineHistory
  import opened Window
  import opened WindowHistory
  import Variance

  /** The events stamped from one instant to another. */
  function Span(es: seq<Event>, lo: int, hi: int): seq<Event> {
    Filter(es, (e: Event) => lo <= e.timestamp <= hi)
  }

  /** The events stamped at an instant or later. */
  function Since(es: seq<Event>, t: int): seq<Event> {
    Filter(es, (e: Event) => e.timestamp >= t)
  }

  function Failed(es: seq<Event>): seq<Event> {
    Filter(es, (e: Event) => e.result == "failure")
  }

  function UidsIn(es: seq<Event>): set<string> {
    set e | e in es && e.uid != "" :: e.uid
  }

  /** The seconds from one arrival to the next by their stamps; none when the stamps go back. */
  function Lapse(e: Event, next: Event): real {
    if next.timestamp <= e.timestamp then 0.0 else (next.timestamp - e.timestamp) as real / 1_000_000_000.0
  }

  function Lapses(es: seq<Event>): (r: seq<real>)
    ensures |r| == (if es == [] then 0 else |es| - 1)
  {
    seq(if es == [] then 0 else |es| - 1, i requires 0 <= i && i + 1 < |es| => Lapse(es[i], es[i + 1]))
  }

  /** A duration in seconds. */
  function Length(duration: int): real {
    duration as real / 1_000_000_000.0
  }

  /** The metrics of a window that holds these events. */
  function Declared(duration: int, es: seq<Event>): WindowMetrics
    requires duration > 0 && es != []
  {
    var n := |es| as real;
    WindowMetrics(
      duration / 1_000_000_000,
      |es|,
      |Failed(es)|,
      n / Length(duration),
      |Failed(es)| as real / n,
      |UidsIn(es)| as real / n,
      Variance.PopulationVariance(Lapses(es)))
  }

  // ---------- Seconds ----------

  /** Seconds are nanoseconds over a thousand million, and whole seconds are rounded down. */
  lemma SecondsMeaning(duration: int)
    ensures Seconds(duration) * 1_000_000_000.0 == duration as real
    ensures WholeSeconds(duration) * 1_000_000_000 <= duration < (WholeSeconds(duration) + 1) * 1_000_000_000
  {
  }

  /** A gap carries the earlier stamp to the later one, and not at all when the stamps go back. */
  lemma GapMeaning(earlier: int, later: int)
    ensures earlier as real + GapSeconds(earlier, later) * 1_000_000_000.0 == (if later >= earlier then later else earlier) as real
    ensures GapSeconds(earlier, later) == 0.0 <==> later <= earlier
    ensures GapSeconds(earlier, later) >= 0.0
  {
  }

  // ---------- Entries ----------

  lemma FailuresSnoc(s: seq<EventEntry>, x: EventEntry)
    ensures Failures(s + [x]) == Failures(s) + (if x.result == "failure" then 1 else 0)
  {
    if s == [] {
      assert [] + [x] == [x] && [x][1..] == [];
    } else {
      assert (s + [x])[1..] == s[1..] + [x];
      FailuresSnoc(s[1..], x);
    }
  }

  lemma {:induction false} FailuresOfEntries(es: seq<Event>)
    ensures Failures(Entries(es)) == |Failed(es)|
  {
    if es != [] {
      var front, e := es[..|es| - 1], es[|es| - 1];
      assert es == front + [e];
      FailuresOfEntries(front);
      EntriesSnoc(front, e);
      FilterSnoc(front, e, (e: Event) => e.result == "failure");
      hide Failures, Filter, Entries;
      var x := Entry(e);
      FailuresSnoc(Entries(front), x);
    }
  }

  /** The entry that an event leaves in a window. */
  function Entry(e: Event): EventEntry {
    EventEntry(e.timestamp, e.uid, e.result)
  }

  /** An entry bears the stamp, the UID and the result of its event; counts over entries are counts over events. */
  lemma EntriesMeaning(es: seq<Event>)
    ensures |Entries(es)| == |es|
    ensures forall i :: 0 <= i < |es| ==> Entries(es)[i] == Entry(es[i])
    ensures Failures(Entries(es)) == |Failed(es)|
    ensures Uids(Entries(es)) == UidsIn(es)
    ensures Gaps(Entries(es)) == Lapses(es)
  {
    FailuresOfEntries(es);
    UidsOfEntries(es);
    GapsOfEntries(es);
  }

  lemma UidsOfEntries(es: seq<Event>)
    ensures Uids(Entries(es)) == UidsIn(es)
  {
    var h := Entries(es);
    forall uid | uid in UidsIn(es)
      ensures uid in Uids(h)
    {
      var i :| 0 <= i < |es| && es[i].uid == uid && uid != "";
      assert h[i] in h && h[i].uid == uid;
    }
    forall uid | uid in Uids(h)
      ensures uid in UidsIn(es)
    {
      var i :| 0 <= i < |h| && h[i].uid == uid && uid != "";
      assert es[i] in es && es[i].uid == uid;
    }
  }

  lemma GapsOfEntries(es: seq<Event>)
    ensures Gaps(Entries(es)) == Lapses(es)
  {
    var h := Entries(es);
    forall i | 0 <= i && i + 1 < |es|
      ensures Gap(h, i) == Lapse(es[i], es[i + 1])
    {
      LapseIsGap(es[i], es[i + 1]);
    }
  }

  lemma LapseIsGap(e: Event, next: Event)
    ensures GapSeconds(e.timestamp, next.timestamp) == Lapse(e, next)
  {
    GapMeaning(e.timestamp, next.timestamp);
  }

  /** The metrics of a window are those declared on the events behind its entries. */
  lemma MetricsAreDeclared(duration: int, es: seq<Event>)
    requires duration > 0 && es != []
    ensures MetricsOf(duration, Entries(es)) == Declared(duration, es)
  {
    hide Failures, Uids, Gaps, Lapses, UidsIn, Failed, Variance.PopulationVariance, Entries;
    EntriesMeaning(es);
    SecondsMeaning(duration);
  }

  lemma SpanOfEntries(es: seq<Event>, lo: int, hi: int)
    ensures Within(Entries(es), lo, hi) == Entries(Span(es, lo, hi))
  {
    var p := (e: Event) => lo <= e.timestamp <= hi;
    var q := (e: EventEntry) => lo <= e.timestamp <= hi;
    FilterEntries(es, p, q);
  }

  /** Filtering entries is filtering their events. */
  lemma {:induction false} FilterEntries(es: seq<Event>, p: Event -> bool, q: EventEntry -> bool)
    requires forall e :: p(e) <==> q(Entry(e))
    ensures Filter(Entries(es), q) == Entries(Filter(es, p))
  {
    EntriesMeaningShort(es);
    if es != [] {
      var front, e := es[..|es| - 1], es[|es| - 1];
      assert es == front + [e];
      FilterEntries(front, p, q);
      EntriesSnoc(front, e);
      EntriesSnoc(Filter(front, p), e);
      FilterSnoc(front, e, p);
      FilterSnoc(Entries(front), Entry(e), q);
      EntryOne(e);
      hide Filter, Entries;
      assert Filter(front, p) + [] == Filter(front, p);
      assert Entries(Filter(front, p)) + [] == Entries(Filter(front, p));
    }
  }

  lemma EntryOne(e: Event)
    ensures Entries([e]) == [Entry(e)]
  {
  }

  lemma EntriesMeaningShort(es: seq<Event>)
    ensures |Entries(es)| == |es| && forall i :: 0 <= i < |es| ==> Entries(es)[i] == Entry(es[i])
  {
  }

  // ---------- What is live ----------

  /** A later arrival bears a stamp more than the duration past this one's. */
  ghost predicate Outrun(duration: int, es: seq<Event>, i: nat)
    requires i < |es|
  {
    exists m :: i < m < |es| && es[m].timestamp - es[i].timestamp > duration
  }

  /** The first event not outrun. */
  ghost predicate OldestLive(duration: int, es: seq<Event>, k: nat) {
    k < |es| && !Outrun(duration, es, k) && forall i :: 0 <= i < k ==> Outrun(duration, es, i)
  }

  /** A window holds the events from the first one that has not been outrun. */
  lemma LiveFromOldest(duration: int, es: seq<Event>) returns (k: nat)
    requires es != [] && duration >= 0
    ensures OldestLive(duration, es, k)
    ensures LiveAfter(duration, Entries(es)) == Entries(es[k..])
  {
    EntriesMeaningShort(es);
    LiveFromFirstNotOvertaken(duration, Entries(es));
    k := Start(duration, Entries(es));
    hide LiveAfter, Start;
    forall i | 0 <= i <= k
      ensures Outrun(duration, es, i) <==> Overtaken(duration, Entries(es), i)
    {
      OutrunIsOvertaken(duration, es, i);
    }
    hide Outrun, Overtaken;
    assert Entries(es)[k..] == Entries(es[k..]);
  }

  lemma OutrunIsOvertaken(duration: int, es: seq<Event>, i: nat)
    requires i < |es| == |Entries(es)|
    ensures Outrun(duration, es, i) <==> Overtaken(duration, Entries(es), i)
  {
    EntriesMeaningShort(es);
    var h := Entries(es);
    if Outrun(duration, es, i) {
      var m :| i < m < |es| && es[m].timestamp - es[i].timestamp > duration;
      assert h[i].timestamp < h[m].timestamp - duration;
    }
    if Overtaken(duration, h, i) {
      var m :| i < m < |h| && h[i].timestamp < h[m].timestamp - duration;
      assert es[m].timestamp - es[i].timestamp > duration;
    }
  }
}
