/** What a window holds after a whole history of arrivals, in whatever order they are stamped. */
module WindowHistory {
  import opened Model
  import opened Sequences
  import opened Window
  import Variance

  /** The live entries after every entry of the history has been pushed, oldest first. */
  function LiveAfter(duration: int, history: seq<EventEntry>): seq<EventEntry> {
    if history == [] then []
    else Push(duration, LiveAfter(duration, history[..|history| - 1]), history[|history| - 1])
  }

  /** Some later arrival had a cutoff past the i-th entry. */
  ghost predicate Overtaken(duration: int, h: seq<EventEntry>, i: nat)
    requires i < |h|
  {
    exists m :: i < m < |h| && h[i].timestamp < h[m].timestamp - duration
  }

  lemma {:induction false} SurvivorsShape(live: seq<EventEntry>, cutoff: int)
    ensures IsSuffix(Survivors(live, cutoff), live)
    ensures Survivors(live, cutoff) != [] ==> Survivors(live, cutoff)[0].timestamp >= cutoff
    ensures forall i :: 0 <= i < |live| - |Survivors(live, cutoff)| ==> live[i].timestamp < cutoff
  {
    if live != [] && live[0].timestamp < cutoff {
      SurvivorsShape(live[1..], cutoff);
      assert forall i :: 0 < i < |live| ==> live[i] == live[1..][i - 1];
    }
  }

  /** The index in the history of the oldest live entry. */
  function Start(duration: int, h: seq<EventEntry>): int {
    |h| - |LiveAfter(duration, h)|
  }

  /** k is the first index of h whose entry no later arrival has overtaken. */
  ghost predicate FirstNotOvertaken(duration: int, h: seq<EventEntry>, k: int) {
    && 0 <= k < |h|
    && !Overtaken(duration, h, k)
    && forall i :: 0 <= i < k ==> Overtaken(duration, h, i)
  }

  /** How one more arrival moves that index: past the entries older than its cutoff. */
  lemma Advance(duration: int, h0: seq<EventEntry>, e: EventEntry, k0: int, k: int)
    requires duration >= 0
    requires FirstNotOvertaken(duration, h0, k0) && k0 <= k <= |h0|
    requires forall i :: k0 <= i < k ==> h0[i].timestamp < e.timestamp - duration
    requires k < |h0| ==> h0[k].timestamp >= e.timestamp - duration
    ensures FirstNotOvertaken(duration, h0 + [e], k)
  {
    var h, n := h0 + [e], |h0|;
    forall i | 0 <= i < k
      ensures Overtaken(duration, h, i)
    {
      if i < k0 {
        assert Overtaken(duration, h0, i);
        var m :| i < m < n && h0[i].timestamp < h0[m].timestamp - duration;
        assert h[m] == h0[m] && h[i] == h0[i];
      } else {
        assert h[n] == e && h[i] == h0[i];
      }
    }
    forall m | k < m < |h|
      ensures h[k].timestamp >= h[m].timestamp - duration
    {
      if m < n {
        assert h0[k0].timestamp >= h0[m].timestamp - duration;
      }
    }
  }

  lemma SuffixOfTail(kept: seq<EventEntry>, live: seq<EventEntry>, h: seq<EventEntry>, k: int)
    requires 0 <= k <= |h| && live == h[k..]
    requires IsSuffix(kept, live)
    ensures k <= |h| - |kept| && kept == h[|h| - |kept|..]
    ensures forall i :: k <= i < |h| ==> h[i] == live[i - k]
    ensures kept != [] ==> kept[0] == h[|h| - |kept|]
  {
  }

  /** One push, on a window known to begin at the first entry not overtaken. */
  lemma PushMovesStart(duration: int, h0: seq<EventEntry>, e: EventEntry, k0: int)
    requires duration >= 0 && FirstNotOvertaken(duration, h0, k0)
    ensures var live := Push(duration, h0[k0..], e);
            var k := |h0| + 1 - |live|;
            FirstNotOvertaken(duration, h0 + [e], k) && live == (h0 + [e])[k..]
  {
    hide Overtaken, Survivors;
    var kept := Survivors(h0[k0..], e.timestamp - duration);
    var k := |h0| - |kept|;
    SurvivorsShape(h0[k0..], e.timestamp - duration);
    SuffixOfTail(kept, h0[k0..], h0, k0);
    Advance(duration, h0, e, k0, k);
    assert h0[k..] + [e] == (h0 + [e])[k..];
  }

  lemma OnlyEntry(duration: int, e: EventEntry)
    ensures FirstNotOvertaken(duration, [e], 0)
    ensures LiveAfter(duration, [e]) == [e]
  {
    assert [e][..0] == [];
  }

  /**
   Eviction looks only at the front, so entries stale by themselves may linger behind a fresh one.
   Exactly: the live entries are the suffix that begins at the first entry never overtaken.
   */
  lemma {:induction false} LiveFromFirstNotOvertaken(duration: int, h: seq<EventEntry>)
    requires h != [] && duration >= 0
    ensures FirstNotOvertaken(duration, h, Start(duration, h))
    ensures LiveAfter(duration, h) == h[Start(duration, h)..]
  {
    hide FirstNotOvertaken, Push;
    if |h| == 1 {
      OnlyEntry(duration, h[0]);
      assert h == [h[0]] == h[0..];
    } else {
      var h0, e := h[..|h| - 1], h[|h| - 1];
      LiveFromFirstNotOvertaken(duration, h0);
      PushMovesStart(duration, h0, e, Start(duration, h0));
      assert h0 + [e] == h;
    }
  }

  // ---------- Nesting ----------

  /**
   A shorter window holds a suffix of what a longer one of the same reader holds, even when it was
   created only after the first c arrivals, and whatever the order of the timestamps.
   */
  lemma WindowNesting(shorter: int, longer: int, h: seq<EventEntry>, c: nat)
    requires 0 <= shorter <= longer && c <= |h|
    ensures IsSuffix(LiveAfter(shorter, h[c..]), LiveAfter(longer, h))
  {
    var late := h[c..];
    if late != [] {
      LiveFromFirstNotOvertaken(shorter, late);
      LiveFromFirstNotOvertaken(longer, h);
      var k := c + Start(shorter, late);
      assert !Overtaken(longer, h, k) by {
        forall m | k < m < |h|
          ensures h[k].timestamp >= h[m].timestamp - longer
        {
          assert late[k - c] == h[k] && late[m - c] == h[m];
        }
      }
      assert Start(longer, h) <= k;
      assert late[Start(shorter, late)..] == h[k..];
    }
  }

  /** Counts over a suffix never exceed the counts over the whole. */
  lemma {:induction false} SuffixCounts(a: seq<EventEntry>, b: seq<EventEntry>)
    requires IsSuffix(a, b)
    ensures |a| <= |b|
    ensures Failures(a) <= Failures(b)
    ensures Uids(a) <= Uids(b)
    ensures |Uids(a)| <= |Uids(b)|
  {
    if |a| < |b| {
      var x, tail := b[0], b[1..];
      assert b == [x] + tail && tail[|tail| - |a|..] == b[|b| - |a|..];
      hide Failures, Uids;
      SuffixCounts(a, tail);
      CountsCons(x, tail);
      SubsetSize(Uids(a), Uids(b));
    }
  }

  lemma CountsCons(x: EventEntry, s: seq<EventEntry>)
    ensures Failures(s) <= Failures([x] + s)
    ensures Uids(s) <= Uids([x] + s)
  {
    assert ([x] + s)[1..] == s;
  }

  /** So attempts, failures and distinct UIDs never decrease from a shorter window to a longer one. */
  lemma CountsGrowWithDuration(shorter: int, longer: int, h: seq<EventEntry>, c: nat)
    requires 0 < shorter <= longer && c <= |h|
    ensures var a, b := LiveAfter(shorter, h[c..]), LiveAfter(longer, h);
            && MetricsOf(shorter, a).attempts <= MetricsOf(longer, b).attempts
            && MetricsOf(shorter, a).failures <= MetricsOf(longer, b).failures
            && |Uids(a)| <= |Uids(b)|
            && CountsNest(MetricsOf(shorter, a), MetricsOf(longer, b))
  {
    WindowNesting(shorter, longer, h, c);
    SuffixCounts(LiveAfter(shorter, h[c..]), LiveAfter(longer, h));
    SuffixMetricsNest(shorter, longer, LiveAfter(shorter, h[c..]), LiveAfter(longer, h));
  }

  /** The metrics give the number of distinct UIDs back. */
  lemma DistinctUids(duration: int, live: seq<EventEntry>)
    requires duration > 0
    ensures MetricsOf(duration, live).uds * MetricsOf(duration, live).attempts as real == |Uids(live)| as real
  {
    hide Variance.PopulationVariance, Failures, Gaps;
    if live == [] {
      assert Uids(live) == {};
    }
  }

  /** What one set of metrics counts is no more than what another does. */
  predicate CountsNest(a: WindowMetrics, b: WindowMetrics) {
    a.attempts <= b.attempts && a.failures <= b.failures && a.uds * a.attempts as real <= b.uds * b.attempts as real
  }

  lemma SuffixMetricsNest(shorter: int, longer: int, a: seq<EventEntry>, b: seq<EventEntry>)
    requires 0 < shorter && 0 < longer && IsSuffix(a, b)
    ensures CountsNest(MetricsOf(shorter, a), MetricsOf(longer, b))
  {
    SuffixCounts(a, b);
    DistinctUids(shorter, a);
    DistinctUids(longer, b);
    hide Variance.PopulationVariance, Failures, Gaps, Uids, IsSuffix;
  }

  // ---------- Windows created late ----------

  lemma StartIsFirst(duration: int, h: seq<EventEntry>, k: int)
    requires duration >= 0 && FirstNotOvertaken(duration, h, k)
    ensures Start(duration, h) == k
  {
    hide Overtaken, LiveAfter;
    LiveFromFirstNotOvertaken(duration, h);
  }

  /** What a later start drops is dropped by the shorter window's own cutoff: otherwise it is missed. */
  lemma LateStart(shorter: int, longer: int, h: seq<EventEntry>, c: nat)
    requires 0 <= shorter <= longer && c < |h|
    ensures 0 <= Start(shorter, h) < |h| && 0 <= Start(longer, h[c..]) < |h| - c
    ensures c <= Start(shorter, h) ==> c + Start(longer, h[c..]) <= Start(shorter, h)
  {
    var late := h[c..];
    hide LiveAfter;
    LiveFromFirstNotOvertaken(shorter, h);
    LiveFromFirstNotOvertaken(longer, late);
    var k := Start(shorter, h) - c;
    if 0 <= k {
      assert !Overtaken(longer, late, k) by {
        forall m | k < m < |late|
          ensures late[k].timestamp >= late[m].timestamp - longer
        {
          assert late[k] == h[c + k] && late[m] == h[c + m];
        }
      }
    }
  }

  /**
   A longer window created after the first c arrivals contains the shorter one exactly when the
   shorter one has itself dropped those arrivals; otherwise it holds fewer entries.
   */
  lemma LateWindowNesting(shorter: int, longer: int, h: seq<EventEntry>, c: nat)
    requires 0 <= shorter <= longer && c < |h|
    ensures IsSuffix(LiveAfter(shorter, h), LiveAfter(longer, h[c..])) <==> c <= Start(shorter, h)
    ensures |LiveAfter(longer, h[c..])| < |LiveAfter(shorter, h)| <==> c + Start(longer, h[c..]) > Start(shorter, h)
  {
    hide Overtaken, LiveAfter;
    LiveFromFirstNotOvertaken(shorter, h);
    LiveFromFirstNotOvertaken(longer, h[c..]);
    LateStart(shorter, longer, h, c);
    assert h[c..][Start(longer, h[c..])..] == h[c + Start(longer, h[c..])..];
  }

  /** Arrivals that all bear one stamp: no window ever drops any of them. */
  lemma NothingDropped(duration: int, h: seq<EventEntry>)
    requires duration >= 0 && h != []
    requires forall i :: 0 <= i < |h| ==> h[i].timestamp == h[0].timestamp
    ensures Start(duration, h) == 0
  {
    StartIsFirst(duration, h, 0);
  }

  /** So for each c above zero some history breaks the nesting, by leaving the longer window with less. */
  lemma LateLongerWindowCanHoldLess(shorter: int, longer: int, c: nat) returns (h: seq<EventEntry>)
    requires 0 <= shorter <= longer && c > 0
    ensures c < |h|
    ensures !IsSuffix(LiveAfter(shorter, h), LiveAfter(longer, h[c..]))
    ensures |LiveAfter(longer, h[c..])| < |LiveAfter(shorter, h)|
  {
    h := seq(c + 1, i => EventEntry(1, "", RESULT_SUCCESS));
    hide LiveAfter;
    NothingDropped(shorter, h);
    LateStart(shorter, longer, h, c);
    LateWindowNesting(shorter, longer, h, c);
  }

  /** Nesting is guaranteed for exactly those windows created no later than the shorter one. */
  lemma NestingNeedsCreationOrder(shorter: int, longer: int, c: nat)
    requires 0 <= shorter <= longer
    ensures c == 0 <==> forall h: seq<EventEntry> :: c < |h| ==> IsSuffix(LiveAfter(shorter, h), LiveAfter(longer, h[c..]))
  {
    hide LiveAfter;
    if c == 0 {
      forall h: seq<EventEntry> | c < |h|
        ensures IsSuffix(LiveAfter(shorter, h), LiveAfter(longer, h[c..]))
      {
        LateStart(shorter, longer, h, c);
        LateWindowNesting(shorter, longer, h, c);
      }
    } else {
      var h := LateLongerWindowCanHoldLess(shorter, longer, c);
      assert c < |h|;
    }
  }

  // ---------- Exactness in order, and bounded error out of order ----------

  ghost predicate InOrder(h: seq<EventEntry>) {
    forall i, j :: 0 <= i < j < |h| ==> h[i].timestamp <= h[j].timestamp
  }

  /** The entries stamped at or after an instant. */
  function From(h: seq<EventEntry>, t: int): seq<EventEntry> {
    Filter(h, (e: EventEntry) => e.timestamp >= t)
  }

  function Within(h: seq<EventEntry>, lo: int, hi: int): seq<EventEntry> {
    Filter(h, (e: EventEntry) => lo <= e.timestamp <= hi)
  }

  /** With nondecreasing timestamps a window is exact: what it holds is what its time span covers. */
  lemma ExactWhenInOrder(duration: int, h: seq<EventEntry>)
    requires h != [] && duration >= 0 && InOrder(h)
    ensures var t := h[|h| - 1].timestamp;
            LiveAfter(duration, h) == Within(h, t - duration, t)
  {
    var t := h[|h| - 1].timestamp;
    LiveFromFirstNotOvertaken(duration, h);
    var k := Start(duration, h);
    forall i | 0 <= i < |h|
      ensures t - duration <= h[i].timestamp <= t <==> i >= k
    {
      if i < k {
        assert Overtaken(duration, h, i);
      } else {
        assert h[k].timestamp >= t - duration;
      }
    }
    hide *;
    FilterDropsPrefix(h, k, (e: EventEntry) => t - duration <= e.timestamp <= t);
  }

  /** Every entry is stamped within the skews of the clock reading at its arrival. */
  ghost predicate Clamped(h: seq<EventEntry>, clock: seq<int>, past: int, future: int) {
    && |clock| == |h|
    && (forall i :: 0 <= i < |h| ==> clock[i] - past <= h[i].timestamp <= clock[i] + future)
    && (forall i, j :: 0 <= i < j < |h| ==> clock[i] <= clock[j])
  }

  /**
   Under disorder the error is bounded by the skews: nothing live is staler than the cutoff by more
   than their sum, and nothing stamped late enough to beat every possible cutoff is missing.
   */
  lemma Sandwich(duration: int, h: seq<EventEntry>, clock: seq<int>, past: int, future: int)
    requires h != [] && duration >= 0
    requires Clamped(h, clock, past, future)
    ensures var n := |h| - 1;
            forall i :: 0 <= i < |h| ==>
              && (i >= Start(duration, h) ==> h[i].timestamp >= h[n].timestamp - duration - (past + future))
              && (i < Start(duration, h) ==> h[i].timestamp < clock[n] + future - duration)
  {
    LiveFromFirstNotOvertaken(duration, h);
    var k, n := Start(duration, h), |h| - 1;
    forall i | k <= i < |h|
      ensures h[i].timestamp >= h[n].timestamp - duration - (past + future)
    {
      assert h[k].timestamp >= h[n].timestamp - duration;
      assert clock[k] <= clock[i];
    }
    forall i | 0 <= i < k
      ensures h[i].timestamp < clock[n] + future - duration
    {
      assert Overtaken(duration, h, i);
      var m :| i < m < |h| && h[i].timestamp < h[m].timestamp - duration;
      assert clock[m] <= clock[n];
    }
  }

  /** Hence the number of attempts lies between two counts over the whole history. */
  lemma SandwichedAttempts(duration: int, h: seq<EventEntry>, clock: seq<int>, past: int, future: int)
    requires h != [] && duration >= 0
    requires Clamped(h, clock, past, future)
    ensures var n := |h| - 1;
            && |From(h, clock[n] + future - duration)| <= |LiveAfter(duration, h)|
            && |LiveAfter(duration, h)| <= |From(h, h[n].timestamp - duration - (past + future))|
  {
    var n := |h| - 1;
    Sandwich(duration, h, clock, past, future);
    LiveFromFirstNotOvertaken(duration, h);
    hide Overtaken, From, LiveAfter;
    CountBounds(h, Start(duration, h), clock[n] + future - duration,
                h[n].timestamp - duration - (past + future));
  }

  /** Bounds on a suffix that holds everything late and nothing but recent entries. */
  lemma CountBounds(h: seq<EventEntry>, k: nat, late: int, recent: int)
    requires k <= |h|
    requires forall i :: 0 <= i < k ==> h[i].timestamp < late
    requires forall i :: k <= i < |h| ==> h[i].timestamp >= recent
    ensures |From(h, late)| <= |h| - k <= |From(h, recent)|
  {
    var dropped, kept := h[..k], h[k..];
    var isLate := (e: EventEntry) => e.timestamp >= late;
    var isRecent := (e: EventEntry) => e.timestamp >= recent;
    assert h == dropped + kept;
    FilterAppend(dropped, kept, isLate);
    FilterAppend(dropped, kept, isRecent);
    FilterNone(dropped, isLate);
    FilterAll(kept, isRecent);
    FilterLength(kept, isLate);
  }
}
