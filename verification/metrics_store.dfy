/** The latest metrics per reader, bounded by forgetting the reader updated longest ago. */
module MetricsStore {
  import opened Model
  import opened Sequences

  const DEFAULT_LIMIT := 5000

  type Table = map<int, WindowMetrics>

  datatype View = View(byReader: map<string, Table>, updatedAt: map<string, int>) {
    ghost predicate Valid() {
      byReader.Keys == updatedAt.Keys && "" !in updatedAt
    }

    function Without(readerID: string): View {
      View(byReader - {readerID}, updatedAt - {readerID})
    }
  }

  const EMPTY := View(map[], map[])

  function Merge(table: Table, list: seq<WindowMetrics>): Table {
    if list == [] then table
    else Merge(table, list[..|list| - 1])[list[|list| - 1].windowSec := list[|list| - 1]]
  }

  /** A merged table keeps the old row of a window for which none is given. */
  lemma {:induction false} MergeKeepsRow(table: Table, list: seq<WindowMetrics>, sec: int)
    requires forall i :: 0 <= i < |list| ==> list[i].windowSec != sec
    ensures sec in Merge(table, list) <==> sec in table
    ensures sec in table ==> Merge(table, list)[sec] == table[sec]
  {
    if list != [] {
      MergeKeepsRow(table, list[..|list| - 1], sec);
    }
  }

  /** Otherwise it has the last row given. */
  lemma {:induction false} MergeTakesLastRow(table: Table, list: seq<WindowMetrics>, i: nat)
    requires i < |list| && forall j :: i < j < |list| ==> list[j].windowSec != list[i].windowSec
    ensures list[i].windowSec in Merge(table, list) && Merge(table, list)[list[i].windowSec] == list[i]
  {
    if i < |list| - 1 {
      MergeTakesLastRow(table, list[..|list| - 1], i);
    }
  }

  /** An update leaves all other readers as they are, and merges the rows of its own into what was there. */
  lemma InsertedKeepsRest(v: View, readerID: string, list: seq<WindowMetrics>, now: int, r: string, sec: int)
    requires forall i :: 0 <= i < |list| ==> list[i].windowSec != sec
    ensures var w := Inserted(v, readerID, list, now);
            && (r != readerID ==> (r in w.byReader <==> r in v.byReader) && (r in v.byReader ==> w.byReader[r] == v.byReader[r]))
            && (r in v.byReader && sec in v.byReader[r] ==> sec in w.byReader[r] && w.byReader[r][sec] == v.byReader[r][sec])
  {
    if readerID in v.byReader {
      MergeKeepsRow(v.byReader[readerID], list, sec);
    }
  }

  /** The store with one reader's table merged and stamped, before any eviction. */
  function Inserted(v: View, readerID: string, list: seq<WindowMetrics>, now: int): View {
    var table := if readerID in v.byReader then v.byReader[readerID] else map[];
    View(v.byReader[readerID := Merge(table, list)], v.updatedAt[readerID := now])
  }

  ghost predicate IsOldest(updatedAt: map<string, int>, readerID: string) {
    readerID in updatedAt && forall r :: r in updatedAt ==> updatedAt[readerID] <= updatedAt[r]
  }

  ghost predicate EvictedOldest(v: View, v': View) {
    exists victim :: IsOldest(v.updatedAt, victim) && v' == v.Without(victim)
  }

  /** What one update may lead to; ties among the oldest are broken by the order of map iteration. */
  ghost predicate Updated(v: View, readerID: string, list: seq<WindowMetrics>, now: int, limit: nat, v': View) {
    if readerID == "" then v' == v
    else
      var w := Inserted(v, readerID, list, now);
      if |w.byReader| <= limit then v' == w else EvictedOldest(w, v')
  }

  class Store {
    var byReader: map<string, Table>
    var updatedAt: map<string, int>
    const limit: nat

    ghost predicate Valid()
      reads this
    {
      limit > 0 && Contents().Valid() && |byReader| <= limit
    }

    function Contents(): View
      reads this
    {
      View(byReader, updatedAt)
    }

    constructor (limit: int)
      ensures Valid() && Contents() == EMPTY
      ensures this.limit == if limit <= 0 then 5000 else limit
    {
      this.limit := if limit <= 0 then DEFAULT_LIMIT else limit;
      byReader, updatedAt := map[], map[];
    }

    method Update(readerID: string, metrics: seq<WindowMetrics>, now: int)
      requires Valid()
      modifies this
      ensures Valid()
      ensures Updated(old(Contents()), readerID, metrics, now, limit, Contents())
    {
      if readerID == "" {
        return;
      }
      var m := if readerID in byReader then byReader[readerID] else map[];
      ghost var m0 := m;
      for i := 0 to |metrics|
        invariant m == Merge(m0, metrics[..i])
      {
        assert metrics[..i + 1][..i] == metrics[..i];
        m := m[metrics[i].windowSec := metrics[i]];
      }
      assert metrics[..|metrics|] == metrics;
      byReader := byReader[readerID := m];
      updatedAt := updatedAt[readerID := now];
      SizeAfterInsert(old(byReader), readerID, m);
      if |byReader| > limit {
        EvictOldest();
      }
    }

    method EvictOldest()
      requires Contents().Valid() && byReader != map[]
      modifies this
      ensures Contents().Valid() && |byReader| == |old(byReader)| - 1
      ensures EvictedOldest(old(Contents()), Contents())
    {
      var oldestReader, oldest := "", 0;
      var pending := updatedAt.Keys;
      while pending != {}
        invariant pending <= updatedAt.Keys
        invariant oldestReader == "" <==> pending == updatedAt.Keys
        invariant oldestReader != "" ==>
                    && oldestReader in updatedAt && updatedAt[oldestReader] == oldest
                    && forall r :: r in updatedAt && r !in pending ==> oldest <= updatedAt[r]
        decreases pending
      {
        var reader :| reader in pending;
        pending := pending - {reader};
        if oldestReader == "" || updatedAt[reader] < oldest {
          oldestReader := reader;
          oldest := updatedAt[reader];
        }
      }
      if oldestReader != "" {
        assert IsOldest(updatedAt, oldestReader);
        SizeAfterDelete(byReader, oldestReader);
        byReader := byReader - {oldestReader};
        updatedAt := updatedAt - {oldestReader};
      }
    }

    method Get(readerID: string) returns (found: bool, out: seq<WindowMetrics>, at: int)
      requires Valid()
      ensures found <==> readerID in byReader
      ensures found ==> at == updatedAt[readerID] && IsListing(byReader[readerID], out)
      ensures !found ==> out == [] && at == 0
    {
      if readerID !in byReader {
        return false, [], 0;
      }
      found, at := true, updatedAt[readerID];
      out := ListTable(byReader[readerID]);
    }

    method GetAll() returns (out: map<string, seq<WindowMetrics>>)
      requires Valid()
      ensures out.Keys == byReader.Keys
      ensures forall r :: r in out ==> IsListing(byReader[r], out[r])
    {
      out := map[];
      var pending := byReader.Keys;
      while pending != {}
        invariant pending <= byReader.Keys && out.Keys == byReader.Keys - pending
        invariant forall r :: r in out ==> IsListing(byReader[r], out[r])
        decreases pending
      {
        var r :| r in pending;
        pending := pending - {r};
        var list := ListTable(byReader[r]);
        out := out[r := list];
      }
    }

    method Clear()
      requires Valid()
      modifies this
      ensures Valid() && Contents() == EMPTY
    {
      byReader, updatedAt := map[], map[];
    }
  }

  /** The values of a table, each key's once, in some order. */
  ghost predicate IsListing(table: Table, out: seq<WindowMetrics>) {
    exists keys: seq<int> :: IsListingBy(table, out, keys)
  }

  ghost predicate IsListingBy(table: Table, out: seq<WindowMetrics>, keys: seq<int>) {
    && |keys| == |out|
    && (forall i, j :: 0 <= i < j < |keys| ==> keys[i] != keys[j])
    && (forall k :: k in table <==> k in keys)
    && (forall i :: 0 <= i < |keys| ==> keys[i] in table && out[i] == table[keys[i]])
  }

  /** A listing has every row of the table, and no other. */
  lemma ListingHasEveryRow(table: Table, out: seq<WindowMetrics>, row: WindowMetrics)
    requires IsListing(table, out)
    ensures row in out <==> exists k :: k in table && table[k] == row
  {
    var keys :| IsListingBy(table, out, keys);
    if row in out {
      var i :| 0 <= i < |out| && out[i] == row;
      assert keys[i] in table && table[keys[i]] == row;
    }
    if k :| k in table && table[k] == row {
      var i :| 0 <= i < |keys| && keys[i] == k;
      assert out[i] == row;
    }
  }

  method ListTable(table: Table) returns (out: seq<WindowMetrics>)
    ensures IsListing(table, out)
  {
    out := [];
    var pending := table.Keys;
    ghost var keys: seq<int> := [];
    while exists k :: k in pending
      invariant pending <= table.Keys && |keys| == |out|
      invariant forall i, j :: 0 <= i < j < |keys| ==> keys[i] != keys[j]
      invariant forall k :: k in keys <==> k in table && k !in pending
      invariant forall i :: 0 <= i < |keys| ==> keys[i] in table && out[i] == table[keys[i]]
      decreases pending
    {
      var k :| k in pending;
      pending := pending - {k};
      out := out + [table[k]];
      keys := keys + [k];
    }
    assert IsListingBy(table, out, keys);
  }

  lemma SizeAfterInsert<T>(m: map<string, T>, k: string, v: T)
    ensures |m[k := v]| == if k in m then |m| else |m| + 1
  {
    assert m[k := v].Keys == m.Keys + {k};
    assert |m[k := v]| == |m[k := v].Keys| && |m| == |m.Keys|;
  }

  lemma SizeAfterDelete<T>(m: map<string, T>, k: string)
    requires k in m
    ensures |m - {k}| == |m| - 1
  {
    assert (m - {k}).Keys == m.Keys - {k};
    assert |m - {k}| == |(m - {k}).Keys| && |m| == |m.Keys|;
  }

  // ---------- Runs: the most recently updated readers ----------

  datatype Touch = Touch(readerID: string, list: seq<WindowMetrics>, at: int)

  /** The store can be in state v after this run of updates since it was last cleared. */
  ghost predicate Reaches(run: seq<Touch>, limit: nat, v: View) {
    if run == [] then v == EMPTY
    else
      var t := run[|run| - 1];
      exists v0 :: Reaches(run[..|run| - 1], limit, v0) && Updated(v0, t.readerID, t.list, t.at, limit, v)
  }

  function Readers(run: seq<Touch>): set<string> {
    if run == [] then {}
    else
      var t := run[|run| - 1];
      Readers(run[..|run| - 1]) + (if t.readerID == "" then {} else {t.readerID})
  }

  /** When a reader was last updated. */
  function LastTouch(run: seq<Touch>, r: string): int
    requires r in Readers(run)
  {
    var t := run[|run| - 1];
    if t.readerID == r then t.at else LastTouch(run[..|run| - 1], r)
  }

  /** Clock readings never go back; strictly: they always advance. */
  predicate Earlier(s: int, t: int, strict: bool) {
    if strict then s < t else s <= t
  }

  ghost predicate Chronological(run: seq<Touch>, strict: bool) {
    forall i, j :: 0 <= i < j < |run| ==> Earlier(run[i].at, run[j].at, strict)
  }

  /** No reader that was left out had been updated later than one that was kept. */
  ghost predicate LatestKept(run: seq<Touch>, kept: set<string>, strict: bool) {
    && kept <= Readers(run)
    && forall a, b :: a in kept && b in Readers(run) - kept ==> Earlier(LastTouch(run, b), LastTouch(run, a), strict)
  }

  function Min(a: nat, b: nat): nat {
    if a < b then a else b
  }

  /** As many readers as fit, and those the most recently updated ones. */
  ghost predicate MostRecent(run: seq<Touch>, limit: nat, kept: set<string>, strict: bool) {
    |kept| == Min(|Readers(run)|, limit) && LatestKept(run, kept, strict)
  }

  /** The store's two maps agree, and the times are those of the last updates. */
  ghost predicate Stamped(run: seq<Touch>, v: View) {
    && v.Valid()
    && v.byReader.Keys <= Readers(run)
    && forall r :: r in v.updatedAt ==> v.updatedAt[r] == LastTouch(run, r)
  }

  lemma {:induction false} LastTouchBound(run: seq<Touch>, r: string, strict: bool, t: Touch)
    requires r in Readers(run) && Chronological(run + [t], strict)
    ensures Earlier(LastTouch(run, r), t.at, strict)
  {
    var n := |run| - 1;
    assert (run + [t])[n] == run[n] && (run + [t])[n + 1] == t;
    if run[n].readerID != r {
      assert run[..n] + [run[n]] == run;
      assert forall i :: 0 <= i <= n ==> (run + [t])[i] == run[i];
      LastTouchBound(run[..n], r, strict, run[n]);
    }
  }

  lemma TouchFacts(run: seq<Touch>, t: Touch, strict: bool)
    requires Chronological(run + [t], strict)
    ensures Readers(run + [t]) == Readers(run) + (if t.readerID == "" then {} else {t.readerID})
    ensures t.readerID != "" ==> LastTouch(run + [t], t.readerID) == t.at
    ensures forall r :: r in Readers(run) ==> Earlier(LastTouch(run, r), t.at, strict)
    ensures forall r :: r in Readers(run) && r != t.readerID ==> LastTouch(run + [t], r) == LastTouch(run, r)
  {
    assert (run + [t])[..|run|] == run;
    forall r | r in Readers(run)
      ensures Earlier(LastTouch(run, r), t.at, strict)
    {
      LastTouchBound(run, r, strict, t);
    }
  }

  lemma {:induction false} NoEmptyReader(run: seq<Touch>)
    ensures "" !in Readers(run)
  {
    if run != [] {
      NoEmptyReader(run[..|run| - 1]);
    }
  }

  /** Inserting the reader of the newest update keeps the latest readers. */
  lemma InsertionKeepsLatest(run: seq<Touch>, t: Touch, v: View, strict: bool)
    requires t.readerID != "" && Chronological(run + [t], strict)
    requires Stamped(run, v) && LatestKept(run, v.byReader.Keys, strict)
    ensures var w := Inserted(v, t.readerID, t.list, t.at);
            && Stamped(run + [t], w)
            && LatestKept(run + [t], w.byReader.Keys, strict)
            && w.byReader.Keys == v.byReader.Keys + {t.readerID}
  {
    TouchFacts(run, t, strict);
    hide Readers, LastTouch, Merge;
    assert Inserted(v, t.readerID, t.list, t.at).byReader.Keys == v.byReader.Keys + {t.readerID};
  }

  /** Evicting an oldest one of them keeps the latest of those that remain. */
  lemma EvictionKeepsLatest(run: seq<Touch>, w: View, victim: string, strict: bool)
    requires Stamped(run, w) && LatestKept(run, w.byReader.Keys, strict)
    requires IsOldest(w.updatedAt, victim)
    requires strict ==> forall r :: r in w.updatedAt && r != victim ==> w.updatedAt[r] != w.updatedAt[victim]
    ensures Stamped(run, w.Without(victim))
    ensures LatestKept(run, w.Without(victim).byReader.Keys, strict)
  {
    hide Readers, LastTouch;
  }

  lemma {:induction false} DistinctTouches(run: seq<Touch>, r: string, q: string)
    requires Chronological(run, true) && r in Readers(run) && q in Readers(run) && r != q
    ensures LastTouch(run, r) != LastTouch(run, q)
  {
    var n := |run| - 1;
    assert run == run[..n] + [run[n]];
    if run[n].readerID == r {
      LastTouchBound(run[..n], q, true, run[n]);
    } else if run[n].readerID == q {
      LastTouchBound(run[..n], r, true, run[n]);
    } else {
      DistinctTouches(run[..n], r, q);
    }
  }

  lemma OldestIsStrict(run: seq<Touch>, w: View, victim: string)
    requires Stamped(run, w) && Chronological(run, true) && victim in w.updatedAt
    ensures forall r :: r in w.updatedAt && r != victim ==> w.updatedAt[r] != w.updatedAt[victim]
  {
    forall r | r in w.updatedAt && r != victim
      ensures w.updatedAt[r] != w.updatedAt[victim]
    {
      DistinctTouches(run, r, victim);
    }
  }

  /** One update keeps the store on the most recently updated readers, whoever it evicts. */
  lemma UpdateKeepsMostRecent(run: seq<Touch>, t: Touch, limit: nat, v: View, v': View, strict: bool)
    requires limit > 0 && Chronological(run + [t], strict)
    requires Stamped(run, v) && MostRecent(run, limit, v.byReader.Keys, strict)
    requires Updated(v, t.readerID, t.list, t.at, limit, v')
    ensures Stamped(run + [t], v') && MostRecent(run + [t], limit, v'.byReader.Keys, strict)
  {
    if t.readerID == "" {
      NamelessChangesNothing(run, t, limit, v, strict);
    } else {
      TouchFacts(run, t, strict);
      hide Readers, LastTouch, LatestKept, Stamped, Chronological;
      var w := Inserted(v, t.readerID, t.list, t.at);
      InsertionKeepsLatest(run, t, v, strict);
      SizeAfterUpdate(run, t, limit, v);
      hide Inserted;
      if |w.byReader| > limit {
        EvictionKeepsMostRecent(run + [t], limit, w, v', strict);
      }
    }
  }

  lemma NamelessChangesNothing(run: seq<Touch>, t: Touch, limit: nat, v: View, strict: bool)
    requires t.readerID == "" && Chronological(run + [t], strict)
    requires Stamped(run, v) && MostRecent(run, limit, v.byReader.Keys, strict)
    ensures Stamped(run + [t], v) && MostRecent(run + [t], limit, v.byReader.Keys, strict)
  {
    hide Readers, LastTouch, Earlier, Chronological;
    TouchFacts(run, t, strict);
    NoEmptyReader(run);
    assert Readers(run + [t]) == Readers(run);
    assert forall r :: r in Readers(run) ==> LastTouch(run + [t], r) == LastTouch(run, r);
  }

  lemma EvictionKeepsMostRecent(run: seq<Touch>, limit: nat, w: View, v': View, strict: bool)
    requires Stamped(run, w) && LatestKept(run, w.byReader.Keys, strict) && Chronological(run, strict)
    requires |w.byReader| == limit + 1 && |Readers(run)| > limit
    requires EvictedOldest(w, v')
    ensures Stamped(run, v') && MostRecent(run, limit, v'.byReader.Keys, strict)
  {
    hide Readers, LastTouch;
    var victim :| IsOldest(w.updatedAt, victim) && v' == w.Without(victim);
    if strict {
      OldestIsStrict(run, w, victim);
    }
    EvictionKeepsLatest(run, w, victim, strict);
    SizeAfterDelete(w.byReader, victim);
    assert |v'.byReader| == |v'.byReader.Keys|;
  }

  lemma SizeAfterUpdate(run: seq<Touch>, t: Touch, limit: nat, v: View)
    requires v.byReader.Keys <= Readers(run) && |v.byReader.Keys| == Min(|Readers(run)|, limit)
    requires Readers(run + [t]) == Readers(run) + {t.readerID}
    ensures var w := Inserted(v, t.readerID, t.list, t.at);
            && |w.byReader| <= limit + 1
            && (|w.byReader| > limit ==> |Readers(run + [t])| > limit)
            && (|w.byReader| <= limit ==> |w.byReader.Keys| == Min(|Readers(run + [t])|, limit))
  {
    var w := Inserted(v, t.readerID, t.list, t.at);
    if v.byReader.Keys != Readers(run) {
      ProperSubsetSize(v.byReader.Keys, Readers(run));
    }
    hide Readers, Merge;
    SizeAfterInsert(v.byReader, t.readerID, w.byReader[t.readerID]);
    SizeOfUnion(Readers(run), t.readerID);
    assert |v.byReader| == |v.byReader.Keys| && |w.byReader| == |w.byReader.Keys|;
  }

  lemma SizeOfUnion(s: set<string>, x: string)
    ensures |s + {x}| == if x in s then |s| else |s| + 1
  {
    if x in s {
      assert s + {x} == s;
    }
  }

  lemma ProperSubsetSize(a: set<string>, b: set<string>)
    requires a <= b && a != b
    ensures |a| < |b|
  {
    var x :| x in b && x !in a;
    SubsetSize(a + {x}, b);
  }

  /**
   After any run the store holds as many readers as fit, none updated earlier than one it forgot,
   and for each of them the time of its last update.
   */
  lemma {:induction false} StoreHoldsMostRecent(run: seq<Touch>, limit: nat, v: View, strict: bool)
    requires limit > 0 && Chronological(run, strict) && Reaches(run, limit, v)
    ensures Stamped(run, v)
    ensures MostRecent(run, limit, v.byReader.Keys, strict)
  {
    if run != [] {
      var n := |run| - 1;
      var v0 :| Reaches(run[..n], limit, v0)
                && Updated(v0, run[n].readerID, run[n].list, run[n].at, limit, v);
      StoreHoldsMostRecent(run[..n], limit, v0, strict);
      assert run == run[..n] + [run[n]];
      UpdateKeepsMostRecent(run[..n], run[n], limit, v0, v, strict);
    }
  }

  /** When the clock always advances that set is determined by the run: the store is an LRU cache. */
  lemma MostRecentIsUnique(run: seq<Touch>, limit: nat, kept: set<string>, kept': set<string>)
    requires MostRecent(run, limit, kept, true) && MostRecent(run, limit, kept', true)
    ensures kept == kept'
  {
    if kept != kept' {
      if kept <= kept' {
        ProperSubsetSize(kept, kept');
      } else if kept' <= kept {
        ProperSubsetSize(kept', kept);
      } else {
        var a :| a in kept && a !in kept';
        var b :| b in kept' && b !in kept;
        assert b in Readers(run) - kept && a in Readers(run) - kept';
      }
    }
  }

  /**
   Exactly when the reader just updated is sure to survive the update, whichever of the oldest readers
   goes: it was stored before, or there is room, or some stored reader bears an earlier time.
   */
  lemma NewestSurvives(v: View, id: string, list: seq<WindowMetrics>, now: int, limit: nat)
    requires v.Valid() && id != "" && 0 < limit && |v.byReader| <= limit
    ensures (forall v' :: Updated(v, id, list, now, limit, v') ==> id in v'.byReader) <==>
            (id in v.byReader || |v.byReader| < limit || exists r :: r in v.updatedAt && v.updatedAt[r] < now)
  {
    var w := Inserted(v, id, list, now);
    SizeAfterInsert(v.byReader, id, w.byReader[id]);
    assert w.byReader.Keys == w.updatedAt.Keys == v.updatedAt.Keys + {id};
    if id !in v.byReader && |v.byReader| == limit {
      if r :| r in v.updatedAt && v.updatedAt[r] < now {
        assert w.updatedAt[r] < w.updatedAt[id];
      } else {
        assert IsOldest(w.updatedAt, id);
        assert Updated(v, id, list, now, limit, w.Without(id));
      }
    } else {
      assert |w.byReader| <= limit;
    }
  }

  lemma FirstUpdate(t: Touch, limit: nat)
    requires t.readerID != "" && limit > 0
    ensures Reaches([t], limit, Inserted(EMPTY, t.readerID, t.list, t.at))
    ensures var v := Inserted(EMPTY, t.readerID, t.list, t.at);
            v.updatedAt == map[t.readerID := t.at] && |v.byReader| == 1 && v.Valid()
  {
    var v := Inserted(EMPTY, t.readerID, t.list, t.at);
    SizeAfterInsert(EMPTY.byReader, t.readerID, v.byReader[t.readerID]);
    assert v.updatedAt == map[t.readerID := t.at] && v.byReader.Keys == {t.readerID};
    var run := [t];
    assert run[..|run| - 1] == [] && run[|run| - 1] == t;
    assert Reaches(run[..|run| - 1], limit, EMPTY) && Updated(EMPTY, t.readerID, t.list, t.at, limit, v);
  }

  /** So on equal clock readings a full store can forget the very reader it was given. */
  lemma TiesCanEvictTheNewest(a: Touch, b: Touch) returns (v: View, v': View)
    requires a.readerID != "" && b.readerID != "" && a.readerID != b.readerID && a.at == b.at
    ensures Reaches([a], 1, v) && Updated(v, b.readerID, b.list, b.at, 1, v') && b.readerID !in v'.byReader
  {
    hide Reaches, Inserted, Updated;
    v := Inserted(EMPTY, a.readerID, a.list, a.at);
    FirstUpdate(a, 1);
    NewestSurvives(v, b.readerID, b.list, b.at, 1);
    v' :| Updated(v, b.readerID, b.list, b.at, 1, v') && b.readerID !in v'.byReader;
  }
}
