/** The duplicate cache: when an event counts as already seen, and why compaction never shows. */
module Dedupe {

  const COMPACT_ABOVE := 10000

  ghost predicate Fresh(items: map<string, int>, key: string, now: int, ttl: int) {
    key in items && now - items[key] <= ttl
  }

  function Unexpired(items: map<string, int>, now: int, ttl: int): map<string, int> {
    map k | k in items && now - items[k] <= ttl :: items[k]
  }

  /** The answer to one query, and the cache afterwards; compaction can be switched off. */
  function Lookup(items: map<string, int>, key: string, now: int, ttl: int, compacting: bool)
    : (bool, map<string, int>)
  {
    if key in items && now - items[key] <= ttl then (true, items)
    else
      var added := items[key := now];
      (false, if compacting && |added| > COMPACT_ABOVE then Unexpired(added, now, ttl) else added)
  }

  class DedupeCache {
    var items: map<string, int>

    constructor ()
      ensures items == map[]
    {
      items := map[];
    }

    method Seen(key: string, now: int, ttl: int) returns (seen: bool)
      modifies this
      ensures (seen, items) == Lookup(old(items), key, now, ttl, true)
    {
      if key in items {
        var ts := items[key];
        if now - ts <= ttl {
          return true;
        }
      }
      items := items[key := now];
      if |items| > COMPACT_ABOVE {
        Compact(now, ttl);
      }
      return false;
    }

    /** Deletes expired entries while ranging over the map in an unspecified order. */
    method Compact(now: int, ttl: int)
      modifies this
      ensures items == Unexpired(old(items), now, ttl)
    {
      var pending := items.Keys;
      while pending != {}
        invariant pending <= items.Keys <= old(items).Keys
        invariant forall k :: k in items ==> items[k] == old(items)[k]
        invariant forall k :: k in old(items) && k !in pending ==>
                    (k in items <==> now - old(items)[k] <= ttl)
        decreases pending
      {
        var k :| k in pending;
        pending := pending - {k};
        if now - items[k] > ttl {
          items := items - {k};
        }
      }
    }
  }

  // ---------- Compaction is unobservable ----------

  /** Two caches that answer every query alike at this instant, and at every later one. */
  ghost predicate Agree(a: map<string, int>, b: map<string, int>, now: int, ttl: int) {
    forall k :: && (Fresh(a, k, now, ttl) <==> Fresh(b, k, now, ttl))
                && (Fresh(a, k, now, ttl) ==> a[k] == b[k])
  }

  lemma AgreeLater(a: map<string, int>, b: map<string, int>, now: int, later: int, ttl: int)
    requires Agree(a, b, now, ttl) && now <= later
    ensures Agree(a, b, later, ttl)
  {
    forall k
      ensures Fresh(a, k, later, ttl) ==> Fresh(a, k, now, ttl)
      ensures Fresh(b, k, later, ttl) ==> Fresh(b, k, now, ttl)
    {
    }
  }

  lemma SeenAgrees(a: map<string, int>, b: map<string, int>, key: string, now: int, ttl: int)
    requires Agree(a, b, now, ttl)
    ensures Lookup(a, key, now, ttl, true).0 == Lookup(b, key, now, ttl, false).0
    ensures Agree(Lookup(a, key, now, ttl, true).1, Lookup(b, key, now, ttl, false).1, now, ttl)
  {
    assert Fresh(a, key, now, ttl) <==> Fresh(b, key, now, ttl);
    var a', b' := Lookup(a, key, now, ttl, true).1, Lookup(b, key, now, ttl, false).1;
    forall k
      ensures Fresh(a', k, now, ttl) <==> Fresh(b', k, now, ttl)
      ensures Fresh(a', k, now, ttl) ==> a'[k] == b'[k]
    {
      assert Fresh(a, k, now, ttl) <==> Fresh(b, k, now, ttl);
    }
  }

  datatype Query = Query(key: string, at: int)

  function ItemsAfter(qs: seq<Query>, ttl: int, compacting: bool): map<string, int> {
    if qs == [] then map[]
    else
      var q := qs[|qs| - 1];
      Lookup(ItemsAfter(qs[..|qs| - 1], ttl, compacting), q.key, q.at, ttl, compacting).1
  }

  /** The answer to the i-th query of a run that starts with an empty cache. */
  function Answer(qs: seq<Query>, ttl: int, compacting: bool, i: nat): bool
    requires i < |qs|
  {
    Lookup(ItemsAfter(qs[..i], ttl, compacting), qs[i].key, qs[i].at, ttl, compacting).0
  }

  ghost predicate Chronological(qs: seq<Query>) {
    forall i, j :: 0 <= i < j < |qs| ==> qs[i].at <= qs[j].at
  }

  lemma {:induction false} ItemsAgree(qs: seq<Query>, ttl: int)
    requires Chronological(qs)
    ensures forall now :: (qs == [] || qs[|qs| - 1].at <= now) ==>
              Agree(ItemsAfter(qs, ttl, true), ItemsAfter(qs, ttl, false), now, ttl)
  {
    if qs != [] {
      var n := |qs| - 1;
      var q := qs[n];
      ItemsAgree(qs[..n], ttl);
      SeenAgrees(ItemsAfter(qs[..n], ttl, true), ItemsAfter(qs[..n], ttl, false), q.key, q.at, ttl);
      forall now | q.at <= now
        ensures Agree(ItemsAfter(qs, ttl, true), ItemsAfter(qs, ttl, false), now, ttl)
      {
        AgreeLater(ItemsAfter(qs, ttl, true), ItemsAfter(qs, ttl, false), q.at, now, ttl);
      }
    }
  }

  /** Every run of queries gets the answers of a cache that never drops anything. */
  lemma CompactionUnobservable(qs: seq<Query>, ttl: int, i: nat)
    requires Chronological(qs) && i < |qs|
    ensures Answer(qs, ttl, true, i) == Answer(qs, ttl, false, i)
  {
    ItemsAgree(qs[..i], ttl);
    SeenAgrees(ItemsAfter(qs[..i], ttl, true), ItemsAfter(qs[..i], ttl, false), qs[i].key, qs[i].at, ttl);
  }

  // ---------- What the answers mean ----------

  /** The j-th query is admitted, and bears this key. */
  ghost predicate Admits(qs: seq<Query>, ttl: int, key: string, j: int) {
    0 <= j < |qs| && !Answer(qs, ttl, false, j) && qs[j].key == key
  }

  lemma AdmitsFront(qs: seq<Query>, ttl: int, key: string, j: nat)
    requires j + 1 < |qs|
    ensures Admits(qs[..|qs| - 1], ttl, key, j) <==> Admits(qs, ttl, key, j)
  {
    hide ItemsAfter, Lookup;
    assert qs[..|qs| - 1][..j] == qs[..j];
  }

  /** The entry of a key is the time of its latest admission. */
  ghost predicate IsLatest(qs: seq<Query>, ttl: int, key: string, items: map<string, int>) {
    && (key in items ==> exists j :: 0 <= j < |qs| && Admits(qs, ttl, key, j) && qs[j].at == items[key])
    && forall j :: 0 <= j < |qs| && Admits(qs, ttl, key, j) ==> key in items && qs[j].at <= items[key]
  }

  /** What one query does to the entry of a key. */
  ghost predicate Updates(admitted: bool, at: int, key: string, before: map<string, int>, after: map<string, int>) {
    if admitted then key in after && after[key] == at
    else (key in after <==> key in before) && (key in before ==> after[key] == before[key])
  }

  lemma LatestStays(qs: seq<Query>, ttl: int, key: string, before: map<string, int>, after: map<string, int>)
    requires qs != [] && Chronological(qs)
    requires IsLatest(qs[..|qs| - 1], ttl, key, before)
    requires Updates(Admits(qs, ttl, key, |qs| - 1), qs[|qs| - 1].at, key, before, after)
    ensures IsLatest(qs, ttl, key, after)
  {
    hide Admits;
    var n := |qs| - 1;
    var front := qs[..n];
    forall j | 0 <= j < n
      ensures Admits(front, ttl, key, j) <==> Admits(qs, ttl, key, j)
    {
      AdmitsFront(qs, ttl, key, j);
    }
    if Admits(qs, ttl, key, n) {
      assert qs[n].at == after[key];
    } else if key in before {
      var j :| 0 <= j < n && Admits(front, ttl, key, j) && front[j].at == before[key];
      assert Admits(qs, ttl, key, j) && qs[j].at == after[key];
    }
  }

  /** So it is in the cache that keeps everything. */
  lemma {:induction false} LatestAdmission(qs: seq<Query>, ttl: int, key: string)
    requires Chronological(qs)
    ensures IsLatest(qs, ttl, key, ItemsAfter(qs, ttl, false))
  {
    if qs != [] {
      var n := |qs| - 1;
      LatestAdmission(qs[..n], ttl, key);
      hide IsLatest, Chronological;
      LatestStays(qs, ttl, key, ItemsAfter(qs[..n], ttl, false), ItemsAfter(qs, ttl, false));
    }
  }

  /**
   A query is answered "seen" exactly when an earlier admitted query of the same key lies within
   the ttl. Hence admissions of a key are more than the ttl apart, and each suppression has a cause.
   */
  lemma SeenMeansRecentAdmission(qs: seq<Query>, ttl: int, i: nat)
    requires Chronological(qs) && i < |qs|
    ensures Answer(qs, ttl, true, i) <==>
            exists j :: 0 <= j < i && !Answer(qs, ttl, true, j)
                        && qs[j].key == qs[i].key && qs[i].at - qs[j].at <= ttl
  {
    var front := qs[..i];
    LatestAdmission(front, ttl, qs[i].key);
    CompactionUnobservable(qs, ttl, i);
    forall j | 0 <= j < i
      ensures Answer(qs, ttl, true, j) == Answer(front, ttl, false, j)
    {
      CompactionUnobservable(qs, ttl, j);
      assert front[..j] == qs[..j];
    }
  }

  lemma AdmissionsAreSpaced(qs: seq<Query>, ttl: int, i: nat, j: nat)
    requires Chronological(qs) && i < j < |qs| && qs[i].key == qs[j].key
    requires !Answer(qs, ttl, true, i) && !Answer(qs, ttl, true, j)
    ensures qs[j].at - qs[i].at > ttl
  {
    SeenMeansRecentAdmission(qs, ttl, j);
  }

  /** Right after an insertion, a cache over the threshold holds nothing expired; below it nothing was dropped. */
  lemma LargeCacheIsUnexpired(items: map<string, int>, key: string, now: int, ttl: int)
    requires !Lookup(items, key, now, ttl, true).0
    ensures var after := Lookup(items, key, now, ttl, true).1;
            |after| > 10000 ==> forall k :: k in after ==> now - after[k] <= ttl
    ensures |items[key := now]| <= 10000 ==> Lookup(items, key, now, ttl, true).1 == items[key := now]
  {
  }
}
