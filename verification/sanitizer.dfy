/** The API's sanitiser of access lists, and what it does to decisions. */
module Sanitizer {
  import opened Model
  import opened Text
  import opened Access

  // ---------- Sanitising ----------

  function Sanitized(values: seq<string>): seq<string> {
    if values == [] then []
    else
      var front, v := Sanitized(values[..|values| - 1]), TrimSpace(values[|values| - 1]);
      if v == "" then front else front + [v]
  }

  /** The stored entries are the trimmed ones at these increasing positions; all others are blank. */
  ghost predicate TakenAt(values: seq<string>, out: seq<string>, at: seq<int>) {
    && |at| == |out|
    && (forall j :: 0 <= j < |at| ==> 0 <= at[j] < |values| && out[j] == TrimSpace(values[at[j]]) != "")
    && (forall i, j :: 0 <= i < j < |at| ==> at[i] < at[j])
    && forall i :: 0 <= i < |values| && TrimSpace(values[i]) != "" ==> Taken(at, i)
  }

  ghost predicate Taken(at: seq<int>, i: int) {
    exists j :: 0 <= j < |at| && at[j] == i
  }

  /** A sanitised list keeps the order and the spelling of its entries, and drops the blank ones only. */
  lemma {:induction false} SanitizedInOrder(values: seq<string>) returns (at: seq<int>)
    ensures TakenAt(values, Sanitized(values), at)
  {
    if values == [] {
      at := [];
    } else {
      var front, v := values[..|values| - 1], values[|values| - 1];
      at := SanitizedInOrder(front);
      TakenSnoc(front, Sanitized(front), at, v);
      assert front + [v] == values;
      if TrimSpace(v) != "" {
        at := at + [|front|];
      }
      hide TakenAt, TrimSpace;
    }
  }

  lemma TakenSnoc(values: seq<string>, out: seq<string>, at: seq<int>, v: string)
    requires TakenAt(values, out, at)
    ensures TrimSpace(v) == "" ==> TakenAt(values + [v], out, at)
    ensures TrimSpace(v) != "" ==> TakenAt(values + [v], out + [TrimSpace(v)], at + [|values|])
  {
    hide TrimSpace;
    var all, more := values + [v], at + [|values|];
    assert more[|at|] == |values|;
    forall i | Taken(at, i)
      ensures Taken(more, i)
    {
      var j :| 0 <= j < |at| && at[j] == i;
      assert more[j] == i;
    }
  }

  method SanitizeUIDList(values: seq<string>) returns (out: seq<string>)
    ensures out == Sanitized(values)
  {
    out := [];
    for i := 0 to |values|
      invariant out == Sanitized(values[..i])
    {
      assert values[..i + 1][..i] == values[..i];
      var v := TrimSpace(values[i]);
      if v == "" {
        continue;
      }
      out := out + [v];
    }
    assert values[..|values|] == values;
  }

  /** A reader's list survives when its trimmed id is nonempty and an entry is left. */
  predicate Kept(values: map<string, seq<string>>, k: string)
    requires k in values
  {
    TrimSpace(k) != "" && Sanitized(values[k]) != []
  }

  /** A result of sanitising for some order of ranging over the map: of ids that trim alike, one wins. */
  ghost predicate SanitizedFrom(values: map<string, seq<string>>, out: map<string, seq<string>>) {
    && (forall r :: r in out ==>
          exists k :: k in values && Kept(values, k) && TrimSpace(k) == r && out[r] == Sanitized(values[k]))
    && (forall k :: k in values && Kept(values, k) ==> TrimSpace(k) in out)
  }

  method SanitizeReaderLists(values: map<string, seq<string>>) returns (out: map<string, seq<string>>)
    ensures SanitizedFrom(values, out)
  {
    out := map[];
    var pending := values.Keys;
    while pending != {}
      invariant pending <= values.Keys
      invariant forall r :: r in out ==>
                  exists k :: k in values && Kept(values, k) && TrimSpace(k) == r && out[r] == Sanitized(values[k])
      invariant forall k :: k in values && k !in pending && Kept(values, k) ==> TrimSpace(k) in out
      decreases pending
    {
      var k :| k in pending;
      pending := pending - {k};
      var reader := TrimSpace(k);
      if reader == "" {
        continue;
      }
      var clean := SanitizeUIDList(values[k]);
      if |clean| == 0 {
        continue;
      }
      out := out[reader := clean];
    }
  }

  ghost predicate AllBlank(values: seq<string>) {
    forall i :: 0 <= i < |values| ==> TrimSpace(values[i]) == ""
  }

  lemma {:induction false} BlankListsVanish(values: seq<string>)
    ensures Sanitized(values) == [] <==> AllBlank(values)
  {
    if values != [] {
      var front, v := values[..|values| - 1], values[|values| - 1];
      BlankListsVanish(front);
      hide TrimSpace;
      assert AllBlank(values) <==> AllBlank(front) && TrimSpace(v) == "" by {
        assert values == front + [v];
      }
    }
  }

  /**
   The sanitised lists are filed under the trimmed ids, without the empty one, of exactly those readers
   whose list is not all blank; each is the sanitised list of one of them.
   */
  lemma SanitizedReaders(values: map<string, seq<string>>, out: map<string, seq<string>>, r: string)
    requires SanitizedFrom(values, out)
    ensures r in out <==> r != "" && exists k :: k in values && TrimSpace(k) == r && !AllBlank(values[k])
    ensures r in out ==> exists k :: k in values && TrimSpace(k) == r && out[r] == Sanitized(values[k])
  {
    hide TrimSpace, Sanitized, AllBlank;
    forall k | k in values
      ensures Sanitized(values[k]) == [] <==> AllBlank(values[k])
    {
      BlankListsVanish(values[k]);
    }
  }

  lemma ListsSnoc(values: seq<string>, v: string, uid: string)
    ensures Lists(values + [v], uid) <==> Lists(values, uid) || Canonical(v) == uid
  {
    hide Canonical;
    if w :| w in values && Canonical(w) == uid {
      assert w in values + [v];
    }
    assert v in values + [v];
  }

  lemma {:induction false} SanitizedKeepsMeaning(values: seq<string>, uid: string)
    requires uid != ""
    ensures Lists(Sanitized(values), uid) <==> Lists(values, uid)
  {
    if values != [] {
      hide Canonical, TrimSpace, Lists;
      var n := |values| - 1;
      var v := values[n];
      SanitizedKeepsMeaning(values[..n], uid);
      CanonicalIgnoresTrim(v);
      assert values == values[..n] + [v];
      ListsSnoc(values[..n], v, uid);
      ListsSnoc(Sanitized(values[..n]), TrimSpace(v), uid);
      assert Canonical("") == "" by {
        CanonicalOfHex("");
      }
    }
  }

  lemma SanitizedCompilesAlike(values: seq<string>)
    ensures CompiledSet(Sanitized(values)) == CompiledSet(values)
    ensures CompiledSet(values) != {} ==> Sanitized(values) != []
  {
    forall uid | uid != ""
      ensures uid in CompiledSet(Sanitized(values)) <==> uid in CompiledSet(values)
    {
      SanitizedKeepsMeaning(values, uid);
      CompiledSetMeaning(values, uid);
      CompiledSetMeaning(Sanitized(values), uid);
    }
    if uid :| uid in CompiledSet(values) {
      assert uid in CompiledSet(Sanitized(values));
    }
  }

  ghost predicate SameLookups(a: map<string, set<string>>, b: map<string, set<string>>) {
    forall readerID, uid :: InReaderList(a, readerID, uid) <==> InReaderList(b, readerID, uid)
  }

  /**
   A condition on the raw per-reader lists: every id whose list names some UID is already trimmed and
   nonempty, and no untrimmed id with a list naming none can overwrite one of those.
   */
  ghost predicate SafeForAnyId(values: map<string, seq<string>>) {
    && (forall k :: k in values && CompiledSet(values[k]) != {} ==> k != "" && TrimSpace(k) == k)
    && (forall k :: k in values && Kept(values, k) && CompiledSet(values[k]) == {} && TrimSpace(k) != k ==>
          (TrimSpace(k) in values ==> CompiledSet(values[TrimSpace(k)]) == {}))
  }

  lemma AnyIdAlike(values: map<string, seq<string>>, out: map<string, seq<string>>, r: string)
    requires SafeForAnyId(values) && SanitizedFrom(values, out)
    ensures r in CompiledMap(out) <==> r in CompiledMap(values)
    ensures r in CompiledMap(out) ==> CompiledMap(out)[r] == CompiledMap(values)[r]
  {
    hide CompiledSet, Sanitized, TrimSpace;
    if r in values {
      SanitizedCompilesAlike(values[r]);
    }
    if r in out {
      var k :| k in values && Kept(values, k) && TrimSpace(k) == r && out[r] == Sanitized(values[k]);
      SanitizedCompilesAlike(values[k]);
    }
  }

  lemma SafeMapsAlike(values: map<string, seq<string>>, out: map<string, seq<string>>)
    requires SafeForAnyId(values) && SanitizedFrom(values, out)
    ensures CompiledMap(out) == CompiledMap(values)
  {
    forall r
      ensures r in CompiledMap(out) <==> r in CompiledMap(values)
      ensures r in CompiledMap(out) ==> CompiledMap(out)[r] == CompiledMap(values)[r]
    {
      AnyIdAlike(values, out, r);
    }
  }

  /** Some order of ranging over the map in which a given id is the last of those that trim alike. */
  lemma SanitizedWithLast(values: map<string, seq<string>>, last: string) returns (out: map<string, seq<string>>)
    ensures SanitizedFrom(values, out)
    ensures last in values && Kept(values, last) ==>
              TrimSpace(last) in out && out[TrimSpace(last)] == Sanitized(values[last])
  {
    hide TrimSpace, Sanitized, Kept;
    var keys := set k | k in values && Kept(values, k) :: TrimSpace(k);
    var winner := map r | r in keys ::
      (var k :| k in values && Kept(values, k) && TrimSpace(k) == r; k);
    out := map r | r in keys :: Sanitized(values[winner[r]]);
    if last in values && Kept(values, last) {
      out := out[TrimSpace(last) := Sanitized(values[last])];
    }
  }

  lemma UnsafeForSomeId(values: map<string, seq<string>>) returns (out: map<string, seq<string>>)
    requires !SafeForAnyId(values)
    ensures SanitizedFrom(values, out) && !SameLookups(CompiledMap(out), CompiledMap(values))
  {
    if k :| k in values && CompiledSet(values[k]) != {} && !(k != "" && TrimSpace(k) == k) {
      out := SanitizedWithLast(values, k);
      var uid :| uid in CompiledSet(values[k]);
      if k in out {
        var k' :| k' in values && Kept(values, k') && TrimSpace(k') == k;
        TrimSpaceIsTrimmed(k');
        TrimSpaceIsTrimmed(k);
      }
      assert InReaderList(CompiledMap(values), k, uid) && !InReaderList(CompiledMap(out), k, uid);
    } else {
      var k :| k in values && Kept(values, k) && CompiledSet(values[k]) == {} && TrimSpace(k) != k
               && TrimSpace(k) in values && CompiledSet(values[TrimSpace(k)]) != {};
      out := SanitizedWithLast(values, k);
      var r := TrimSpace(k);
      var uid :| uid in CompiledSet(values[r]);
      SanitizedCompilesAlike(values[k]);
      assert InReaderList(CompiledMap(values), r, uid) && !InReaderList(CompiledMap(out), r, uid);
    }
  }

  /** Exactly when sanitising the per-reader lists can never change a lookup, in any map order. */
  lemma SanitizingPreservesAnyLookup(values: map<string, seq<string>>)
    ensures SafeForAnyId(values) <==>
            forall out :: SanitizedFrom(values, out) ==> SameLookups(CompiledMap(out), CompiledMap(values))
  {
    if SafeForAnyId(values) {
      forall out | SanitizedFrom(values, out)
        ensures SameLookups(CompiledMap(out), CompiledMap(values))
      {
        SafeMapsAlike(values, out);
      }
    } else {
      var out := UnsafeForSomeId(values);
    }
  }

  // ---------- Decisions on events ----------

  /** The ids that events bear: normalisation trims them, and puts a default for the empty one. */
  ghost predicate IsEventId(r: string) {
    r != "" && TrimSpace(r) == r
  }

  /** The UIDs that per-reader lists name for a reader. */
  function At(values: map<string, seq<string>>, r: string): set<string> {
    if r in values then CompiledSet(values[r]) else {}
  }

  /**
   A condition on the raw lists: whatever list can end up under a trimmed id names the same UIDs as the
   one that was there, apart from those that the global list names anyway.
   */
  ghost predicate SafeToSanitize(global: set<string>, values: map<string, seq<string>>) {
    forall k :: k in values && Kept(values, k) ==> CompiledSet(values[k]) - global == At(values, TrimSpace(k)) - global
  }

  /** For the ids of events a global list and per-reader lists answer alike. */
  ghost predicate SameAnswers(global: set<string>, a: map<string, seq<string>>, b: map<string, seq<string>>) {
    forall r, uid :: IsEventId(r) ==> (uid in global || uid in At(a, r) <==> uid in global || uid in At(b, r))
  }

  lemma SafeAnswers(global: set<string>, values: map<string, seq<string>>, out: map<string, seq<string>>, r: string)
    requires SafeToSanitize(global, values) && SanitizedFrom(values, out) && IsEventId(r)
    ensures At(out, r) - global == At(values, r) - global
  {
    hide CompiledSet, Sanitized, TrimSpace;
    if r in out {
      var k :| k in values && Kept(values, k) && TrimSpace(k) == r && out[r] == Sanitized(values[k]);
      SanitizedCompilesAlike(values[k]);
    } else if r in values {
      SanitizedCompilesAlike(values[r]);
    }
  }

  lemma UnsafeAnswers(global: set<string>, values: map<string, seq<string>>) returns (out: map<string, seq<string>>)
    requires !SafeToSanitize(global, values)
    ensures SanitizedFrom(values, out) && !SameAnswers(global, out, values)
  {
    hide CompiledSet, Sanitized, TrimSpace;
    var k :| k in values && Kept(values, k) && CompiledSet(values[k]) - global != At(values, TrimSpace(k)) - global;
    var r := TrimSpace(k);
    out := SanitizedWithLast(values, k);
    SanitizedCompilesAlike(values[k]);
    TrimSpaceIsTrimmed(k);
    TrimSpaceIsTrimmed(r);
    assert IsEventId(r) && At(out, r) == CompiledSet(values[k]);
    var uid :| uid !in global && (uid in At(out, r)) != (uid in At(values, r));
  }

  /** Exactly when sanitising per-reader lists never changes an answer about an event, in any map order. */
  lemma SanitizingPreservesLookups(global: set<string>, values: map<string, seq<string>>)
    ensures SafeToSanitize(global, values) <==>
            forall out :: SanitizedFrom(values, out) ==> SameAnswers(global, out, values)
  {
    if SafeToSanitize(global, values) {
      forall out | SanitizedFrom(values, out)
        ensures SameAnswers(global, out, values)
      {
        forall r | IsEventId(r)
          ensures At(out, r) - global == At(values, r) - global
        {
          SafeAnswers(global, values, out, r);
        }
        SameWithoutGlobal(global, out, values);
      }
    } else {
      var out := UnsafeAnswers(global, values);
    }
  }

  lemma SameWithoutGlobal(global: set<string>, a: map<string, seq<string>>, b: map<string, seq<string>>)
    requires forall r :: IsEventId(r) ==> At(a, r) - global == At(b, r) - global
    ensures SameAnswers(global, a, b)
  {
    hide At, TrimSpace;
    forall r, uid | IsEventId(r) && uid !in global
      ensures uid in At(a, r) <==> uid in At(b, r)
    {
      assert uid in At(a, r) <==> uid in At(a, r) - global;
      assert uid in At(b, r) <==> uid in At(b, r) - global;
    }
  }

  lemma TrimmedIdsAreSafe(values: map<string, seq<string>>)
    requires forall k :: k in values ==> k != "" && TrimSpace(k) == k
    ensures SafeForAnyId(values)
    ensures forall global :: SafeToSanitize(global, values)
  {
  }

  /** What posting a policy to the API stores instead of it. */
  ghost predicate SanitizedConfig(cfg: AccessConfig, clean: AccessConfig) {
    && clean.enabled == cfg.enabled && clean.whitelistOnly == cfg.whitelistOnly
    && clean.whitelist == Sanitized(cfg.whitelist) && clean.blacklist == Sanitized(cfg.blacklist)
    && SanitizedFrom(cfg.readerWhitelists, clean.readerWhitelists)
    && SanitizedFrom(cfg.readerBlacklists, clean.readerBlacklists)
  }

  /** With safe reader ids, the sanitised policy compiles to the very same access set. */
  lemma SanitizedPolicyCompilesAlike(cfg: AccessConfig, clean: AccessConfig)
    requires SanitizedConfig(cfg, clean)
    requires SafeForAnyId(cfg.readerWhitelists) && SafeForAnyId(cfg.readerBlacklists)
    ensures Compile(clean) == Compile(cfg)
  {
    SanitizedCompilesAlike(cfg.whitelist);
    SanitizedCompilesAlike(cfg.blacklist);
    SafeMapsAlike(cfg.readerWhitelists, clean.readerWhitelists);
    SafeMapsAlike(cfg.readerBlacklists, clean.readerBlacklists);
  }

  // ---------- The whole policy ----------

  /** Two compiled policies decide alike about every event. */
  ghost predicate SameDecisions(a: AccessSet, b: AccessSet) {
    forall r, uid :: IsEventId(r) ==>
      && (IsBlacklisted(a, r, uid) <==> IsBlacklisted(b, r, uid))
      && (IsWhitelisted(a, r, uid) <==> IsWhitelisted(b, r, uid))
  }

  ghost predicate SafePolicy(cfg: AccessConfig) {
    && SafeToSanitize(CompiledSet(cfg.blacklist), cfg.readerBlacklists)
    && SafeToSanitize(CompiledSet(cfg.whitelist), cfg.readerWhitelists)
  }

  /** What the compiled policy answers, in terms of the sets behind it. */
  lemma AnswersOfPolicy(cfg: AccessConfig, r: string, uid: string)
    requires cfg.enabled && uid != ""
    ensures IsBlacklisted(Compile(cfg), r, uid) <==> uid in CompiledSet(cfg.blacklist) || uid in At(cfg.readerBlacklists, r)
    ensures IsWhitelisted(Compile(cfg), r, uid) <==> uid in CompiledSet(cfg.whitelist) || uid in At(cfg.readerWhitelists, r)
  {
    hide CompiledSet;
  }

  lemma NoEmptyUid(values: seq<string>)
    ensures "" !in CompiledSet(values)
  {
  }

  lemma DecisionsAreAnswers(cfg: AccessConfig, clean: AccessConfig)
    requires cfg.enabled && SanitizedConfig(cfg, clean)
    ensures SameDecisions(Compile(clean), Compile(cfg)) <==>
            && SameAnswers(CompiledSet(cfg.blacklist), clean.readerBlacklists, cfg.readerBlacklists)
            && SameAnswers(CompiledSet(cfg.whitelist), clean.readerWhitelists, cfg.readerWhitelists)
  {
    hide CompiledSet, Compile, IsBlacklisted, IsWhitelisted, SanitizedFrom, Sanitized, IsEventId;
    SanitizedCompilesAlike(cfg.whitelist);
    SanitizedCompilesAlike(cfg.blacklist);
    forall r, uid | uid != ""
      ensures IsBlacklisted(Compile(clean), r, uid) <==>
              uid in CompiledSet(cfg.blacklist) || uid in At(clean.readerBlacklists, r)
      ensures IsWhitelisted(Compile(clean), r, uid) <==>
              uid in CompiledSet(cfg.whitelist) || uid in At(clean.readerWhitelists, r)
      ensures IsBlacklisted(Compile(cfg), r, uid) <==> uid in CompiledSet(cfg.blacklist) || uid in At(cfg.readerBlacklists, r)
      ensures IsWhitelisted(Compile(cfg), r, uid) <==> uid in CompiledSet(cfg.whitelist) || uid in At(cfg.readerWhitelists, r)
    {
      AnswersOfPolicy(clean, r, uid);
      AnswersOfPolicy(cfg, r, uid);
    }
    NothingAboutEmptyUid(cfg, clean);
  }

  lemma NothingAboutEmptyUid(cfg: AccessConfig, clean: AccessConfig)
    ensures forall r :: "" !in At(cfg.readerBlacklists, r) && "" !in At(cfg.readerWhitelists, r)
    ensures forall r :: "" !in At(clean.readerBlacklists, r) && "" !in At(clean.readerWhitelists, r)
    ensures forall r, ac :: !IsBlacklisted(ac, r, "") && !IsWhitelisted(ac, r, "")
  {
  }

  /**
   Exactly when storing the sanitised policy instead of the posted one never changes a decision about an
   event, whatever the order in which the maps are ranged over.
   */
  lemma SanitizingPreservesDecisions(cfg: AccessConfig)
    requires cfg.enabled
    ensures SafePolicy(cfg) <==>
            forall clean :: SanitizedConfig(cfg, clean) ==> SameDecisions(Compile(clean), Compile(cfg))
  {
    hide SameDecisions, SameAnswers, SafeToSanitize, SanitizedFrom, Compile, CompiledSet, Sanitized;
    var deny, allow := CompiledSet(cfg.blacklist), CompiledSet(cfg.whitelist);
    SanitizingPreservesLookups(deny, cfg.readerBlacklists);
    SanitizingPreservesLookups(allow, cfg.readerWhitelists);
    if SafePolicy(cfg) {
      forall clean | SanitizedConfig(cfg, clean)
        ensures SameDecisions(Compile(clean), Compile(cfg))
      {
        DecisionsAreAnswers(cfg, clean);
      }
    } else {
      var clean := UnsafePolicy(cfg);
    }
  }

  lemma UnsafePolicy(cfg: AccessConfig) returns (clean: AccessConfig)
    requires cfg.enabled && !SafePolicy(cfg)
    ensures SanitizedConfig(cfg, clean) && !SameDecisions(Compile(clean), Compile(cfg))
  {
    hide SameDecisions, SameAnswers, SafeToSanitize, SanitizedFrom, Compile, CompiledSet, Sanitized;
    var denied := SanitizedWithLast(cfg.readerBlacklists, "");
    var allowed := SanitizedWithLast(cfg.readerWhitelists, "");
    if !SafeToSanitize(CompiledSet(cfg.blacklist), cfg.readerBlacklists) {
      denied := UnsafeAnswers(CompiledSet(cfg.blacklist), cfg.readerBlacklists);
    } else {
      allowed := UnsafeAnswers(CompiledSet(cfg.whitelist), cfg.readerWhitelists);
    }
    clean := AccessConfig(cfg.enabled, cfg.whitelistOnly, Sanitized(cfg.whitelist), Sanitized(cfg.blacklist), allowed, denied);
    DecisionsAreAnswers(cfg, clean);
  }
}
