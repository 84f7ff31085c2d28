/** UID canonicalisation and the compiled access lists. */
module Access {
  import opened Model
  import opened Sequences
  import opened Text
  import opened Keys

  // ---------- Canonical UIDs ----------

  /** What one character of a raw UID contributes to its canonical form. */
  function HexOf(c: char): string {
    if '0' <= c <= '9' || 'A' <= c <= 'F' then [c]
    else if 'a' <= c <= 'f' then [c - 'a' + 'A']
    else ""
  }

  function Canonical(uid: string): string {
    if uid == "" then "" else Canonical(uid[..|uid| - 1]) + HexOf(uid[|uid| - 1])
  }

  lemma CanonicalOfNothing()
    ensures Canonical("") == ""
  {
  }

  lemma CanonicalNext(uid: string, i: nat)
    requires i < |uid|
    ensures Canonical(uid[..i + 1]) == Canonical(uid[..i]) + HexOf(uid[i])
  {
    assert uid[..i + 1][..i] == uid[..i];
  }

  method NormalizeUID(raw: string) returns (s: string)
    ensures s == Canonical(raw)
  {
    hide Canonical, TrimSpace;
    var uid := TrimSpace(raw);
    CanonicalIgnoresTrim(raw);
    CanonicalOfNothing();
    if uid == "" {
      return "";
    }
    s := "";
    for i := 0 to |uid|
      invariant s == Canonical(uid[..i])
    {
      var r := uid[i];
      CanonicalNext(uid, i);
      if '0' <= r <= '9' {
        s := s + [r];
      } else if 'A' <= r <= 'F' {
        s := s + [r];
      } else if 'a' <= r <= 'f' {
        s := s + [r - 'a' + 'A'];
      }
    }
    assert uid[..|uid|] == uid;
  }

  lemma {:induction false} CanonicalAppend(a: string, b: string)
    ensures Canonical(a + b) == Canonical(a) + Canonical(b)
  {
    if b == "" {
      assert a + b == a;
    } else {
      var n := |b| - 1;
      assert (a + b)[..|a + b| - 1] == a + b[..n];
      CanonicalAppend(a, b[..n]);
    }
  }

  lemma {:induction false} CanonicalIsHex(uid: string)
    ensures IsHex(Canonical(uid))
  {
    if uid != "" {
      CanonicalIsHex(uid[..|uid| - 1]);
    }
  }

  lemma {:induction false} CanonicalOfHex(uid: string)
    requires IsHex(uid)
    ensures Canonical(uid) == uid
  {
    if uid != "" {
      var n := |uid| - 1;
      assert uid[n] in uid;
      assert IsHex(uid[..n]) && HexOf(uid[n]) == [uid[n]];
      CanonicalOfHex(uid[..n]);
      assert uid == uid[..n] + [uid[n]];
    }
  }

  lemma CanonicalIdempotent(uid: string)
    ensures Canonical(Canonical(uid)) == Canonical(uid)
  {
    CanonicalIsHex(uid);
    CanonicalOfHex(Canonical(uid));
  }

  lemma CanonicalOfSpace(c: char, tail: string)
    requires IsSpace(c)
    ensures Canonical([c] + tail) == Canonical(tail)
  {
    CanonicalAppend([c], tail);
    CanonicalNext([c], 0);
    CanonicalOfNothing();
    assert [c][..0] == "" && [c][..1] == [c];
    hide Canonical;
  }

  lemma {:induction false} CanonicalTrimLeft(s: string)
    ensures Canonical(TrimLeft(s)) == Canonical(s)
  {
    hide Canonical;
    if s != [] && IsSpace(s[0]) {
      var c, tail := s[0], s[1..];
      CanonicalTrimLeft(tail);
      CanonicalOfSpace(c, tail);
      assert s == [c] + tail;
    }
  }

  lemma {:induction false} CanonicalTrimRight(s: string)
    ensures Canonical(TrimRight(s)) == Canonical(s)
  {
    if s != [] && IsSpace(s[|s| - 1]) {
      CanonicalTrimRight(s[..|s| - 1]);
    }
  }

  /** Trimming first makes no difference: spaces are not hex digits. */
  lemma CanonicalIgnoresTrim(s: string)
    ensures Canonical(TrimSpace(s)) == Canonical(s)
  {
    CanonicalTrimLeft(s);
    CanonicalTrimRight(TrimLeft(s));
  }

  predicate IsHexAnyCase(c: char) {
    IsHexDigit(c) || 'a' <= c <= 'f'
  }

  /** The hex digits of a raw UID as written. */
  function HexDigits(uid: string): string {
    Filter(uid, IsHexAnyCase)
  }

  predicate SameDigit(c: char, d: char) {
    || c == d
    || ('a' <= c <= 'f' && d as int + 32 == c as int)
    || ('a' <= d <= 'f' && c as int + 32 == d as int)
  }

  ghost predicate EqualUpToCase(a: string, b: string) {
    |a| == |b| && forall i :: 0 <= i < |a| ==> SameDigit(a[i], b[i])
  }

  lemma {:induction false} CanonicalDigits(uid: string)
    ensures |Canonical(uid)| == |HexDigits(uid)|
    ensures forall i :: 0 <= i < |HexDigits(uid)| ==>
              IsHexAnyCase(HexDigits(uid)[i]) && [Canonical(uid)[i]] == HexOf(HexDigits(uid)[i])
  {
    if uid != "" {
      CanonicalDigits(uid[..|uid| - 1]);
    }
  }

  /** Two raw UIDs have one canonical form exactly when their hex digits agree up to case. */
  lemma CanonicalKernel(a: string, b: string)
    ensures Canonical(a) == Canonical(b) <==> EqualUpToCase(HexDigits(a), HexDigits(b))
  {
    hide Canonical, HexDigits;
    CanonicalDigits(a);
    CanonicalDigits(b);
    var x, y := HexDigits(a), HexDigits(b);
    if |x| == |y| {
      forall i | 0 <= i < |x|
        ensures SameDigit(x[i], y[i]) <==> Canonical(a)[i] == Canonical(b)[i]
      {
        assert SameDigit(x[i], y[i]) <==> HexOf(x[i]) == HexOf(y[i]);
      }
    }
  }

  // ---------- Compiled lists ----------

  /** A missing (nil) set or map of the source answers every lookup like an empty one. */
  datatype AccessSet = AccessSet(
    enabled: bool,
    whitelistOnly: bool,
    globalWhitelist: set<string>,
    globalBlacklist: set<string>,
    readerWhitelists: map<string, set<string>>,
    readerBlacklists: map<string, set<string>>)

  function CompiledSet(values: seq<string>): set<string> {
    set v | v in values && Canonical(v) != "" :: Canonical(v)
  }

  function CompiledMap(values: map<string, seq<string>>): map<string, set<string>> {
    map r | r in values && CompiledSet(values[r]) != {} :: CompiledSet(values[r])
  }

  function Compile(cfg: AccessConfig): AccessSet {
    if !cfg.enabled then AccessSet(false, cfg.whitelistOnly, {}, {}, map[], map[])
    else AccessSet(true, cfg.whitelistOnly, CompiledSet(cfg.whitelist), CompiledSet(cfg.blacklist),
                   CompiledMap(cfg.readerWhitelists), CompiledMap(cfg.readerBlacklists))
  }

  method BuildUIDSet(values: seq<string>) returns (uids: set<string>)
    ensures uids == CompiledSet(values)
  {
    uids := {};
    for i := 0 to |values|
      invariant uids == CompiledSet(values[..i])
    {
      assert values[..i + 1] == values[..i] + [values[i]];
      var uid := NormalizeUID(values[i]);
      if uid == "" {
        continue;
      }
      uids := uids + {uid};
    }
    assert values[..|values|] == values;
  }

  method BuildUIDMap(values: map<string, seq<string>>) returns (out: map<string, set<string>>)
    ensures out == CompiledMap(values)
  {
    out := map[];
    var pending := values.Keys;
    while pending != {}
      invariant pending <= values.Keys
      invariant out == map r | r in values && r !in pending && CompiledSet(values[r]) != {} :: CompiledSet(values[r])
      decreases pending
    {
      var reader :| reader in pending;
      pending := pending - {reader};
      var uids := BuildUIDSet(values[reader]);
      if |uids| == 0 {
        continue;
      }
      out := out[reader := uids];
    }
  }

  method BuildAccessControl(cfg: AccessConfig) returns (ac: AccessSet)
    ensures ac == Compile(cfg)
  {
    ac := AccessSet(cfg.enabled, cfg.whitelistOnly, {}, {}, map[], map[]);
    if !ac.enabled {
      return;
    }
    var globalWhitelist := BuildUIDSet(cfg.whitelist);
    var globalBlacklist := BuildUIDSet(cfg.blacklist);
    var readerWhitelists := BuildUIDMap(cfg.readerWhitelists);
    var readerBlacklists := BuildUIDMap(cfg.readerBlacklists);
    ac := AccessSet(true, cfg.whitelistOnly, globalWhitelist, globalBlacklist, readerWhitelists, readerBlacklists);
  }

  predicate InReaderList(lists: map<string, set<string>>, readerID: string, uid: string) {
    readerID in lists && uid in lists[readerID]
  }

  predicate IsBlacklisted(ac: AccessSet, readerID: string, uid: string) {
    uid != "" && (uid in ac.globalBlacklist || InReaderList(ac.readerBlacklists, readerID, uid))
  }

  predicate IsWhitelisted(ac: AccessSet, readerID: string, uid: string) {
    uid != "" && (uid in ac.globalWhitelist || InReaderList(ac.readerWhitelists, readerID, uid))
  }

  // ---------- What a compiled lookup means ----------

  ghost predicate Lists(values: seq<string>, uid: string) {
    exists v :: v in values && Canonical(v) == uid
  }

  ghost predicate ListedFor(global: seq<string>, perReader: map<string, seq<string>>, readerID: string, uid: string) {
    Lists(global, uid) || (readerID in perReader && Lists(perReader[readerID], uid))
  }

  lemma CompiledSetMeaning(values: seq<string>, uid: string)
    requires uid != ""
    ensures uid in CompiledSet(values) <==> Lists(values, uid)
  {
  }

  /** Lookups answer exactly what the configured lists say, entry by entry, for every raw UID. */
  lemma LookupMeaning(cfg: AccessConfig, readerID: string, raw: string)
    requires cfg.enabled && Canonical(raw) != ""
    ensures IsBlacklisted(Compile(cfg), readerID, Canonical(raw)) <==>
            ListedFor(cfg.blacklist, cfg.readerBlacklists, readerID, Canonical(raw))
    ensures IsWhitelisted(Compile(cfg), readerID, Canonical(raw)) <==>
            ListedFor(cfg.whitelist, cfg.readerWhitelists, readerID, Canonical(raw))
  {
    var uid := Canonical(raw);
    CompiledSetMeaning(cfg.blacklist, uid);
    CompiledSetMeaning(cfg.whitelist, uid);
    if readerID in cfg.readerBlacklists {
      CompiledSetMeaning(cfg.readerBlacklists[readerID], uid);
    }
    if readerID in cfg.readerWhitelists {
      CompiledSetMeaning(cfg.readerWhitelists[readerID], uid);
    }
  }
}
