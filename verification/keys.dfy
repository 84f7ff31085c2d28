/** The string keys under which the cooldown and the dedupe cache file their entries. */
module Keys {
  import opened Model
  import opened Text

  const BAR := "|"
  const AUTH_PREFIX := "authfail|"

  function Digits(n: nat): (s: string)
    ensures |s| >= 1
    ensures forall c :: c in s ==> '0' <= c <= '9'
  {
    var d := '0' + (n % 10) as char;
    if n < 10 then [d] else Digits(n / 10) + [d]
  }

  /** The decimal rendering of an integer. */
  function Itoa(n: int): string {
    if n < 0 then "-" + Digits(-n) else Digits(n)
  }

  function WindowKey(readerID: string, windowSec: int): string {
    readerID + BAR + Itoa(windowSec)
  }

  function AuthKey(readerID: string, uid: string): string {
    AUTH_PREFIX + readerID + BAR + uid
  }

  /** The joined fields that identify an event; the timestamp is rendered in decimal. */
  function DedupeKey(e: Event): string {
    e.readerID + BAR + DedupeRest(e)
  }

  function DedupeRest(e: Event): string {
    e.uid + BAR + (e.result + BAR + (e.errorCode + BAR + Itoa(e.timestamp)))
  }

  predicate IsHexDigit(c: char) {
    '0' <= c <= '9' || 'A' <= c <= 'F'
  }

  predicate IsHex(s: string) {
    forall c :: c in s ==> IsHexDigit(c)
  }

  // ---------- Decimal rendering ----------

  lemma {:induction false} DigitsInjective(m: nat, n: nat)
    requires Digits(m) == Digits(n)
    ensures m == n
  {
    var s, t := Digits(m), Digits(n);
    assert s[|s| - 1] == '0' + (m % 10) as char && t[|t| - 1] == '0' + (n % 10) as char;
    if m >= 10 && n >= 10 {
      assert s[..|s| - 1] == Digits(m / 10) && t[..|t| - 1] == Digits(n / 10);
      DigitsInjective(m / 10, n / 10);
    }
  }

  /** What a string of digits stands for. */
  function Decimal(s: string): int {
    if s == "" then 0 else 10 * Decimal(s[..|s| - 1]) + (s[|s| - 1] as int - '0' as int)
  }

  /** The digits of a number stand for it, without a leading zero. */
  lemma {:induction false} DigitsAreDecimal(n: nat)
    ensures Decimal(Digits(n)) == n && (n > 0 ==> Digits(n)[0] != '0')
  {
    var s := Digits(n);
    assert s[|s| - 1] as int - '0' as int == n % 10;
    if n < 10 {
      assert s[..|s| - 1] == "" && Decimal("") == 0;
    } else {
      DigitsAreDecimal(n / 10);
      assert s[..|s| - 1] == Digits(n / 10);
    }
  }

  lemma ItoaSign(n: int)
    ensures Itoa(n)[0] == '-' <==> n < 0
  {
    if n >= 0 {
      assert Digits(n)[0] in Digits(n);
    }
  }

  lemma ItoaInjective(m: int, n: int)
    requires Itoa(m) == Itoa(n)
    ensures m == n
  {
    ItoaSign(m);
    ItoaSign(n);
    if m < 0 {
      assert Itoa(m)[1..] == Digits(-m) && Itoa(n)[1..] == Digits(-n);
      DigitsInjective(-m, -n);
    } else {
      DigitsInjective(m, n);
    }
  }

  lemma ItoaHasNoBar(n: int)
    ensures '|' !in Itoa(n)
  {
  }

  // ---------- Splitting at a bar ----------

  lemma AfterBar(a: string, x: string)
    requires '|' !in x
    ensures forall i :: |a| < i < |a + BAR + x| ==> (a + BAR + x)[i] != '|'
  {
    assert forall i :: |a| < i < |a + BAR + x| ==> (a + BAR + x)[i] == x[i - |a| - 1];
  }

  lemma SplitAtLastBar(a: string, x: string, b: string, y: string)
    requires '|' !in x && '|' !in y
    requires a + BAR + x == b + BAR + y
    ensures a == b && x == y
  {
    var s := a + BAR + x;
    AfterBar(a, x);
    AfterBar(b, y);
    assert s[|a|] == '|' && s[|b|] == '|';
    assert a == s[..|a|] && b == s[..|b|];
    assert x == s[|a| + 1..] && y == s[|b| + 1..];
  }

  lemma SplitAtFirstBar(a: string, x: string, b: string, y: string)
    requires '|' !in a && '|' !in b
    requires a + BAR + x == b + BAR + y
    ensures a == b && x == y
  {
    var s := a + BAR + x;
    assert s[|a|] == '|' && s[|b|] == '|';
    assert forall i :: 0 <= i < |a| ==> s[i] == a[i] != '|';
    assert forall i :: 0 <= i < |b| ==> s[i] == b[i] != '|';
    assert a == s[..|a|] && b == s[..|b|];
    assert x == s[|a| + 1..] && y == s[|b| + 1..];
  }

  lemma EqualOrPrefix(a: string, x: string, b: string, y: string)
    requires a + BAR + x == b + BAR + y
    ensures a == b || a + BAR <= b || b + BAR <= a
  {
    var s := a + BAR + x;
    assert a + BAR == s[..|a| + 1] && b + BAR == s[..|b| + 1];
    assert a == s[..|a|] && b == s[..|b|];
  }

  // ---------- Key separation ----------

  /** A window key names its reader and its window, even when reader ids contain bars. */
  lemma WindowKeyInjective(r: string, s: int, r': string, s': int)
    ensures WindowKey(r, s) == WindowKey(r', s') <==> r == r' && s == s'
  {
    if WindowKey(r, s) == WindowKey(r', s') {
      ItoaHasNoBar(s);
      ItoaHasNoBar(s');
      SplitAtLastBar(r, Itoa(s), r', Itoa(s'));
      ItoaInjective(s, s');
    }
  }

  lemma HexHasNoBar(u: string)
    requires IsHex(u)
    ensures '|' !in u
  {
  }

  lemma AuthKeyInjective(r: string, u: string, r': string, u': string)
    requires IsHex(u) && IsHex(u')
    ensures AuthKey(r, u) == AuthKey(r', u') <==> r == r' && u == u'
  {
    if AuthKey(r, u) == AuthKey(r', u') {
      HexHasNoBar(u);
      HexHasNoBar(u');
      SplitAtLastBar(AUTH_PREFIX + r, u, AUTH_PREFIX + r', u');
      assert r == (AUTH_PREFIX + r)[|AUTH_PREFIX|..] && r' == (AUTH_PREFIX + r')[|AUTH_PREFIX|..];
    }
  }

  /** Exactly when a window key of one reader is an authentication key of another. */
  lemma WindowKeyMeetsAuthKey(r: string, s: int, r': string, u: string)
    requires IsHex(u)
    ensures WindowKey(r, s) == AuthKey(r', u) <==> r == AUTH_PREFIX + r' && Itoa(s) == u
  {
    if WindowKey(r, s) == AuthKey(r', u) {
      ItoaHasNoBar(s);
      HexHasNoBar(u);
      SplitAtLastBar(r, Itoa(s), AUTH_PREFIX + r', u);
    }
  }

  /** So the two families are disjoint as soon as no reader id begins with the prefix. */
  lemma KeyFamiliesDisjoint(r: string, s: int, r': string, u: string)
    requires IsHex(u) && !(AUTH_PREFIX <= r)
    ensures WindowKey(r, s) != AuthKey(r', u)
  {
    WindowKeyMeetsAuthKey(r, s, r', u);
  }

  /** Without bars in the fields, events share a dedupe key iff all the joined fields agree. */
  lemma DedupeKeyInjective(d: Event, e: Event)
    requires '|' !in d.readerID && '|' !in d.uid && '|' !in d.result && '|' !in d.errorCode
    requires '|' !in e.readerID && '|' !in e.uid && '|' !in e.result && '|' !in e.errorCode
    ensures DedupeKey(d) == DedupeKey(e) <==> d.(source := e.source) == e
  {
    if DedupeKey(d) == DedupeKey(e) {
      SplitAtFirstBar(d.readerID, DedupeRest(d), e.readerID, DedupeRest(e));
      SplitAtFirstBar(d.uid, d.result + BAR + (d.errorCode + BAR + Itoa(d.timestamp)),
                      e.uid, e.result + BAR + (e.errorCode + BAR + Itoa(e.timestamp)));
      SplitAtFirstBar(d.result, d.errorCode + BAR + Itoa(d.timestamp),
                      e.result, e.errorCode + BAR + Itoa(e.timestamp));
      SplitAtFirstBar(d.errorCode, Itoa(d.timestamp), e.errorCode, Itoa(e.timestamp));
      ItoaInjective(d.timestamp, e.timestamp);
    }
  }

  /** Two stamps of the same event have the same key only at the same instant. */
  lemma DedupeKeyTellsTimestamps(e: Event, t: int, t': int)
    ensures DedupeKey(e.(timestamp := t)) == DedupeKey(e.(timestamp := t')) <==> t == t'
  {
    var k, k' := DedupeKey(e.(timestamp := t)), DedupeKey(e.(timestamp := t'));
    if k == k' {
      var p := e.readerID + BAR + (e.uid + BAR + (e.result + BAR + (e.errorCode + BAR)));
      assert k == p + Itoa(t) && k' == p + Itoa(t');
      assert k[|p|..] == Itoa(t) && k'[|p|..] == Itoa(t');
      ItoaInjective(t, t');
    }
  }

  // ---------- Readers that cannot touch each other's entries ----------

  /** What normalisation establishes of an event: a reader id, trimmed fields, one of two results. */
  ghost predicate Normal(e: Event) {
    && e.readerID != "" && Trimmed(e.uid) && Trimmed(e.errorCode)
    && (e.result == RESULT_SUCCESS || e.result == RESULT_FAILURE)
  }

  /** One id goes on past a bar after another, and not with a blank, where no UID can begin. */
  predicate Extends(r: string, q: string) {
    r + BAR <= q && (|q| > |r| + 1 ==> !IsSpace(q[|r| + 1]))
  }

  predicate ApartInDedupe(r: string, q: string) {
    !Extends(r, q) && !Extends(q, r)
  }

  predicate ApartInCooldown(r: string, q: string) {
    q != AUTH_PREFIX + r && r != AUTH_PREFIX + q
  }

  lemma PlainIdsAreApart(r: string, q: string)
    requires '|' !in r && '|' !in q
    ensures ApartInDedupe(r, q) && ApartInCooldown(r, q)
  {
    assert (r + BAR)[|r|] == '|' && (q + BAR)[|q|] == '|';
    assert (AUTH_PREFIX + r)[|AUTH_PREFIX| - 1] == '|' && (AUTH_PREFIX + q)[|AUTH_PREFIX| - 1] == '|';
  }

  ghost predicate CooldownKeyOf(r: string, k: string) {
    || (exists s: nat :: k == WindowKey(r, s))
    || (exists u :: IsHex(u) && k == AuthKey(r, u))
  }

  ghost predicate DedupeKeyOf(r: string, k: string) {
    exists e: Event :: Normal(e) && e.readerID == r && k == DedupeKey(e)
  }

  lemma ApartCooldownKeys(r: string, q: string, k: string)
    requires r != q && ApartInCooldown(r, q)
    ensures !(CooldownKeyOf(r, k) && CooldownKeyOf(q, k))
  {
    if CooldownKeyOf(r, k) && CooldownKeyOf(q, k) {
      if s: nat :| k == WindowKey(r, s) {
        if s': nat :| k == WindowKey(q, s') {
          WindowKeyInjective(r, s, q, s');
        } else {
          var u :| IsHex(u) && k == AuthKey(q, u);
          WindowKeyMeetsAuthKey(r, s, q, u);
        }
      } else {
        var u :| IsHex(u) && k == AuthKey(r, u);
        if s': nat :| k == WindowKey(q, s') {
          WindowKeyMeetsAuthKey(q, s', r, u);
        } else {
          var u' :| IsHex(u') && k == AuthKey(q, u');
          AuthKeyInjective(r, u, q, u');
        }
      }
    }
  }

  /** A normal event of r shares its key with one of q only if q goes on where a UID can begin. */
  lemma SharedKeyExtends(d: Event, e: Event)
    requires Normal(d) && DedupeKey(d) == DedupeKey(e) && d.readerID + BAR <= e.readerID
    ensures Extends(d.readerID, e.readerID)
  {
    var r, q := d.readerID, e.readerID;
    if |q| > |r| + 1 {
      assert DedupeKey(d)[|r| + 1] == q[|r| + 1];
      assert DedupeKey(d)[|r| + 1] == DedupeRest(d)[0] == (if d.uid == "" then '|' else d.uid[0]);
    }
  }

  lemma ApartDedupeKeys(r: string, q: string, k: string)
    requires r != q && ApartInDedupe(r, q)
    ensures !(DedupeKeyOf(r, k) && DedupeKeyOf(q, k))
  {
    if DedupeKeyOf(r, k) && DedupeKeyOf(q, k) {
      var d: Event :| Normal(d) && d.readerID == r && k == DedupeKey(d);
      var e: Event :| Normal(e) && e.readerID == q && k == DedupeKey(e);
      EqualOrPrefix(r, DedupeRest(d), q, DedupeRest(e));
      hide DedupeKey, DedupeRest, Extends;
      if r + BAR <= q {
        SharedKeyExtends(d, e);
      } else {
        SharedKeyExtends(e, d);
      }
    }
  }

  lemma Regroup(r: string, x: string, rest: string)
    ensures r + BAR + ((x + BAR) + BAR + rest) == (r + BAR + x) + BAR + ("" + BAR + rest)
  {
  }

  lemma LastOfUid(x: string)
    ensures (x + BAR)[|x + BAR| - 1] == '|' && (x != "" ==> (x + BAR)[0] == x[0])
  {
  }

  /** Two normal events, one of each reader, with one key. */
  lemma ExtensionSharesDedupeKey(r: string, q: string, at: int) returns (d: Event, e: Event)
    requires r != "" && Extends(r, q)
    ensures Normal(d) && d.readerID == r && d.timestamp == at
    ensures Normal(e) && e.readerID == q && e.timestamp == at
    ensures DedupeKey(d) == DedupeKey(e)
  {
    var x := q[|r| + 1..];
    assert q == r + BAR + x;
    d := Event(at, r, x + BAR, RESULT_SUCCESS, "", "");
    e := Event(at, q, "", RESULT_SUCCESS, "", "");
    Regroup(r, x, RESULT_SUCCESS + BAR + ("" + BAR + Itoa(at)));
    LastOfUid(x);
  }

  lemma PrefixSharesCooldownKey(r: string)
    ensures CooldownKeyOf(AUTH_PREFIX + r, WindowKey(AUTH_PREFIX + r, 10))
    ensures CooldownKeyOf(r, WindowKey(AUTH_PREFIX + r, 10))
  {
    var u := Itoa(10);
    assert IsHex(u);
    assert WindowKey(AUTH_PREFIX + r, 10) == AuthKey(r, u);
  }

  /** The conditions on the ids are exact: each fails precisely when some entry of its cache can be shared. */
  lemma ApartIffNoSharedKey(r: string, q: string)
    requires r != "" && q != "" && r != q
    ensures ApartInDedupe(r, q) <==> forall k :: !(DedupeKeyOf(r, k) && DedupeKeyOf(q, k))
    ensures ApartInCooldown(r, q) <==> forall k :: !(CooldownKeyOf(r, k) && CooldownKeyOf(q, k))
  {
    hide CooldownKeyOf, WindowKey, AuthKey, DedupeKey, Extends;
    if ApartInDedupe(r, q) {
      forall k
        ensures !(DedupeKeyOf(r, k) && DedupeKeyOf(q, k))
      {
        ApartDedupeKeys(r, q, k);
      }
    } else {
      var d, e;
      if Extends(r, q) {
        d, e := ExtensionSharesDedupeKey(r, q, 1);
      } else {
        e, d := ExtensionSharesDedupeKey(q, r, 1);
      }
      assert DedupeKeyOf(r, DedupeKey(d)) && DedupeKeyOf(q, DedupeKey(d));
    }
    if ApartInCooldown(r, q) {
      forall k
        ensures !(CooldownKeyOf(r, k) && CooldownKeyOf(q, k))
      {
        ApartCooldownKeys(r, q, k);
      }
    } else if q == AUTH_PREFIX + r {
      PrefixSharesCooldownKey(r);
    } else {
      PrefixSharesCooldownKey(q);
    }
  }
}
