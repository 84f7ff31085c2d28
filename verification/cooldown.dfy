/** Alert cooldowns: a greedy schedule per key, and why no other schedule lets more alerts through. */
module Cooldowns {
  import Keys

  /** Whether an alert under this key may go out now, and the map afterwards. */
  function Permit(last: map<string, int>, key: string, now: int, cooldown: int): (bool, map<string, int>) {
    if cooldown <= 0 then (true, last)
    else if key in last && now - last[key] < cooldown then (false, last)
    else (true, last[key := now])
  }

  class Cooldown {
    var last: map<string, int>

    constructor ()
      ensures last == map[]
    {
      last := map[];
    }

    method AllowKey(key: string, cooldown: int, now: int) returns (allowed: bool)
      modifies this
      ensures (allowed, last) == Permit(old(last), key, now, cooldown)
    {
      if cooldown <= 0 {
        return true;
      }
      if key in last {
        var ts := last[key];
        if now - ts < cooldown {
          return false;
        }
      }
      last := last[key := now];
      return true;
    }

    method Allow(readerID: string, windowSec: int, cooldown: int, now: int) returns (allowed: bool)
      modifies this
      ensures (allowed, last) == Permit(old(last), Keys.WindowKey(readerID, windowSec), now, cooldown)
    {
      if cooldown <= 0 {
        return true;
      }
      var key := readerID + "|" + Keys.Itoa(windowSec);
      allowed := AllowKey(key, cooldown, now);
    }
  }

  // ---------- Runs ----------

  datatype Request = Request(key: string, at: int)

  /** The map after a run of requests with one positive cooldown, starting empty. */
  function LastAfter(reqs: seq<Request>, cooldown: int): map<string, int> {
    if reqs == [] then map[]
    else
      var r := reqs[|reqs| - 1];
      Permit(LastAfter(reqs[..|reqs| - 1], cooldown), r.key, r.at, cooldown).1
  }

  /** The times at which requests for one key were allowed. */
  function AllowedTimes(reqs: seq<Request>, cooldown: int, key: string): seq<int> {
    if reqs == [] then []
    else
      var before, r := reqs[..|reqs| - 1], reqs[|reqs| - 1];
      var times := AllowedTimes(before, cooldown, key);
      if r.key == key && Permit(LastAfter(before, cooldown), key, r.at, cooldown).0 then times + [r.at] else times
  }

  /** The times at which one key was requested. */
  function TimesOf(reqs: seq<Request>, key: string): seq<int> {
    if reqs == [] then []
    else
      var times, r := TimesOf(reqs[..|reqs| - 1], key), reqs[|reqs| - 1];
      if r.key == key then times + [r.at] else times
  }

  /** Take a time whenever it is far enough from the last one taken. */
  function Greedy(times: seq<int>, cooldown: int): seq<int> {
    if times == [] then []
    else
      var taken, t := Greedy(times[..|times| - 1], cooldown), times[|times| - 1];
      if taken == [] || t - taken[|taken| - 1] >= cooldown then taken + [t] else taken
  }

  lemma GreedySnoc(times: seq<int>, t: int, cooldown: int)
    ensures var taken := Greedy(times, cooldown);
            Greedy(times + [t], cooldown)
            == if taken == [] || t - taken[|taken| - 1] >= cooldown then taken + [t] else taken
  {
    assert (times + [t])[..|times|] == times;
  }

  lemma NothingGreedy(cooldown: int)
    ensures Greedy([], cooldown) == []
  {
  }

  /** Keys do not interfere: what is allowed under one key is the greedy schedule of its own requests. */
  lemma {:induction false} AllowedIsGreedy(reqs: seq<Request>, cooldown: int, key: string)
    requires cooldown > 0
    ensures AllowedTimes(reqs, cooldown, key) == Greedy(TimesOf(reqs, key), cooldown)
    ensures var g := Greedy(TimesOf(reqs, key), cooldown);
            && (key in LastAfter(reqs, cooldown) <==> g != [])
            && (g != [] ==> LastAfter(reqs, cooldown)[key] == g[|g| - 1])
  {
    hide Greedy;
    NothingGreedy(cooldown);
    if reqs != [] {
      var n := |reqs| - 1;
      AllowedIsGreedy(reqs[..n], cooldown, key);
      GreedySnoc(TimesOf(reqs[..n], key), reqs[n].at, cooldown);
    }
  }

  ghost predicate Spaced(times: seq<int>, cooldown: int) {
    forall i :: 0 <= i && i + 1 < |times| ==> times[i + 1] - times[i] >= cooldown
  }

  lemma {:induction false} GreedyIsSpaced(times: seq<int>, cooldown: int)
    ensures Spaced(Greedy(times, cooldown), cooldown)
  {
    if times != [] {
      GreedyIsSpaced(times[..|times| - 1], cooldown);
    }
  }

  lemma {:induction false} SpacedSpan(times: seq<int>, cooldown: int, i: nat, j: nat)
    requires Spaced(times, cooldown) && cooldown > 0
    requires i <= j < |times|
    ensures times[j] - times[i] >= (j - i) * cooldown
    decreases j - i
  {
    if i < j {
      SpacedSpan(times, cooldown, i, j - 1);
      assert times[j - 1 + 1] - times[j - 1] >= cooldown;
      assert (j - i) * cooldown == (j - 1 - i) * cooldown + cooldown;
    }
  }

  /** Within any interval of the given length at most length / cooldown + 1 alerts go out. */
  lemma AtMostPerInterval(times: seq<int>, cooldown: int, i: nat, j: nat, length: nat)
    requires cooldown > 0 && i <= j < |Greedy(times, cooldown)|
    requires Greedy(times, cooldown)[j] - Greedy(times, cooldown)[i] <= length
    ensures j - i + 1 <= length / cooldown + 1
  {
    GreedyIsSpaced(times, cooldown);
    SpacedSpan(Greedy(times, cooldown), cooldown, i, j);
    QuotientBound(j - i, cooldown, length);
  }

  lemma ProductMonotone(a: int, b: int, d: nat)
    requires a <= b
    ensures a * d <= b * d
  {
  }

  lemma QuotientBound(m: nat, d: int, n: nat)
    requires d > 0 && m * d <= n
    ensures m <= n / d
  {
    var q := n / d + 1;
    assert n < q * d;
    if q <= m {
      ProductMonotone(q, m, d);
    }
  }

  /** A choice of requests: increasing positions whose times are a cooldown apart. */
  ghost predicate IsSchedule(times: seq<int>, cooldown: int, chosen: seq<int>) {
    && (forall i :: 0 <= i < |chosen| ==> 0 <= chosen[i] < |times|)
    && (forall i :: 0 <= i && i + 1 < |chosen| ==>
          chosen[i] < chosen[i + 1] && times[chosen[i + 1]] - times[chosen[i]] >= cooldown)
  }

  ghost predicate Nondecreasing(times: seq<int>) {
    forall i, j :: 0 <= i < j < |times| ==> times[i] <= times[j]
  }

  /** Greedy stays ahead: no schedule is longer, and one just as long ends no earlier. */
  ghost predicate Ahead(times: seq<int>, cooldown: int, chosen: seq<int>)
    requires IsSchedule(times, cooldown, chosen)
  {
    var g := Greedy(times, cooldown);
    && |chosen| <= |g|
    && (|chosen| == |g| > 0 ==> g[|g| - 1] <= times[chosen[|chosen| - 1]])
  }

  lemma {:induction false} GreedyStaysAhead(times: seq<int>, cooldown: int, chosen: seq<int>)
    requires cooldown > 0 && Nondecreasing(times)
    requires IsSchedule(times, cooldown, chosen)
    ensures Ahead(times, cooldown, chosen)
    decreases |times|
  {
    if chosen != [] {
      hide Greedy;
      var k := |chosen| - 1;
      assert 0 <= chosen[k] < |times|;
      var n := |times| - 1;
      ScheduleOfFront(times, cooldown, chosen);
      if chosen[k] < n {
        GreedyStaysAhead(times[..n], cooldown, chosen);
        AheadWithout(times, cooldown, chosen);
      } else {
        GreedyStaysAhead(times[..n], cooldown, chosen[..k]);
        AheadWith(times, cooldown, chosen);
      }
    }
  }

  /** Of a schedule, all but the last choice, and the last unless it is the last time, lie before it. */
  lemma ScheduleOfFront(times: seq<int>, cooldown: int, chosen: seq<int>)
    requires times != [] && chosen != [] && IsSchedule(times, cooldown, chosen)
    ensures var n, k := |times| - 1, |chosen| - 1;
            && IsSchedule(times[..n], cooldown, chosen[..k])
            && (chosen[k] < n ==> IsSchedule(times[..n], cooldown, chosen))
  {
    ChosenIncrease(times, cooldown, chosen);
    var n, k := |times| - 1, |chosen| - 1;
    assert forall i :: 0 <= i < k ==> chosen[i] < chosen[k] <= n;
  }

  /** The new time is not chosen: greedy can only gain on the schedule. */
  lemma AheadWithout(times: seq<int>, cooldown: int, chosen: seq<int>)
    requires times != [] && IsSchedule(times, cooldown, chosen)
    requires var front := times[..|times| - 1]; IsSchedule(front, cooldown, chosen) && Ahead(front, cooldown, chosen)
    ensures Ahead(times, cooldown, chosen)
  {
    var n := |times| - 1;
    assert times == times[..n] + [times[n]];
    GreedySnoc(times[..n], times[n], cooldown);
    hide Greedy;
  }

  /** The new time is chosen: when greedy was level, it must be able to take it too. */
  lemma AheadWith(times: seq<int>, cooldown: int, chosen: seq<int>)
    requires times != [] && chosen != [] && Nondecreasing(times) && IsSchedule(times, cooldown, chosen)
    requires chosen[|chosen| - 1] == |times| - 1
    requires var front, rest := times[..|times| - 1], chosen[..|chosen| - 1];
             IsSchedule(front, cooldown, rest) && Ahead(front, cooldown, rest)
    ensures Ahead(times, cooldown, chosen)
  {
    var n, k := |times| - 1, |chosen| - 1;
    var front, t := times[..n], times[n];
    assert times == front + [t];
    GreedySnoc(front, t, cooldown);
    GreedyEndsInside(front, cooldown);
    assert forall x :: x in front ==> x <= t;
    if k > 0 {
      assert times[chosen[k - 1 + 1]] - times[chosen[k - 1]] >= cooldown;
    }
    hide Greedy;
  }

  lemma {:induction false} ChosenIncrease(times: seq<int>, cooldown: int, chosen: seq<int>)
    requires IsSchedule(times, cooldown, chosen)
    ensures forall i, j :: 0 <= i < j < |chosen| ==> chosen[i] < chosen[j]
  {
    if |chosen| > 1 {
      var k := |chosen| - 1;
      ChosenIncrease(times, cooldown, chosen[..k]);
      assert chosen[k - 1] < chosen[k - 1 + 1];
    }
  }

  lemma {:induction false} GreedyEndsInside(times: seq<int>, cooldown: int)
    ensures var g := Greedy(times, cooldown);
            && (g == [] <==> times == [])
            && (g != [] ==> g[|g| - 1] in times)
  {
    if times != [] {
      GreedyEndsInside(times[..|times| - 1], cooldown);
    }
  }

  /** The cooldown of one key in a whole run: spaced, and as large as any spaced choice can be. */
  lemma CooldownIsOptimal(reqs: seq<Request>, cooldown: int, key: string, chosen: seq<int>)
    requires cooldown > 0 && Nondecreasing(TimesOf(reqs, key))
    requires IsSchedule(TimesOf(reqs, key), cooldown, chosen)
    ensures Spaced(AllowedTimes(reqs, cooldown, key), cooldown)
    ensures |chosen| <= |AllowedTimes(reqs, cooldown, key)|
  {
    AllowedIsGreedy(reqs, cooldown, key);
    GreedyIsSpaced(TimesOf(reqs, key), cooldown);
    GreedyStaysAhead(TimesOf(reqs, key), cooldown, chosen);
  }
}
