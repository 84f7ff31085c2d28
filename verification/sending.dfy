/** Calls for alerts, and which of them the cooldown lets through. */
module Sending {
  import opened Model
  import opened Cooldowns

  /** An alert ready to be sent, with the cooldown key it asks under and the reading at which it asks. */
  datatype Call = Call(key: string, at: int, alert: Alert)

  datatype Sent = Sent(calls: seq<Call>, last: map<string, int>)

  /** The calls let through one after another, and the cooldown map afterwards. */
  function Send(calls: seq<Call>, last: map<string, int>, cooldown: int): Sent {
    if calls == [] then Sent([], last)
    else
      var s, c := Send(calls[..|calls| - 1], last, cooldown), calls[|calls| - 1];
      var (allowed, last') := Permit(s.last, c.key, c.at, cooldown);
      Sent(if allowed then s.calls + [c] else s.calls, last')
  }

  function AlertsOf(calls: seq<Call>): seq<Alert> {
    seq(|calls|, i requires 0 <= i < |calls| => calls[i].alert)
  }

  /** The cooldown lets a call through. */
  predicate Ready(last: map<string, int>, key: string, at: int, cooldown: int) {
    cooldown > 0 && key in last ==> at - last[key] >= cooldown
  }

  lemma AlertsOfAppend(a: seq<Call>, b: seq<Call>)
    ensures AlertsOf(a + b) == AlertsOf(a) + AlertsOf(b)
  {
  }

  lemma SendOne(c: Call, last: map<string, int>, cooldown: int)
    ensures Send([c], last, cooldown) ==
            Sent(if Ready(last, c.key, c.at, cooldown) then [c] else [], Permit(last, c.key, c.at, cooldown).1)
  {
    assert [c][..0] == [];
    assert Send([c][..0], last, cooldown) == Sent([], last);
  }

  /** Sending one batch after another is sending them together. */
  lemma {:induction false} SendAppend(a: seq<Call>, b: seq<Call>, last: map<string, int>, cooldown: int)
    ensures var s := Send(a, last, cooldown); var t := Send(b, s.last, cooldown);
            Send(a + b, last, cooldown) == Sent(s.calls + t.calls, t.last)
  {
    hide Permit;
    if b == [] {
      assert a + b == a;
    } else {
      var front, c := b[..|b| - 1], b[|b| - 1];
      SendAppend(a, front, last, cooldown);
      assert (a + b)[..|a + b| - 1] == a + front;
    }
  }

  /** Keys that no call mentions keep their times. */
  lemma {:induction false} OtherKeysKept(calls: seq<Call>, last: map<string, int>, cooldown: int, key: string)
    requires forall i :: 0 <= i < |calls| ==> calls[i].key != key
    ensures var after := Send(calls, last, cooldown).last;
            (key in after <==> key in last) && (key in last ==> after[key] == last[key])
  {
    if calls != [] {
      OtherKeysKept(calls[..|calls| - 1], last, cooldown, key);
    }
  }

  ghost predicate DistinctKeys(calls: seq<Call>) {
    forall i, j :: 0 <= i < j < |calls| ==> calls[i].key != calls[j].key
  }

  /** Calls under keys of their own do not get in each other's way. */
  lemma {:induction false} SendDistinct(calls: seq<Call>, last: map<string, int>, cooldown: int)
    requires DistinctKeys(calls)
    ensures forall c :: c in Send(calls, last, cooldown).calls <==> c in calls && Ready(last, c.key, c.at, cooldown)
  {
    if calls != [] {
      var front, d := calls[..|calls| - 1], calls[|calls| - 1];
      SendDistinct(front, last, cooldown);
      OtherKeysKept(front, last, cooldown, d.key);
      SendLast(front, d, last, cooldown);
      assert calls == front + [d];
      hide Send, Ready;
    }
  }

  lemma SendLast(front: seq<Call>, d: Call, last: map<string, int>, cooldown: int)
    ensures var s := Send(front, last, cooldown);
            Send(front + [d], last, cooldown).calls ==
            if Ready(s.last, d.key, d.at, cooldown) then s.calls + [d] else s.calls
  {
    SendAppend(front, [d], last, cooldown);
    SendOne(d, Send(front, last, cooldown).last, cooldown);
    hide Send, Ready, Permit;
    var s := Send(front, last, cooldown);
    assert s.calls + [] == s.calls;
  }

  // ---------- The greedy schedule of each key ----------

  function Requests(calls: seq<Call>): seq<Request> {
    seq(|calls|, i requires 0 <= i < |calls| => Request(calls[i].key, calls[i].at))
  }

  lemma RequestsFront(calls: seq<Call>)
    requires calls != []
    ensures var n := |calls| - 1;
            && Requests(calls)[..n] == Requests(calls[..n])
            && Requests(calls)[n] == Request(calls[n].key, calls[n].at)
  {
  }

  lemma TimesSnoc(calls: seq<Call>, c: Call, key: string)
    ensures TimesOf(Requests(calls + [c]), key) ==
            if c.key == key then TimesOf(Requests(calls), key) + [c.at] else TimesOf(Requests(calls), key)
  {
    RequestsFront(calls + [c]);
    assert (calls + [c])[..|calls|] == calls;
  }

  lemma {:induction false} SendIsAllowed(calls: seq<Call>, cooldown: int, key: string)
    ensures var s := Send(calls, map[], cooldown);
            && s.last == LastAfter(Requests(calls), cooldown)
            && TimesOf(Requests(s.calls), key) == AllowedTimes(Requests(calls), cooldown, key)
  {
    if calls != [] {
      var n := |calls| - 1;
      SendIsAllowed(calls[..n], cooldown, key);
      RequestsFront(calls);
      TimesSnoc(Send(calls[..n], map[], cooldown).calls, calls[n], key);
      hide Requests, TimesOf;
    }
  }

  /** The calls let through under one key are the greedy schedule of all the calls under it. */
  lemma SendIsGreedy(calls: seq<Call>, cooldown: int, key: string)
    requires cooldown > 0
    ensures var sent := TimesOf(Requests(Send(calls, map[], cooldown).calls), key);
            && sent == Greedy(TimesOf(Requests(calls), key), cooldown)
            && Spaced(sent, cooldown)
  {
    hide *;
    SendIsAllowed(calls, cooldown, key);
    AllowedIsGreedy(Requests(calls), cooldown, key);
    GreedyIsSpaced(TimesOf(Requests(calls), key), cooldown);
  }
}
