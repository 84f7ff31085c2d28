/** The bounded alert buffer, shifted in place once it is full. */
module AlertStore {
  import opened Model
  import opened Sequences

  const DEFAULT_LIMIT := 1000

  class Store {
    var buf: array<Alert>
    var size: nat
    const limit: nat

    ghost predicate Valid()
      reads this
    {
      limit > 0 && buf.Length == limit && size <= limit
    }

    ghost function Contents(): seq<Alert>
      reads this, buf
      requires Valid()
    {
      buf[..size]
    }

    constructor (limit: int)
      ensures Valid() && fresh(buf) && Contents() == []
      ensures this.limit == if limit <= 0 then 1000 else limit
    {
      var capacity := if limit <= 0 then DEFAULT_LIMIT else limit;
      this.limit := capacity;
      buf := new Alert[capacity];
      size := 0;
    }

    method Add(alert: Alert)
      requires Valid()
      modifies this`size, buf
      ensures Valid() && buf == old(buf)
      ensures Contents() == LastN(old(Contents()) + [alert], limit)
      ensures size > 0 && Contents()[size - 1] == alert
    {
      if size < limit {
        buf[size] := alert;
        size := size + 1;
        return;
      }
      ghost var full := buf[..];
      for i := 0 to size - 1
        invariant Valid() && size == limit && buf == old(buf)
        invariant forall k :: 0 <= k < i ==> buf[k] == full[k + 1]
        invariant forall k :: i <= k < size ==> buf[k] == full[k]
      {
        buf[i] := buf[i + 1];
      }
      buf[size - 1] := alert;
      assert buf[..] == full[1..] + [alert];
    }

    method List(limit: int) returns (out: seq<Alert>)
      requires Valid()
      ensures out == if limit <= 0 then Contents() else LastN(Contents(), limit)
      ensures IsSuffix(out, Contents())
      ensures |out| == if 0 < limit < |Contents()| then limit else |Contents()|
    {
      if limit > 0 {
        LastNIsSuffix(Contents(), limit);
      }
      var count := if limit <= 0 || limit > size then size else limit;
      out := [];
      for i := size - count to size
        invariant out == buf[size - count..i]
      {
        out := out + [buf[i]];
      }
    }

    method Since(ts: int) returns (out: seq<Alert>)
      requires Valid()
      ensures out == Filter(Contents(), (a: Alert) => a.timestamp >= ts)
    {
      out := [];
      for i := 0 to size
        invariant out == Filter(buf[..i], (a: Alert) => a.timestamp >= ts)
      {
        assert buf[..i + 1][..i] == buf[..i];
        if buf[i].timestamp >= ts {
          out := out + [buf[i]];
        }
      }
    }

    method Clear()
      requires Valid()
      modifies this
      ensures Valid() && fresh(buf) && Contents() == []
    {
      buf := new Alert[limit];
      size := 0;
    }
  }

  /** The buffer after a log of alerts was added one at a time. */
  function AddedOneByOne(log: seq<Alert>, limit: nat): seq<Alert> {
    if log == [] then []
    else LastN(AddedOneByOne(log[..|log| - 1], limit) + [log[|log| - 1]], limit)
  }

  /** It is always the last alerts of the whole log, oldest first. */
  lemma {:induction false} BufferIsEndOfLog(log: seq<Alert>, limit: nat)
    ensures AddedOneByOne(log, limit) == LastN(log, limit)
    ensures IsSuffix(AddedOneByOne(log, limit), log)
  {
    hide LastN;
    LastNIsSuffix(log, limit);
    if log != [] {
      var front := log[..|log| - 1];
      BufferIsEndOfLog(front, limit);
      LastNAppend(front, [log[|log| - 1]], limit);
      assert front + [log[|log| - 1]] == log;
    }
  }
}
