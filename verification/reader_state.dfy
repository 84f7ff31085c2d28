/** One reader's windows and streaks as the engine keeps them, and the value they stand for. */
module ReaderStates {
  import opened Model
  import opened Window
  import opened Detection

  class ReaderState {
    const id: string
    var windows: map<int, WindowState>
    var uidFailureStreak: map<string, int>

    // This object and its windows.
    ghost var Repr: set<object>

    /** Every window is valid, filed under its whole seconds, and holds what the value says. */
    ghost predicate Represents(v: ReaderView)
      reads this, Repr
    {
      && this in Repr
      && uidFailureStreak == v.streak
      && windows.Keys == v.windows.Keys
      && forall s :: s in windows ==>
           && windows[s] in Repr && windows[s] as object != this
           && windows[s].Valid()
           && WholeSeconds(windows[s].duration) == s
           && v.windows[s] == WindowView(windows[s].duration, windows[s].Live())
    }

    constructor (id: string, durations: seq<int>)
      requires forall i :: 0 <= i < |durations| ==> durations[i] > 0
      ensures this.id == id && fresh(Repr)
      ensures Represents(ReaderView(NewWindows(durations), map[]))
    {
      this.id := id;
      windows := map[];
      uidFailureStreak := map[];
      Repr := {this};
      new;
      for i := 0 to |durations|
        invariant this.id == id && fresh(Repr)
        invariant Represents(ReaderView(NewWindows(durations[..i]), map[]))
      {
        assert durations[..i + 1][..i] == durations[..i];
        var win := durations[i];
        var sec := WholeSeconds(win);
        var w := new WindowState(win);
        windows := windows[sec := w];
        Repr := Repr + {w};
      }
      assert durations[..|durations|] == durations;
    }

    /** Adds an empty window for every configured duration whose whole seconds have none yet. */
    method AddMissing(durations: seq<int>, ghost v: ReaderView)
      requires Represents(v)
      requires forall i :: 0 <= i < |durations| ==> durations[i] > 0
      modifies this`windows, this`Repr
      ensures Represents(v.(windows := Detection.AddMissing(v.windows, durations)))
      ensures fresh(Repr - old(Repr))
    {
      for i := 0 to |durations|
        invariant Represents(v.(windows := Detection.AddMissing(v.windows, durations[..i])))
        invariant fresh(Repr - old(Repr))
      {
        assert durations[..i + 1][..i] == durations[..i];
        var win := durations[i];
        var sec := WholeSeconds(win);
        if sec !in windows {
          var w := new WindowState(win);
          windows := windows[sec := w];
          Repr := Repr + {w};
        }
      }
      assert durations[..|durations|] == durations;
    }

    method StreakOf(uid: string, ghost v: ReaderView) returns (streak: int)
      requires Represents(v)
      ensures streak == if uid in v.streak then v.streak[uid] else 0
    {
      streak := if uid in uidFailureStreak then uidFailureStreak[uid] else 0;
    }

    method SetStreak(uid: string, streak: int, ghost v: ReaderView)
      requires Represents(v)
      modifies this`uidFailureStreak
      ensures Represents(v.(streak := v.streak[uid := streak]))
    {
      uidFailureStreak := uidFailureStreak[uid := streak];
    }

    /** One event pushed to one window, and the window's metrics afterwards. */
    method PushWindow(window: WindowState, e: EventEntry, ghost k: int, ghost v: ReaderView) returns (wm: WindowMetrics)
      requires Represents(v) && k in windows && window == windows[k]
      modifies window
      ensures k in v.windows && v.windows[k].duration > 0
      ensures Represents(v.(windows := v.windows[k := PushView(v.windows[k], e)]))
      ensures wm == MetricsOfView(PushView(v.windows[k], e))
    {
      hide TallyOf, Survivors, MetricsOf, Tally.Plus;
      var cutoff := e.timestamp - window.duration;
      window.Evict(cutoff);
      window.Add(e);
      wm := window.Metrics();
      ghost var w := PushView(v.windows[k], e);
      assert WindowView(window.duration, window.Live()) == w;
      assert v.windows[k := w].Keys == v.windows.Keys;
    }

    lemma KeysKnown(v: ReaderView)
      requires Represents(v)
      ensures windows.Keys == v.windows.Keys
    {
    }

    lemma WindowOwned(v: ReaderView, sec: int)
      requires Represents(v) && sec in windows
      ensures windows[sec] in Repr
    {
    }

    /** The windows in ascending order of their seconds. */
    method SortedWindows(ghost v: ReaderView) returns (keys: seq<int>, out: seq<WindowState>)
      requires Represents(v)
      ensures keys == SortedKeys(v.windows.Keys) && |out| == |keys|
      ensures forall i :: 0 <= i < |keys| ==> keys[i] in windows && out[i] == windows[keys[i]] && out[i] in Repr
    {
      hide SortedKeys, Represents;
      KeysKnown(v);
      keys := SortedKeys(windows.Keys);
      out := [];
      for i := 0 to |keys|
        invariant |out| == i
        invariant forall j :: 0 <= j < i ==> keys[j] in windows && out[j] == windows[keys[j]] && out[j] in Repr
      {
        WindowOwned(v, keys[i]);
        out := out + [windows[keys[i]]];
      }
    }
  }
}
