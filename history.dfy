/** The focus history of the i3 focus-last server: a bounded deque of i3
    container ids, most recently focused first, fed by i3 window events. */
module History {

  /** Maximum number of container ids the history keeps. */
  const BUFFER_SIZE: nat := 10

  /** The `change` field of an i3 window event. Only `Focus` matters to the
      server; every other kind of change (new, close, title, move, ...) is
      `OtherChange`. */
  datatype WindowChange = Focus | OtherChange

  /** An i3 window event: what changed and the id of the container it is about. */
  datatype WindowEvent = WindowEvent(change: WindowChange, containerId: int)

  function Min(a: nat, b: nat): nat { if a <= b then a else b }

  /** `VecDeque::truncate(len)`: keeps the first `len` elements, or all of
      them when there are no more than `len`. */
  function Truncated(s: seq<int>, len: nat): (r: seq<int>)
    ensures |r| == Min(|s|, len)
    ensures r == s[..|r|]
  {
    if len < |s| then s[..len] else s
  }

  /** The history after a focus on `id`: `push_front(id)` then
      `truncate(BUFFER_SIZE)`. */
  function Pushed(h: seq<int>, id: int): (r: seq<int>)
    ensures |r| == Min(|h| + 1, BUFFER_SIZE)
    ensures r[0] == id
    ensures r[1..] == h[..|r| - 1]
    ensures |h| < BUFFER_SIZE ==> r[1..] == h
  {
    Truncated([id] + h, BUFFER_SIZE)
  }

  /** One window event applied to the history: a focus pushes the container
      id, any other change leaves the history alone. */
  function Apply(h: seq<int>, e: WindowEvent): seq<int>
  {
    if e.change == Focus then Pushed(h, e.containerId) else h
  }

  /** The history after a sequence of window events, in arrival order. */
  function Replay(h: seq<int>, events: seq<WindowEvent>): seq<int>
    decreases |events|
  {
    if events == [] then h else Replay(Apply(h, events[0]), events[1..])
  }

  /** The ids of the containers that the focus events among `events` name. */
  function FocusIds(events: seq<WindowEvent>): set<int>
  {
    set e | e in events && e.change == Focus :: e.containerId
  }

  /** Whether the sequence holds no focus event. */
  predicate NoFocus(events: seq<WindowEvent>)
  {
    forall k :: 0 <= k < |events| ==> events[k].change != Focus
  }

  /** Replaying events from a bounded history keeps it bounded. */
  lemma {:induction false} ReplayBounded(h: seq<int>, events: seq<WindowEvent>)
    requires |h| <= BUFFER_SIZE
    ensures |Replay(h, events)| <= BUFFER_SIZE
    decreases |events|
  {
    if events != [] {
      ReplayBounded(Apply(h, events[0]), events[1..]);
    }
  }

  /** Events that are not focus changes leave the history unchanged. */
  lemma {:induction false} ReplayNoFocus(h: seq<int>, events: seq<WindowEvent>)
    requires NoFocus(events)
    ensures Replay(h, events) == h
    decreases |events|
  {
    if events != [] {
      assert events[0].change != Focus;
      ReplayNoFocus(h, events[1..]);
    }
  }

  /** After a run of events, the front of the history is the container of the
      last focus event in the run. */
  lemma {:induction false} ReplayFront(h: seq<int>, events: seq<WindowEvent>, i: nat)
    requires i < |events| && events[i].change == Focus
    requires NoFocus(events[i + 1..])
    ensures |Replay(h, events)| > 0
    ensures Replay(h, events)[0] == events[i].containerId
    decreases |events|
  {
    if i == 0 {
      ReplayNoFocus(Apply(h, events[0]), events[1..]);
    } else {
      assert events[1..][i - 1] == events[i];
      assert events[1..][i..] == events[i + 1..];
      ReplayFront(Apply(h, events[0]), events[1..], i - 1);
    }
  }

  /** Every id in the history came from the starting history or from a
      focus event: the server never invents a container id, and other window
      changes never add one. */
  lemma {:induction false} ReplayOnlySeenIds(h: seq<int>, events: seq<WindowEvent>)
    ensures forall x :: x in Replay(h, events) ==> x in h || x in FocusIds(events)
    decreases |events|
  {
    if events != [] {
      var e := events[0];
      var h' := Apply(h, e);
      var added: set<int> := if e.change == Focus then {e.containerId} else {};
      assert forall x :: x in h' ==> x in h || x in added by {
        if e.change == Focus {
          forall x | x in h' ensures x in h || x in added {
            var k :| 0 <= k < |h'| && h'[k] == x;
            if k > 0 {
              assert h'[1..][k - 1] == x;
            }
          }
        }
      }
      ReplayOnlySeenIds(h', events[1..]);
      assert FocusIds(events) == added + FocusIds(events[1..]) by {
        assert events == [e] + events[1..];
      }
    }
  }

  /** The focus history shared between the event listener and the command
      server (the `VecDeque<i64>` behind the mutex). */
  class FocusHistory {
    var windows: seq<int>

    ghost predicate Valid()
      reads this
    {
      |windows| <= BUFFER_SIZE
    }

    /** The server starts with an empty history. */
    constructor ()
      ensures Valid() && windows == []
    {
      windows := [];
    }

    /** Handles one window event under the lock. */
    method OnWindowEvent(e: WindowEvent)
      requires Valid()
      modifies this
      ensures Valid()
      ensures windows == Apply(old(windows), e)
      ensures e.change != Focus ==> windows == old(windows)
      ensures e.change == Focus ==> windows[0] == e.containerId
    {
      if e.change == Focus {
        windows := [e.containerId] + windows;
        windows := Truncated(windows, BUFFER_SIZE);
      }
    }

    /** The listener loop: handles the window events in arrival order. */
    method Listen(events: seq<WindowEvent>)
      requires Valid()
      modifies this
      ensures Valid()
      ensures windows == Replay(old(windows), events)
    {
      var i := 0;
      while i < |events|
        invariant 0 <= i <= |events|
        invariant Valid()
        invariant Replay(windows, events[i..]) == Replay(old(windows), events)
      {
        assert events[i..][1..] == events[i + 1..];
        OnWindowEvent(events[i]);
        i := i + 1;
      }
    }
  }
}
