/** The command side of the focus-last server: the `SwitchTo(nth)` command a
    client sends, the lookup the server does for it, and the client's
    validation of `-n`. */
module Switch {
  import opened History

  datatype Option<T> = None | Some(value: T)

  /** The command a client sends over the socket. */
  datatype Cmd = SwitchTo(nth: nat)

  /** Why the client rejects its `-n` argument. */
  datatype ValidationError = NotAnInteger | InvalidN

  /** Outcome of the `-n` validator. */
  datatype Validation = Accepted | Rejected(error: ValidationError)

  /** The value of `-n` when the client is given none. */
  const DEFAULT_N: nat := 1

  /** `VecDeque::get(nth)`: the entry at index `nth`, if there is one. */
  function Lookup(h: seq<int>, nth: nat): Option<int>
  {
    if nth < |h| then Some(h[nth]) else None
  }

  /** One client connection, served under the lock: `decoded` is the command
      read from the socket (`None` when it does not decode), and the result is
      the container the server asks i3 to focus, if any. The history is only
      read. */
  function Serve(h: seq<int>, decoded: Option<Cmd>): (focus: Option<int>)
    ensures focus.Some? <==> decoded.Some? && decoded.value.nth < |h|
    ensures focus.Some? ==> focus.value == h[decoded.value.nth]
  {
    match decoded
    case None => None
    case Some(SwitchTo(nth)) => Lookup(h, nth)
  }

  /** The validator of the client's `-n` option. `parsed` is the result of
      parsing the argument as an unsigned integer, `None` when that fails. */
  function ValidateN(parsed: Option<nat>): (r: Validation)
    ensures r == Accepted <==> parsed.Some? && 1 <= parsed.value <= BUFFER_SIZE
    ensures parsed.None? ==> r == Rejected(NotAnInteger)
    ensures parsed.Some? && r != Accepted ==> r == Rejected(InvalidN)
  {
    match parsed
    case None => Rejected(NotAnInteger)
    case Some(v) => if v > 0 && v <= BUFFER_SIZE then Accepted else Rejected(InvalidN)
  }

  /** The command the client sends for an accepted `-n`. */
  function ClientCommand(n: nat): Cmd
  {
    SwitchTo(n)
  }

  /** The default `-n` passes the validator. */
  lemma DefaultAccepted()
    ensures ValidateN(Some(DEFAULT_N)) == Accepted
  {
  }

  /** A fresh server answers every command with nothing, and keeps doing so
      while only non-focus window events arrive. */
  lemma StartsEmpty(events: seq<WindowEvent>, decoded: Option<Cmd>)
    requires NoFocus(events)
    ensures Serve(Replay([], events), decoded) == None
  {
    ReplayNoFocus([], events);
  }

  /** `-n 10` passes the validator, yet the history never holds an entry at
      index 10, so that command never focuses anything. */
  lemma ValidatedTenNeverFound(events: seq<WindowEvent>)
    ensures ValidateN(Some(BUFFER_SIZE)) == Accepted
    ensures Serve(Replay([], events), Some(ClientCommand(BUFFER_SIZE))) == None
  {
    ReplayBounded([], events);
  }

  /** A focus shifts every entry one index further: `SwitchTo(n + 1)` after a
      focus finds what `SwitchTo(n)` found before, unless truncation dropped it. */
  lemma SwitchAfterFocus(h: seq<int>, x: int, n: nat)
    requires n + 1 < BUFFER_SIZE
    ensures Serve(Pushed(h, x), Some(SwitchTo(0))) == Some(x)
    ensures Serve(Pushed(h, x), Some(SwitchTo(n + 1))) == Serve(h, Some(SwitchTo(n)))
  {
    if n < |h| {
      assert Pushed(h, x)[1..][n] == h[n];
    }
  }

  /** The default `-n 1` goes back to the window focused before the current one. */
  lemma SwitchToPrevious(h: seq<int>, a: int, b: int)
    ensures Serve(Pushed(Pushed(h, a), b), Some(ClientCommand(DEFAULT_N))) == Some(a)
  {
    SwitchAfterFocus(Pushed(h, a), b, 0);
  }

  /** The history keeps duplicates: focusing a container already at index
      `i` puts it at the front and leaves the old copy at `i + 1`, unless
      that copy is the one truncation drops. */
  lemma NoDedupe(h: seq<int>, x: int, i: nat)
    requires i < |h| && h[i] == x
    ensures i + 1 < BUFFER_SIZE ==> multiset(Pushed(h, x))[x] >= 2
    ensures i + 1 >= BUFFER_SIZE && |h| <= BUFFER_SIZE && x !in h[..i]
            ==> multiset(Pushed(h, x))[x] == 1
  {
    var r := Pushed(h, x);
    assert r == [x] + r[1..];
    if i + 1 < BUFFER_SIZE {
      assert r[1..][i] == x;
      assert x in multiset(r[1..]);
    } else if |h| <= BUFFER_SIZE && x !in h[..i] {
      assert r[1..] == h[..i];
      assert x !in multiset(r[1..]);
    }
  }

  /** What a critical section on the shared history does: a window event
      from the listener thread, or a connection served by a command thread. */
  datatype Action = Event(e: WindowEvent) | Connection(decoded: Option<Cmd>)

  /** The window events of a trace, in order. */
  function EventsOf(trace: seq<Action>): (events: seq<WindowEvent>)
    ensures forall e :: e in events <==> Event(e) in trace
    decreases |trace|
  {
    if trace == [] then []
    else if trace[0].Event? then [trace[0].e] + EventsOf(trace[1..])
    else EventsOf(trace[1..])
  }

  /** The history after an interleaving of critical sections, and the
      containers the server asked i3 to focus, in order. */
  function RunTrace(h: seq<int>, trace: seq<Action>): (seq<int>, seq<int>)
    decreases |trace|
  {
    if trace == [] then (h, [])
    else match trace[0]
      case Event(e) => RunTrace(Apply(h, e), trace[1..])
      case Connection(d) =>
        var (h', out) := RunTrace(h, trace[1..]);
        (h', (match Serve(h, d) case Some(id) => [id] case None => []) + out)
  }

  /** Commands never change the history: under any interleaving it is what the
      window events alone make of it. */
  lemma {:induction false} TraceHistoryIsReplay(h: seq<int>, trace: seq<Action>)
    ensures RunTrace(h, trace).0 == Replay(h, EventsOf(trace))
    decreases |trace|
  {
    if trace != [] {
      TraceHistoryIsReplay(if trace[0].Event? then Apply(h, trace[0].e) else h, trace[1..]);
      if trace[0].Event? {
        assert ([trace[0].e] + EventsOf(trace[1..]))[1..] == EventsOf(trace[1..]);
      }
    }
  }

  /** The server only ever asks i3 to focus a container that was in the
      history at start or that some focus event named. */
  lemma {:induction false} TraceFocusesOnlySeenIds(h: seq<int>, trace: seq<Action>)
    ensures forall x :: x in RunTrace(h, trace).1 ==> x in h || x in FocusIds(EventsOf(trace))
    decreases |trace|
  {
    if trace != [] {
      match trace[0]
      case Event(e) =>
        var h' := Apply(h, e);
        TraceFocusesOnlySeenIds(h', trace[1..]);
        ReplayOnlySeenIds(h, [e]);
        assert Replay(h, [e]) == h' by {
          assert [e][1..] == [];
        }
        assert EventsOf(trace) == [e] + EventsOf(trace[1..]);
        assert FocusIds(EventsOf(trace)) == FocusIds([e]) + FocusIds(EventsOf(trace[1..]));
      case Connection(d) =>
        TraceFocusesOnlySeenIds(h, trace[1..]);
    }
  }
}
