# i3 focus-last: the focus history and the switch command

This project models the core of `i3-focus-last`, a small server that remembers
which i3 containers received focus and lets a client jump back to one of them.
The server keeps a deque of container ids, most recently focused first, bounded
to `BUFFER_SIZE` = 10 entries. Every i3 window event whose change is `Focus`
pushes the container id to the front and truncates the deque to 10; any other
window change leaves it alone. A client sends `SwitchTo(n)`; the server looks
up entry `n` and, if there is one, asks i3 to focus it, and otherwise does
nothing. The client accepts `-n` only when it is an unsigned integer between 1
and 10, with 1 as the default.

- `history.dfy`, module `History`: the window events, the update as functions
  (`Truncated`, `Pushed`, `Apply`, `Replay`), and the class `FocusHistory`
  holding the shared deque as a `seq<int>`, with `OnWindowEvent` (one locked
  update) and `Listen` (the event loop).
- `switch.dfy`, module `Switch`: the command `Cmd`, the lookup `Lookup` and the
  connection handler `Serve`, the `-n` validator `ValidateN`, and a trace of
  critical sections (`Action`, `RunTrace`) that interleaves window events with
  connections to state what the shared history looks like under any order.

The history keeps duplicate ids, has no timer, holds at most 10 ids, and a
switch tries only the index it was given.

A consequence the proofs make explicit: `-n 10` passes the validator, but the
history never holds more than 10 entries (indices 0 to 9), so `SwitchTo(10)`
never focuses anything (`Switch.ValidatedTenNeverFound`).

## Model

| member | source | states |
|---|---|---|
| `History.Truncated` | src/main.rs:84 | the result is the prefix of the deque of length min(len, old length) |
| `History.Pushed` | src/main.rs:83-84 | after a focus on `id` the history has length min(old length + 1, 10), `id` at the front, and the old entries in their old order behind it; nothing old is dropped unless the deque was already full |
| `History.FocusHistory.constructor` | src/main.rs:67 | the shared history starts empty |
| `History.FocusHistory.OnWindowEvent` | src/main.rs:79-85 | a focus event puts the id at the front and keeps the length at most 10; any other window change leaves the history unchanged |
| `History.FocusHistory.Listen` | src/main.rs:76-89 | the listener loop leaves the history equal to the replay of all window events, in arrival order, and keeps it within 10 entries |
| `History.ReplayBounded` | src/main.rs:83-84 | from a history of at most 10 entries, any sequence of window events leaves at most 10 |
| `History.ReplayNoFocus` | src/main.rs:79 | window events none of which is a focus change leave the history unchanged |
| `History.ReplayFront` | src/main.rs:83 | after any run of events the front of the history is the container of the last focus event |
| `History.ReplayOnlySeenIds` | src/main.rs:83 | every id in the history was already there or came from a focus event; other window changes add none |
| `Switch.Serve` | src/main.rs:53-58 | a decoded `SwitchTo(nth)` yields a focus request for exactly entry `nth` when `nth` is below the history length; otherwise, or when the command does not decode, nothing is requested |
| `Switch.ValidateN` | src/main.rs:108-113 | `-n` is accepted iff it parses as an unsigned integer `v` with 1 <= v <= 10; a parse failure and an out-of-range value are rejected with distinct errors |
| `Switch.DefaultAccepted` | src/main.rs:107 | the default `-n` of 1 passes the validator |
| `Switch.StartsEmpty` | src/main.rs:67 | a fresh server, with no focus event yet, answers every command with nothing |
| `Switch.ValidatedTenNeverFound` | src/main.rs:108-111 | `-n 10` is accepted, yet `SwitchTo(10)` finds no entry in any history the events can build |
| `Switch.SwitchAfterFocus` | src/main.rs:83-84 | after a focus on `x`, `SwitchTo(0)` finds `x` and `SwitchTo(n + 1)` finds what `SwitchTo(n)` found before, for n + 1 < 10 |
| `Switch.SwitchToPrevious` | src/main.rs:92-97 | after focusing `a` and then `b`, the client's default command `SwitchTo(1)` focuses `a` again |
| `Switch.NoDedupe` | src/main.rs:83 | focusing a container already at index `i` leaves two copies when `i + 1 < 10`, and a single copy when the old one was the entry truncation drops |
| `Switch.TraceHistoryIsReplay` | src/main.rs:54-57 | under any interleaving of window events and connections the history is the replay of the window events alone: serving a command never changes it |
| `Switch.TraceFocusesOnlySeenIds` | src/main.rs:56-57 | under any interleaving the server only asks i3 to focus container ids that were in the starting history or named by a focus event |

## Left out

- The Unix socket: the path built from `$HOME`, removing a stale socket file, binding, and the accept loop (src/main.rs:26-28, 36-45) are file-system and network I/O.
- Threads and the `Arc<Mutex<...>>`: each locked section is one atomic step; interleavings are modelled as a sequence of such steps (`Switch.RunTrace`), not as concurrent threads.
- i3 IPC: connecting, subscribing, listening and `run_command` are foreign calls; the focus command is the id returned by `Switch.Serve`, and the event stream is a sequence of window events given to `Listen`.
- MessagePack encoding and decoding of `Cmd`: a connection carries the decoded command, or `None` when decoding fails; the decoded command is taken to equal the one the client sent.
- Argument parsing by clap and the parsing of text to `usize`: `Switch.ValidateN` takes the parse result as an optional natural number.
- Panics: `unwrap()` on a failed event and `unreachable!()` on a non-window event are not modelled; the event type holds window events only.
- Integer widths: container ids (`i64`) and indices (`usize`) are unbounded integers; ids are only stored and compared, and indices never come near the limits.
