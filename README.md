# craas card-reader broadcast service — Dafny model

craas reads "card read" frames from one source and fans each frame out to every
connected TCP client. This project models the sequential core of that service:

- **Flag validation** (`validateFlags`): exactly one source must be chosen, either the
  interactive REPL (`-testing`) or a serial port (`-serial`).
- **The subscriber registry of `publisher`**, as a state machine in the class
  `Broadcast.Publisher`. A channel is named by a number. The registry is the sequence
  `subscribers`, and `closed` records every channel that has been closed. The model
  covers four steps:
  - registration (`handle`);
  - one delivery pass of `publish`: every subscriber is offered the frame, and timed-out
    positions are collected into `removals`;
  - the removal loop;
  - shutdown on a reader error: every channel is closed.
- **The REPL reader** (`repl.go`): the bounded `copy` of `Read`, and how one console line
  becomes a frame (the newline is cut off, plus the carriage return on windows).

The 200 ms `select` timeout becomes an oracle, `accepted`, with one answer per registry
position. Each region protected by the mutex becomes one atomic method. The GOOS value and
the flag values are parameters.

The removal loop has a bug, and it is modelled as written. `for removal := range removals`
binds the position within `removals`, not the stored index. So the loop deletes the
subscribers at original indices 0, 2, …, 2(k−1), whichever ones timed out. It runs out of
range once 2(k−1) ≥ len(subscribers). `Removal.LiteralPassDeletesEvenIndices` proves this,
and two concrete lemmas show the consequences. `Broadcast.Publisher.RemoveTimedOut` is the
corrected pass.

The code holds the registry lock for the whole delivery pass, including every 200 ms wait,
and it removes subscribers by position. It does not snapshot the registry and release the
lock first, and it does not remove subscribers by identity. The model follows the code.

Files: `base.dfy` (bytes, `Option`, small sequence predicates), `flags.dfy`, `repl.dfy`,
`removal.dfy` (the index arithmetic of one publish iteration, on plain sequences) and
`broadcast.dfy` (the `Publisher` class).

## Model

| member | source | states |
|---|---|---|
| Flags.ValidateFlags | craas.go:28-40 | the flags are accepted iff exactly one of `testing` and `serial != ""` holds; when rejected, the message is the "cannot specify a serial port with testing" one iff `testing` is set (both given), and the "no serial port provided" one iff it is not (neither given) |
| Flags.StartupExitStatus | craas.go:124-127 | `main` exits, always with status 1, exactly when both or neither source is chosen; with exactly one source it goes on to listen |
| Repl.Read | repl.go:17-22 | returns `n = min(len(p), len(line))`; `p[0..n)` now holds `line[0..n)` and `p[n..]` is unchanged; the error is always nil; nothing is kept between calls, so the rest of a long line is lost |
| Repl.ReadString | repl.go:44-45 | the `ReadString('\n')` the REPL relies on: `input` is the rest of standard input up to end of file or the first read error; the read fails iff that stream holds no newline, and then returns all of it; on success it returns the prefix of the stream that ends in its first newline |
| Repl.StdinRead | repl.go:41-63 | a failed read gives the close signal and no frame, and that happens iff the rest of the input holds no newline; off windows the frame is the input up to its first newline, without it; on windows one more byte before the newline is dropped; the slice goes out of range iff GOOS is windows and the line is a bare newline |
| Repl.ReadStringFirstLine | repl.go:45 | on input `text + "\n" + rest` with no newline in `text`, `ReadString` returns exactly `text + "\n"` |
| Repl.TrimDropsNewline | repl.go:53 | off windows, the line `text + "\n"` becomes the frame `text`: only the final newline is dropped and every other byte is kept in order |
| Repl.WindowsDropsCarriageReturn | repl.go:55-58 | on windows, the line `text + "\r\n"` becomes the frame `text` |
| Removal.RemoveAtShifts | craas.go:117 | `append(s[:r], s[r+1:]...)` keeps the entries before `r` in place and moves those after it down by one, so the sequence is one shorter |
| Removal.RemoveAtReinsert | craas.go:117 | putting `s[r]` back at position `r` of the shortened sequence gives `s` again |
| Removal.RemoveAtDistinct | craas.go:117 | on a duplicate-free registry the step removes exactly `s[r]` and keeps the registry duplicate-free |
| Removal.TimedOutExactly | craas.go:101-112 | `removals` is strictly increasing; an index is in it iff that subscriber timed out, so it never names a subscriber that accepted |
| Removal.LiteralPass | craas.go:114-118 | the removal loop as written: at step j it closes and deletes the entry at current index j; the number of entries deleted plus the number left is the length of the original registry; when it stays in range there are exactly k deletions |
| Removal.LiteralPassPermutes | craas.go:114-118 | the entries the loop deletes and the entries it leaves make up the original registry as a multiset: no subscriber is lost or duplicated, whatever `removals` holds |
| Removal.DropEvenPrefixAt | craas.go:114-118 | the registry without original indices 0, 2, …, 2(m−1): position i < m holds original entry 2i+1, and position i ≥ m holds original entry i+m |
| Removal.EvenPrefixAt | craas.go:114-118 | the entries at original indices 0, 2, …, 2(m−1), in order: position i holds original entry 2i |
| Removal.LiteralPassDeletesEvenIndices | craas.go:114-118 | with k removals the loop stays in range iff k = 0 or 2(k−1) < len(subscribers); it then leaves `DropEvenPrefix(s, k)`, one entry shorter per removal, and it closes exactly `EvenPrefix(s, k)`, whatever `removals` holds |
| Removal.SurvivorsMembership | craas.go:108-109 | deleting a set of positions keeps every other entry, keeps nothing else, and keeps the registry duplicate-free |
| Removal.SurvivorsAvoidRemoved | craas.go:108-109 | from a duplicate-free registry, no remaining entry is one of the entries at the deleted positions |
| Removal.IntendedKeepsExactlyAccepted | craas.go:103-112 | deleting exactly the positions in `removals` keeps a subscriber iff it accepted the frame |
| Removal.LiteralPassDropsResponsiveSubscriber | craas.go:114-118 | counterexample to the log line "dropping client": with subscribers [10, 11] where only 11 times out, the loop closes and deletes 10 and keeps 11; deleting the marked position would keep 10 |
| Removal.LiteralPassOutOfRange | craas.go:114-115 | counterexample to "the loop stays in range": with three subscribers that all time out, the third step indexes past the end of the registry |
| Broadcast.Publisher.constructor | craas.go:141 | the publisher starts with an empty registry and no closed channel; it also allocates the 256-byte buffer that `publish` declares as the local `bs` at craas.go:78 |
| Broadcast.Publisher.Handle | craas.go:50-60 | registration appends exactly one fresh, open channel at the end; the earlier entries and their order are unchanged |
| Broadcast.Publisher.Deliver | craas.go:101-112 | subscribers are visited in registry order; each is offered the same frame, never on a closed channel; `removals` is `TimedOut(accepted)` |
| Broadcast.Publisher.CloseAndRemoveAt | craas.go:115-117 | one step of the removal loop closes the channel at index r, which was still open, and the registry becomes `RemoveAt(old, r)` |
| Broadcast.Publisher.RemoveLiteral | craas.go:114-118 | the loop as written leaves exactly `LiteralPass(old, 0, len(removals))`: the registry, the set of closed channels, and whether it stayed in range (Go panics when it does not); every channel the loop closes was still open before it, so none is closed twice |
| Broadcast.Publisher.RemoveTimedOut | craas.go:108-110 | the corrected removal: the registry becomes the old one without the positions in `removals`, and exactly the channels at those positions are closed |
| Broadcast.Publisher.CloseAll | craas.go:82-92 | on a reader error every channel currently in the registry is closed, none twice, and no entry is added or removed |
| Broadcast.Publisher.Publish | craas.go:77-121 | one iteration as written. On a reader error: shutdown, with every channel closed. Otherwise the frame is the first min(256, n) bytes of what the reader gave, every subscriber in order is offered that frame, and the registry and closed set are those of `LiteralPass`; it reports a panic iff the loop left the range |
| Broadcast.Publisher.PublishIntended | craas.go:77-121 | the same iteration with the corrected removal: it never panics, a subscriber stays iff it accepted, and exactly the timed-out channels are closed |

## Left out

- The TCP listener and accept loop (craas.go:129-150) are network I/O. Connection handlers are only started on the unreachable line after `log.Fatalln`.
- The receive-and-copy loop of `handle` (craas.go:62-71) is channel and socket I/O. Its `closed` is really Go's `ok` flag, so a handler returns after its first frame. The model does not capture this.
- The mutex, the goroutines, `select` and `time.After` are concurrency. Locked regions are atomic methods, and the timeout is the `accepted` oracle.
- `os.Exit`, `log` output, `flag.Parse` and the global flag variables (craas.go:16-24, 29, 94) are process plumbing. Flag values are parameters. Only the two validation messages are modelled.
- Broadcast.Publisher.Publish: the `ReadError` branch (craas.go:82-94) cannot happen with the REPL reader. `repl.Read` always returns a nil error (repl.go:19-21). At end of standard input `run` returns (repl.go:48, 71-72), and the next `Read` blocks forever on `<-r.bufs`. The branch models the shutdown path for a reader that fails.
- Reader selection in `main` (craas.go:136-139) is left out. The only reader the program builds is the REPL, so `Publish` copies the reader's bytes into `bs` with `Repl.Read`. A reader that returns data together with an error is modelled as `ReadError`; the code drops such data anyway.
- The frame `bs[:n]` shares its backing array with later reads. The model passes frames as values, so this aliasing is not modelled.
- The REPL's `run` driver, `newRepl`, prompt printing and the `Close` handshake (repl.go:24-35, 65-74) are console I/O and concurrency. Only the trimming expression is modelled, with `runtime.GOOS` as a parameter.
- Each `stdinread` builds a fresh `bufio.Reader`, which may buffer and discard input past the first line. `Repl.ReadString` takes as `input` the rest of standard input, up to end of file or the first read error. It models one read over that stream, and not the bytes an earlier reader may have dropped.
- Repl.StdinRead: on windows the byte before the newline is dropped whatever it is. The model states this as the code has it. It does not claim that the dropped byte is a carriage return.
- examples/client/client.go is a gRPC client of generated code that is not part of this model.

## Findings

| source | as written | input that shows it | evidently intended | confidence | as-written member | corrected member |
|---|---|---|---|---|---|---|
| craas.go:114-117 | `for removal := range removals` takes the position in `removals` as the registry index, so step j deletes original index 2j | two subscribers [10, 11]; 10 accepts, 11 times out; `removals = [1]`; the loop closes and deletes 10 and keeps 11 | close and delete exactly the subscribers that timed out (the "dropping client" log line) | high, not executed | Removal.LiteralPassDropsResponsiveSubscriber | Broadcast.Publisher.RemoveTimedOut |
| craas.go:114-115 | `pub.subscribers[removal]` goes past the end once 2(k−1) ≥ len(subscribers) | three subscribers that all time out; `removals = [0, 1, 2]`; the third step indexes position 2 of a one-entry registry, and Go panics | every timed-out subscriber is removed, with no panic | high, not executed | Removal.LiteralPassOutOfRange | Broadcast.Publisher.PublishIntended |
