# immterm scrollback history, modelled in Dafny

immterm runs a command in a pseudo-terminal, feeds its output to a terminal
emulator and keeps the lines that scroll off the top of the screen in a
*history*. The history is a fixed ring buffer of `size` bytes with a `head`
(oldest byte), a `tail` (next free byte), a `full` flag that tells an empty
buffer from a full one when the two meet, and a `missed` counter of lines lost
since the last drain. Every stored entry is one rendered row followed by CR LF.
A new line that does not fit evicts whole lines from the front, each counted
as missed. A line longer than the whole buffer is rejected and counted. Before
each row is stored, the occupancy is compared with a trigger count. When it is
exceeded, a synchronous callback is called, or the history is drained into an
asynchronous fetch callback.

The project models that core:

- `lines.dfy` (module `Lines`) defines the bytes, the CR LF scan that
  eviction performs, and what counts as whole lines and how many there are.
- `ring.dfy` (module `Ring`) holds the circular index arithmetic. It defines
  the chronological content a `head`/`tail`/`full` state denotes
  (`Linear`) and what the wrapped write does to the array (`WriteWrapped`).
  It proves both against the content.
- `history.dfy` (module `History`) gives the history as a value
  (`Hist`: content and missed count). `Append` is what one append does to it,
  defined through `Evict`. Its lemmas prove the accounting: every line
  appended since the last drain is either stored or counted as missed,
  exactly once.
- `term.dfy` (module `Term`) holds class `Term`, with the `history` array and
  the `head`, `tail`, `full` and `missed` fields. The methods follow the Go
  functions statement by statement, loops included. Each method is proved
  against `Contents()` (the linearised buffer) and the `History` functions.
  A ghost field `appended` counts the appends since the last drain, so that
  the accounting invariant `Conserved()` can be stated on the object.

The two callbacks are recorded rather than run. `thresholdCalls` counts
synchronous threshold calls, and `delivered` lists the snapshots handed to
the fetch callback. The screen and the rendered row come from the emulator
and are inputs. `triggerCount` is an integer setting.

One behaviour of the code is modelled as written, although no caller reaches
it. `appendHistory` with an empty `b` on an empty buffer of nonzero size moves
`tail` by zero. The tail then equals the head, so the code sets `full`, and
the buffer reads as holding `size` stale bytes. `AppendHistory` states this
case separately. `OnScrollback` never reaches it, because it always appends
at least the two terminator bytes.

## Model

| member | source | states |
|---|---|---|
| Term.Term.UsedBytes | term.go:250-258 | the occupancy is at most `size`; it equals `size` exactly when `full`; advancing `head` by it lands on `tail` |
| Term.Term.UsedBytesIsLength | term.go:250-258 | the occupancy is the length of the chronological content |
| Term.Term.UsedBytesIs | term.go:250-258 | below a full buffer, the occupancy is the only distance shorter than `size` from `head` to `tail` |
| Term.Term.constructor | term.go:102-111 | a new session has an empty history, no missed lines, the configured size, trigger count and callbacks, and satisfies the accounting invariant |
| Term.NormalizeHistoryConfig | term.go:72-89 | a non-positive size becomes 4096; a threshold of 1 or more sets the trigger count above the size and removes both callbacks; otherwise the trigger count is the scaled threshold and the callbacks are kept |
| Term.Term.DropOneLine | term.go:289-306 | on an empty buffer nothing changes, `missed` included; otherwise the content loses exactly its first line (up to and including the first CR LF, or everything when there is none), `full` is cleared, `tail` stays and `missed` grows by one |
| Term.Term.PopFront | term.go:295-299 | one step of the scan returns the byte at the head, moves the head one slot on and clears `full` |
| Term.Term.MakeRoom | term.go:273-276 | the eviction loop ends with at least `need` bytes free; the content is what `Evict` leaves and `missed` grows by the number of evictions |
| Term.Term.WriteAtTail | term.go:278-286 | the wrapped write gives the old content followed by `b`; the new tail is `(tail + len(b)) % size`; `full` is set exactly when the tail lands on the head; writing nothing leaves the array unchanged |
| Term.Term.CopyWrapped | term.go:279-282 | the two `copy` calls leave the array as `WriteWrapped` describes: `b` from the tail on, wrapping to slot 0 |
| Term.Term.Store | term.go:273-286 | evicting and then writing leaves the surviving old content followed by `b`, with one missed line per eviction; an empty `b` on an empty buffer sets `full` and leaves `missed` and the array unchanged |
| Term.Term.AppendHistory | term.go:260-287 | size 0 changes nothing; a line longer than the buffer changes only `missed`, by one; otherwise the content and `missed` are those of `History.Append` and the tail moves on by `len(b)` modulo `size`; an empty `b` on an empty buffer sets `full` and leaves `missed` and the array unchanged; appending one whole line keeps the accounting invariant |
| Term.Term.UnsafeFetch | term.go:226-248 | returns the screen, the content in chronological order (its length is the occupancy) and the prior `missed`; the lines returned plus `missed` are the lines appended since the last drain; afterwards the buffer is empty, `head == tail`, `!full` and `missed == 0` |
| Term.Term.DropHistory | term.go:204-211 | empties the buffer (`head == tail`, `!full`, `missed == 0`) and keeps `tail` and the accounting invariant |
| Term.Term.OnScrollback | term.go:176-200 | the threshold test uses the occupancy before the row is stored; the threshold callback and the fetch callback each fire exactly when it exceeds the trigger count and they are set, the fetch delivering the pre-append history; a trigger count of `size` or more never fires; the stored bytes are the row plus CR LF, appended after the drain when there was one, so a drained buffer then holds exactly the new row |
| Lines.FirstLineEnd | term.go:293-304 | the scan stops just past the first CR LF (none ends earlier), or at the end of the content when there is none; it consumes at least one byte of a nonempty content |
| Lines.LineEndFrom | term.go:294-304 | the scan from offset k stops at the first CR LF ending at or after k, or at the end |
| Lines.FirstLineEndUnique | term.go:300-302 | a CR LF with none before it is where the scan stops |
| Lines.Terminated | term.go:194-198 | the stored entry is the row followed by CR LF; a row without CR or LF gives exactly one line |
| Lines.LineCountBounds | term.go:289-306 | a content holds no lines exactly when it is empty, and never more lines than bytes |
| Lines.FirstLineEndConcat | term.go:293-304 | bytes appended after whole lines do not move the end of the first line |
| Lines.LineCountConcat | term.go:278-286 | after whole lines, the line counts of two byte runs add up and whole lines stay whole |
| Lines.LineIsOneLine | term.go:194-198 | one CR LF-terminated entry is one whole line |
| Ring.Advance | term.go:283 | the wrap-around step: the slot k steps after p, for k up to `size`, is always inside the array; `AdvanceIsMod` proves it equals `(p + k) % size`, the form also used at term.go:296 |
| Ring.AdvanceIsMod | term.go:283 | the wrap-around step used in the model is the code's `(p + k) % size` |
| Ring.AdvanceInjective | term.go:250-258 | fewer than `size` steps from one slot never meet in the same slot |
| Ring.Dist | term.go:279-282 | every slot is some number of steps past the tail |
| Ring.Linear | term.go:229-238 | the chronological content (`history[head:tail]` when not wrapped, else `history[head:]` followed by `history[:tail]`) is never longer than the array; `LinearLength` and `LinearAt` give its length and its bytes |
| Ring.LinearLength | term.go:250-258 | `full` holds exactly when the content fills the array; the content's length leads from head to tail |
| Ring.LinearAt | term.go:229-238 | the i-th oldest byte sits i slots after the head |
| Ring.WriteWrapped | term.go:279-282 | the write puts `b[j]` j slots after the tail and leaves every other slot unchanged |
| Ring.WrappedCopy | term.go:279-282 | the two `copy` calls produce exactly `WriteWrapped` |
| Ring.AppendLinear | term.go:278-286 | writing a fitting line at the tail and advancing it gives the old content followed by the line, with valid indices |
| Ring.LinearSkip | term.go:294-299 | moving the head i slots on drops exactly the i oldest bytes and clears `full` |
| Ring.ScanStep | term.go:294-304 | one scan step reads the next content byte, leaves one byte less, and stops exactly at the end of the first line |
| History.Evict | term.go:273-276 | evicting whole lines from the front ends with at least `need` bytes free and never lengthens the content |
| History.EvictSuffix | term.go:273-276 | what survives eviction is the newest part of the old content |
| History.EvictMinimal | term.go:273-276 | eviction evicts exactly enough: the survivors are the content after that many first-line drops, and after any fewer drops the line still did not fit |
| History.EvictLines | term.go:273-276 | stored lines plus evictions are the lines there were; whole lines stay whole; nothing is evicted when the line already fits |
| History.Append | term.go:260-287 | the history after one append never exceeds `size` bytes; `AppendShape` and `AppendConserves` state what the append does |
| History.AppendShape | term.go:260-287 | `missed` never decreases; size 0 changes nothing; a line that can never fit is only counted; otherwise the line ends the content, preceded by the newest bytes of the old content |
| History.AppendConserves | term.go:260-306 | appending one line to whole lines keeps whole lines and raises stored-plus-missed lines by exactly one |
| History.AppendToEmpty | term.go:188-199 | after a drain, the new line is the whole content, or the one missed line when it can never fit |
| History.Feed | term.go:260-287 | the history after a run of appends from a drained state never exceeds `size` bytes |
| History.Conservation | term_test.go:112-115 | after any run of lines appended from a drained state, the lines stored plus `missed` equal the number of lines appended |

## Left out

- The pseudo-terminal and the process: `Start`'s spawning, `Write`, `SetSize`, `Wait`, `Close`, `SetCloseConfig` and the output pump with its panic recovery (term.go:91-174). They are operating-system I/O behind the crosspty library.
- The midterm emulator is a foreign library. The rendered screen is an input value `Screen`. The rendered row is an input byte sequence. Only rows with no CR or LF inside are shown to keep the invariant.
- The float product `int(hc.Threshold * float32(hc.Size))` (term.go:85) and the default threshold 0.6 are not modelled: `NormalizeHistoryConfig` takes the truncated product as the integer `scaled`, and a flag for "threshold is 1 or more".
- Locking: `sync.Mutex`, the lock order in `Fetch` (term.go:216-224), `sync.Once` and the `WaitGroup`. `Fetch` is `UnsafeFetch` run under both locks, so it is not a separate member.
- The callbacks are not run. A call to `onThreshold` is a counter increment. `go t.onThresholdWithFetch(out)` appends `out` to `delivered`; the goroutine's timing is not modelled.
- Go's `int` is treated as unbounded; sizes and counters never approach its range in this code.
