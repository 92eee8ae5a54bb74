# iot-lab-gateway serial channels, modelled in Dafny

This project models the two pieces of sequential logic with which the IoT-LAB gateway
talks to devices over serial links:

- **The expect scanner** (`SerialExpect` in `gateway_code/autotest/expect.py`), used by
  the autotests to drive a node's firmware console. `send` writes a line; `expect`
  reads the link chunk by chunk, keeps in a buffer only the current line plus the
  latest chunk, searches that buffer for a pattern after each non-empty chunk, and
  gives up once the deadline has passed; `expect_list` waits for any of several
  patterns by joining them into one alternation.
- **The control-node command channel** (`ControlNodeSerial` in
  `gateway_code/control_node_interface.py`). A helper process owns the control node's
  serial link. Commands are written to its standard input as lines. A reader thread
  sorts the lines the helper prints into `error ...` diagnostics and command answers.
  Answers go to the waiting sender through a queue of capacity one (the mailbox).
  Each send first drains stale answers.

Files:

- `wrappers.dfy`: `Option`, `Result` and `Outcome` (an operation that returns nothing
  but may raise).
- `text.dfy`: the Python 2 string operations the code relies on (`str.split` with a
  one-character separator, `sep.join`, `str.strip`), with their round trips.
- `expect.dfy`: the scanner. The serial device is the sequence of chunks its reads
  return (an empty chunk is a read that timed out with no data). The clock is the
  index of the read after which the deadline has passed (`None` for the default
  infinite timeout). The regular-expression engine is a `Matcher` parameter; literal
  substring search (`LiteralSearch`) is one concrete matcher. `Expected` is the
  specification of one `expect` call; the `SerialExpect` class runs the loop against
  it.
- `control_node.dfy`: `Queue.Queue(maxsize)` as the class `BoundedQueue`, the drain
  loop `EmptyQueue`, and the class `ControlNodeSerial`. `ReaderFrom` specifies the
  reader loop over the lines the helper prints and the poll at which the process is
  seen to have exited. `SendCommand` is sequential: drain, write, let a running reader read
  at most one line during the wait, then take what was delivered.

## Model

| member | source | states |
|---|---|---|
| Text.Split | gateway_code/control_node_interface.py:72 | `line.split(' ')` always has at least one field, and no field holds the separator |
| Text.Join | gateway_code/autotest/expect.py:36 | `sep.join(parts)`; `JoinSplit`, `SplitJoin`, `JoinFront` and `JoinHasChar` give its round trips with `Split` and which characters it holds |
| Text.JoinSplit | gateway_code/autotest/expect.py:66 | joining the fields of `s.split(c)` with `c` gives `s` back, so the fields cover the string exactly |
| Text.SplitJoin | gateway_code/control_node_interface.py:98 | splitting `c.join(parts)` on `c` gives back the parts when no part holds `c` |
| Text.SplitFirstField | gateway_code/control_node_interface.py:72-73 | the first field of a split is the whole string when the separator is absent, otherwise the text before its first occurrence |
| Text.JoinHasChar | gateway_code/autotest/expect.py:36 | a character is in a join exactly when it is in one of the parts, or in the separator when there are two or more parts |
| Text.StripRemovesOuterSpace | gateway_code/control_node_interface.py:87 | `strip()` removes exactly the leading and the trailing whitespace: the result sits in the line right after the leading whitespace, only whitespace comes before and after it, and it neither starts nor ends with whitespace |
| Text.TrimmedIsUnique | gateway_code/control_node_interface.py:87 | only one piece of a line is trimmed in that sense, so the property above determines the result of `strip()` |
| Text.StripEmptyIffAllSpace | gateway_code/control_node_interface.py:87-88 | the stripped line occurs in the line, and it is `''` exactly when the line is all whitespace |
| Text.StripLeft | gateway_code/control_node_interface.py:87 | the first half of `strip()`: a final segment of the line, preceded only by whitespace, that does not start with whitespace |
| Text.StripRight | gateway_code/control_node_interface.py:87 | the second half of `strip()`: an initial segment of the line, followed only by whitespace, that does not end with whitespace |
| Text.Strip | gateway_code/control_node_interface.py:87 | `strip()` never lengthens the line; `StripRemovesOuterSpace` and `TrimmedIsUnique` determine its result |
| Expect.SerialExpect.constructor | gateway_code/autotest/expect.py:21-24 | a fresh scanner has nothing written and will read the chunks that arrive after its input was flushed |
| Expect.SerialExpect.Send | gateway_code/autotest/expect.py:29-31 | `send(data)` writes `data` followed by exactly one newline and consumes no read |
| Expect.SerialExpect.Expect | gateway_code/autotest/expect.py:39-77 | a multi-line pattern raises before any read; otherwise the result and the reads consumed are those of `Expected`, and nothing is written |
| Expect.SerialExpect.ExpectList | gateway_code/autotest/expect.py:33-37 | `expect_list` behaves as `expect` on the alternation of its patterns |
| Expect.Tail | gateway_code/autotest/expect.py:66 | `buff.split('\n')[-1]` holds no newline; `TailIsCurrentLine` and `TailAppend` say which part of the buffer it is |
| Expect.BufferAt | gateway_code/autotest/expect.py:50-66 | the buffer after `n` reads; `BufferIsLinePlusChunk`, `BufferTracksLine` and `BufferIsSuffixOfStream` state its update and what it holds |
| Expect.ScanFrom | gateway_code/autotest/expect.py:52-77 | the loop from read `k` on performs between `k` and all of the reads; `ScanFromStopsAt` and `ScanFromEnd` tie its end to the first stopping read |
| Expect.TimeUp | gateway_code/autotest/expect.py:56 | the clock check `end_time <= time.time()` after read `k`; `DeadlineIsFirstTimeUp` and the timeout lemmas state when it first holds |
| Expect.DeadlineIsFirstTimeUp | gateway_code/autotest/expect.py:56 | the first read after which the clock check holds is the read the deadline names |
| Expect.Expected | gateway_code/autotest/expect.py:45-77 | one `expect` call fails exactly when the pattern holds a newline and never uses more reads than there are; `ExpectFoundIsFirstMatch` and the timeout lemmas state its results |
| Expect.Alternation | gateway_code/autotest/expect.py:36 | the alternation is wrapped in `(` and `)`; `AlternationHasNewline` and `AlternationExamples` state its contents |
| Expect.TailIsCurrentLine | gateway_code/autotest/expect.py:66 | `buff.split('\n')[-1]` is the current line: a final segment of the buffer with no newline that is all of it or starts right after a newline |
| Expect.TailAppend | gateway_code/autotest/expect.py:66 | the current line of `a + b` is that of `b` if `b` holds a newline, otherwise the current line of `a` followed by `b` |
| Expect.BufferTracksLine | gateway_code/autotest/expect.py:61-66 | after any number of reads, the buffer's current line is the current line of everything read |
| Expect.BufferIsLinePlusChunk | gateway_code/autotest/expect.py:61-66 | an empty read leaves the buffer unchanged; otherwise the new buffer is the newline-free current line of all earlier input plus the new chunk, so a match never reaches into a completed line |
| Expect.BufferIsSuffixOfStream | gateway_code/autotest/expect.py:64-66 | the buffer is always a final segment of all bytes read |
| Expect.ScanFromStopsAt | gateway_code/autotest/expect.py:52-77 | the scan ends at the first read that stops it: a timeout if the deadline has passed there, otherwise the match of the updated buffer |
| Expect.ScanFromEnd | gateway_code/autotest/expect.py:52-77 | each way a scan ends determines the read it ended at and that no earlier read stopped it |
| Expect.ExpectFoundIsFirstMatch | gateway_code/autotest/expect.py:75-77 | a returned match comes from the first non-empty read before the deadline whose buffer matches; no earlier buffer matched; with a sound matcher the text lies in the current line plus the last chunk |
| Expect.ExpectMatchesAtFirstHit | gateway_code/autotest/expect.py:75-77 | the first matching read before the deadline ends `expect` with its match and no further read |
| Expect.ExpectTimesOutAtDeadline | gateway_code/autotest/expect.py:54-58 | with no match before it, the read at the deadline times out even when its chunk would have matched |
| Expect.ExpectTimeoutIsAtDeadline | gateway_code/autotest/expect.py:56-58 | a timeout happens exactly at the read the deadline names, after no match |
| Expect.ExpectExhaustedMeansNoStop | gateway_code/autotest/expect.py:52-79 | the model-only end of the read sequence is reached only when no read matched and the deadline never passed |
| Expect.AlternationHasNewline | gateway_code/autotest/expect.py:36 | the alternation holds a newline exactly when one of the patterns does, so `expect_list` raises exactly for a multi-line pattern |
| Expect.AlternationExamples | gateway_code/autotest/expect.py:36 | `["A", "B"]` gives `(A)|(B)` and no pattern gives `()` |
| Expect.FindFrom | gateway_code/autotest/expect.py:75 | the leftmost occurrence of a literal at or after a position, or none at all |
| Expect.LiteralSearch | gateway_code/autotest/expect.py:75-77 | literal search matches exactly when the pattern occurs in the buffer, and the matched text is the pattern |
| Expect.LiteralSearchIsSound | gateway_code/autotest/expect.py:75-77 | literal search only reports text found in the buffer |
| Expect.ExpectOkAcrossChunks | gateway_code/autotest/expect.py:39-77 | waiting for `OK` over the chunks `he` and `llo OK\n` returns `OK` after the second read |
| ControlNode.BoundedQueue.constructor | gateway_code/control_node_interface.py:39 | a new queue is empty with the requested capacity |
| ControlNode.BoundedQueue.IsEmpty | gateway_code/control_node_interface.py:26 | `empty()` holds exactly when no item is queued |
| ControlNode.BoundedQueue.PutNowait | gateway_code/control_node_interface.py:77-79 | a put appends when there is room and otherwise raises `Full` and leaves the queue unchanged |
| ControlNode.BoundedQueue.GetNowait | gateway_code/control_node_interface.py:27 | a get removes and returns the oldest item, or raises `Empty` on an empty queue |
| ControlNode.EmptyQueue | gateway_code/control_node_interface.py:22-28 | the drain ends with the queue empty, having removed exactly the old items in order |
| ControlNode.Offer | gateway_code/control_node_interface.py:77-79 | a non-blocking put only ever appends, and at most one item; `FullMailboxKeepsAnswer` and `FirstAnswerDelivered` use it for the mailbox |
| ControlNode.Classify | gateway_code/control_node_interface.py:72-79 | a line raises only when its split is exactly `["error"]`; `ClassifyByPrefix` gives the three kinds by prefix |
| ControlNode.CommandLine | gateway_code/control_node_interface.py:98 | the command text ends with a newline; `CommandLineParses` gives the tokens back from it |
| ControlNode.AfterLine | gateway_code/control_node_interface.py:87-90 | handling one raw line only appends to the mailbox, at most one answer, and nothing once it is full |
| ControlNode.Delivered | gateway_code/control_node_interface.py:87-90 | what a waiting sender receives from a raw line is never an `error` line; `ErrorLinesNeverAnswer` gives both directions |
| ControlNode.EndsReader | gateway_code/control_node_interface.py:87-89 | the lines that end the reader thread: the blank line that `break`s, and the line on which `handle_answer` (lines 72-74) raises; `EndsReaderByLine` says which they are |
| ControlNode.EndsReaderByLine | gateway_code/control_node_interface.py:72-74 | a line ends the reader exactly when, stripped, it is blank (the `break`) or exactly `error` (the IndexError) |
| ControlNode.ReaderFrom | gateway_code/control_node_interface.py:81-92 | the reader only adds answers to the mailbox and never fills it beyond one |
| ControlNode.ControlNodeSerial.constructor | gateway_code/control_node_interface.py:36-43 | no process, no reader thread, an empty mailbox of capacity one |
| ControlNode.ControlNodeSerial.Start | gateway_code/control_node_interface.py:45-57 | a launch installs a new process and a running reader; a failed launch changes nothing |
| ControlNode.ControlNodeSerial.Stop | gateway_code/control_node_interface.py:59-64 | with a process: terminates it, joins the reader, forgets the process; without one: changes nothing |
| ControlNode.ControlNodeSerial.HandleAnswer | gateway_code/control_node_interface.py:66-79 | an `error` line leaves the mailbox unchanged and raises when it has no message; any other line is offered to the mailbox and dropped when it is full |
| ControlNode.ControlNodeSerial.ReaderTurn | gateway_code/control_node_interface.py:87-90 | one turn of the reader: the stripped line ends the thread exactly when it is blank or a bare `error`, and the mailbox becomes `AfterLine` of the raw line |
| ControlNode.ControlNodeSerial.Reader | gateway_code/control_node_interface.py:81-92 | the reader loop ends, and leaves the mailbox, as `ReaderFrom` says, and the thread is then ended |
| ControlNode.ControlNodeSerial.SendCommand | gateway_code/control_node_interface.py:94-109 | the send drains the mailbox, appends exactly the command line to the helper's input, and returns only an answer that a running reader read after the write, stripped and non-blank (`None` when none came); a blank or bare `error` line ends the reader; a missing process or failed write propagates |
| ControlNode.ClassifyByPrefix | gateway_code/control_node_interface.py:72-79 | a line is a diagnostic exactly when it starts with `error `, raises exactly when it is `error`, and is otherwise an answer made of its space-separated fields |
| ControlNode.FirstFieldIsError | gateway_code/control_node_interface.py:72-73 | the first field is `error` exactly when the line is `error` or starts with `error ` |
| ControlNode.ErrorLinesNeverAnswer | gateway_code/control_node_interface.py:87-90 | a raw line that strips to a blank line, to `error` or to `error ...` never answers a waiting sender; any other line reaches it as the fields of the stripped line |
| ControlNode.CommandLineParses | gateway_code/control_node_interface.py:98 | the command line ends with its only newline, and splitting the rest on spaces gives the command tokens back |
| ControlNode.ReaderExitPath | gateway_code/control_node_interface.py:86-92 | the first blank or bare `error` line decides the exit: "ended prematurely" if the process was seen exited by then, otherwise the break on a blank line or the crash on `error` |
| ControlNode.ReaderTurnStep | gateway_code/control_node_interface.py:86-90 | before the process is seen exited, a line that ends the reader decides its end, and any other line moves the loop to the next poll with the mailbox `AfterLine` leaves |
| ControlNode.FullMailboxKeepsAnswer | gateway_code/control_node_interface.py:75-79 | while an answer waits in the mailbox, later answers are dropped |
| ControlNode.DiagnosticsLeaveMailbox | gateway_code/control_node_interface.py:73-74 | lines that are blank or not answers never change the mailbox |
| ControlNode.FirstAnswerDelivered | gateway_code/control_node_interface.py:75-79 | from an empty mailbox, the first answer the reader meets is the one left for the sender |
| ControlNode.LateAnswerIsDiscarded | gateway_code/control_node_interface.py:99-107 | a line the reader reads after a send timed out is drained by the next send and never returned by it |
| ControlNode.StopTwice | gateway_code/control_node_interface.py:59-64 | a second `stop` is a no-op: the process is terminated at most once |

## Left out

- Serial port and process I/O (`serial.Serial`, `flushInput`, `close`, `subprocess.Popen`, `terminate`, the pipes) are replaced by the chunks a read returns, the lines the helper prints, a log of written text and a `writeOk` flag for the write.
- `read(size=16)` bounds each chunk at 16 bytes. The model accepts chunks of any length, which includes every chunk the device can deliver.
- Threads, the `protect_send` semaphore, `atexit` registration and the timing of `reader_thread.join()` are left out. `SendCommand` runs its steps in sequence, and the one-second wait is the `reply` parameter: the line the reader hands over during the wait, or none.
- Expect.SerialExpect.Expect: wall-clock time and the float timeout are replaced by the read index at which the deadline has passed; a timeout returns `TimedOut` where Python returns `''`, and `ReadsExhausted` exists only because the model's sequence of reads is finite.
- The `re` engine, including `re.compile` errors and the meaning of regular-expression syntax, is a `Matcher` parameter; only literal search is given concretely.
- The verbose timestamped echo and all `LOGGER` calls are left out; `EmptyQueue` returns the answers it would log.
- The `config` values (helper path and tty) are external configuration.
- ControlNode.BoundedQueue.constructor: a capacity of zero or less (an unbounded `Queue`) is not modelled; the channel only uses capacity one.
- ControlNode.ControlNodeSerial.Reader: the channel records that the reader thread has ended, but not how; the polling of a process that `stop` has already cleared is not modelled.
- A pattern that matches the empty string makes `expect` return `''`, the same value as a timeout; the model keeps the two apart as `Found("")` and `TimedOut`.
- Exits and errors, as the code has them: the break on an empty line logs nothing; "ended prematurely" is logged only when `poll()` reports that the process has exited; a failed write, or a send with no process, raises to the caller; a bare `error` line raises `IndexError` in the reader thread, which then ends.
