/** The command channel to the control node (gateway_code/control_node_interface.py):
    a helper process owns the serial link; commands are written to its standard input
    as text lines, and a reader thread classifies the lines on its error stream into
    diagnostics and command answers, handing answers to the waiting sender through a
    queue of capacity one.

    The model is sequential. Process I/O becomes parameters: the lines the helper will
    print, the poll at which the process is seen to have exited, whether a write
    succeeds, and which line (if any) the reader hands over while a sender waits. */
module ControlNode {
  import opened Wrappers
  import opened Text

  /** A command answer: the fields of the answer line, split on single spaces. */
  type Answer = seq<string>

  /** `Queue.Queue(1)`: at most one answer waits for a sender. */
  const MailboxCapacity: nat := 1

  /** The exceptions of the non-blocking queue operations. */
  datatype QueueError = Empty | Full

  /** A non-blocking put into a FIFO of the given capacity: the item is appended when
      there is room and dropped otherwise. */
  function Offer<T>(items: seq<T>, capacity: nat, x: T): (r: seq<T>)
    ensures items <= r && |r| <= |items| + 1
  {
    if |items| < capacity then items + [x] else items
  }

  /** Python's `Queue.Queue(maxsize)` for a positive `maxsize`. */
  class BoundedQueue<T> {
    const capacity: nat
    var items: seq<T>

    ghost predicate Valid()
      reads this
    {
      |items| <= capacity
    }

    constructor (maxsize: nat)
      requires maxsize > 0
      ensures Valid() && capacity == maxsize && items == []
    {
      capacity := maxsize;
      items := [];
    }

    /** `queue.empty()` */
    method IsEmpty() returns (empty: bool)
      ensures empty <==> items == []
    {
      empty := items == [];
    }

    /** `queue.put_nowait(x)`: raises `Full` instead of waiting for room. */
    method PutNowait(x: T) returns (r: Outcome<QueueError>)
      requires Valid()
      modifies this
      ensures Valid()
      ensures items == Offer(old(items), capacity, x)
      ensures r == if |old(items)| < capacity then Pass else Fail(Full)
    {
      if |items| < capacity {
        items := items + [x];
        r := Pass;
      } else {
        r := Fail(Full);
      }
    }

    /** `queue.get_nowait()`: the oldest item, or `Empty` when there is none. */
    method GetNowait() returns (r: Result<T, QueueError>)
      requires Valid()
      modifies this
      ensures Valid()
      ensures old(items) == [] ==> r == Err(Empty) && items == []
      ensures old(items) != [] ==> r == Ok(old(items)[0]) && items == old(items)[1..]
    {
      if items == [] {
        r := Err(Empty);
      } else {
        r := Ok(items[0]);
        items := items[1..];
      }
    }
  }

  /** `_empty_queue(queue)`: takes items out until the queue is empty. Returns the
      dropped items (each one is logged), which are exactly the old contents, in order. */
  method EmptyQueue<T>(queue: BoundedQueue<T>) returns (dropped: seq<T>)
    requires queue.Valid()
    modifies queue
    ensures queue.Valid() && queue.items == []
    ensures dropped == old(queue.items)
  {
    dropped := [];
    var empty := queue.IsEmpty();
    while !empty
      invariant queue.Valid()
      invariant dropped + queue.items == old(queue.items)
      invariant empty <==> queue.items == []
      decreases |queue.items|
    {
      var answer := queue.GetNowait();
      dropped := dropped + [answer.value];
      empty := queue.IsEmpty();
    }
  }

  /** What `handle_answer` makes of a line: a diagnostic `error <message>` (logged), a
      command answer, or a line whose first field is `error` and that has no second
      field, on which `answer[1]` raises IndexError. */
  datatype LineKind = Diagnostic(message: string) | CommandAnswer(answer: Answer) | BareError

  function Classify(line: string): (r: LineKind)
    ensures r.BareError? ==> Split(line, ' ') == ["error"]
  {
    var fields := Split(line, ' ');
    if fields[0] == "error" then
      if |fields| > 1 then Diagnostic(fields[1]) else BareError
    else CommandAnswer(fields)
  }

  /** `' '.join(command_list) + '\n'`: the text written for a command. */
  function CommandLine(command: seq<string>): (r: string)
    ensures |r| >= 1 && r[|r| - 1] == '\n'
  {
    Join(" ", command) + "\n"
  }

  /** A line the helper prints ends the reader loop: stripped, it is blank (the `break`)
      or a bare `error` (the thread dies of the IndexError). */
  predicate EndsReader(raw: string) {
    Strip(raw) == "" || Classify(Strip(raw)).BareError?
  }

  /** The queue after the reader has handled the raw line `raw`: a non-blank command
      answer is offered, anything else leaves it alone. */
  function AfterLine(items: seq<Answer>, raw: string): (r: seq<Answer>)
    ensures items <= r && |r| <= |items| + 1
    ensures |items| >= MailboxCapacity ==> r == items
  {
    var line := Strip(raw);
    if line != "" && Classify(line).CommandAnswer? then Offer(items, MailboxCapacity, Classify(line).answer)
    else items
  }

  /** The lines that end the reader, as text: a stripped line that is blank or exactly
      `error`. */
  lemma EndsReaderByLine(raw: string)
    ensures EndsReader(raw) <==> Strip(raw) == "" || Strip(raw) == "error"
  {
    ClassifyByPrefix(Strip(raw));
  }

  /** The answer a waiting sender receives when the reader reads the raw line `reply`
      during the wait: the reader strips the line, and only a non-blank command answer
      is delivered. */
  function Delivered(reply: Option<string>): (r: Option<Answer>)
    ensures r.Some? ==> reply.Some? && |r.value| >= 1 && r.value[0] != "error"
  {
    match reply
    case None => None
    case Some(raw) =>
      var line := Strip(raw);
      if line != "" && Classify(line).CommandAnswer? then Some(Classify(line).answer) else None
  }

  /** How the reader thread ends: it read an empty (stripped) line and left the loop with
      `break`; the loop condition found the process exited (the `else` branch that logs
      "ended prematurely"); or `handle_answer` raised and the thread died. */
  datatype ReaderEnd = EndOfStream | EndedPrematurely | Crashed

  /** The reader loop from its `k`-th poll on, over the queue contents `items`. The
      process is seen as exited from poll number `exitedAt` on; `lines` are the lines the
      helper prints, after which `readline()` returns '' (end of stream). */
  function ReaderFrom(items: seq<Answer>, lines: seq<string>, exitedAt: nat, k: nat): (r: (ReaderEnd, seq<Answer>))
    requires k <= |lines|
    ensures items <= r.1
    ensures |items| <= MailboxCapacity ==> |r.1| <= MailboxCapacity
    decreases |lines| - k
  {
    if exitedAt <= k then (EndedPrematurely, items)
    else if k == |lines| || Strip(lines[k]) == "" then (EndOfStream, items)
    else match Classify(Strip(lines[k]))
      case BareError => (Crashed, items)
      case Diagnostic(_) => ReaderFrom(items, lines, exitedAt, k + 1)
      case CommandAnswer(a) => ReaderFrom(Offer(items, MailboxCapacity, a), lines, exitedAt, k + 1)
  }

  /** The state of `reader_thread`: `Ended` once its loop has returned or died, before
      `stop` joins it. */
  datatype ReaderThread = NotStarted | Running | Ended | Joined

  /** A launched helper process, with the command lines written to its standard input. */
  datatype ChildProcess = ChildProcess(stdin: seq<string>)

  /** `Popen` failing (OSError). */
  datatype StartError = LaunchFailed

  /** `answer[1]` on a bare `error` line (IndexError). */
  datatype HandlerError = MissingMessage

  /** Sending without a process (AttributeError on None) or a failing write (IOError). */
  datatype SendError = NoProcess | WriteFailed

  class ControlNodeSerial {
    /** `cn_interface_process`: the running helper, or None. */
    var process: Option<ChildProcess>
    /** `reader_thread` */
    var readerThread: ReaderThread
    /** `cn_msg_queue` */
    const msgQueue: BoundedQueue<Answer>
    /** The helpers that `stop` has terminated, in order. */
    var terminated: seq<ChildProcess>

    ghost predicate Valid()
      reads this, msgQueue
    {
      && msgQueue.capacity == MailboxCapacity
      && msgQueue.Valid()
      && (process.Some? ==> readerThread == Running || readerThread == Ended)
    }

    constructor ()
      ensures Valid() && fresh(msgQueue)
      ensures process.None? && readerThread == NotStarted && terminated == []
      ensures msgQueue.items == []
    {
      process := None;
      readerThread := NotStarted;
      msgQueue := new BoundedQueue(MailboxCapacity);
      terminated := [];
    }

    /** `start()`: launches the helper and its reader thread; a failed launch changes
        nothing. A helper that was already running is replaced without being stopped. */
    method Start(launched: bool) returns (r: Outcome<StartError>)
      requires Valid()
      modifies this
      ensures Valid()
      ensures terminated == old(terminated)
      ensures !launched ==> r == Fail(LaunchFailed) && process == old(process) && readerThread == old(readerThread)
      ensures launched ==> r == Pass && process == Some(ChildProcess([])) && readerThread == Running
    {
      if !launched {
        return Fail(LaunchFailed);
      }
      process := Some(ChildProcess([]));
      readerThread := Running;
      r := Pass;
    }

    /** `stop()`: terminates the helper, joins the reader and forgets the process; with
        no process it does nothing, so a second call is a no-op. */
    method Stop()
      requires Valid()
      modifies this
      ensures Valid()
      ensures old(process).None? ==>
        process == old(process) && readerThread == old(readerThread) && terminated == old(terminated)
      ensures old(process).Some? ==>
        process.None? && readerThread == Joined && terminated == old(terminated) + [old(process).value]
    {
      if process.Some? {
        terminated := terminated + [process.value];
        readerThread := Joined;
        process := None;
      }
    }

    /** `handle_answer(line)`: a diagnostic leaves the queue alone; a command answer is
        put without blocking and dropped when the queue is full; a bare `error` line
        raises. */
    method HandleAnswer(line: string) returns (r: Outcome<HandlerError>)
      requires Valid()
      modifies msgQueue
      ensures Valid()
      ensures r == if Classify(line).BareError? then Fail(MissingMessage) else Pass
      ensures msgQueue.items
           == if Classify(line).CommandAnswer?
              then Offer(old(msgQueue.items), MailboxCapacity, Classify(line).answer)
              else old(msgQueue.items)
    {
      var answer := Split(line, ' ');
      if answer[0] == "error" {
        if |answer| < 2 {
          return Fail(MissingMessage);
        }
        return Pass;
      }
      var put := msgQueue.PutNowait(answer);
      r := Pass;
    }

    /** One turn of the `_reader()` loop on a raw line the helper printed: strip it; a
        blank line ends the loop, anything else goes to `handle_answer`, and a line on
        which that raises ends the thread. */
    method ReaderTurn(raw: string) returns (ended: bool)
      requires Valid() && readerThread == Running
      modifies this, msgQueue
      ensures Valid()
      ensures process == old(process) && terminated == old(terminated)
      ensures ended == EndsReader(raw)
      ensures readerThread == if ended then Ended else Running
      ensures msgQueue.items == AfterLine(old(msgQueue.items), raw)
    {
      var line := Strip(raw);
      if line == "" {
        readerThread := Ended;
        return true;
      }
      var handled := HandleAnswer(line);
      ended := handled.Fail?;
      if ended {
        readerThread := Ended;
      }
    }

    /** `_reader()`: the reader thread's loop, ending as `ReaderFrom` says. Reading past
        the printed lines returns '' (end of stream). */
    method Reader(lines: seq<string>, exitedAt: nat) returns (end: ReaderEnd)
      requires Valid() && readerThread == Running
      modifies this, msgQueue
      ensures Valid()
      ensures process == old(process) && terminated == old(terminated) && readerThread == Ended
      ensures (end, msgQueue.items) == ReaderFrom(old(msgQueue.items), lines, exitedAt, 0)
    {
      ghost var outcome := ReaderFrom(msgQueue.items, lines, exitedAt, 0);
      var k := 0;
      while k < exitedAt
        invariant k <= |lines|
        invariant Valid() && readerThread == Running
        invariant process == old(process) && terminated == old(terminated)
        invariant ReaderFrom(msgQueue.items, lines, exitedAt, k) == outcome
        decreases |lines| - k
      {
        var raw := if k < |lines| then lines[k] else "";
        ghost var before := msgQueue.items;
        ReaderTurnStep(before, lines, exitedAt, k, raw);
        var ended := ReaderTurn(raw);
        if ended {
          assert msgQueue.items == before;
          return if Strip(raw) == "" then EndOfStream else Crashed;
        }
        k := k + 1;
      }
      assert ReaderFrom(msgQueue.items, lines, exitedAt, k) == (EndedPrematurely, msgQueue.items);
      readerThread := Ended;
      end := EndedPrematurely;
    }

    /** `send_command(command_list)`, sequentialised: drain stale answers, write the
        command line, let a running reader read the raw line `reply` (None: nothing
        within the wait), then take the delivered answer. The queue ends empty, the result
        never depends on what was queued before the call, and a failed write propagates. */
    method SendCommand(command: seq<string>, writeOk: bool, reply: Option<string>) returns (r: Result<Option<Answer>, SendError>)
      requires Valid()
      modifies this, msgQueue
      ensures Valid()
      ensures msgQueue.items == []
      ensures terminated == old(terminated)
      ensures old(process).None? ==> r == Err(NoProcess) && process == old(process) && readerThread == old(readerThread)
      ensures old(process).Some? && !writeOk ==>
        r == Err(WriteFailed) && process == old(process) && readerThread == old(readerThread)
      ensures old(process).Some? && writeOk ==>
        && r == Ok(if old(readerThread) == Running then Delivered(reply) else None)
        && process == Some(ChildProcess(old(process).value.stdin + [CommandLine(command)]))
        && readerThread
           == if old(readerThread) == Running && reply.Some? && EndsReader(reply.value) then Ended
              else old(readerThread)
    {
      var commandStr := CommandLine(command);
      var dropped := EmptyQueue(msgQueue);
      if process.None? {
        return Err(NoProcess);
      }
      if !writeOk {
        return Err(WriteFailed);
      }
      process := Some(ChildProcess(process.value.stdin + [commandStr]));
      if readerThread == Running && reply.Some? {
        var ended := ReaderTurn(reply.value);
      }
      var got := msgQueue.GetNowait();
      r := Ok(if got.Ok? then Some(got.value) else None);
    }
  }

  // ---- Line classification ----

  /** A line is a diagnostic exactly when it starts with `error ` and raises exactly when
      it is `error` alone; every other line, the empty one included, is an answer. */
  lemma ClassifyByPrefix(line: string)
    ensures Classify(line).BareError? <==> line == "error"
    ensures Classify(line).Diagnostic? <==> |line| >= 6 && line[..6] == "error "
    ensures Classify(line).CommandAnswer? ==> Classify(line).answer == Split(line, ' ')
  {
    FirstFieldIsError(line);
    SplitFirstField(line, ' ');
    assert "error"[..] == ['e', 'r', 'r', 'o', 'r'];
    if |line| >= 6 && line[..6] == "error " {
      assert line[5] == ' ';
    }
  }

  /** The first space-separated field is `error` exactly when the line is `error` or
      starts with `error `. */
  lemma FirstFieldIsError(line: string)
    ensures Split(line, ' ')[0] == "error" <==> line == "error" || (|line| >= 6 && line[..6] == "error ")
  {
    var fields := Split(line, ' ');
    var first := fields[0];
    SplitFirstField(line, ' ');
    if |fields| == 1 {
      NoSpaceNoErrorPrefix(line);
    } else {
      SpacedLineIsNotError(line, |first|);
      if |line| >= 6 && line[..6] == "error " {
        FieldBeforeSpace(line, first);
      }
      if first == "error" {
        assert line[..6] == first + [' '];
      }
    }
  }

  lemma NoSpaceNoErrorPrefix(line: string)
    requires ' ' !in line
    ensures !(|line| >= 6 && line[..6] == "error ")
  {
    if |line| >= 6 {
      assert line[5] in line;
      assert line[..6][5] != "error "[5];
    }
  }

  lemma SpacedLineIsNotError(line: string, i: nat)
    requires i < |line| && line[i] == ' '
    ensures line != "error"
  {
    assert forall j :: 0 <= j < 5 ==> "error"[j] != ' ';
  }

  lemma FieldBeforeSpace(line: string, first: string)
    requires |line| >= 6 && line[..6] == "error "
    requires |first| < |line| && line[..|first|] == first && line[|first|] == ' ' && ' ' !in first
    ensures first == "error"
  {
    assert forall i :: 0 <= i < 5 ==> line[i] == "error "[i] != ' ';
    assert |first| >= 5;
    assert line[5] == ' ' && forall i :: 0 <= i < |first| ==> first[i] == line[i];
    assert |first| <= 5;
    assert first == line[..5];
  }

  /** A raw line that the reader strips to a blank line, to `error ...` or to `error` alone
      never answers a waiting sender; any other line is delivered as the space-separated
      fields of the stripped line. */
  lemma ErrorLinesNeverAnswer(raw: string)
    ensures var line := Strip(raw);
      Delivered(Some(raw)).None? <==> line == "" || line == "error" || (|line| >= 6 && line[..6] == "error ")
    ensures Delivered(Some(raw)).Some? ==> Delivered(Some(raw)).value == Split(Strip(raw), ' ')
  {
    ClassifyByPrefix(Strip(raw));
  }

  // ---- The command line ----

  /** The command line ends with its only newline and, when no token holds a space or a
      newline and there is at least one token, splitting it on spaces gives the tokens
      back. */
  lemma CommandLineParses(command: seq<string>)
    requires |command| >= 1
    requires forall i :: 0 <= i < |command| ==> ' ' !in command[i] && '\n' !in command[i]
    ensures var line := CommandLine(command);
      && |line| >= 1 && line[|line| - 1] == '\n'
      && '\n' !in line[..|line| - 1]
      && Split(line[..|line| - 1], ' ') == command
  {
    var line := CommandLine(command);
    assert line[..|line| - 1] == Join(" ", command);
    SplitJoin(command, ' ');
    JoinHasChar(" ", command, '\n');
  }

  // ---- The reader loop ----

  /** The reader's exit path is decided by the first line that is blank (or the end of
      the stream) or a bare `error`: if the process is seen exited no later than that
      poll, the loop ends through its `else` branch ("ended prematurely"); otherwise it
      breaks on the blank line or dies on the bare `error`. */
  lemma {:induction false} ReaderExitPath(items: seq<Answer>, lines: seq<string>, exitedAt: nat, k: nat, j: nat)
    requires k <= j <= |lines|
    requires forall i :: k <= i < j ==> Strip(lines[i]) != "" && Strip(lines[i]) != "error"
    requires j == |lines| || Strip(lines[j]) == "" || Strip(lines[j]) == "error"
    ensures ReaderFrom(items, lines, exitedAt, k).0
         == if exitedAt <= j then EndedPrematurely
            else if j < |lines| && Strip(lines[j]) == "error" then Crashed
            else EndOfStream
    decreases j - k
  {
    if k < |lines| {
      ClassifyByPrefix(Strip(lines[k]));
    }
    if k < j && k < exitedAt {
      var next := if Classify(Strip(lines[k])).CommandAnswer?
                  then Offer(items, MailboxCapacity, Classify(Strip(lines[k])).answer)
                  else items;
      ReaderExitPath(next, lines, exitedAt, k + 1, j);
    }
  }

  /** While an answer waits in the queue, every later answer is dropped. */
  lemma {:induction false} FullMailboxKeepsAnswer(items: seq<Answer>, lines: seq<string>, exitedAt: nat, k: nat)
    requires k <= |lines|
    requires |items| >= MailboxCapacity
    ensures ReaderFrom(items, lines, exitedAt, k).1 == items
    decreases |lines| - k
  {
    if exitedAt > k && k < |lines| && Strip(lines[k]) != "" {
      FullMailboxKeepsAnswer(items, lines, exitedAt, k + 1);
    }
  }

  /** Lines that are not command answers (diagnostics and blank lines in particular)
      never change the queue. */
  lemma {:induction false} DiagnosticsLeaveMailbox(items: seq<Answer>, lines: seq<string>, exitedAt: nat, k: nat)
    requires k <= |lines|
    requires forall i :: k <= i < |lines| ==> Strip(lines[i]) == "" || !Classify(Strip(lines[i])).CommandAnswer?
    ensures ReaderFrom(items, lines, exitedAt, k).1 == items
    decreases |lines| - k
  {
    if k < |lines| {
      DiagnosticsLeaveMailbox(items, lines, exitedAt, k + 1);
    }
  }

  /** One turn of the reader loop before the process is seen exited: a line that ends
      the reader decides the end, any other line moves on to the next poll. */
  lemma ReaderTurnStep(items: seq<Answer>, lines: seq<string>, exitedAt: nat, k: nat, raw: string)
    requires k <= |lines| && k < exitedAt
    requires raw == if k < |lines| then lines[k] else ""
    ensures EndsReader(raw) ==>
      ReaderFrom(items, lines, exitedAt, k) == (if Strip(raw) == "" then EndOfStream else Crashed, items)
    ensures EndsReader(raw) ==> AfterLine(items, raw) == items
    ensures !EndsReader(raw) ==>
      k < |lines| && ReaderFrom(items, lines, exitedAt, k) == ReaderFrom(AfterLine(items, raw), lines, exitedAt, k + 1)
  {
    assert Strip("") == "";
  }

  /** With an empty queue, the first answer the reader meets before the process is seen
      exited is the one left in the queue. */
  lemma {:induction false} FirstAnswerDelivered(items: seq<Answer>, lines: seq<string>, exitedAt: nat, k: nat, j: nat)
    requires items == []
    requires k <= j < |lines| && j < exitedAt
    requires forall i :: k <= i < j ==> Classify(Strip(lines[i])).Diagnostic?
    requires Strip(lines[j]) != "" && Classify(Strip(lines[j])).CommandAnswer?
    ensures ReaderFrom(items, lines, exitedAt, k).1 == [Classify(Strip(lines[j])).answer]
    decreases j - k
  {
    var line := Strip(lines[k]);
    if k < j {
      ClassifyByPrefix(line);
      ReaderTurnStep(items, lines, exitedAt, k, lines[k]);
      assert AfterLine(items, lines[k]) == items;
      FirstAnswerDelivered(items, lines, exitedAt, k + 1, j);
    } else {
      var a := Classify(line).answer;
      ReaderTurnStep(items, lines, exitedAt, k, lines[k]);
      assert AfterLine(items, lines[k]) == Offer(items, MailboxCapacity, a);
      assert Offer(items, MailboxCapacity, a) == [a];
      FullMailboxKeepsAnswer([a], lines, exitedAt, k + 1);
    }
  }

  // ---- Two uses of the channel ----

  /** A send that times out, a line that the reader reads after it, and a second send:
      a late answer is drained by the second send and never returned by it. */
  method LateAnswerIsDiscarded(cn: ControlNodeSerial, first: seq<string>, late: string, second: seq<string>, reply: Option<string>)
      returns (r1: Result<Option<Answer>, SendError>, r2: Result<Option<Answer>, SendError>)
    requires cn.Valid() && cn.process.Some?
    modifies cn, cn.msgQueue
    ensures cn.Valid()
    ensures r1 == Ok(None)
    ensures r2 == Ok(if old(cn.readerThread) == Running && !EndsReader(late) then Delivered(reply) else None)
    ensures cn.process == Some(ChildProcess(old(cn.process).value.stdin + [CommandLine(first), CommandLine(second)]))
  {
    ghost var written := cn.process.value.stdin;
    r1 := cn.SendCommand(first, true, None);
    if cn.readerThread == Running {
      var ended := cn.ReaderTurn(late);
    }
    r2 := cn.SendCommand(second, true, reply);
    assert written + [CommandLine(first)] + [CommandLine(second)] == written + [CommandLine(first), CommandLine(second)];
  }

  /** Stopping twice terminates the helper once. */
  method StopTwice(cn: ControlNodeSerial)
    requires cn.Valid()
    modifies cn
    ensures cn.Valid() && cn.process.None?
    ensures cn.terminated == old(cn.terminated) + (if old(cn.process).Some? then [old(cn.process).value] else [])
  {
    cn.Stop();
    cn.Stop();
  }
}
