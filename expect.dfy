/** The serial "expect" scanner (gateway_code/autotest/expect.py): read the serial
    link chunk by chunk, keep only the current line in a buffer, search the buffer for
    a pattern after every non-empty chunk, and give up once a deadline has passed.

    Reads and time are abstracted. The device is the finite sequence of chunks that its
    successive reads return; an empty chunk is a read that timed out without data.
    The deadline is the index of the first read after which the clock has passed the
    deadline (`None` for the default infinite timeout). The regular-expression engine
    is a parameter: a `Matcher` maps a pattern and a buffer to the text of the leftmost
    match. */
module Expect {
  import opened Wrappers
  import opened Text

  /** The search of a compiled pattern: the matched text (`match.group(0)`) or None. */
  type Matcher = (string, string) -> Option<string>

  /** A matcher reports only text that occurs in the searched buffer. */
  ghost predicate Sound(m: Matcher) {
    forall pattern, buff :: m(pattern, buff).Some? ==> IsSubstring(m(pattern, buff).value, buff)
  }

  /** The ValueError raised for a pattern containing a newline. */
  datatype ConfigError = MultilinePattern

  /** How a scan ends: a match (the matched text), the deadline (Python returns ''),
      or, in this model only, the end of the finite sequence of reads. */
  datatype ScanEnd = Found(text: string) | TimedOut | ReadsExhausted

  /** A scan's end together with the number of reads it performed. */
  datatype ScanStep = ScanStep(end: ScanEnd, used: nat)

  /** `buff.split('\n')[-1]`: what follows the last newline of the buffer. */
  function Tail(buff: string): (r: string)
    ensures '\n' !in r
  {
    var fields := Split(buff, '\n');
    fields[|fields| - 1]
  }

  /** The buffer after the first `n` chunks: every non-empty chunk is appended to the
      tail of the previous buffer; an empty read leaves the buffer as it was. */
  function BufferAt(chunks: seq<string>, n: nat): (r: string)
    requires n <= |chunks|
  {
    if n == 0 then ""
    else
      var previous := BufferAt(chunks, n - 1);
      if chunks[n - 1] == "" then previous else Tail(previous) + chunks[n - 1]
  }

  /** The clock check after read number `k` (counting from 0): `end_time <= time.time()`. */
  predicate TimeUp(deadline: Option<nat>, k: nat) {
    deadline.Some? && deadline.value <= k
  }

  /** The scan loop from read number `k` on. */
  function ScanFrom(m: Matcher, pattern: string, chunks: seq<string>, deadline: Option<nat>, k: nat): (s: ScanStep)
    requires k <= |chunks|
    ensures k <= s.used <= |chunks|
    decreases |chunks| - k
  {
    if k == |chunks| then ScanStep(ReadsExhausted, k)
    else if TimeUp(deadline, k) then ScanStep(TimedOut, k + 1)
    else if chunks[k] == "" then ScanFrom(m, pattern, chunks, deadline, k + 1)
    else match m(pattern, BufferAt(chunks, k + 1))
      case Some(text) => ScanStep(Found(text), k + 1)
      case None => ScanFrom(m, pattern, chunks, deadline, k + 1)
  }

  /** `expect(pattern, timeout)`: rejects a multi-line pattern before any read, then scans. */
  function Expected(m: Matcher, pattern: string, chunks: seq<string>, deadline: Option<nat>): (r: Result<ScanStep, ConfigError>)
    ensures r.Err? <==> '\n' in pattern
    ensures r.Ok? ==> r.value.used <= |chunks|
  {
    if '\n' in pattern then Err(MultilinePattern) else Ok(ScanFrom(m, pattern, chunks, deadline, 0))
  }

  /** The pattern built by `expect_list`: `'(' + ')|('.join(patterns) + ')'`. */
  function Alternation(patterns: seq<string>): (r: string)
    ensures |r| >= 2 && r[0] == '(' && r[|r| - 1] == ')'
  {
    "(" + Join(")|(", patterns) + ")"
  }

  /** Read number `j` ends the scan: the deadline has passed, or the chunk is non-empty
      and the updated buffer matches. */
  ghost predicate StopsAt(m: Matcher, pattern: string, chunks: seq<string>, deadline: Option<nat>, j: nat)
    requires j < |chunks|
  {
    TimeUp(deadline, j) || (chunks[j] != "" && m(pattern, BufferAt(chunks, j + 1)).Some?)
  }

  /** The scanner's view of the serial link. */
  class SerialExpect {
    /** The chunks that the device will return to the coming reads, in order. */
    var pending: seq<string>
    /** Everything written to the device so far. */
    var written: string

    constructor (arriving: seq<string>)
      ensures pending == arriving && written == ""
    {
      pending := arriving;
      written := "";
    }

    /** `send(data)`: writes `data` followed by one newline. */
    method Send(data: string)
      modifies this
      ensures written == old(written) + data + "\n"
      ensures pending == old(pending)
    {
      written := written + data + "\n";
    }

    /** `expect(pattern, timeout)`: the result and the reads consumed are those of
        `Expected`; a rejected pattern consumes no read. */
    method Expect(m: Matcher, pattern: string, deadline: Option<nat>) returns (r: Result<ScanEnd, ConfigError>)
      modifies this
      ensures written == old(written)
      ensures match Expected(m, pattern, old(pending), deadline)
        case Err(e) => r == Err(e) && pending == old(pending)
        case Ok(s) => r == Ok(s.end) && pending == old(pending)[s.used..]
    {
      if '\n' in pattern {
        return Err(MultilinePattern);
      }
      ghost var chunks := pending;
      var buff := "";
      var k := 0;  // reads done so far: the model's clock
      while pending != []
        invariant 0 <= k <= |chunks| && pending == chunks[k..]
        invariant buff == BufferAt(chunks, k)
        invariant ScanFrom(m, pattern, chunks, deadline, k) == ScanFrom(m, pattern, chunks, deadline, 0)
        invariant written == old(written)
        decreases |pending|
      {
        var chunk := pending[0];
        pending := pending[1..];
        if TimeUp(deadline, k) {
          return Ok(TimedOut);
        }
        k := k + 1;
        if chunk == "" {
          continue;
        }
        buff := Tail(buff) + chunk;
        var found := m(pattern, buff);
        if found.Some? {
          return Ok(Found(found.value));
        }
      }
      return Ok(ReadsExhausted);
    }

    /** `expect_list(patterns, timeout)`: `Expect` on the alternation of the patterns. */
    method ExpectList(m: Matcher, patterns: seq<string>, deadline: Option<nat>) returns (r: Result<ScanEnd, ConfigError>)
      modifies this
      ensures written == old(written)
      ensures match Expected(m, Alternation(patterns), old(pending), deadline)
        case Err(e) => r == Err(e) && pending == old(pending)
        case Ok(s) => r == Ok(s.end) && pending == old(pending)[s.used..]
    {
      r := Expect(m, Alternation(patterns), deadline);
    }
  }

  /** A literal pattern occurs in `b` at position `j`. */
  predicate OccursAt(p: string, b: string, j: nat) {
    j + |p| <= |b| && b[j..j + |p|] == p
  }

  /** The leftmost occurrence of `p` in `b` at or after position `i`. */
  function FindFrom(p: string, b: string, i: nat): (r: Option<nat>)
    ensures r.Some? ==> i <= r.value && OccursAt(p, b, r.value)
    ensures r.Some? ==> forall j :: i <= j < r.value ==> !OccursAt(p, b, j)
    ensures r.None? ==> forall j :: i <= j ==> !OccursAt(p, b, j)
    decreases |b| + 1 - i
  {
    if i + |p| > |b| then None
    else if b[i..i + |p|] == p then Some(i)
    else FindFrom(p, b, i + 1)
  }

  /** Plain substring search, a matcher for patterns without regular-expression
      operators: the matched text is the pattern itself, found exactly when it occurs. */
  function LiteralSearch(p: string, b: string): (r: Option<string>)
    ensures r.Some? <==> IsSubstring(p, b)
    ensures r.Some? ==> r.value == p
  {
    match FindFrom(p, b, 0)
    case Some(i) => Some(b[i..i + |p|])
    case None =>
      assert !IsSubstring(p, b) by {
        if IsSubstring(p, b) {
          var i, j :| 0 <= i <= j <= |b| && b[i..j] == p;
          assert OccursAt(p, b, i);
        }
      }
      None
  }

  // ---- The buffer holds the current line ----

  lemma TailOfLine(s: string)
    requires '\n' !in s
    ensures Tail(s) == s
  {
    SplitNoSeparator(s, '\n');
  }

  /** `Tail(s)` is the current line of `s`: a final segment without a newline that is
      either all of `s` or comes right after a newline. */
  lemma TailIsCurrentLine(s: string)
    ensures IsSuffix(Tail(s), s) && '\n' !in Tail(s)
    ensures |Tail(s)| == |s| || s[|s| - |Tail(s)| - 1] == '\n'
  {
    var fields := Split(s, '\n');
    JoinSplit(s, '\n');
    if |fields| > 1 {
      assert s == Join(['\n'], fields[..|fields| - 1]) + ['\n'] + fields[|fields| - 1];
    }
  }

  lemma TailSnoc(s: string, ch: char)
    ensures Tail(s + [ch]) == if ch == '\n' then "" else Tail(s) + [ch]
  {
    assert (s + [ch])[..|s|] == s;
  }

  /** The tail of a concatenation: the tail of the second part if it holds a newline,
      otherwise the tail of the first part followed by all of the second. */
  lemma {:induction false} TailAppend(a: string, b: string)
    ensures Tail(a + b) == if '\n' in b then Tail(b) else Tail(a) + b
    decreases |b|
  {
    if |b| == 0 {
      assert a + b == a;
    } else {
      var b', ch := b[..|b| - 1], b[|b| - 1];
      TailAppend(a, b');
      assert a + b == (a + b') + [ch];
      assert b == b' + [ch];
      TailSnoc(a + b', ch);
      TailSnoc(b', ch);
    }
  }

  /** After any number of reads, the current line of the buffer is the current line of
      everything read so far. */
  lemma {:induction false} BufferTracksLine(chunks: seq<string>, n: nat)
    requires n <= |chunks|
    ensures Tail(BufferAt(chunks, n)) == Tail(Concat(chunks[..n]))
    decreases n
  {
    if n > 0 {
      BufferTracksLine(chunks, n - 1);
      var c := chunks[n - 1];
      var previous := BufferAt(chunks, n - 1);
      assert chunks[..n][..n - 1] == chunks[..n - 1];
      assert Concat(chunks[..n]) == Concat(chunks[..n - 1]) + c;
      if c != "" {
        TailIsCurrentLine(previous);
        TailOfLine(Tail(previous));
        TailAppend(Tail(previous), c);
        TailAppend(Concat(chunks[..n - 1]), c);
      } else {
        assert Concat(chunks[..n]) == Concat(chunks[..n - 1]);
      }
    }
  }

  /** The buffer searched after read `n`: unchanged by an empty read; otherwise the
      current line of everything read before (a text without newline that starts right
      after the last newline read) followed by the new chunk. So no match can reach back
      into a line that was already completed. */
  lemma BufferIsLinePlusChunk(chunks: seq<string>, n: nat)
    requires n < |chunks|
    ensures chunks[n] == "" ==> BufferAt(chunks, n + 1) == BufferAt(chunks, n)
    ensures chunks[n] != "" ==> BufferAt(chunks, n + 1) == Tail(Concat(chunks[..n])) + chunks[n]
    ensures var line, read := Tail(Concat(chunks[..n])), Concat(chunks[..n]);
      '\n' !in line && IsSuffix(line, read) && (|line| == |read| || read[|read| - |line| - 1] == '\n')
  {
    BufferTracksLine(chunks, n);
    TailIsCurrentLine(Concat(chunks[..n]));
  }

  /** The buffer never holds anything but a final segment of the bytes read. */
  lemma {:induction false} BufferIsSuffixOfStream(chunks: seq<string>, n: nat)
    requires n <= |chunks|
    ensures IsSuffix(BufferAt(chunks, n), Concat(chunks[..n]))
    decreases n
  {
    if n > 0 {
      BufferIsLinePlusChunk(chunks, n - 1);
      assert chunks[..n][..n - 1] == chunks[..n - 1];
      var read := Concat(chunks[..n - 1]);
      assert Concat(chunks[..n]) == read + chunks[n - 1];
      if chunks[n - 1] == "" {
        BufferIsSuffixOfStream(chunks, n - 1);
        assert Concat(chunks[..n]) == read;
      } else {
        var line := Tail(read);
        assert (read + chunks[n - 1])[|read| - |line|..] == read[|read| - |line|..] + chunks[n - 1];
      }
    }
  }

  // ---- The scan loop: first stop wins ----

  /** From read `k` on, the scan ends at the first read that stops it: with `TimedOut`
      if the deadline has passed there (whatever that read delivered), otherwise with
      the match of the buffer updated by that read. */
  lemma {:induction false} ScanFromStopsAt(m: Matcher, pattern: string, chunks: seq<string>, deadline: Option<nat>, k: nat, j: nat)
    requires k <= j < |chunks|
    requires forall i :: k <= i < j ==> !StopsAt(m, pattern, chunks, deadline, i)
    requires StopsAt(m, pattern, chunks, deadline, j)
    ensures ScanFrom(m, pattern, chunks, deadline, k)
         == if TimeUp(deadline, j) then ScanStep(TimedOut, j + 1)
            else ScanStep(Found(m(pattern, BufferAt(chunks, j + 1)).value), j + 1)
    decreases j - k
  {
    if k < j {
      assert !StopsAt(m, pattern, chunks, deadline, k);
      ScanFromStopsAt(m, pattern, chunks, deadline, k + 1, j);
    }
  }

  /** Conversely, how the scan from read `k` ended says what the reads before were. */
  lemma {:induction false} ScanFromEnd(m: Matcher, pattern: string, chunks: seq<string>, deadline: Option<nat>, k: nat)
    requires k <= |chunks|
    ensures var s := ScanFrom(m, pattern, chunks, deadline, k);
      match s.end
      case Found(t) =>
        k < s.used && !TimeUp(deadline, s.used - 1) && chunks[s.used - 1] != ""
        && m(pattern, BufferAt(chunks, s.used)) == Some(t)
        && forall i :: k <= i < s.used - 1 ==> !StopsAt(m, pattern, chunks, deadline, i)
      case TimedOut =>
        k < s.used && TimeUp(deadline, s.used - 1)
        && forall i :: k <= i < s.used - 1 ==> !StopsAt(m, pattern, chunks, deadline, i)
      case ReadsExhausted =>
        s.used == |chunks| && forall i :: k <= i < |chunks| ==> !StopsAt(m, pattern, chunks, deadline, i)
    decreases |chunks| - k
  {
    if k < |chunks| && !StopsAt(m, pattern, chunks, deadline, k) {
      ScanFromEnd(m, pattern, chunks, deadline, k + 1);
    }
  }

  /** `expect` returns the match of the first non-empty read, before the deadline, whose
      updated buffer matches; every earlier read was empty or left a buffer without a
      match; and with a sound matcher the text lies within the current line plus the
      last chunk. */
  lemma ExpectFoundIsFirstMatch(m: Matcher, pattern: string, chunks: seq<string>, deadline: Option<nat>, t: string, u: nat)
    requires Expected(m, pattern, chunks, deadline) == Ok(ScanStep(Found(t), u))
    ensures '\n' !in pattern && 1 <= u <= |chunks|
    ensures !TimeUp(deadline, u - 1) && chunks[u - 1] != ""
    ensures m(pattern, BufferAt(chunks, u)) == Some(t)
    ensures forall i :: 0 <= i < u - 1 ==> chunks[i] == "" || m(pattern, BufferAt(chunks, i + 1)).None?
    ensures Sound(m) ==> IsSubstring(t, Tail(Concat(chunks[..u - 1])) + chunks[u - 1])
  {
    ScanFromEnd(m, pattern, chunks, deadline, 0);
    forall i | 0 <= i < u - 1
      ensures chunks[i] == "" || m(pattern, BufferAt(chunks, i + 1)).None?
    {
      assert !StopsAt(m, pattern, chunks, deadline, i);
    }
    BufferIsLinePlusChunk(chunks, u - 1);
  }

  /** The first read whose buffer matches, if it comes before the deadline, ends `expect`
      with that match and no further read. */
  lemma ExpectMatchesAtFirstHit(m: Matcher, pattern: string, chunks: seq<string>, deadline: Option<nat>, j: nat)
    requires '\n' !in pattern && j < |chunks|
    requires !TimeUp(deadline, j) && chunks[j] != ""
    requires m(pattern, BufferAt(chunks, j + 1)).Some?
    requires forall i :: 0 <= i < j ==> chunks[i] == "" || m(pattern, BufferAt(chunks, i + 1)).None?
    ensures Expected(m, pattern, chunks, deadline)
         == Ok(ScanStep(Found(m(pattern, BufferAt(chunks, j + 1)).value), j + 1))
  {
    ScanFromStopsAt(m, pattern, chunks, deadline, 0, j);
  }

  /** Without a match before it, the read at the deadline ends `expect` with a timeout,
      even when that read delivered the awaited text. */
  lemma ExpectTimesOutAtDeadline(m: Matcher, pattern: string, chunks: seq<string>, n: nat)
    requires '\n' !in pattern && n < |chunks|
    requires forall i :: 0 <= i < n ==> chunks[i] == "" || m(pattern, BufferAt(chunks, i + 1)).None?
    ensures Expected(m, pattern, chunks, Some(n)) == Ok(ScanStep(TimedOut, n + 1))
  {
    ScanFromStopsAt(m, pattern, chunks, Some(n), 0, n);
  }

  /** A timeout happens exactly at the read the deadline names, after no match. */
  lemma ExpectTimeoutIsAtDeadline(m: Matcher, pattern: string, chunks: seq<string>, deadline: Option<nat>, u: nat)
    requires Expected(m, pattern, chunks, deadline) == Ok(ScanStep(TimedOut, u))
    ensures 1 <= u <= |chunks| && deadline.Some? && deadline.value == u - 1
    ensures forall i :: 0 <= i < u - 1 ==> chunks[i] == "" || m(pattern, BufferAt(chunks, i + 1)).None?
  {
    ScanFromEnd(m, pattern, chunks, deadline, 0);
    forall i | 0 <= i < u - 1
      ensures chunks[i] == "" || m(pattern, BufferAt(chunks, i + 1)).None?
      ensures !TimeUp(deadline, i)
    {
      assert !StopsAt(m, pattern, chunks, deadline, i);
    }
    DeadlineIsFirstTimeUp(deadline, u - 1);
  }

  lemma DeadlineIsFirstTimeUp(deadline: Option<nat>, n: nat)
    requires TimeUp(deadline, n)
    requires forall i :: 0 <= i < n ==> !TimeUp(deadline, i)
    ensures deadline.Some? && deadline.value == n
  {
    if n > 0 {
      assert !TimeUp(deadline, n - 1);
    }
  }

  /** The model's extra outcome: the finite sequence of reads ran out before any read
      matched or met the deadline. */
  lemma ExpectExhaustedMeansNoStop(m: Matcher, pattern: string, chunks: seq<string>, deadline: Option<nat>, u: nat)
    requires Expected(m, pattern, chunks, deadline) == Ok(ScanStep(ReadsExhausted, u))
    ensures u == |chunks| && (deadline.None? || deadline.value >= |chunks|)
    ensures forall i :: 0 <= i < |chunks| ==> chunks[i] == "" || m(pattern, BufferAt(chunks, i + 1)).None?
  {
    ScanFromEnd(m, pattern, chunks, deadline, 0);
    if |chunks| > 0 {
      assert !StopsAt(m, pattern, chunks, deadline, |chunks| - 1);
    }
    forall i | 0 <= i < |chunks|
      ensures chunks[i] == "" || m(pattern, BufferAt(chunks, i + 1)).None?
    {
      assert !StopsAt(m, pattern, chunks, deadline, i);
    }
  }

  // ---- expect_list ----

  /** The alternation holds a newline exactly when one of the patterns does, so
      `expect_list` rejects its patterns exactly when one of them is multi-line. */
  lemma AlternationHasNewline(patterns: seq<string>)
    ensures '\n' in Alternation(patterns) <==> exists i :: 0 <= i < |patterns| && '\n' in patterns[i]
  {
    var body := Join(")|(", patterns);
    JoinHasChar(")|(", patterns, '\n');
    assert Alternation(patterns) == ['('] + body + [')'];
    assert '\n' in Alternation(patterns) <==> '\n' in body;
  }

  /** Two patterns become `(A)|(B)`; no pattern gives the empty group `()`. */
  lemma AlternationExamples()
    ensures Alternation(["A", "B"]) == "(A)|(B)"
    ensures Alternation([]) == "()"
  {
    assert ["A", "B"][..1] == ["A"];
  }

  // ---- A concrete run ----

  /** A matcher without regular-expression operators is sound. */
  lemma LiteralSearchIsSound()
    ensures Sound(LiteralSearch)
  {
    forall p, b | LiteralSearch(p, b).Some?
      ensures IsSubstring(LiteralSearch(p, b).value, b)
    {
    }
  }

  /** Waiting for "OK" while the device sends "he" and then "llo OK\n" returns "OK"
      after the second read. */
  lemma ExpectOkAcrossChunks()
    ensures Expected(LiteralSearch, "OK", ["he", "llo OK\n"], None) == Ok(ScanStep(Found("OK"), 2))
  {
    var chunks := ["he", "llo OK\n"];
    ExampleBuffers(chunks);
    ExampleSearches();
    ExpectMatchesAtFirstHit(LiteralSearch, "OK", chunks, None, 1);
  }

  lemma ExampleBuffers(chunks: seq<string>)
    requires chunks == ["he", "llo OK\n"]
    ensures BufferAt(chunks, 1) == "he" && BufferAt(chunks, 2) == "hello OK\n"
  {
    TailOfLine("");
    TailOfLine("he");
    assert BufferAt(chunks, 1) == Tail("") + "he";
  }

  lemma ExampleSearches()
    ensures LiteralSearch("OK", "hello OK\n") == Some("OK")
    ensures LiteralSearch("OK", "he") == None
  {
    assert "hello OK\n"[6..8] == "OK";
    forall i, j | 0 <= i <= j <= 2
      ensures "he"[i..j] != "OK"
    {
      if j - i == 2 {
        assert "he"[i..j] == "he";
      }
    }
  }
}
