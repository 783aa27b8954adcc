/** Collecting the output of a command line by line (internal/service/gomodule/gocmd/cmd.go). */
module CmdLog {
  import opened Basics

  const LF: Byte := 10
  const CR: Byte := 13

  datatype FD = Stdout | Stderr

  /** One "stdout: ..." or "stderr: ..." line of the log. */
  datatype LogLine = LogLine(fd: FD, line: Bytes)

  function FirstLF(s: Bytes): (i: nat)
    ensures i <= |s| && LF !in s[..i] && (i < |s| ==> s[i] == LF)
  {
    if s == [] || s[0] == LF then 0 else
      assert forall j :: 0 <= j <= |s[1..]| ==> s[1..][..j] == s[1..j + 1];
      1 + FirstLF(s[1..])
  }

  /** At most one carriage return is taken off a line. */
  function Chomp(line: Bytes): Bytes {
    if line != [] && line[|line| - 1] == CR then line[..|line| - 1] else line
  }

  /** The terminated lines of a stream, independent of how it was written. */
  function Lines(s: Bytes): seq<Bytes>
    decreases |s|
  {
    var i := FirstLF(s);
    if i == |s| then [] else [Chomp(s[..i])] + Lines(s[i + 1..])
  }

  /** What follows the last line feed. */
  function Tail(s: Bytes): Bytes
    decreases |s|
  {
    var i := FirstLF(s);
    if i == |s| then s else Tail(s[i + 1..])
  }

  /** The lines that the log has for one descriptor. */
  function LinesOf(log: seq<LogLine>, fd: FD): seq<Bytes> {
    if log == [] then []
    else LinesOf(log[..|log| - 1], fd) + if log[|log| - 1].fd == fd then [log[|log| - 1].line] else []
  }

  lemma {:induction false} FirstLFIs(s: Bytes, i: nat)
    requires i < |s| && s[i] == LF && LF !in s[..i]
    ensures FirstLF(s) == i
  {
    if i > 0 {
      assert s[..i][0] == s[0] && s[1..][..i - 1] == s[..i][1..];
      FirstLFIs(s[1..], i - 1);
    }
  }

  lemma {:induction false} NoLine(s: Bytes)
    requires LF !in s
    ensures FirstLF(s) == |s| && Lines(s) == [] && Tail(s) == s
  {
    if s != [] {
      assert s[0] in s && LF !in s[1..];
      NoLine(s[1..]);
    }
  }

  /** Splitting is compositional at any cut behind a line feed, hence chunks do not matter. */
  lemma {:induction false} LinesAppend(a: Bytes, b: Bytes)
    requires a == [] || a[|a| - 1] == LF
    ensures Lines(a + b) == Lines(a) + Lines(b) && Tail(a + b) == Tail(b) && Tail(a) == []
    decreases |a|
  {
    if a == [] {
      assert a + b == b;
    } else {
      var i := FirstLF(a);
      assert i < |a| by { assert a[|a| - 1] in a; }
      FirstLineOf(a, b, a + b, i);
      LinesAppend(a[i + 1..], b);
      Associative([Chomp(a[..i])], Lines(a[i + 1..]), Lines(b));
    }
  }

  /** The first line of a stream does not depend on what comes behind it. */
  lemma FirstLineOf(a: Bytes, b: Bytes, s: Bytes, i: nat)
    requires i < |a| && i == FirstLF(a) && s == a + b
    ensures Lines(s) == [Chomp(a[..i])] + Lines(a[i + 1..] + b) && Tail(s) == Tail(a[i + 1..] + b)
  {
    CutBehind(a, b, s, i);
    FirstLFIs(s, i);
    FirstLineIs(s, i);
  }

  lemma FirstLineIs(s: Bytes, i: nat)
    requires i < |s| && i == FirstLF(s)
    ensures Lines(s) == [Chomp(s[..i])] + Lines(s[i + 1..]) && Tail(s) == Tail(s[i + 1..])
  {}

  lemma CutBehind(a: Bytes, b: Bytes, s: Bytes, i: nat)
    requires i < |a| && s == a + b
    ensures s[..i] == a[..i] && s[i + 1..] == a[i + 1..] + b && s[i] == a[i]
  {}

  lemma OneLine(line: Bytes)
    requires LF !in line
    ensures Lines(line + [LF]) == [Chomp(line)]
  {
    FirstLFIs(line + [LF], |line|);
    assert (line + [LF])[..|line|] == line && (line + [LF])[|line| + 1..] == [];
  }

  /** bytes.IndexByte for a line feed at or behind `from`; the length if there is none. */
  method IndexLF(s: Bytes, from: nat) returns (i: nat)
    requires from <= |s|
    ensures from <= i <= |s| && LF !in s[from..i] && (i < |s| ==> s[i] == LF)
  {
    i := from;
    while i < |s| && s[i] != LF
      invariant from <= i <= |s| && LF !in s[from..i]
    {
      SplitSlice(s, from, i, i + 1);
      i := i + 1;
    }
  }

  /** The line from `start` to the line feed at `i`, without the carriage return in front of that. */
  method TakeLine(data: Bytes, start: nat, i: nat) returns (line: Bytes)
    requires start <= i < |data|
    ensures line == Chomp(data[start..i])
  {
    if i > start && data[i - 1] == CR {
      line := data[start..i - 1];
      assert data[start..i][..i - 1 - start] == line;
    } else {
      line := data[start..i];
    }
  }

  /** A line starts at `start`, and no line feed stands between there and `scan`. */
  ghost predicate LineAt(data: Bytes, start: nat, scan: nat) {
    && start <= scan <= |data|
    && (start > 0 ==> data[start - 1] == LF)
    && LF !in data[start..scan]
  }

  lemma FrontEnds(data: Bytes, start: nat)
    requires start <= |data| && (start > 0 ==> data[start - 1] == LF)
    ensures data[..start] == [] || data[..start][start - 1] == LF
  {}

  lemma CutAtLine(data: Bytes, start: nat)
    requires LineAt(data, start, |data|)
    ensures Lines(data) == Lines(data[..start]) && Tail(data) == data[start..]
  {
    FrontEnds(data, start);
    Rejoin(data, start);
    UnterminatedRest(data[..start], data[start..], data);
  }

  /** What follows the last line feed adds no line. */
  lemma UnterminatedRest(front: Bytes, rest: Bytes, data: Bytes)
    requires (front == [] || front[|front| - 1] == LF) && LF !in rest && data == front + rest
    ensures Lines(data) == Lines(front) && Tail(data) == rest
  {
    LinesAppend(front, rest);
    NoLine(rest);
    assert Lines(front) + [] == Lines(front);
  }

  /** New data behind a stream leaves the part that is logged as it is. */
  lemma MoreData(before: Bytes, p: Bytes, start: nat)
    requires LineAt(before, start, |before|)
    ensures LineAt(before + p, start, |before|) && Lines((before + p)[..start]) == Lines(before)
  {
    CutAtLine(before, start);
    SliceOfLeft(before, p, 0, start);
    SliceOfLeft(before, p, start, |before|);
    assert (before + p)[..start] == before[..start];
  }

  lemma LineEnds(data: Bytes, start: nat, scan: nat, i: nat)
    requires start <= scan <= i < |data| && data[i] == LF && LF !in data[start..scan] && LF !in data[scan..i]
    ensures LF !in data[start..i] && data[..i + 1] == data[..start] + (data[start..i] + [LF])
  {
    SplitSlice(data, start, scan, i);
    SplitSlice(data, 0, start, i);
  }

  lemma LineLogged(data: Bytes, start: nat, scan: nat, i: nat)
    requires LineAt(data, start, scan) && scan <= i < |data| && data[i] == LF && LF !in data[scan..i]
    ensures LineAt(data, i + 1, i + 1) && Lines(data[..i + 1]) == Lines(data[..start]) + [Chomp(data[start..i])]
  {
    LineEnds(data, start, scan, i);
    OneLine(data[start..i]);
    LinesAppend(data[..start], data[start..i] + [LF]);
  }

  lemma NothingMore(data: Bytes, start: nat, scan: nat)
    requires LineAt(data, start, scan) && LF !in data[scan..|data|]
    ensures LineAt(data, start, |data|) && Lines(data) == Lines(data[..start])
  {
    SplitSlice(data, start, scan, |data|);
    assert LF !in data[start..|data|];
    CutAtLine(data, start);
  }

  lemma LogAppends(log: seq<LogLine>, line: LogLine, fd: FD)
    ensures LinesOf(log + [line], fd) == LinesOf(log, fd) + if line.fd == fd then [line.line] else []
  {
    assert (log + [line])[..|log|] == log;
  }

  class PerFDState {
    var data: Bytes
    var lineStartPos: nat
    var scanStartPos: nat

    constructor ()
      ensures data == [] && lineStartPos == 0 && scanStartPos == 0
    {
      data, lineStartPos, scanStartPos := [], 0, 0;
    }
  }

  class CmdStdoutStderr {
    const out: PerFDState
    const err: PerFDState
    var log: seq<LogLine>

    function State(fd: FD): PerFDState {
      if fd == Stdout then out else err
    }

    /** The log has all terminated lines of what was written to the descriptor. */
    ghost predicate Logged(fd: FD)
      reads this, State(fd)
    {
      var st := State(fd);
      && st.scanStartPos == |st.data| && LineAt(st.data, st.lineStartPos, st.scanStartPos)
      && LinesOf(log, fd) == Lines(st.data)
    }

    ghost predicate Valid()
      reads this, out, err
    {
      out != err && Logged(Stdout) && Logged(Stderr)
    }

    constructor ()
      ensures Valid() && log == [] && fresh(out) && fresh(err) && out.data == [] && err.data == []
    {
      out := new PerFDState();
      err := new PerFDState();
      log := [];
    }

    /** Logs the line that ends at the line feed at `i`. */
    method LogLineTo(fd: FD, i: nat)
      requires var st := State(fd);
               && LineAt(st.data, st.lineStartPos, st.scanStartPos)
               && LinesOf(log, fd) == Lines(st.data[..st.lineStartPos])
               && st.scanStartPos <= i < |st.data| && st.data[i] == LF && LF !in st.data[st.scanStartPos..i]
      modifies this`log, State(fd)
      ensures var st := State(fd);
              && st.data == old(st.data) && st.lineStartPos == st.scanStartPos == i + 1
              && LineAt(st.data, st.lineStartPos, st.scanStartPos)
              && LinesOf(log, fd) == Lines(st.data[..st.lineStartPos])
      ensures forall other :: other != fd ==> LinesOf(log, other) == LinesOf(old(log), other)
      ensures old(log) <= log
    {
      var st := State(fd);
      LineLogged(st.data, st.lineStartPos, st.scanStartPos, i);
      var line := TakeLine(st.data, st.lineStartPos, i);
      forall other { LogAppends(log, LogLine(fd, line), other); }
      st.lineStartPos := i + 1;
      st.scanStartPos := i + 1;
      log := log + [LogLine(fd, line)];
    }

    /** Appends to the stream of one descriptor and logs the lines that are terminated now. */
    method Write(fd: FD, p: Bytes)
      requires Valid()
      modifies this`log, State(fd)
      ensures Valid() && State(fd).data == old(State(fd).data) + p
      ensures old(log) <= log
    {
      var st := State(fd);
      ghost var other := if fd == Stdout then Stderr else Stdout;
      MoreData(st.data, p, st.lineStartPos);
      st.data := st.data + p;
      while true
        invariant st.data == old(st.data) + p && LineAt(st.data, st.lineStartPos, st.scanStartPos)
        invariant old(log) <= log
        invariant LinesOf(log, fd) == Lines(st.data[..st.lineStartPos])
        invariant LinesOf(log, other) == LinesOf(old(log), other)
        decreases |st.data| - st.lineStartPos
      {
        var i := IndexLF(st.data, st.scanStartPos);
        if i == |st.data| {
          NothingMore(st.data, st.lineStartPos, st.scanStartPos);
          st.scanStartPos := |st.data|;
          break;
        }
        LogLineTo(fd, i);
      }
      assert Logged(fd) && Logged(other);
    }

    /** Logs the unterminated rest of each stream; called once, at the end. */
    method Done()
      requires Valid()
      modifies this`log
      ensures LinesOf(log, Stdout) == AllLines(out.data) && LinesOf(log, Stderr) == AllLines(err.data)
      ensures log == old(log) + RestOf(Stdout, out.data) + RestOf(Stderr, err.data)
    {
      DoneFor(Stdout);
      DoneFor(Stderr);
    }

    /** One round of the loop of done(). */
    method DoneFor(fd: FD)
      requires Logged(fd)
      modifies this`log
      ensures LinesOf(log, fd) == AllLines(State(fd).data) && log == old(log) + RestOf(fd, State(fd).data)
      ensures forall other :: other != fd ==> LinesOf(log, other) == LinesOf(old(log), other)
    {
      var st := State(fd);
      CutAtLine(st.data, st.lineStartPos);
      if st.lineStartPos < |st.data| {
        var line := LogLine(fd, st.data[st.lineStartPos..]);
        forall other { LogAppends(log, line, other); }
        log := log + [line];
      }
    }
  }

  /** The terminated lines and, if it is not empty, the unterminated rest as it is. */
  function AllLines(s: Bytes): seq<Bytes> {
    Lines(s) + if Tail(s) == [] then [] else [Tail(s)]
  }

  /** The line that the unterminated rest of a stream makes, if there is one. */
  function RestOf(fd: FD, s: Bytes): seq<LogLine> {
    if Tail(s) == [] then [] else [LogLine(fd, Tail(s))]
  }

  /** Lines with a line feed behind each of them. */
  function Unlines(lines: seq<Bytes>): Bytes {
    if lines == [] then [] else lines[0] + [LF] + Unlines(lines[1..])
  }

  /** The line split undoes that, for lines without line feeds that do not end with a carriage return. */
  lemma {:induction false} LinesOfUnlines(lines: seq<Bytes>, rest: Bytes)
    requires forall i :: 0 <= i < |lines| ==> LF !in lines[i] && Chomp(lines[i]) == lines[i]
    requires LF !in rest
    ensures Lines(Unlines(lines) + rest) == lines && Tail(Unlines(lines) + rest) == rest
  {
    if lines == [] {
      assert [] + rest == rest;
      NoLine(rest);
    } else {
      var first, others := lines[0] + [LF], Unlines(lines[1..]) + rest;
      LinesOfUnlines(lines[1..], rest);
      Associative(first, Unlines(lines[1..]), rest);
      OneLine(lines[0]);
      LinesAppend(first, others);
      assert [lines[0]] + lines[1..] == lines;
    }
  }

  /** One carriage return in front of a line feed belongs to the end of the line, another one to the line. */
  lemma LineEndings(line: Bytes)
    requires LF !in line && Chomp(line) == line
    ensures Lines(line + [LF]) == [line] && Lines(line + [CR] + [LF]) == [line]
    ensures Lines(line + [CR, CR] + [LF]) == [line + [CR]]
  {
    OneLine(line);
    OneLine(line + [CR]);
    OneLine(line + [CR, CR]);
    assert Chomp(line + [CR]) == line by { assert (line + [CR])[..|line|] == line; }
    assert Chomp(line + [CR, CR]) == line + [CR] by { assert (line + [CR, CR])[..|line| + 1] == line + [CR]; }
  }

  /** A sequence of writes, as (descriptor, bytes) pairs, and the stream that one descriptor gets from it. */
  function StreamOf(writes: seq<(FD, Bytes)>, fd: FD): Bytes {
    if writes == [] then []
    else StreamOf(writes[..|writes| - 1], fd) + if writes[|writes| - 1].0 == fd then writes[|writes| - 1].1 else []
  }

  /**
    Any interleaving of writes in any chunks: the log of each descriptor is the line split of its whole
    stream, and stdout() returns the exact concatenation.
   */
  method Collect(writes: seq<(FD, Bytes)>) returns (c: CmdStdoutStderr)
    ensures fresh(c) && c.out.data == StreamOf(writes, Stdout) && c.err.data == StreamOf(writes, Stderr)
    ensures LinesOf(c.log, Stdout) == AllLines(StreamOf(writes, Stdout))
    ensures LinesOf(c.log, Stderr) == AllLines(StreamOf(writes, Stderr))
  {
    c := new CmdStdoutStderr();
    for i := 0 to |writes|
      invariant c.Valid() && fresh(c) && fresh(c.out) && fresh(c.err)
      invariant c.out.data == StreamOf(writes[..i], Stdout) && c.err.data == StreamOf(writes[..i], Stderr)
    {
      assert writes[..i + 1][..i] == writes[..i];
      c.Write(writes[i].0, writes[i].1);
    }
    assert writes[..|writes|] == writes;
    c.Done();
  }
}
