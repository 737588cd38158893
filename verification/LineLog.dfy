/**
  The output of the MME patch process, reassembled from chunks into log lines
  (backend/src/index.ts, the handlers around `stdoutBuf` and `stderrBuf`).
 */
module LineLog {
  import opened Prelude
  import opened Text

  // ----- one stream -----

  /** Text still waiting for its line break, and the lines logged so far. */
  datatype Stream = Stream(buf: string, logged: seq<string>)

  /** What `logLine` logs for one line: nothing when it is blank. */
  function Logged(line: string): seq<string> {
    if Trim(line) != "" then [Trim(line)] else []
  }

  function LoggedAll(lines: seq<string>): seq<string> {
    if lines == [] then [] else Logged(lines[0]) + LoggedAll(lines[1..])
  }

  function Feed(s: Stream, chunk: string): Stream {
    var parts := Split(s.buf + chunk, '\n');
    Stream(parts[|parts| - 1], s.logged + LoggedAll(parts[..|parts| - 1]))
  }

  function FeedAll(s: Stream, chunks: seq<string>): Stream
    decreases |chunks|
  {
    if chunks == [] then s else FeedAll(Feed(s, chunks[0]), chunks[1..])
  }

  function Flush(s: Stream): seq<string> {
    s.logged + Logged(s.buf)
  }

  /** Of the lines `parts`, the stream has logged all but the last, unfinished one, which it holds. */
  ghost predicate HasRead(s: Stream, parts: seq<string>) {
    parts != [] && s.buf == parts[|parts| - 1] && s.logged == LoggedAll(parts[..|parts| - 1])
  }

  lemma {:induction false} LoggedAppend(a: seq<string>, b: seq<string>)
    ensures LoggedAll(a + b) == LoggedAll(a) + LoggedAll(b)
  {
    if a == [] {
      assert a + b == b;
    } else {
      assert (a + b)[1..] == a[1..] + b;
      LoggedAppend(a[1..], b);
    }
  }

  lemma NothingLoggedYet(before: seq<string>, lines: seq<string>)
    ensures before == before + LoggedAll(lines[..0])
  {
  }

  lemma LoggedOneMore(before: seq<string>, lines: seq<string>, i: nat)
    requires i < |lines|
    ensures before + LoggedAll(lines[..i]) + Logged(lines[i]) == before + LoggedAll(lines[..i + 1])
  {
    LoggedAppend(lines[..i], [lines[i]]);
    assert lines[..i] + [lines[i]] == lines[..i + 1];
    assert LoggedAll([lines[i]]) == Logged(lines[i]) + LoggedAll([]);
  }

  lemma FeedReadsOn(s: Stream, parts: seq<string>, chunk: string)
    requires HasRead(s, parts)
    ensures HasRead(Feed(s, chunk), AppendToLast(parts, chunk, '\n'))
  {
    ReadOn(s.logged, parts[..|parts| - 1], Split(s.buf + chunk, '\n'));
  }

  lemma ReadOn(logged: seq<string>, init: seq<string>, after: seq<string>)
    requires after != [] && logged == LoggedAll(init)
    ensures HasRead(Stream(after[|after| - 1], logged + LoggedAll(after[..|after| - 1])), init + after)
  {
    ButLast(init, after);
    LoggedAppend(init, after[..|after| - 1]);
  }

  lemma ButLast(init: seq<string>, after: seq<string>)
    requires after != []
    ensures var all := init + after;
            all[|all| - 1] == after[|after| - 1] && all[..|all| - 1] == init + after[..|after| - 1]
  {
  }

  function AppendAll(parts: seq<string>, chunks: seq<string>): (r: seq<string>)
    requires parts != []
    ensures r != []
    decreases |chunks|
  {
    if chunks == [] then parts else AppendAll(AppendToLast(parts, chunks[0], '\n'), chunks[1..])
  }

  lemma {:induction false} FeedAllReadsOn(s: Stream, parts: seq<string>, chunks: seq<string>)
    requires HasRead(s, parts)
    ensures HasRead(FeedAll(s, chunks), AppendAll(parts, chunks))
    decreases |chunks|
  {
    if chunks != [] {
      FeedReadsOn(s, parts, chunks[0]);
      FeedAllReadsOn(Feed(s, chunks[0]), AppendToLast(parts, chunks[0], '\n'), chunks[1..]);
    }
  }

  lemma {:induction false} AppendAllSplits(text: string, chunks: seq<string>)
    ensures AppendAll(Split(text, '\n'), chunks) == Split(text + Concat(chunks), '\n')
    decreases |chunks|
  {
    if chunks == [] {
      ThenNothing(text);
    } else {
      SplitAppend(text, chunks[0], '\n');
      AppendAllSplits(text + chunks[0], chunks[1..]);
      ThenFirst(text, chunks);
    }
  }

  lemma ThenNothing(text: string)
    ensures text + Concat([]) == text
  {
  }

  lemma ThenFirst(text: string, chunks: seq<string>)
    requires chunks != []
    ensures text + Concat(chunks) == text + chunks[0] + Concat(chunks[1..])
  {
  }

  /** From the start: every line of the text so far but the last is logged. */
  lemma ReadsFromStart(chunks: seq<string>)
    ensures HasRead(FeedAll(Stream("", []), chunks), Split(Concat(chunks), '\n'))
  {
    FeedAllReadsOn(Stream("", []), Split("", '\n'), chunks);
    AppendAllSplits("", chunks);
    assert "" + Concat(chunks) == Concat(chunks);
  }

  lemma FlushLogsAll(s: Stream, parts: seq<string>)
    requires HasRead(s, parts)
    ensures Flush(s) == LoggedAll(parts)
  {
    var n := |parts| - 1;
    LoggedAppend(parts[..n], [parts[n]]);
    assert parts[..n] + [parts[n]] == parts && [parts[n]][1..] == [];
  }

  /** However the text is cut into chunks, the log is the trimmed non-blank lines of the whole. */
  lemma ChunkingDoesNotMatter(chunks: seq<string>)
    ensures Flush(FeedAll(Stream("", []), chunks)) == LoggedAll(Split(Concat(chunks), '\n'))
  {
    ReadsFromStart(chunks);
    FlushLogsAll(FeedAll(Stream("", []), chunks), Split(Concat(chunks), '\n'));
  }

  /** Between chunks the buffer holds no line break, and finished lines plus buffer rebuild the input. */
  lemma NothingIsLost(chunks: seq<string>)
    ensures var s := FeedAll(Stream("", []), chunks);
            && '\n' !in s.buf
            && exists finished :: Join(finished + [s.buf], "\n") == Concat(chunks)
                                  && s.logged == LoggedAll(finished)
  {
    ReadsFromStart(chunks);
    var parts := Split(Concat(chunks), '\n');
    JoinUndoesSplit(Concat(chunks), '\n');
    LastApart(parts);
  }

  lemma LastApart(parts: seq<string>)
    requires parts != []
    ensures parts[..|parts| - 1] + [parts[|parts| - 1]] == parts
  {
  }

  // ----- what a logged line looks like -----

  ghost predicate Blank(s: string) {
    forall i :: 0 <= i < |s| ==> IsSpace(s[i])
  }

  lemma {:induction false} TrimStartSplits(s: string) returns (lead: string)
    ensures Blank(lead) && s == lead + TrimStart(s)
    ensures TrimStart(s) != "" ==> !IsSpace(TrimStart(s)[0])
  {
    lead := "";
    if s != "" && IsSpace(s[0]) {
      var rest := TrimStartSplits(s[1..]);
      lead := [s[0]] + rest;
    }
  }

  lemma {:induction false} TrimEndSplits(s: string) returns (trail: string)
    ensures Blank(trail) && s == TrimEnd(s) + trail
    ensures TrimEnd(s) != "" ==> !IsSpace(TrimEnd(s)[|TrimEnd(s)| - 1])
  {
    trail := "";
    var n := |s| - 1;
    if s != "" && IsSpace(s[n]) {
      var rest := TrimEndSplits(s[..n]);
      trail := rest + [s[n]];
      LastBehind(s, TrimEnd(s[..n]), rest);
    }
  }

  lemma LastBehind(s: string, kept: string, rest: string)
    requires s != "" && s[..|s| - 1] == kept + rest
    ensures s == kept + (rest + [s[|s| - 1]])
  {
    assert s == s[..|s| - 1] + [s[|s| - 1]];
  }

  /**
    A line that is not all white space logs one text: what is left of it between the white
    space at its ends. A line of white space logs nothing.
   */
  lemma LoggedTextIsTrimmed(line: string) returns (lead: string, text: string, trail: string)
    ensures Blank(lead) && Blank(trail) && line == lead + text + trail
    ensures text != "" ==> !IsSpace(text[0]) && !IsSpace(text[|text| - 1])
    ensures if Blank(line) then text == "" && Logged(line) == [] else text != "" && Logged(line) == [text]
  {
    lead := TrimStartSplits(line);
    var rest := TrimStart(line);
    trail := TrimEndSplits(rest);
    text := Trim(line);
    if text != "" {
      assert text[0] == rest[0] == line[|lead|];
    }
  }

  lemma {:induction false} TrimStartDrops(lead: string, rest: string)
    requires Blank(lead) && (rest == "" || !IsSpace(rest[0]))
    ensures TrimStart(lead + rest) == rest
  {
    if lead == "" {
      assert lead + rest == rest;
    } else {
      assert (lead + rest)[1..] == lead[1..] + rest;
      TrimStartDrops(lead[1..], rest);
    }
  }

  lemma {:induction false} TrimEndDrops(rest: string, trail: string)
    requires Blank(trail) && (rest == "" || !IsSpace(rest[|rest| - 1]))
    ensures TrimEnd(rest + trail) == rest
    decreases |trail|
  {
    var n := |trail| - 1;
    if trail == "" {
      assert rest + trail == rest;
    } else {
      assert (rest + trail)[..|rest| + n] == rest + trail[..n];
      TrimEndDrops(rest, trail[..n]);
    }
  }

  lemma TextIsLogged(lead: string, text: string, trail: string)
    requires Blank(lead) && Blank(trail)
    requires text != "" && !IsSpace(text[0]) && !IsSpace(text[|text| - 1])
    ensures Logged(lead + text + trail) == [text]
  {
    assert lead + text + trail == lead + (text + trail);
    TrimStartDrops(lead, text + trail);
    TrimEndDrops(text, trail);
  }

  lemma BlankIsDropped(line: string)
    requires Blank(line)
    ensures Logged(line) == []
  {
    TrimStartDrops(line, "");
    assert line + "" == line;
  }

  /** White space around a line makes no difference to what is logged. */
  lemma WhiteSpaceAround(lead: string, line: string, trail: string)
    requires Blank(lead) && Blank(trail)
    ensures Logged(lead + line + trail) == Logged(line)
  {
    if Blank(line) {
      BlankIsDropped(line);
      BlankIsDropped(lead + line + trail);
    } else {
      var l, text, t := LoggedTextIsTrimmed(line);
      AroundAround(lead, l, text, t, trail);
      TextIsLogged(lead + l, text, t + trail);
    }
  }

  lemma AroundAround(lead: string, l: string, text: string, t: string, trail: string)
    ensures lead + (l + text + t) + trail == (lead + l) + text + (t + trail)
  {
  }

  /** Output with Windows line ends is logged like output with plain ones. */
  lemma {:induction false} CarriageReturnsAreDropped(lines: seq<string>)
    ensures LoggedAll(WithReturns(lines)) == LoggedAll(lines)
  {
    if lines != [] {
      WhiteSpaceAround("", lines[0], "\r");
      assert "" + lines[0] + "\r" == lines[0] + "\r";
      CarriageReturnsAreDropped(lines[1..]);
    }
  }

  function WithReturns(lines: seq<string>): seq<string> {
    if lines == [] then [] else [lines[0] + "\r"] + WithReturns(lines[1..])
  }

  // ----- the two streams and their handlers -----

  datatype Source = Stdout | Stderr
  datatype Logline = Logline(source: Source, text: string)

  function TextsFrom(source: Source, log: seq<Logline>): seq<string> {
    if log == [] then []
    else (if log[0].source == source then [log[0].text] else []) + TextsFrom(source, log[1..])
  }

  lemma {:induction false} TextsAppend(source: Source, a: seq<Logline>, b: seq<Logline>)
    ensures TextsFrom(source, a + b) == TextsFrom(source, a) + TextsFrom(source, b)
  {
    if a == [] {
      assert a + b == b;
    } else {
      assert (a + b)[1..] == a[1..] + b;
      TextsAppend(source, a[1..], b);
    }
  }

  /** The child process's handlers. The log remembers which stream a line came from. */
  class PatchLog {
    var stdoutBuf: string
    var stderrBuf: string
    var log: seq<Logline>

    ghost function StreamOf(source: Source): Stream
      reads this
    {
      Stream(if source == Stdout then stdoutBuf else stderrBuf, TextsFrom(source, log))
    }

    constructor ()
      ensures forall source :: StreamOf(source) == Stream("", [])
    {
      stdoutBuf, stderrBuf, log := "", "", [];
    }

    method LogLine(source: Source, line: string)
      modifies this`log
      ensures TextsFrom(source, log) == TextsFrom(source, old(log)) + Logged(line)
      ensures forall other :: other != source ==> TextsFrom(other, log) == TextsFrom(other, old(log))
    {
      var text := Trim(line);
      if text != "" {
        var entry := Logline(source, text);
        forall s ensures TextsFrom(s, log + [entry]) == TextsFrom(s, log) + if s == source then [text] else [] {
          TextsAppend(s, log, [entry]);
          assert [entry][1..] == [];
        }
        log := log + [entry];
      }
    }

    method LogLines(source: Source, lines: seq<string>)
      modifies this`log
      ensures TextsFrom(source, log) == TextsFrom(source, old(log)) + LoggedAll(lines)
      ensures forall other :: other != source ==> TextsFrom(other, log) == TextsFrom(other, old(log))
    {
      var i := 0;
      ghost var before := TextsFrom(source, log);
      NothingLoggedYet(before, lines);
      while i < |lines|
        invariant 0 <= i <= |lines|
        invariant TextsFrom(source, log) == before + LoggedAll(lines[..i])
        invariant forall other :: other != source ==> TextsFrom(other, log) == TextsFrom(other, old(log))
      {
        LogLine(source, lines[i]);
        LoggedOneMore(before, lines, i);
        i := i + 1;
      }
      assert lines[..i] == lines;
    }

    method OnStdout(d: string)
      modifies this`stdoutBuf, this`log
      ensures StreamOf(Stdout) == Feed(old(StreamOf(Stdout)), d)
      ensures StreamOf(Stderr) == old(StreamOf(Stderr))
    {
      stdoutBuf := stdoutBuf + d;
      var lines := Split(stdoutBuf, '\n');
      stdoutBuf := lines[|lines| - 1];
      LogLines(Stdout, lines[..|lines| - 1]);
    }

    method OnStderr(d: string)
      modifies this`stderrBuf, this`log
      ensures StreamOf(Stderr) == Feed(old(StreamOf(Stderr)), d)
      ensures StreamOf(Stdout) == old(StreamOf(Stdout))
    {
      stderrBuf := stderrBuf + d;
      var lines := Split(stderrBuf, '\n');
      stderrBuf := lines[|lines| - 1];
      LogLines(Stderr, lines[..|lines| - 1]);
    }

    /** Both unfinished lines are logged. */
    method OnClose()
      modifies this`log
      ensures forall source :: TextsFrom(source, log) == Flush(old(StreamOf(source)))
    {
      if Trim(stdoutBuf) != "" { LogLine(Stdout, stdoutBuf); }
      if Trim(stderrBuf) != "" { LogLine(Stderr, stderrBuf); }
    }
  }
}
