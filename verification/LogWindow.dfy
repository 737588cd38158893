/** The bounded window of log lines (frontend/src/hooks/useLogStream.ts). */
module LogWindow {
  /** A log entry; its fields are never read by the handler. */
  datatype Entry = Entry(text: string)

  /** A message as the handler sees it; Other covers other types and text that does not parse. */
  datatype Message = LogEntry(log: Entry) | RecentLogs(logs: seq<Entry>) | Other

  /** Array.prototype.slice(start): a negative start counts from the end. */
  function Slice(xs: seq<Entry>, start: int): seq<Entry> {
    if start < 0 then (if |xs| + start < 0 then xs else xs[|xs| + start..])
    else if start <= |xs| then xs[start..]
    else []
  }

  function LastOf(xs: seq<Entry>, n: nat): seq<Entry> {
    if |xs| <= n then xs else xs[|xs| - n..]
  }

  /** One thing that happens to the hook; a message carries whether the view is paused. */
  datatype Event = Message(msg: Message, paused: bool) | Clear

  function Step(logs: seq<Entry>, maxLines: int, e: Event): seq<Entry> {
    match e
    case Clear => []
    case Message(msg, paused) =>
      if paused then logs
      else
        match msg
        case LogEntry(log) => Slice(logs + [log], -maxLines)
        case RecentLogs(batch) => Slice(batch, -maxLines)
        case Other => logs
  }

  function Window(maxLines: int, events: seq<Event>): seq<Entry> {
    if events == [] then []
    else Step(Window(maxLines, events[..|events| - 1]), maxLines, events[|events| - 1])
  }

  /** Everything accepted since the latest accepted batch or clear, that batch included. */
  function History(events: seq<Event>): seq<Entry> {
    if events == [] then []
    else
      var before := History(events[..|events| - 1]);
      match events[|events| - 1]
      case Clear => []
      case Message(msg, paused) =>
        if paused then before
        else
          match msg
          case LogEntry(log) => before + [log]
          case RecentLogs(batch) => batch
          case Other => before
  }

  lemma SliceIsLast(xs: seq<Entry>, n: nat)
    requires n > 0
    ensures Slice(xs, 0 - n) == LastOf(xs, n)
  {
  }

  lemma LastOfLast(xs: seq<Entry>, x: Entry, n: nat)
    requires n > 0
    ensures LastOf(LastOf(xs, n) + [x], n) == LastOf(xs + [x], n)
  {
  }

  lemma {:induction false} WindowIsLast(maxLines: nat, events: seq<Event>)
    requires maxLines > 0
    ensures Window(maxLines, events) == LastOf(History(events), maxLines)
  {
    if events != [] {
      var init, e := events[..|events| - 1], events[|events| - 1];
      WindowIsLast(maxLines, init);
      if e.Message? && !e.paused {
        match e.msg
        case LogEntry(log) =>
          SliceIsLast(Window(maxLines, init) + [log], maxLines);
          LastOfLast(History(init), log, maxLines);
        case RecentLogs(batch) =>
          SliceIsLast(batch, maxLines);
        case Other =>
      }
    }
  }

  /** Trimming at every message gives the end of the whole history: nothing in it is lost early. */
  lemma {:induction false} WindowIsEndOfHistory(maxLines: nat, events: seq<Event>)
    requires maxLines > 0
    ensures var h := History(events);
            Window(maxLines, events) == if |h| <= maxLines then h else h[|h| - maxLines..]
  {
    WindowIsLast(maxLines, events);
  }

  /** With a limit of zero nothing is ever dropped, so the limit holds exactly for positive limits. */
  lemma {:induction false} ZeroLimitKeepsAll(events: seq<Event>)
    ensures Window(0, events) == History(events)
  {
    if events != [] {
      ZeroLimitKeepsAll(events[..|events| - 1]);
    }
  }

  lemma LimitHoldsIff(maxLines: nat)
    ensures (forall events :: |Window(maxLines, events)| <= maxLines) <==> maxLines > 0
  {
    if maxLines > 0 {
      forall events ensures |Window(maxLines, events)| <= maxLines {
        WindowIsEndOfHistory(maxLines, events);
      }
    } else {
      var batch := [Event.Message(RecentLogs([Entry("")]), false)];
      ZeroLimitKeepsAll(batch);
      assert |Window(maxLines, batch)| == 1;
    }
  }

  lemma WindowStep(maxLines: int, events: seq<Event>, e: Event)
    ensures Window(maxLines, events + [e]) == Step(Window(maxLines, events), maxLines, e)
  {
    assert (events + [e])[..|events|] == events;
  }

  /** One event: a new entry goes to the end and the oldest ones leave; a batch replaces everything. */
  lemma StepMeaning(logs: seq<Entry>, maxLines: nat, e: Event)
    requires maxLines > 0
    ensures var after := Step(logs, maxLines, e);
            && (e.Clear? ==> after == [])
            && (e.Message? && (e.paused || e.msg.Other?) ==> after == logs)
            && (e.Message? && !e.paused && e.msg.LogEntry? ==>
                 var all := logs + [e.msg.log]; after == if |all| <= maxLines then all else all[|all| - maxLines..])
            && (e.Message? && !e.paused && e.msg.RecentLogs? ==>
                 var all := e.msg.logs; after == if |all| <= maxLines then all else all[|all| - maxLines..])
  {
    if e.Message? && !e.paused && e.msg.LogEntry? { SliceIsLast(logs + [e.msg.log], maxLines); }
    if e.Message? && !e.paused && e.msg.RecentLogs? { SliceIsLast(e.msg.logs, maxLines); }
  }

  /** Pausing, other messages and clearing, seen over a whole run; a batch starts the history afresh. */
  lemma HistoryMeaning(events: seq<Event>, e: Event)
    ensures var before, after := History(events), History(events + [e]);
            && (e.Clear? ==> after == [])
            && (e.Message? && (e.paused || e.msg.Other?) ==> after == before)
            && (e.Message? && !e.paused && e.msg.LogEntry? ==> after == before + [e.msg.log])
            && (e.Message? && !e.paused && e.msg.RecentLogs? ==> after == e.msg.logs)
  {
    assert (events + [e])[..|events|] == events;
  }

  class LogStream {
    const maxLines: int
    var logs: seq<Entry>
    ghost var events: seq<Event>

    ghost predicate Valid()
      reads this
    {
      logs == Window(maxLines, events)
    }

    constructor (maxLines: int)
      ensures Valid() && events == [] && this.maxLines == maxLines
    {
      this.maxLines := maxLines;
      logs, events := [], [];
    }

    method OnMessage(msg: Message, paused: bool)
      requires Valid()
      modifies this
      ensures Valid() && events == old(events) + [Event.Message(msg, paused)]
      ensures logs == Step(old(logs), maxLines, Event.Message(msg, paused))
      ensures maxLines > 0 ==> logs == LastOf(History(events), maxLines)
    {
      WindowStep(maxLines, events, Event.Message(msg, paused));
      events := events + [Event.Message(msg, paused)];
      if maxLines > 0 { WindowIsLast(maxLines, events); }
      if paused { return; }
      match msg
      case LogEntry(log) =>
        var newLogs := logs + [log];
        logs := Slice(newLogs, -maxLines);
      case RecentLogs(batch) =>
        logs := Slice(batch, -maxLines);
      case Other =>
    }

    method ClearLogs()
      requires Valid()
      modifies this
      ensures Valid() && logs == [] && events == old(events) + [Clear]
    {
      WindowStep(maxLines, events, Clear);
      events := events + [Clear];
      logs := [];
    }
  }
}
