/**
 * The engine log: the level filter, the recursion guard around the log event, the
 * "[stamp] PREFIX: message" format, quiet mode, and the queue of messages written off the
 * main thread, which the end-of-frame handler replays in order. Printing, the log file and
 * the log event are recorded in an output trace; the time stamp and the main-thread test
 * are parameters.
 */
module Log {
  import opened Str

  const LOG_RAW: int := -1
  const LOG_TRACE: int := 0
  const LOG_DEBUG: int := 1
  const LOG_INFO: int := 2
  const LOG_WARNING: int := 3
  const LOG_ERROR: int := 4
  const LOG_NONE: int := 5

  /** The prefix of a message of a valid level. */
  function Prefix(level: int): (r: string)
    requires LOG_TRACE <= level < LOG_NONE
    ensures r != [] && ':' !in r
  {
    ["TRACE", "DEBUG", "INFO", "WARNING", "ERROR"][level]
  }

  /** What leaves the log: console output (to the error stream or not, with or without a line break), a log-file write, or the log event. */
  datatype Output =
    | Printed(text: string, toStderr: bool, newline: bool)
    | FileWritten(text: string, newline: bool)
    | EventSent(message: string, level: int)

  /** A message written off the main thread, kept for the end-of-frame handler. */
  datatype Stored = Stored(message: string, level: int, error: bool)

  /** The part of the log that writing on the main thread reads and changes. */
  datatype Sink = Sink(level: int, timeStamp: bool, quiet: bool, logFile: bool, inWrite: bool,
                       lastMessage: string, output: seq<Output>)

  /** The formatted line: "[stamp] " when time stamps are on, then the prefix, ": " and the message. */
  function Formatted(level: int, message: string, timeStamp: bool, stamp: string): (r: string)
    requires LOG_TRACE <= level < LOG_NONE
    ensures !timeStamp ==> r == Prefix(level) + ": " + message
    ensures |r| > |message| && r[|r| - |message|..] == message
    ensures timeStamp ==> r[0] == '['
  {
    var head := (if timeStamp then "[" + stamp + "] " else "") + Prefix(level) + ": ";
    assert timeStamp ==> head[0] == '[';
    assert (head + message)[|head|..] == message;
    head + message
  }

  /** The outputs of one write: the console output (only errors in quiet mode), the file write when a log file is open, then the event. */
  function Emitted(text: string, error: bool, quiet: bool, logFile: bool, newline: bool, eventLevel: int): (r: seq<Output>)
    ensures r != [] && r[|r| - 1] == EventSent(text, eventLevel)
    ensures forall o :: o in r && o.Printed? ==> o.text == text && o.toStderr == error && (quiet ==> error)
    ensures |r| == (if quiet && !error then 0 else 1) + (if logFile then 1 else 0) + 1
  {
    var printed := if quiet then (if error then [Printed(text, true, newline)] else []) else [Printed(text, error, newline)];
    var filed := if logFile then [FileWritten(text, newline)] else [];
    printed + filed + [EventSent(text, eventLevel)]
  }

  /** A level the main-thread Write lets through: valid, not below the log level, and not during a log event. */
  predicate Accepted(s: Sink, level: int)
  {
    LOG_TRACE <= level < LOG_NONE && s.level <= level && !s.inWrite
  }

  /** WriteRaw on the main thread. */
  function RawStep(s: Sink, message: string, error: bool): (r: Sink)
    ensures s.inWrite ==> r == s
    ensures !s.inWrite ==> r.lastMessage == message && |r.output| > |s.output| &&
                           r.output[|r.output| - 1] == EventSent(message, if error then LOG_ERROR else LOG_INFO)
    ensures r.(lastMessage := s.lastMessage, output := s.output) == s
  {
    if s.inWrite then s
    else s.(lastMessage := message,
            output := s.output + Emitted(message, error, s.quiet, s.logFile, false, if error then LOG_ERROR else LOG_INFO))
  }

  /** Write on the main thread: LOG_RAW goes to WriteRaw; other levels are filtered, then formatted and emitted. */
  function WriteStep(s: Sink, level: int, message: string, stamp: string): (r: Sink)
    ensures level != LOG_RAW && !Accepted(s, level) ==> r == s
    ensures s.inWrite ==> r == s
    ensures Accepted(s, level) ==> r.lastMessage == message && |r.output| > |s.output| &&
                                   r.output[|r.output| - 1] == EventSent(Formatted(level, message, s.timeStamp, stamp), level)
    ensures r.(lastMessage := s.lastMessage, output := s.output) == s
  {
    if level == LOG_RAW then RawStep(s, message, false)
    else if !Accepted(s, level) then s
    else
      var text := Formatted(level, message, s.timeStamp, stamp);
      s.(lastMessage := message, output := s.output + Emitted(text, level == LOG_ERROR, s.quiet, s.logFile, true, level))
  }

  /** What Write queues off the main thread: the message, unless its level is invalid. */
  function Queued(level: int, message: string): (r: seq<Stored>)
    ensures |r| <= 1
    ensures r != [] <==> level == LOG_RAW || LOG_TRACE <= level < LOG_NONE
  {
    if level == LOG_RAW || LOG_TRACE <= level < LOG_NONE then [Stored(message, level, false)] else []
  }

  /** What WriteFormat queues off the main thread: it applies the level filter before queueing. */
  function FormatQueued(logLevel: int, level: int, message: string): (r: seq<Stored>)
    ensures r != [] <==> level == LOG_RAW || (LOG_TRACE <= level < LOG_NONE && logLevel <= level)
  {
    if level == LOG_RAW || (LOG_TRACE <= level < LOG_NONE && logLevel <= level) then [Stored(message, level, false)] else []
  }

  /** Replaying one stored message on the main thread. */
  function Process(s: Sink, m: Stored, stamp: string): Sink
  {
    if m.level != LOG_RAW then WriteStep(s, m.level, m.message, stamp) else RawStep(s, m.message, m.error)
  }

  /** Replaying stored messages in order; the i-th one is stamped `stampOf(i)`. */
  function Replay(s: Sink, msgs: seq<Stored>, stampOf: nat -> string): (r: Sink)
    ensures r.(lastMessage := s.lastMessage, output := s.output) == s
    ensures |r.output| >= |s.output| && r.output[..|s.output|] == s.output
  {
    if msgs == [] then s
    else
      var prev := Replay(s, msgs[..|msgs| - 1], stampOf);
      var r := Process(prev, msgs[|msgs| - 1], stampOf(|msgs| - 1));
      assert r.output[..|prev.output|] == prev.output;
      assert r.output[..|s.output|] == prev.output[..|s.output|];
      r
  }

  /** The events of a trace, in order. */
  function Events(out: seq<Output>): (r: seq<(string, int)>)
    ensures |r| <= |out|
  {
    if out == [] then []
    else Events(out[..|out| - 1]) + (if out[|out| - 1].EventSent? then [(out[|out| - 1].message, out[|out| - 1].level)] else [])
  }

  /** The event a stored message raises when it passes the filter of a sink with this level and stamping. */
  function EventOf(level: int, timeStamp: bool, m: Stored, stamp: string): seq<(string, int)>
  {
    if m.level == LOG_RAW then [(m.message, if m.error then LOG_ERROR else LOG_INFO)]
    else if LOG_TRACE <= m.level < LOG_NONE && level <= m.level then [(Formatted(m.level, m.message, timeStamp, stamp), m.level)]
    else []
  }

  /** The events replaying the queue should raise: one per message that passes the filter, in queue order. */
  function ExpectedEvents(level: int, timeStamp: bool, msgs: seq<Stored>, stampOf: nat -> string): seq<(string, int)>
  {
    if msgs == [] then []
    else ExpectedEvents(level, timeStamp, msgs[..|msgs| - 1], stampOf) + EventOf(level, timeStamp, msgs[|msgs| - 1], stampOf(|msgs| - 1))
  }

  lemma {:induction false} EventsAppend(a: seq<Output>, b: seq<Output>)
    ensures Events(a + b) == Events(a) + Events(b)
  {
    if b != [] {
      assert (a + b)[..|a + b| - 1] == a + b[..|b| - 1];
      EventsAppend(a, b[..|b| - 1]);
    } else {
      assert a + b == a;
    }
  }

  /** The events of one write's outputs: just the log event. */
  lemma EmittedEvents(text: string, error: bool, quiet: bool, logFile: bool, newline: bool, eventLevel: int)
    ensures Events(Emitted(text, error, quiet, logFile, newline, eventLevel)) == [(text, eventLevel)]
  {
    var printed := if quiet then (if error then [Printed(text, true, newline)] else []) else [Printed(text, error, newline)];
    var filed := if logFile then [FileWritten(text, newline)] else [];
    EventsAppend(printed + filed, [EventSent(text, eventLevel)]);
    EventsAppend(printed, filed);
    assert Events(printed) == [] by {
      if printed != [] {
        assert printed[..0] == [];
      }
    }
    assert Events(filed) == [] by {
      if filed != [] {
        assert filed[..0] == [];
      }
    }
    assert [EventSent(text, eventLevel)][..0] == [];
  }

  /** Outside a log event, replaying one message adds exactly its expected event. */
  lemma ProcessEvents(s: Sink, m: Stored, stamp: string)
    requires !s.inWrite
    ensures Events(Process(s, m, stamp).output) == Events(s.output) + EventOf(s.level, s.timeStamp, m, stamp)
  {
    if m.level == LOG_RAW {
      var eventLevel := if m.error then LOG_ERROR else LOG_INFO;
      EmittedEvents(m.message, m.error, s.quiet, s.logFile, false, eventLevel);
      EventsAppend(s.output, Emitted(m.message, m.error, s.quiet, s.logFile, false, eventLevel));
    } else if Accepted(s, m.level) {
      var text := Formatted(m.level, m.message, s.timeStamp, stamp);
      EmittedEvents(text, m.level == LOG_ERROR, s.quiet, s.logFile, true, m.level);
      EventsAppend(s.output, Emitted(text, m.level == LOG_ERROR, s.quiet, s.logFile, true, m.level));
    }
  }

  /**
   * Outside a log event, replaying the queue raises exactly one event per message that passes the level filter,
   * in queue order: FIFO, with nothing lost and nothing repeated.
   */
  lemma {:induction false} ReplayEvents(s: Sink, msgs: seq<Stored>, stampOf: nat -> string)
    requires !s.inWrite
    ensures Events(Replay(s, msgs, stampOf).output) == Events(s.output) + ExpectedEvents(s.level, s.timeStamp, msgs, stampOf)
  {
    if msgs != [] {
      var init := msgs[..|msgs| - 1];
      var prev := Replay(s, init, stampOf);
      ReplayEvents(s, init, stampOf);
      var m := msgs[|msgs| - 1];
      var stamp := stampOf(|msgs| - 1);
      ProcessEvents(prev, m, stamp);
      assert Replay(s, msgs, stampOf) == Process(prev, m, stamp);
      assert ExpectedEvents(s.level, s.timeStamp, msgs, stampOf) ==
             ExpectedEvents(s.level, s.timeStamp, init, stampOf) + EventOf(s.level, s.timeStamp, m, stamp);
      ConcatAssoc(Events(s.output), ExpectedEvents(s.level, s.timeStamp, init, stampOf), EventOf(s.level, s.timeStamp, m, stamp));
    }
  }

  /** In quiet mode every console line a replay adds goes to the error stream. */
  lemma {:induction false} QuietReplayPrintsErrorsOnly(s: Sink, msgs: seq<Stored>, stampOf: nat -> string)
    requires s.quiet
    ensures forall i :: |s.output| <= i < |Replay(s, msgs, stampOf).output| && Replay(s, msgs, stampOf).output[i].Printed? ==>
                        Replay(s, msgs, stampOf).output[i].toStderr
  {
    if msgs != [] {
      QuietReplayPrintsErrorsOnly(s, msgs[..|msgs| - 1], stampOf);
      var prev := Replay(s, msgs[..|msgs| - 1], stampOf);
      var r := Replay(s, msgs, stampOf);
      forall i | |prev.output| <= i < |r.output| && r.output[i].Printed?
        ensures r.output[i].toStderr
      {
        assert r.output[i] in r.output[|prev.output|..];
      }
    }
  }

  /** A message queued off the main thread and replayed later has the effect of writing it on the main thread. */
  lemma DeferredAsDirect(s: Sink, level: int, message: string, stamp: string)
    ensures Replay(s, Queued(level, message), _ => stamp) == WriteStep(s, level, message, stamp)
  {
    if Queued(level, message) != [] {
      assert Queued(level, message)[..0] == [];
    }
  }

  /** The error text SetLevel logs for a level outside [LOG_TRACE, LOG_NONE]. */
  function LevelErrorText(level: int): string
  {
    "Attempted to set erroneous log level " + IntToString(level)
  }

  const THREAD_ERROR_TEXT: string := "Thread::mainThreadID is not setup correctly! Threaded log handling disabled\n"

  class Log {
    var level: int
    var timeStamp: bool
    var quiet: bool
    /** Whether a log file is open. */
    var logFile: bool
    var inWrite: bool
    var lastMessage: string
    var output: seq<Output>
    var threadMessages: seq<Stored>
    /** The process-wide flag that the main-thread error has been printed. */
    var threadErrorDisplayed: bool

    function State(): Sink
      reads this
    {
      Sink(level, timeStamp, quiet, logFile, inWrite, lastMessage, output)
    }

    /** The log level starts at LOG_DEBUG in debug builds and LOG_INFO otherwise; time stamps on, not quiet. */
    constructor(debugBuild: bool)
      ensures level == (if debugBuild then LOG_DEBUG else LOG_INFO)
      ensures timeStamp && !quiet && !inWrite && !logFile
      ensures lastMessage == "" && output == [] && threadMessages == [] && !threadErrorDisplayed
    {
      level := if debugBuild then LOG_DEBUG else LOG_INFO;
      timeStamp := true;
      quiet := false;
      logFile := false;
      inWrite := false;
      lastMessage := "";
      output := [];
      threadMessages := [];
      threadErrorDisplayed := false;
    }

    method SetTimeStamp(enable: bool)
      modifies this`timeStamp
      ensures timeStamp == enable
    {
      timeStamp := enable;
    }

    method SetQuiet(enable: bool)
      modifies this`quiet
      ensures quiet == enable
    {
      quiet := enable;
    }

    /** Sends the log event; the writes its handlers make meanwhile find the guard set and do nothing. */
    method SendEvent(text: string, eventLevel: int, handlerWrites: seq<(int, string)>, stamp: string)
      requires !inWrite
      modifies this
      ensures State() == old(State()).(output := old(output) + [EventSent(text, eventLevel)])
      ensures threadMessages == old(threadMessages) && threadErrorDisplayed == old(threadErrorDisplayed)
      decreases |handlerWrites|, 0
    {
      inWrite := true;
      output := output + [EventSent(text, eventLevel)];
      for i := 0 to |handlerWrites|
        invariant inWrite
        invariant State() == old(State()).(inWrite := true, output := old(output) + [EventSent(text, eventLevel)])
        invariant threadMessages == old(threadMessages) && threadErrorDisplayed == old(threadErrorDisplayed)
      {
        Write(handlerWrites[i].0, handlerWrites[i].1, true, stamp, []);
      }
      inWrite := false;
    }

    /**
     * Write. Off the main thread a valid (or LOG_RAW) message is only queued; on the main thread
     * the effect is WriteStep. `handlerWrites` are the writes the log event's handlers attempt.
     */
    method Write(level: int, message: string, mainThread: bool, stamp: string, handlerWrites: seq<(int, string)>)
      modifies this
      ensures mainThread ==> State() == WriteStep(old(State()), level, message, stamp) && threadMessages == old(threadMessages)
      ensures !mainThread ==> State() == old(State()) && threadMessages == old(threadMessages) + Queued(level, message)
      ensures threadErrorDisplayed == old(threadErrorDisplayed)
      decreases |handlerWrites|, 3
    {
      if level == LOG_RAW {
        WriteRaw(message, false, mainThread, handlerWrites);
        return;
      }
      if level < LOG_TRACE || level >= LOG_NONE {
        return;
      }
      if !mainThread {
        threadMessages := threadMessages + [Stored(message, level, false)];
        return;
      }
      if this.level > level || inWrite {
        return;
      }
      var text := Formatted(level, message, timeStamp, stamp);
      Emit(message, text, level == LOG_ERROR, true, level, handlerWrites, stamp);
    }

    /** WriteRaw: the message unformatted and without a line break; the event level is LOG_ERROR or LOG_INFO. */
    method WriteRaw(message: string, error: bool, mainThread: bool, handlerWrites: seq<(int, string)>)
      modifies this
      ensures mainThread ==> State() == RawStep(old(State()), message, error) && threadMessages == old(threadMessages)
      ensures !mainThread ==> State() == old(State()) && threadMessages == old(threadMessages) + [Stored(message, LOG_RAW, error)]
      ensures threadErrorDisplayed == old(threadErrorDisplayed)
      decreases |handlerWrites|, 2
    {
      if !mainThread {
        threadMessages := threadMessages + [Stored(message, LOG_RAW, error)];
        return;
      }
      if inWrite {
        return;
      }
      Emit(message, message, error, false, if error then LOG_ERROR else LOG_INFO, handlerWrites, "");
    }

    /**
     * The common tail of Write and WriteRaw: remember the message, write the text to the console (errors always,
     * the rest unless quiet), write it to the log file when one is open, and send the log event.
     */
    method Emit(message: string, text: string, error: bool, newline: bool, eventLevel: int,
                handlerWrites: seq<(int, string)>, stamp: string)
      requires !inWrite
      modifies this
      ensures State() == old(State()).(lastMessage := message,
                                       output := old(output) + Emitted(text, error, quiet, logFile, newline, eventLevel))
      ensures threadMessages == old(threadMessages) && threadErrorDisplayed == old(threadErrorDisplayed)
      decreases |handlerWrites|, 1
    {
      lastMessage := message;
      var printed := if quiet then (if error then [Printed(text, true, newline)] else [])
                     else [Printed(text, error, newline)];
      output := output + printed;
      if logFile {
        output := output + [FileWritten(text, newline)];
      }
      SendEvent(text, eventLevel, handlerWrites, stamp);
    }

    /** WriteFormat (`message` is the formatted text): filters by level, then Write. */
    method WriteFormat(level: int, message: string, mainThread: bool, stamp: string)
      modifies this
      ensures mainThread ==> State() == WriteStep(old(State()), level, message, stamp) && threadMessages == old(threadMessages)
      ensures !mainThread ==> State() == old(State()) && threadMessages == old(threadMessages) + FormatQueued(old(this.level), level, message)
      ensures threadErrorDisplayed == old(threadErrorDisplayed)
    {
      if level != LOG_RAW {
        if level < LOG_TRACE || level >= LOG_NONE || this.level > level {
          return;
        }
      }
      Write(level, message, mainThread, stamp, []);
    }

    /** SetLevel: a level outside [LOG_TRACE, LOG_NONE] is refused and logged as an error. */
    method SetLevel(newLevel: int, mainThread: bool, stamp: string)
      modifies this
      ensures LOG_TRACE <= newLevel <= LOG_NONE ==> State() == old(State()).(level := newLevel) && threadMessages == old(threadMessages)
      ensures !(LOG_TRACE <= newLevel <= LOG_NONE) ==> level == old(level)
      ensures !(LOG_TRACE <= newLevel <= LOG_NONE) && mainThread ==>
                State() == WriteStep(old(State()), LOG_ERROR, LevelErrorText(newLevel), stamp)
                && threadMessages == old(threadMessages)
      ensures !(LOG_TRACE <= newLevel <= LOG_NONE) && !mainThread ==>
                State() == old(State())
                && threadMessages == old(threadMessages) + FormatQueued(old(level), LOG_ERROR, LevelErrorText(newLevel))
      ensures threadErrorDisplayed == old(threadErrorDisplayed)
    {
      if newLevel < LOG_TRACE || newLevel > LOG_NONE {
        WriteFormat(LOG_ERROR, LevelErrorText(newLevel), mainThread, stamp);
        return;
      }
      level := newLevel;
    }

    /**
     * HandleEndFrame: on the main thread, replay the queued messages in order and empty the queue;
     * elsewhere drain nothing and show the setup error once.
     */
    method HandleEndFrame(mainThread: bool, stampOf: nat -> string)
      modifies this
      ensures mainThread ==> State() == Replay(old(State()), old(threadMessages), stampOf) && threadMessages == []
      ensures mainThread ==> threadErrorDisplayed == old(threadErrorDisplayed)
      ensures !mainThread ==> threadMessages == old(threadMessages) && threadErrorDisplayed
      ensures !mainThread ==> State() == old(State()).(output := old(output) + (if old(threadErrorDisplayed) then [] else [Printed(THREAD_ERROR_TEXT, true, false)]))
    {
      if !mainThread {
        if !threadErrorDisplayed {
          output := output + [Printed(THREAD_ERROR_TEXT, true, false)];
          threadErrorDisplayed := true;
        }
        return;
      }
      DrainThreadMessages(stampOf);
    }

    /** One message of the drain loop, written on the main thread as it was stored. */
    method ProcessStored(stored: Stored, stamp: string)
      modifies this
      ensures State() == Process(old(State()), stored, stamp)
      ensures threadMessages == old(threadMessages) && threadErrorDisplayed == old(threadErrorDisplayed)
    {
      if stored.level != LOG_RAW {
        Write(stored.level, stored.message, true, stamp, []);
      } else {
        WriteRaw(stored.message, stored.error, true, []);
      }
    }

    /** The main-thread drain loop: replay and pop the front message until the queue is empty. */
    method DrainThreadMessages(stampOf: nat -> string)
      modifies this
      ensures State() == Replay(old(State()), old(threadMessages), stampOf) && threadMessages == []
      ensures threadErrorDisplayed == old(threadErrorDisplayed)
    {
      ghost var queue := threadMessages;
      var i := 0;
      while threadMessages != []
        invariant 0 <= i <= |queue| && threadMessages == queue[i..]
        invariant State() == Replay(old(State()), queue[..i], stampOf)
        invariant threadErrorDisplayed == old(threadErrorDisplayed)
        decreases |threadMessages|
      {
        var stored := threadMessages[0];
        assert stored == queue[i];
        assert queue[..i + 1][..i] == queue[..i];
        ProcessStored(stored, stampOf(i));
        threadMessages := threadMessages[1..];
        i := i + 1;
      }
      assert queue[..i] == queue;
    }
  }
}
