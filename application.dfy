/**
 * The application's control flow: Run's exit-code checks around Setup, engine initialisation
 * and Start; ErrorExit and its dialog text; and the collection of logged errors shown when
 * start-up fails. The overridable Setup and Start are represented by the exit code they leave,
 * the engine by whether it initialises and how many frames it runs before exiting.
 */
module Application {
  import opened Str
  import Log

  const EXIT_SUCCESS: int := 0
  const EXIT_FAILURE: int := 1

  const DEFAULT_ERROR_TEXT: string := "Application has been terminated due to unexpected error."

  /** The stages Run goes through. */
  datatype Phase = Setup | Initialize | Start | Frame | Stop

  /** String::Substring(pos): the tail from `pos`, empty when `pos` is past the end. */
  function Substring(s: string, pos: nat): (r: string)
    ensures pos <= |s| ==> r == s[pos..]
    ensures pos > |s| ==> r == ""
  {
    if pos <= |s| then s[pos..] else ""
  }

  /** The timestamp stripping as written: cut after the first ']' and the character following it, wherever that ']' is. */
  function StrippedAsWritten(text: string): (r: string)
    ensures ']' !in text ==> r == text
    ensures ']' in text ==> |r| < |text| && r == Substring(text, Find(text, ']').value + 2)
  {
    match Find(text, ']')
      case None => text
      case Some(pos) => Substring(text, pos + 2)
  }

  /** The timestamp stripping as intended: remove a leading "[...] " time stamp, and only that. */
  function Stripped(text: string): (r: string)
    ensures |text| == 0 || text[0] != '[' ==> r == text
    ensures |r| <= |text|
  {
    if |text| > 0 && text[0] == '[' then StrippedAsWritten(text) else text
  }

  /** A log line whose stamp has no ']' loses exactly "[stamp] " when stamping is on, and nothing when it is off. */
  lemma StrippedLogLine(message: string, timeStamp: bool, stamp: string)
    requires ']' !in stamp
    ensures Stripped(Log.Formatted(Log.LOG_ERROR, message, timeStamp, stamp)) == "ERROR: " + message
  {
    var text := Log.Formatted(Log.LOG_ERROR, message, timeStamp, stamp);
    var body := "ERROR: " + message;
    if timeStamp {
      assert text == "[" + stamp + "] " + body;
      assert Find(text, ']') == Some(|stamp| + 1) by {
        assert text[|stamp| + 1] == ']';
        forall k | 0 <= k < |stamp| + 1
          ensures text[k] != ']'
        {
          if k > 0 {
            assert text[k] == stamp[k - 1];
          }
        }
      }
      assert text[|stamp| + 3..] == body;
    } else {
      assert text == body;
    }
  }

  /** With stamping off, the as-written stripping cuts an error message that itself contains "] ". */
  lemma StrippedAsWrittenCutsMessage()
    ensures StrippedAsWritten(Log.Formatted(Log.LOG_ERROR, "a] b", false, "")) == "b"
    ensures "b" != "ERROR: " + "a] b"
  {
    var text := Log.Formatted(Log.LOG_ERROR, "a] b", false, "");
    assert text == "ERROR: a] b";
    assert Find(text, ']') == Some(8) by {
      assert text[8] == ']';
      assert forall k :: 0 <= k < 8 ==> text[k] != ']';
    }
  }

  /** The dialog text of ErrorExit: the message, or with none the collected errors, or with none of those the default. */
  function DialogText(message: string, startupErrors: string): (r: string)
    ensures message != "" ==> r == message
    ensures message == "" && startupErrors != "" ==> r == startupErrors
    ensures message == "" && startupErrors == "" ==> r == DEFAULT_ERROR_TEXT
    ensures r != ""
  {
    if |message| != 0 then message
    else if |startupErrors| != 0 then startupErrors
    else DEFAULT_ERROR_TEXT
  }

  /** The errors collected from a sequence of log events (text, level): each LOG_ERROR text, stripped, with a line break. */
  function Collected(events: seq<(string, int)>): (r: string)
  {
    if events == [] then ""
    else
      var e := events[|events| - 1];
      Collected(events[..|events| - 1]) + (if e.1 == Log.LOG_ERROR then Stripped(e.0) + "\n" else "")
  }

  /** Only errors are collected: a run of events none of which is an error adds nothing. */
  lemma {:induction false} CollectedNoErrors(events: seq<(string, int)>)
    requires forall i :: 0 <= i < |events| ==> events[i].1 != Log.LOG_ERROR
    ensures Collected(events) == ""
  {
    if events != [] {
      CollectedNoErrors(events[..|events| - 1]);
    }
  }

  /** The number of line breaks collected is at least the number of error events. */
  function ErrorCount(events: seq<(string, int)>): nat
  {
    if events == [] then 0
    else ErrorCount(events[..|events| - 1]) + (if events[|events| - 1].1 == Log.LOG_ERROR then 1 else 0)
  }

  /** Every collected error ends with a line break: the collection is empty exactly when no error was logged. */
  lemma {:induction false} CollectedEmptyIffNoErrors(events: seq<(string, int)>)
    ensures Collected(events) == "" <==> ErrorCount(events) == 0
    ensures Collected(events) != "" ==> Collected(events)[|Collected(events)| - 1] == '\n'
  {
    if events != [] {
      CollectedEmptyIffNoErrors(events[..|events| - 1]);
    }
  }

  class Application {
    const typeName: string
    var exitCode: int
    var startupErrors: string
    /** Whether the engine has been asked to exit. */
    var engineExiting: bool
    /** The error dialogs shown, as (title, message). */
    var dialogs: seq<(string, string)>

    constructor(typeName: string)
      ensures this.typeName == typeName && exitCode == EXIT_SUCCESS && startupErrors == ""
      ensures !engineExiting && dialogs == []
    {
      this.typeName := typeName;
      exitCode := EXIT_SUCCESS;
      startupErrors := "";
      engineExiting := false;
      dialogs := [];
    }

    /** HandleLogMessage: an error's text, with its time stamp stripped, is appended with a line break; other levels are ignored. */
    method HandleLogMessage(message: string, level: int)
      modifies this`startupErrors
      ensures level == Log.LOG_ERROR ==> startupErrors == old(startupErrors) + Stripped(message) + "\n"
      ensures level != Log.LOG_ERROR ==> startupErrors == old(startupErrors)
    {
      if level == Log.LOG_ERROR {
        var error := Stripped(message);
        startupErrors := startupErrors + error + "\n";
      }
    }

    /** HandleLogMessage over a run of log events collects exactly the errors among them. */
    method HandleLogMessages(events: seq<(string, int)>)
      modifies this`startupErrors
      ensures startupErrors == old(startupErrors) + Collected(events)
    {
      for i := 0 to |events|
        invariant startupErrors == old(startupErrors) + Collected(events[..i])
      {
        assert events[..i + 1][..i] == events[..i];
        HandleLogMessage(events[i].0, events[i].1);
      }
      assert events[..|events|] == events;
    }

    /** ErrorExit: ask the engine to exit, fail with EXIT_FAILURE and show the dialog. */
    method ErrorExit(message: string)
      modifies this`engineExiting, this`exitCode, this`dialogs
      ensures engineExiting && exitCode == EXIT_FAILURE
      ensures dialogs == old(dialogs) + [(typeName, DialogText(message, startupErrors))]
    {
      engineExiting := true;
      exitCode := EXIT_FAILURE;
      dialogs := dialogs + [(typeName, DialogText(message, startupErrors))];
    }

    /**
     * Run: Setup leaves `setupCode`, the engine initialises when `initOk`, Start leaves `startCode`,
     * then `frames` frames run before the engine exits and Stop is called; `loopCode` is the exit
     * code the frames and Stop leave (EXIT_FAILURE when one of them called ErrorExit). A non-zero
     * code after Setup or Start is returned at once; a failed initialisation is an ErrorExit.
     */
    method Run(setupCode: int, initOk: bool, startCode: int, frames: nat, loopCode: int) returns (code: int, phases: seq<Phase>)
      modifies this`engineExiting, this`exitCode, this`dialogs
      ensures code == exitCode
      ensures setupCode != 0 ==> code == setupCode && phases == [Setup]
      ensures setupCode == 0 && !initOk ==> code == EXIT_FAILURE && phases == [Setup, Initialize] && engineExiting
      ensures setupCode == 0 && !initOk ==> dialogs == old(dialogs) + [(typeName, DialogText("", startupErrors))]
      ensures !(setupCode == 0 && !initOk) ==> dialogs == old(dialogs) && engineExiting == old(engineExiting)
      ensures setupCode == 0 && initOk && startCode != 0 ==> code == startCode && phases == [Setup, Initialize, Start]
      ensures setupCode == 0 && initOk && startCode == 0 ==>
                code == loopCode && phases == [Setup, Initialize, Start] + seq(frames, _ => Frame) + [Stop]
      ensures !(setupCode == 0 && initOk && startCode == 0) ==> code != EXIT_SUCCESS
      ensures Stop in phases <==> setupCode == 0 && initOk && startCode == 0
    {
      phases := [Setup];
      exitCode := setupCode;
      if exitCode != 0 {
        return exitCode, phases;
      }
      phases := phases + [Initialize];
      if !initOk {
        ErrorExit("");
        return exitCode, phases;
      }
      phases := phases + [Start];
      exitCode := startCode;
      if exitCode != 0 {
        return exitCode, phases;
      }
      var n := 0;
      while n < frames
        invariant n <= frames
        invariant phases == [Setup, Initialize, Start] + seq(n, _ => Frame)
      {
        phases := phases + [Frame];
        n := n + 1;
      }
      phases := phases + [Stop];
      assert phases[|phases| - 1] == Stop;
      exitCode := loopCode;
      code := exitCode;
    }
  }
}
