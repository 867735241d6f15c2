/**
 * The chat sample: a fixed-length chat history shown as one text, the button visibility rules,
 * and the send, connect, disconnect, start-server and network-message handlers. The network is
 * represented by whether a server connection exists and whether a server runs; what the network
 * calls do to those is a parameter of each handler, and sent messages are recorded.
 */
module Chat {
  import opened Str

  /** The chat message ID: the first user message ID. */
  const MSG_USER: int := 153
  const MSG_CHAT: int := MSG_USER + 0
  const CHAT_SERVER_PORT: nat := 2345

  /** The history text: every row followed by a line break. */
  function Rows(history: seq<string>): (r: string)
    ensures |r| >= |history|
  {
    if history == [] then "" else Rows(history[..|history| - 1]) + history[|history| - 1] + "\n"
  }

  lemma {:induction false} RowsAppend(a: seq<string>, b: seq<string>)
    ensures Rows(a + b) == Rows(a) + Rows(b)
  {
    if b == [] {
      assert a + b == a;
    } else {
      assert (a + b)[..|a + b| - 1] == a + b[..|b| - 1];
      RowsAppend(a, b[..|b| - 1]);
    }
  }

  /** The history after a row is shown: the oldest row leaves (when there is one) and the new row comes last. */
  function Shifted(history: seq<string>, row: string): (r: seq<string>)
    ensures |history| > 0 ==> |r| == |history| && r[..|r| - 1] == history[1..]
    ensures |history| == 0 ==> r == [row]
    ensures r[|r| - 1] == row
  {
    if |history| > 0 then history[1..] + [row] else [row]
  }

  /** Showing a row redisplays the remaining rows followed by the new one. */
  lemma ShownText(history: seq<string>, row: string)
    ensures Rows(Shifted(history, row)) == Rows(if |history| > 0 then history[1..] else []) + row + "\n"
  {
    var rest := if |history| > 0 then history[1..] else [];
    assert Shifted(history, row) == rest + [row];
    RowsAppend(rest, [row]);
    assert [row][..0] == [];
  }

  /** The visibility of the four buttons. */
  datatype Buttons = Buttons(send: bool, connect: bool, disconnect: bool, startServer: bool)

  /** UpdateButtons: which buttons show for a connection state. */
  function ButtonsFor(connected: bool, serverRunning: bool): (b: Buttons)
    ensures b.send <==> connected
    ensures b.connect <==> !connected && !serverRunning
    ensures b.disconnect <==> connected || serverRunning
    ensures b.startServer == b.connect
  {
    Buttons(connected, !connected && !serverRunning, connected || serverRunning, !connected && !serverRunning)
  }

  /** Connect and Disconnect are never both shown, and one of them always is. */
  lemma ConnectXorDisconnect(connected: bool, serverRunning: bool)
    ensures ButtonsFor(connected, serverRunning).connect != ButtonsFor(connected, serverRunning).disconnect
  {
  }

  /** VectorBuffer::WriteString: the characters followed by a terminating NUL. */
  function WriteString(text: string): (r: seq<char>)
    ensures |r| == |text| + 1 && r[|text|] == '\0'
  {
    text + ['\0']
  }

  /** MemoryBuffer::ReadString: the characters up to the first NUL, or to the end. */
  function ReadString(data: seq<char>): (r: string)
    ensures '\0' !in r && |r| <= |data|
    ensures '\0' !in data ==> r == data
  {
    match Find(data, '\0')
      case None => data
      case Some(i) => data[..i]
  }

  /** Reading back a written string gives it up to its first NUL: the whole text when it has none. */
  lemma ReadWriteString(text: string)
    ensures '\0' !in text ==> ReadString(WriteString(text)) == text
    ensures '\0' in text ==> ReadString(WriteString(text)) == text[..Find(text, '\0').value]
  {
    var data := WriteString(text);
    if '\0' !in text {
      assert Find(data, '\0') == Some(|text|) by {
        assert forall k :: 0 <= k < |text| ==> data[k] == text[k];
      }
    } else {
      var i := Find(text, '\0').value;
      assert Find(data, '\0') == Some(i) by {
        assert forall k :: 0 <= k <= i ==> data[k] == text[k];
      }
    }
  }

  class Chat {
    var history: seq<string>
    var historyText: string
    var editText: string
    var buttons: Buttons
    /** Whether the network has a server connection, and whether it runs a server. */
    var connected: bool
    var serverRunning: bool
    /** Messages sent to the server and broadcast by the server, as (message ID, payload). */
    var sent: seq<(int, seq<char>)>
    var broadcast: seq<(int, seq<char>)>
    /** The addresses and ports connected to. */
    var connects: seq<(string, nat)>

    /** CreateUI: `rows` empty history rows (0 when the font did not load), buttons for the disconnected state. */
    constructor(rows: nat)
      ensures |history| == rows && (forall i :: 0 <= i < rows ==> history[i] == "")
      ensures historyText == "" && editText == "" && !connected && !serverRunning
      ensures buttons == ButtonsFor(false, false)
      ensures sent == [] && broadcast == [] && connects == []
    {
      history := seq(rows, _ => "");
      historyText := "";
      editText := "";
      connected := false;
      serverRunning := false;
      buttons := ButtonsFor(false, false);
      sent := [];
      broadcast := [];
      connects := [];
    }

    /** ShowChatText: shift the history by the row and show all rows, each with a line break. */
    method ShowChatText(row: string)
      modifies this`history, this`historyText
      ensures history == Shifted(old(history), row)
      ensures historyText == Rows(history)
      ensures historyText == Rows(if |old(history)| > 0 then old(history)[1..] else []) + row + "\n"
    {
      if |history| > 0 {
        history := history[1..];
      }
      history := history + [row];
      var allRows := "";
      for i := 0 to |history|
        invariant allRows == Rows(history[..i])
      {
        assert history[..i + 1][..i] == history[..i];
        allRows := allRows + history[i] + "\n";
      }
      assert history[..|history|] == history;
      historyText := allRows;
      ShownText(old(history), row);
    }

    method UpdateButtons()
      modifies this`buttons
      ensures buttons == ButtonsFor(connected, serverRunning)
    {
      buttons := Buttons(connected, !connected && !serverRunning, connected || serverRunning, !connected && !serverRunning);
    }

    /** HandleLogMessage: every log line is shown in the chat. */
    method HandleLogMessage(message: string)
      modifies this`history, this`historyText
      ensures history == Shifted(old(history), message) && historyText == Rows(history)
    {
      ShowChatText(message);
    }

    /** HandleSend: a non-empty edit text is sent to the server, and the edit cleared, only when connected. */
    method HandleSend()
      modifies this`sent, this`editText
      ensures old(editText) == "" || !connected ==> sent == old(sent) && editText == old(editText)
      ensures old(editText) != "" && connected ==> sent == old(sent) + [(MSG_CHAT, WriteString(old(editText)))] && editText == ""
    {
      var text := editText;
      if |text| == 0 {
        return;
      }
      if connected {
        sent := sent + [(MSG_CHAT, WriteString(text))];
        editText := "";
      }
    }

    /**
     * HandleConnect: connect to the trimmed edit text, or "localhost" when that is empty, on the chat
     * port; the edit is always cleared. `connectedAfter` is whether the network then has a connection.
     */
    method HandleConnect(connectedAfter: bool)
      modifies this`editText, this`connects, this`connected, this`buttons
      ensures editText == ""
      ensures var address := if Trimmed(old(editText)) == "" then "localhost" else Trimmed(old(editText));
              connects == old(connects) + [(address, CHAT_SERVER_PORT)]
      ensures connected == connectedAfter && buttons == ButtonsFor(connected, serverRunning)
    {
      var address := Trimmed(editText);
      if |address| == 0 {
        address := "localhost";
      }
      editText := "";
      connects := connects + [(address, CHAT_SERVER_PORT)];
      connected := connectedAfter;
      UpdateButtons();
    }

    /** HandleDisconnect: close the server connection if there is one, else stop a running server. */
    method HandleDisconnect(connectedAfter: bool)
      modifies this`connected, this`serverRunning, this`buttons
      ensures old(connected) ==> connected == connectedAfter && serverRunning == old(serverRunning)
      ensures !old(connected) ==> !connected && !serverRunning
      ensures buttons == ButtonsFor(connected, serverRunning)
    {
      if connected {
        connected := connectedAfter;
      } else if serverRunning {
        serverRunning := false;
      }
      UpdateButtons();
    }

    /** HandleStartServer: start a server on the chat port (`started` is whether it runs afterwards). */
    method HandleStartServer(started: bool)
      modifies this`serverRunning, this`buttons
      ensures serverRunning == started && buttons == ButtonsFor(connected, serverRunning)
    {
      serverRunning := started;
      UpdateButtons();
    }

    /**
     * HandleNetworkMessage: only chat messages are handled. A running server prefixes the sender and a
     * space, broadcasts the result and shows it; a client just shows the text.
     */
    method HandleNetworkMessage(msgID: int, data: seq<char>, sender: string)
      modifies this`history, this`historyText, this`broadcast
      ensures msgID != MSG_CHAT ==> history == old(history) && historyText == old(historyText) && broadcast == old(broadcast)
      ensures msgID == MSG_CHAT && serverRunning ==>
                broadcast == old(broadcast) + [(MSG_CHAT, WriteString(sender + " " + ReadString(data)))] &&
                history == Shifted(old(history), sender + " " + ReadString(data))
      ensures msgID == MSG_CHAT && !serverRunning ==>
                broadcast == old(broadcast) && history == Shifted(old(history), ReadString(data))
      ensures historyText == Rows(history) || msgID != MSG_CHAT
    {
      if msgID == MSG_CHAT {
        var text := ReadString(data);
        if serverRunning {
          text := sender + " " + text;
          broadcast := broadcast + [(MSG_CHAT, WriteString(text))];
        }
        ShowChatText(text);
      }
    }
  }
}
