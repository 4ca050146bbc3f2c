// The console component itself: its `useState` fields as the fields of a class, and
// each event handler and timer callback as a method that updates them in order.
module Client {
  import opened Records
  import Text
  import Transcript
  import History
  import Presets
  import Responder
  import SM = SessionMachine

  class McpClient {
    var serverAddress: string
    var isConnected: bool
    var isConnecting: bool
    var output: seq<OutputLine>
    var command: string
    var history: seq<string>
    var historyIndex: int
    var presets: seq<Preset>
    var newPresetName: string
    var newPresetCommand: string
    // The timers started and not yet fired, with what each one captured.
    var pendingConnects: seq<string>
    var pendingReplies: seq<string>

    /** The fields as one value. */
    function State(): SM.Session
      reads this
    {
      SM.Session(serverAddress, isConnected, isConnecting, output, command, history,
                 historyIndex, presets, newPresetName, newPresetCommand,
                 pendingConnects, pendingReplies)
    }

    ghost predicate Valid()
      reads this
    {
      SM.Valid(State())
    }

    /** The initial state and the mount effect: the stored history and presets, however
        long, are taken as they are, and the welcome notice is the first line. */
    constructor (storedHistory: seq<string>, storedPresets: seq<Preset>)
      ensures Valid()
      ensures SM.ConnectionTidy(State())
      ensures State() == SM.Session(SM.DefaultAddress, false, false,
                                    [OutputLine(0, System, SM.WelcomeText)], "",
                                    storedHistory, -1, storedPresets, "", "", [], [])
    {
      serverAddress := SM.DefaultAddress;
      isConnected, isConnecting := false, false;
      output := [];
      command := "";
      history := storedHistory;
      historyIndex := -1;
      presets := storedPresets;
      newPresetName, newPresetCommand := "", "";
      pendingConnects, pendingReplies := [], [];
      new;
      AddOutputLine(System, SM.WelcomeText);
    }

    /** `addOutputLine`. */
    method AddOutputLine(kind: LineKind, text: string)
      requires Valid()
      modifies this
      ensures Valid()
      ensures State() == old(State()).(output := Transcript.Append(old(output), kind, text))
    {
      output := output + [OutputLine(|output|, kind, text)];
    }

    /** Typing in the address field. */
    method SetServerAddress(address: string)
      requires Valid()
      modifies this
      ensures Valid()
      ensures State() == old(State()).(serverAddress := address)
    {
      serverAddress := address;
    }

    method Connect()
      requires Valid()
      modifies this
      ensures Valid()
      ensures State() == SM.Connect(old(State()))
    {
      if serverAddress == "" {
        return;
      }
      isConnecting := true;
      AddOutputLine(System, SM.ConnectingText(serverAddress));
      pendingConnects := pendingConnects + [serverAddress];
    }

    /** The connect timer's callback. */
    method CompleteConnect()
      requires Valid() && pendingConnects != []
      modifies this
      ensures Valid()
      ensures State() == SM.ConnectCompleted(old(State()))
    {
      var address := pendingConnects[0];
      pendingConnects := pendingConnects[1..];
      isConnecting := false;
      isConnected := true;
      AddOutputLine(System, SM.ConnectedText(address));
    }

    method Disconnect()
      requires Valid()
      modifies this
      ensures Valid()
      ensures State() == SM.Disconnect(old(State()))
    {
      isConnected := false;
      AddOutputLine(System, SM.DisconnectedText);
    }

    /** Typing in the command field, or filling it from a preset or a history entry:
        the cursor is left where it was. */
    method EditCommand(text: string)
      requires Valid()
      modifies this
      ensures Valid()
      ensures State() == old(State()).(command := text)
    {
      command := text;
    }

    /** The history part of `handleSendCommand`: push the sent command unless it is
        already the head, keep the newest fifty, and free the cursor. */
    method RecordSent(sent: string)
      requires Valid()
      modifies this
      ensures Valid()
      ensures State() == old(State()).(history := History.Push(old(history), sent),
                                        historyIndex := -1)
    {
      if !(|history| > 0 && history[0] == sent) {
        history := ([sent] + history)[..History.Min(|history| + 1, History.Limit)];
      }
      historyIndex := -1;
    }

    method Send()
      requires Valid()
      modifies this
      ensures Valid()
      ensures State() == SM.Send(old(State()))
    {
      if Text.Trim(command) == "" || !isConnected {
        assert State() == SM.Send(old(State()));
        return;
      }
      var sent := command;
      AddOutputLine(Out, sent);
      RecordSent(sent);
      pendingReplies := pendingReplies + [sent];
      command := "";
      assert State() == SM.Send(old(State()));
    }

    /** The reply timer `k` fires; `players` stands for the random player count. */
    method ReceiveReply(k: nat, players: nat)
      requires Valid() && k < |pendingReplies| && players < 10
      modifies this
      ensures Valid()
      ensures State() == SM.ReplyArrived(old(State()), k, players)
    {
      var sent := pendingReplies[k];
      pendingReplies := pendingReplies[..k] + pendingReplies[k + 1..];
      AddOutputLine(In, Responder.MockResponse(sent, players));
    }

    method RecallOlder()
      requires Valid()
      modifies this
      ensures Valid()
      ensures State() == SM.RecallOlder(old(State()))
    {
      if |history| > 0 {
        var newIndex := History.Min(historyIndex + 1, |history| - 1);
        historyIndex := newIndex;
        command := history[newIndex];
      }
    }

    method RecallNewer()
      requires Valid()
      modifies this
      ensures Valid()
      ensures State() == SM.RecallNewer(old(State()))
    {
      if historyIndex > 0 {
        var newIndex := if historyIndex - 1 > 0 then historyIndex - 1 else 0;
        historyIndex := newIndex;
        command := history[newIndex];
      } else if historyIndex == 0 {
        historyIndex := -1;
        command := "";
      }
    }

    /** `handleCommandKeyDown`. */
    method KeyDown(key: SM.Key)
      requires Valid()
      modifies this
      ensures Valid()
      ensures State() == SM.KeyDown(old(State()), key)
    {
      match key
      case Enter => Send();
      case ArrowUp => RecallOlder();
      case ArrowDown => RecallNewer();
      case OtherKey =>
    }

    /** Typing in the preset dialog's name field. */
    method SetNewPresetName(name: string)
      requires Valid()
      modifies this
      ensures Valid()
      ensures State() == old(State()).(newPresetName := name)
    {
      newPresetName := name;
    }

    /** Typing in the preset dialog's command field. */
    method SetNewPresetCommand(text: string)
      requires Valid()
      modifies this
      ensures Valid()
      ensures State() == old(State()).(newPresetCommand := text)
    {
      newPresetCommand := text;
    }

    /** `handleAddPreset`; `id` is the fresh identifier the id supply hands out. */
    method AddPreset(id: string)
      requires Valid() && Presets.FreshId(presets, id)
      modifies this
      ensures Valid()
      ensures State() == SM.AddPreset(old(State()), id)
    {
      ghost var before := State();
      if Text.Trim(newPresetName) == "" || Text.Trim(newPresetCommand) == "" {
        assert !SM.PresetFieldsFilled(before);
        return;
      }
      assert SM.PresetFieldsFilled(before);
      presets := presets + [Preset(id, newPresetName, newPresetCommand)];
      newPresetName := "";
      newPresetCommand := "";
      assert State() == SM.AddPreset(before, id);
    }

    method DeletePreset(id: string)
      requires Valid()
      modifies this
      ensures Valid()
      ensures State() == SM.DeletePreset(old(State()), id)
    {
      presets := Presets.WithoutId(presets, id);
    }
  }
}
