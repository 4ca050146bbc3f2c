// The console session as a state machine: one step function per event handler of the
// component, and one per timer callback, over a snapshot of the component's state.
module SessionMachine {
  import opened Records
  import opened Text
  import Transcript
  import History
  import Presets
  import Responder

  /** The keys `handleCommandKeyDown` tells apart; every other key is `OtherKey`. */
  datatype Key = Enter | ArrowUp | ArrowDown | OtherKey

  /** The component's state. `pendingConnects` holds the address captured by each
      connect timer not yet fired, oldest first; `pendingReplies` holds the command
      captured by each reply timer not yet fired. */
  datatype Session = Session(
    serverAddress: string,
    isConnected: bool,
    isConnecting: bool,
    output: seq<OutputLine>,
    command: string,
    history: seq<string>,
    historyIndex: int,
    presets: seq<Preset>,
    newPresetName: string,
    newPresetCommand: string,
    pendingConnects: seq<string>,
    pendingReplies: seq<string>)

  const DefaultAddress := "mcp.example.com"
  const WelcomeText := "Welcome to Client Hub! " + "Enter a server address and connect."
  const DisconnectedText := "Disconnected from server."

  function ConnectingText(address: string): string {
    "Connecting to " + address + "..."
  }

  function ConnectedText(address: string): string {
    "Successfully connected to " + address + ". Type 'help' for commands."
  }

  /** What every step keeps: the cursor is free or points into the history, and
      every transcript line's id is its index. */
  predicate Valid(s: Session) {
    History.CursorOk(s.history, s.historyIndex) && Transcript.WellNumbered(s.output)
  }

  /** `handleConnect`: an empty address changes nothing; otherwise the session is
      connecting, one notice naming the address is appended, and a timer carrying that
      address is started. The connection flags are not consulted. */
  function Connect(s: Session): (r: Session)
    ensures Valid(s) ==> Valid(r)
    ensures s.serverAddress == "" ==> r == s
    ensures s.serverAddress != "" ==>
      r.isConnecting
      && r.output == s.output + [OutputLine(|s.output|, System, ConnectingText(s.serverAddress))]
      && r.pendingConnects == s.pendingConnects + [s.serverAddress]
    ensures r.(isConnecting := s.isConnecting, output := s.output, pendingConnects := s.pendingConnects) == s
  {
    if s.serverAddress == "" then s
    else s.(isConnecting := true,
             output := Transcript.Append(s.output, System, ConnectingText(s.serverAddress)),
             pendingConnects := s.pendingConnects + [s.serverAddress])
  }

  /** The connect timer fires. All connect timers share one delay, so the oldest fires
      first: the session is connected and no longer connecting, and the notice names
      the address captured when the timer was started, whatever the address field
      holds now. */
  function ConnectCompleted(s: Session): (r: Session)
    requires s.pendingConnects != []
    ensures Valid(s) ==> Valid(r)
    ensures r.isConnected && !r.isConnecting
    ensures r.output == s.output + [OutputLine(|s.output|, System, ConnectedText(s.pendingConnects[0]))]
    ensures r.pendingConnects == s.pendingConnects[1..]
    ensures r.(isConnected := s.isConnected, isConnecting := s.isConnecting, output := s.output,
               pendingConnects := s.pendingConnects) == s
  {
    s.(isConnecting := false, isConnected := true,
       output := Transcript.Append(s.output, System, ConnectedText(s.pendingConnects[0])),
       pendingConnects := s.pendingConnects[1..])
  }

  /** `handleDisconnect`: not connected afterwards, one notice appended, and nothing
      else changes; a pending connect timer or reply still fires later. */
  function Disconnect(s: Session): (r: Session)
    ensures Valid(s) ==> Valid(r)
    ensures !r.isConnected
    ensures r.output == s.output + [OutputLine(|s.output|, System, DisconnectedText)]
    ensures r.(isConnected := s.isConnected, output := s.output) == s
  {
    s.(isConnected := false, output := Transcript.Append(s.output, System, DisconnectedText))
  }

  /** The guard of `handleSendCommand`. */
  predicate SendEnabled(s: Session) {
    Trim(s.command) != "" && s.isConnected
  }

  /** The guard in plain terms: connected, and the buffer is not all whitespace. */
  lemma SendEnabledIff(s: Session)
    ensures SendEnabled(s) <==> s.isConnected && !IsBlank(s.command)
  {
    TrimEmptyIffBlank(s.command);
  }

  /** `handleSendCommand`: when the guard fails nothing changes; otherwise exactly one
      outgoing line holding the buffer as typed is appended, the buffer is pushed on
      the history, the cursor is freed, the buffer is cleared and a reply timer
      carrying the command is started. A history within the cap stays within it. */
  function Send(s: Session): (r: Session)
    ensures Valid(s) ==> Valid(r)
    ensures !SendEnabled(s) ==> r == s
    ensures SendEnabled(s) ==>
      r.output == s.output + [OutputLine(|s.output|, Out, s.command)]
      && r.history == History.Push(s.history, s.command)
      && r.historyIndex == -1 && r.command == ""
      && r.pendingReplies == s.pendingReplies + [s.command]
    ensures r.(output := s.output, history := s.history, historyIndex := s.historyIndex,
               command := s.command, pendingReplies := s.pendingReplies) == s
    ensures |s.history| <= History.Limit ==> |r.history| <= History.Limit
  {
    if !SendEnabled(s) then s
    else s.(output := Transcript.Append(s.output, Out, s.command),
            history := History.Push(s.history, s.command),
            historyIndex := -1,
            pendingReplies := s.pendingReplies + [s.command],
            command := "")
  }

  /** A send changes the state exactly when its guard holds. */
  lemma SendChangesIff(s: Session)
    ensures Send(s) != s <==> s.isConnected && !IsBlank(s.command)
  {
    SendEnabledIff(s);
    if SendEnabled(s) {
      assert |Send(s).output| == |s.output| + 1;
    }
  }

  /** The reply timer `k` fires, `players` standing for the random count: the
      simulated reply to the command it carries is appended as an incoming line and
      the timer is gone. Replies may fire in any order, connected or not. */
  function ReplyArrived(s: Session, k: nat, players: nat): (r: Session)
    requires k < |s.pendingReplies| && players < 10
    ensures Valid(s) ==> Valid(r)
    ensures r.output == s.output
      + [OutputLine(|s.output|, In, Responder.MockResponse(s.pendingReplies[k], players))]
    ensures multiset(r.pendingReplies) + multiset{s.pendingReplies[k]} == multiset(s.pendingReplies)
    ensures r.(output := s.output, pendingReplies := s.pendingReplies) == s
  {
    var cmd := s.pendingReplies[k];
    assert s.pendingReplies == s.pendingReplies[..k] + [cmd] + s.pendingReplies[k + 1..];
    s.(output := Transcript.Append(s.output, In, Responder.MockResponse(cmd, players)),
       pendingReplies := s.pendingReplies[..k] + s.pendingReplies[k + 1..])
  }

  /** The cursor and the buffer as one recall state. */
  function RecallOf(s: Session): History.Recall {
    History.Recall(s.historyIndex, s.command)
  }

  /** ArrowUp: the cursor and buffer follow `History.Older`; nothing else changes. */
  function RecallOlder(s: Session): (r: Session)
    requires History.CursorOk(s.history, s.historyIndex)
    ensures Valid(s) ==> Valid(r)
    ensures RecallOf(r) == History.Older(s.history, RecallOf(s))
    ensures r.(historyIndex := s.historyIndex, command := s.command) == s
  {
    var q := History.Older(s.history, RecallOf(s));
    s.(historyIndex := q.index, command := q.buffer)
  }

  /** ArrowDown: the cursor and buffer follow `History.Newer`; nothing else changes. */
  function RecallNewer(s: Session): (r: Session)
    requires History.CursorOk(s.history, s.historyIndex)
    ensures Valid(s) ==> Valid(r)
    ensures RecallOf(r) == History.Newer(s.history, RecallOf(s))
    ensures r.(historyIndex := s.historyIndex, command := s.command) == s
  {
    var q := History.Newer(s.history, RecallOf(s));
    s.(historyIndex := q.index, command := q.buffer)
  }

  /** `handleCommandKeyDown`: Enter sends, the arrows recall, other keys do nothing. */
  function KeyDown(s: Session, key: Key): (r: Session)
    requires History.CursorOk(s.history, s.historyIndex)
    ensures Valid(s) ==> Valid(r)
    ensures key == OtherKey ==> r == s
    ensures key == Enter ==> r == Send(s)
    ensures key == Enter && !SendEnabled(s) ==> r == s
    ensures key == ArrowUp ==> RecallOf(r) == History.Older(s.history, RecallOf(s))
    ensures key == ArrowDown ==> RecallOf(r) == History.Newer(s.history, RecallOf(s))
    ensures key != Enter ==> r.(historyIndex := s.historyIndex, command := s.command) == s
  {
    match key
    case Enter => Send(s)
    case ArrowUp => RecallOlder(s)
    case ArrowDown => RecallNewer(s)
    case OtherKey => s
  }

  /** The guard of `handleAddPreset`. */
  predicate PresetFieldsFilled(s: Session) {
    Trim(s.newPresetName) != "" && Trim(s.newPresetCommand) != ""
  }

  /** `handleAddPreset`, `id` standing for `crypto.randomUUID()`: a blank name or
      command changes nothing; otherwise one preset holding the fields as typed (not
      trimmed) is appended at the end and both fields are cleared. */
  function AddPreset(s: Session, id: string): (r: Session)
    requires Presets.FreshId(s.presets, id)
    ensures Valid(s) ==> Valid(r)
    ensures !PresetFieldsFilled(s) ==> r == s
    ensures PresetFieldsFilled(s) ==>
      r.presets == s.presets + [Preset(id, s.newPresetName, s.newPresetCommand)]
      && r.newPresetName == "" && r.newPresetCommand == ""
    ensures r.(presets := s.presets, newPresetName := s.newPresetName,
               newPresetCommand := s.newPresetCommand) == s
    ensures Presets.UniqueIds(s.presets) ==> Presets.UniqueIds(r.presets)
  {
    if !PresetFieldsFilled(s) then s
    else s.(presets := s.presets + [Preset(id, s.newPresetName, s.newPresetCommand)],
            newPresetName := "", newPresetCommand := "")
  }

  /** The guard of `handleAddPreset` in plain terms. */
  lemma PresetFieldsFilledIff(s: Session)
    ensures PresetFieldsFilled(s) <==> !IsBlank(s.newPresetName) && !IsBlank(s.newPresetCommand)
  {
    TrimEmptyIffBlank(s.newPresetName);
    TrimEmptyIffBlank(s.newPresetCommand);
  }

  /** `handleDeletePreset`: the presets carrying `id` are dropped, the others kept in
      order, and nothing else changes. */
  function DeletePreset(s: Session, id: string): (r: Session)
    ensures Valid(s) ==> Valid(r)
    ensures r.presets == Presets.WithoutId(s.presets, id)
    ensures |r.presets| == |s.presets| - Presets.CountId(s.presets, id)
    ensures forall p :: p in r.presets <==> p in s.presets && p.id != id
    ensures Presets.FreshId(s.presets, id) ==> r == s
    ensures Presets.UniqueIds(s.presets) ==> Presets.UniqueIds(r.presets)
    ensures r.(presets := s.presets) == s
  {
    var kept := Presets.WithoutId(s.presets, id);
    assert Presets.FreshId(s.presets, id) ==> kept == s.presets by {
      if Presets.FreshId(s.presets, id) {
        Presets.WithoutAbsentId(s.presets, id);
      }
    }
    assert Presets.UniqueIds(s.presets) ==> Presets.UniqueIds(kept) by {
      if Presets.UniqueIds(s.presets) {
        Presets.WithoutIdUnique(s.presets, id);
      }
    }
    Presets.WithoutIdCount(s.presets, id);
    s.(presets := kept)
  }

  /** Saving a preset and then deleting it restores the session's presets. */
  lemma AddThenDeletePreset(s: Session, id: string)
    requires Presets.FreshId(s.presets, id) && PresetFieldsFilled(s)
    ensures DeletePreset(AddPreset(s, id), id).presets == s.presets
  {
    Presets.AddThenDelete(s.presets, Preset(id, s.newPresetName, s.newPresetCommand));
  }

  /** The Connect button is rendered and enabled (`disabled={isConnecting}`). */
  predicate ConnectEnabled(s: Session) {
    !s.isConnected && !s.isConnecting
  }

  /** The Disconnect button is rendered. */
  predicate DisconnectEnabled(s: Session) {
    s.isConnected
  }

  /** The connection flags describe one of three states, and a connect timer is
      pending exactly while connecting, never two at once. */
  predicate ConnectionTidy(s: Session) {
    !(s.isConnected && s.isConnecting)
    && (s.isConnecting <==> s.pendingConnects != [])
    && |s.pendingConnects| <= 1
  }

  /** Through the buttons only, the connection stays tidy: connect from the
      disconnected state, completion of its timer, and disconnect. */
  lemma ButtonsKeepConnectionTidy(s: Session)
    requires ConnectionTidy(s)
    ensures ConnectEnabled(s) ==> ConnectionTidy(Connect(s))
    ensures s.pendingConnects != [] ==> ConnectionTidy(ConnectCompleted(s))
    ensures DisconnectEnabled(s) ==> ConnectionTidy(Disconnect(s))
  {
  }

  /** The handler alone does not refuse a second connect: while connecting, it appends
      a second notice and starts a second timer. Only the disabled button prevents it. */
  lemma ConnectWhileConnecting(s: Session)
    requires ConnectionTidy(s) && s.isConnecting && s.serverAddress != ""
    ensures |Connect(s).output| == |s.output| + 1
    ensures |Connect(s).pendingConnects| == 2
    ensures !ConnectionTidy(Connect(s))
  {
  }

  /** A connect started from a disconnected session with address `a` adds exactly the
      two notices "Connecting to a..." and "Successfully connected to a. ...", in that
      order, and leaves the session connected with no timer pending. */
  lemma ConnectThenComplete(s: Session)
    requires Valid(s) && ConnectionTidy(s) && ConnectEnabled(s) && s.serverAddress != ""
    ensures Connect(s).pendingConnects != []
    ensures ConnectCompleted(Connect(s)).isConnected
    ensures ConnectCompleted(Connect(s)).pendingConnects == []
    ensures ConnectCompleted(Connect(s)).output == s.output
      + [OutputLine(|s.output|, System, ConnectingText(s.serverAddress)),
         OutputLine(|s.output| + 1, System, ConnectedText(s.serverAddress))]
  {
  }

  /** Connected, typing `status` and sending it appends one outgoing line `status`;
      when its reply arrives, the status template with the player count follows. */
  lemma StatusRoundTrip(s: Session, players: nat)
    requires s.isConnected && players < 10
    ensures SendEnabled(s.(command := "status"))
    ensures Send(s.(command := "status")).output == s.output + [OutputLine(|s.output|, Out, "status")]
    ensures
      var t := Send(s.(command := "status"));
      |t.pendingReplies| > 0
      && ReplyArrived(t, |t.pendingReplies| - 1, players).output
         == t.output + [OutputLine(|t.output|, In, Responder.StatusText(players))]
  {
    var typed := s.(command := "status");
    assert !IsJsWhitespace("status"[0]);
    TrimEmptyIffBlank("status");
    var t := Send(typed);
    assert t.pendingReplies[|t.pendingReplies| - 1] == "status";
    assert ToLower("status") == "status";
    Responder.StatusReportsCount("status", players);
  }
}
