# MCP client console — a Dafny model

This project models the session logic of the browser console in
`src/components/mcp-client.tsx`. The console connects to a server address (the
connection is simulated), keeps a transcript of numbered lines, sends commands to a
mock responder, recalls earlier commands with the arrow keys, and saves named command
presets.

The model has three layers:

- **Pure pieces.**
  - `Text` holds the JavaScript string operations the handlers use: `trim`, `split(" ")`, `startsWith` and `toLowerCase`.
  - `Records` holds the record types of `src/lib/types.ts`.
  - `Transcript` appends numbered lines.
  - `Responder` is `mockServerResponse`.
  - `History` handles the pushes onto the command history and the cursor.
  - `Presets` adds and deletes presets by id.
- **`SessionMachine`.** A `Session` value mirrors the component's `useState` fields. It has one step function per event handler and per timer callback. The contracts of these functions state what each handler guarantees. The lemmas beside them state what holds across several steps.
- **`Client.McpClient`.** A class with the component's fields. Each method updates those fields in the order the handler does. Each handler and timer method is proved to produce exactly `SessionMachine`'s step of the old state. `AddOutputLine` is proved to produce `Transcript.Append` on the transcript. The input-field setters (`SetServerAddress`, `EditCommand`, `SetNewPresetName`, `SetNewPresetCommand`) are plain field updates, each proved to change only its own field. Every method keeps `Valid()`. `Valid()` means two things: the recall cursor is -1 or points into the history, and every line's id is its index.

Timers are explicit. `handleConnect` and `handleSendCommand` start timers. The model
records each unfired timer, with the value its closure captured, in
`pendingConnects` or `pendingReplies`. Firing a timer is a separate operation:
`CompleteConnect` or `ReceiveReply`. All connect timers have the same 1500 ms delay,
so they fire oldest first. Reply delays are random, so any pending reply may fire
next. `Math.random()` becomes a player-count parameter in 0..9.
`crypto.randomUUID()` becomes an id parameter that no saved preset carries.

No guard is added to a handler beyond the code's own. `handleConnect`
and `handleDisconnect` do not look at the connection flags. Only the rendered buttons
stop a second connect (`disabled={isConnecting}` at line 308, the Disconnect button
shown only when connected at 305-306). The model states this as predicates
(`ConnectEnabled`, `DisconnectEnabled`) and an invariant (`ConnectionTidy`). Two
lemmas use them. `ButtonsKeepConnectionTidy` proves that button use keeps the
invariant. `ConnectWhileConnecting` proves that the bare handler, called twice, starts
two timers.

Details of the code that the model keeps exactly:

- `handleConnect` and `handleDisconnect` have no state guard.
- Editing the command field (line 352) does not reset `historyIndex`.
- The connected notice is `Successfully connected to X. Type 'help' for commands.`
- The kick target is piece 1 of `split(" ")`, a split on single spaces. When that piece is missing, the notice prints `undefined`.

## Model

| member | source | states |
|---|---|---|
| `Text.TrimStart` | src/components/mcp-client.tsx:153 | the result is a suffix of the input, everything dropped is JavaScript whitespace, and the result does not start with whitespace |
| `Text.TrimEnd` | src/components/mcp-client.tsx:153 | the result is a prefix of the input, everything dropped is whitespace, and the result does not end with whitespace |
| `Text.Trim` | src/components/mcp-client.tsx:153 | the trimmed string is no longer than the input and neither starts nor ends with whitespace |
| `Text.TrimIsSlice` | src/components/mcp-client.tsx:153 | the trimmed string is the slice of the input after its leading blanks, with only whitespace before and after it |
| `Text.TrimEmptyIffBlank` | src/components/mcp-client.tsx:153 | `!s.trim()` holds exactly when every character of `s` is whitespace (both directions) |
| `Text.ToLower` | src/components/mcp-client.tsx:149 | lower-casing keeps the length and maps each character by ASCII case folding |
| `Text.StartsWith` | src/components/mcp-client.tsx:146 | `s.startsWith(p)` holds exactly when `p` is no longer than `s` and agrees with it character by character |
| `Text.Split` | src/components/mcp-client.tsx:147 | `split(" ")` always yields at least one piece and no piece contains a space |
| `Text.JoinSplit` | src/components/mcp-client.tsx:147 | joining the pieces of `split(" ")` with single spaces gives the input back |
| `Text.SplitPrefix` | src/components/mcp-client.tsx:147 | a space-free word in front of a string extends that string's first piece |
| `Text.SplitJoin` | src/components/mcp-client.tsx:147 | splitting a single-space join of space-free pieces gives the pieces back |
| `Text.Digit` | src/components/mcp-client.tsx:143 | the rendered count is a decimal digit whose value is the count |
| `Transcript.Append` | src/components/mcp-client.tsx:111-116 | the new line's id is the old transcript length, earlier lines are untouched, and "every id equals its index" is preserved |
| `Transcript.IdsIncrease` | src/components/mcp-client.tsx:114 | in a well-numbered transcript ids strictly increase |
| `Responder.StatusText` | src/components/mcp-client.tsx:143 | the status reply is the fixed prefix, one digit that reads back as the player count, then `/20` |
| `Responder.KeyIsNotKick` | src/components/mcp-client.tsx:146-149 | a command that lower-cases to a table key does not start with "kick" |
| `Responder.TableAnswers` | src/components/mcp-client.tsx:141-149 | a command whose lower-case form is `help`, `status` or `players` gets that table entry |
| `Responder.CaseInsensitive` | src/components/mcp-client.tsx:149 | two spellings that lower-case to the same key get the same reply |
| `Responder.StatusReportsCount` | src/components/mcp-client.tsx:143-149 | any case spelling of `status` gets the status template with the given count |
| `Responder.KickNamesSecondWord` | src/components/mcp-client.tsx:146-147 | any command starting with "kick" (so "kickstart" too), then a space and a space-free name, kicks that name whatever follows the next space; this branch is taken before the table |
| `Responder.KickWithoutName` | src/components/mcp-client.tsx:146-147 | a "kick" word with no space kicks "undefined" |
| `Responder.AnswersStandApart` | src/components/mcp-client.tsx:141-145 | no table entry starts like the unknown-command reply or like a kick notice |
| `Responder.MockResponse` | src/components/mcp-client.tsx:140-150 | the reply starts with `Player ` exactly when the command starts with "kick" (both directions); each branch's exact reply is stated by `TableAnswers`, `UnknownExactly`, `KickNamesSecondWord` and `KickWithoutName` |
| `Responder.UnknownExactly` | src/components/mcp-client.tsx:146-149 | the reply is `Unknown command: "<input as typed>"` exactly when the input neither starts with "kick" nor lower-cases to a key (both directions) |
| `Responder.HelpExample` | src/components/mcp-client.tsx:142-149 | `HELP` and `help` both get the command list |
| `Responder.KickBobExample` | src/components/mcp-client.tsx:146-147 | `kick bob` gets `Player bob has been kicked.` |
| `Responder.KickstartExample` | src/components/mcp-client.tsx:146-147 | `kickstart bob now` also kicks bob: the verb only has to start with "kick", and words after the name are ignored |
| `Responder.KickTrailingSpace` | src/components/mcp-client.tsx:146-147 | `kick ` (trailing space) kicks the empty name |
| `Responder.UnknownWordExample` | src/components/mcp-client.tsx:146-149 | `xyz` gets the unknown-command reply quoting it |
| `Responder.UpperKickExample` | src/components/mcp-client.tsx:146-149 | `KICK bob` is not a kick, because the prefix test is case-sensitive; it gets the unknown-command reply quoting it |
| `History.Push` | src/components/mcp-client.tsx:157-160 | the head of the new history is the command; if it already was the head the history is unchanged; otherwise the command comes first, followed in the old order by the old entries, cut to fifty; a history within fifty stays within fifty |
| `History.PushTwice` | src/components/mcp-client.tsx:157-158 | sending the same command twice in a row gives the same history as sending it once |
| `History.Reverse` | src/components/mcp-client.tsx:158 | reversal keeps the length and maps index i to index n-1-i |
| `History.KeepsMostRecent` | src/components/mcp-client.tsx:157-158 | from an empty history, sends without immediate repeats keep the fifty most recent commands, most recent first |
| `History.FiftyOneDistinct` | src/components/mcp-client.tsx:158 | fifty-one distinct sends keep all but the oldest, most recent first |
| `History.Older` | src/components/mcp-client.tsx:173-179 | ArrowUp on a non-empty history moves the cursor one entry older or leaves it at the oldest, always within [0, len-1], and shows that entry; on an empty history nothing changes |
| `History.Newer` | src/components/mcp-client.tsx:180-190 | ArrowDown with cursor > 0 moves it exactly one newer and shows that entry; from 0 it frees the cursor and empties the buffer; from -1 nothing changes |
| `History.OlderN` | src/components/mcp-client.tsx:173-179 | repeated ArrowUp keeps the cursor within range |
| `History.NewerN` | src/components/mcp-client.tsx:180-190 | repeated ArrowDown keeps the cursor within range |
| `History.OlderRepeated` | src/components/mcp-client.tsx:173-179 | n presses of ArrowUp land on min(index+n, len-1), showing that entry |
| `History.OlderStopsAtOldest` | src/components/mcp-client.tsx:173-179 | from free text, len or more presses land on the oldest entry, so further presses change nothing |
| `History.NewerReturnsToFreeText` | src/components/mcp-client.tsx:180-190 | from entry k, k+1 presses of ArrowDown return to empty free text |
| `History.NewerUndoesOlder` | src/components/mcp-client.tsx:173-190 | below the oldest entry, ArrowDown after ArrowUp puts the cursor back and shows that entry; from free text it gives empty free text; a buffer edited since the last recall is not restored in either case |
| `Presets.WithoutId` | src/components/mcp-client.tsx:211 | the filter keeps only presets from the list without the id, and keeps every one of those |
| `Presets.WithoutIdCount` | src/components/mcp-client.tsx:211 | the filter removes exactly as many presets as carry the id |
| `Presets.WithoutAbsentId` | src/components/mcp-client.tsx:211 | deleting an id no preset carries leaves the list unchanged |
| `Presets.WithoutIdConcat` | src/components/mcp-client.tsx:211 | filtering works segment by segment, so the kept presets keep their order |
| `Presets.AddThenDelete` | src/components/mcp-client.tsx:203-211 | appending a preset with a fresh id and deleting that id restores the list |
| `Presets.WithoutIdUnique` | src/components/mcp-client.tsx:211 | deleting keeps preset ids unique |
| `Presets.AddKeepsUnique` | src/components/mcp-client.tsx:198-203 | appending under a fresh id keeps preset ids unique |
| `SessionMachine.Connect` | src/components/mcp-client.tsx:118-125 | an empty address changes nothing; otherwise connecting is set, exactly one notice "Connecting to X..." is appended, a timer carrying X is started, and nothing else changes |
| `SessionMachine.ConnectCompleted` | src/components/mcp-client.tsx:125-132 | the oldest connect timer fires: connected, not connecting, one notice naming the address that timer captured, and nothing else changes |
| `SessionMachine.Disconnect` | src/components/mcp-client.tsx:135-138 | not connected, one notice "Disconnected from server.", and nothing else changes |
| `SessionMachine.SendEnabledIff` | src/components/mcp-client.tsx:153 | a send goes ahead exactly when connected and the buffer is not all whitespace |
| `SessionMachine.Send` | src/components/mcp-client.tsx:152-168 | when the guard fails nothing changes; otherwise exactly one outgoing line holding the untrimmed buffer is appended, the history is pushed, the cursor becomes -1, the buffer "", a reply timer carries the command, and nothing else changes; a history within fifty stays within fifty |
| `SessionMachine.SendChangesIff` | src/components/mcp-client.tsx:152-168 | a send changes the state exactly when connected with a non-blank buffer (both directions) |
| `SessionMachine.ReplyArrived` | src/components/mcp-client.tsx:163-165 | any pending reply timer may fire: one incoming line with the mock reply to the command that timer captured, that timer removed, nothing else changed, whether connected or not |
| `SessionMachine.RecallOlder` | src/components/mcp-client.tsx:173-179 | ArrowUp moves cursor and buffer as `History.Older` says and changes nothing else |
| `SessionMachine.RecallNewer` | src/components/mcp-client.tsx:180-190 | ArrowDown moves cursor and buffer as `History.Newer` says and changes nothing else |
| `SessionMachine.KeyDown` | src/components/mcp-client.tsx:170-191 | Enter is `Send` (so nothing changes when the send guard fails); ArrowUp moves cursor and buffer as `History.Older` says and ArrowDown as `History.Newer` says, changing nothing else; any other key changes nothing; a valid state stays valid |
| `SessionMachine.AddPreset` | src/components/mcp-client.tsx:193-205 | a blank name or command changes nothing; otherwise exactly one preset with the fresh id and the untrimmed fields is appended at the end, both fields are cleared, nothing else changes, and unique ids stay unique |
| `SessionMachine.PresetFieldsFilledIff` | src/components/mcp-client.tsx:194 | a preset is saved exactly when neither field is all whitespace |
| `SessionMachine.DeletePreset` | src/components/mcp-client.tsx:210-211 | the presets become `Presets.WithoutId` of the old ones, so the kept ones stay in order (`WithoutIdConcat`); exactly the presets carrying the id are removed, counted; a preset stays exactly when it was present and lacks the id; an absent id changes nothing; unique ids stay unique; nothing else changes |
| `SessionMachine.AddThenDeletePreset` | src/components/mcp-client.tsx:193-211 | saving a preset and deleting its id restores the presets |
| `SessionMachine.ButtonsKeepConnectionTidy` | src/components/mcp-client.tsx:302-312 | used through the buttons (Connect enabled only while disconnected and not connecting, Disconnect shown only while connected), connect, completion and disconnect keep the invariant: never connected and connecting at once, and one connect timer pending exactly while connecting |
| `SessionMachine.ConnectWhileConnecting` | src/components/mcp-client.tsx:118-125 | the handler itself, called while connecting, appends another notice and starts a second timer |
| `SessionMachine.ConnectThenComplete` | src/components/mcp-client.tsx:118-132 | a connect to X and its completion append exactly "Connecting to X..." then "Successfully connected to X. Type 'help' for commands.", with the same X, and leave the session connected with no timer pending |
| `SessionMachine.StatusRoundTrip` | src/components/mcp-client.tsx:140-168 | connected, sending `status` appends the outgoing line `status`; its reply appends the status template with the player count |
| `Client.McpClient.constructor` | src/components/mcp-client.tsx:48-85 | initial field values; the stored history and presets are taken as given, the welcome notice is line 0, and the connection starts tidy (disconnected, no connect timer pending) |
| `Client.McpClient.AddOutputLine` | src/components/mcp-client.tsx:111-116 | the transcript becomes `Transcript.Append` of the old one, and no other field changes |
| `Client.McpClient.SetServerAddress` | src/components/mcp-client.tsx:298-304 | only the address field changes |
| `Client.McpClient.Connect` | src/components/mcp-client.tsx:118-125 | the new state is `SessionMachine.Connect` of the old one |
| `Client.McpClient.CompleteConnect` | src/components/mcp-client.tsx:125-132 | the new state is `SessionMachine.ConnectCompleted` of the old one |
| `Client.McpClient.Disconnect` | src/components/mcp-client.tsx:135-138 | the new state is `SessionMachine.Disconnect` of the old one |
| `Client.McpClient.EditCommand` | src/components/mcp-client.tsx:349-353 | only the buffer changes; the cursor is not reset |
| `Client.McpClient.RecordSent` | src/components/mcp-client.tsx:157-161 | the history becomes `History.Push` of the old one and the cursor is freed; nothing else changes |
| `Client.McpClient.Send` | src/components/mcp-client.tsx:152-168 | the new state is `SessionMachine.Send` of the old one |
| `Client.McpClient.ReceiveReply` | src/components/mcp-client.tsx:163-165 | the new state is `SessionMachine.ReplyArrived` of the old one |
| `Client.McpClient.RecallOlder` | src/components/mcp-client.tsx:173-179 | the new state is `SessionMachine.RecallOlder` of the old one |
| `Client.McpClient.RecallNewer` | src/components/mcp-client.tsx:180-190 | the new state is `SessionMachine.RecallNewer` of the old one |
| `Client.McpClient.KeyDown` | src/components/mcp-client.tsx:170-191 | Enter sends, ArrowUp and ArrowDown recall, any other key changes nothing |
| `Client.McpClient.SetNewPresetName` | src/components/mcp-client.tsx:247 | only the dialog's name field changes |
| `Client.McpClient.SetNewPresetCommand` | src/components/mcp-client.tsx:251 | only the dialog's command field changes |
| `Client.McpClient.AddPreset` | src/components/mcp-client.tsx:193-208 | the new state is `SessionMachine.AddPreset` of the old one |
| `Client.McpClient.DeletePreset` | src/components/mcp-client.tsx:210-213 | the new state is `SessionMachine.DeletePreset` of the old one |

## Left out

- Loading from and saving to `localStorage`, with `JSON.parse` and `JSON.stringify` (lines 64-85, 93-109), is browser I/O. The constructor takes the stored history and presets as arbitrary parameters. A stored history may be longer than fifty entries, so the fifty-entry cap is stated as preserved, not as always true.
- Toast notifications (lines 77-81, 120, 195, 207, 212) are UI feedback only.
- The preset dialog's open state (line 206), the mount flag, the auto-scroll effect (lines 87-91) and all rendering are UI.
- The timer delays themselves (1500 ms, 300-600 ms) are not modelled. Only their effect on order is: connect timers fire oldest first, and replies fire in any order.
- `Math.random()` and `crypto.randomUUID()` become parameters. The id must differ from every saved preset's id. Nothing else about UUIDs is modelled.
- The JavaScript prototype-key quirk of `responses[...]` (for example the key "constructor") is not modelled: the table has just its three keys.
- React's batching and re-rendering are not modelled. Each handler's updates are applied in order to the current state. Reads inside a handler see the state as it was before that handler.
- Text.ToLower: only ASCII letters are lower-cased. JavaScript's full Unicode case mapping is not modelled. Non-ASCII characters therefore never match a table key in the model.
- The disabled states of the address field (line 302) and of the command field (line 354) are not modelled. `SetServerAddress` and `EditCommand` can be called in any state. So can `KeyDown`, `RecallOlder` and `RecallNewer`, although the command input is disabled while not connected (`disabled={!isConnected}`). Enter is still stopped by the send handler's own `isConnected` guard.
- The AI output formatter (`src/ai/flows/format-mcp-output.ts`, `src/ai/genkit.ts`) wraps a call to an external language model. It is not part of this model, and neither are the `formattedText`, `isFormatting` and `showFormatted` fields of an output line.
- `src/app/layout.tsx` is page layout and is not part of this model.
