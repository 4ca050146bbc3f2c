// The simulated server: `mockServerResponse` of the console, a pure function of the
// command sent and of the random player count it reports.
module Responder {
  import opened Records
  import opened Text

  const HelpText := "Available commands: " + "help, status, players, kick <player>"
  const PlayersText := "Online players: " + "player1, player2, another_user"
  const StatusPrefix := "Server Status: Online\n" + "Version: 1.20.1\nPlayers: "

  /** The status template; `players` stands for `Math.floor(Math.random() * 10)`.
      The count can be read back from the digit after the prefix. */
  function StatusText(players: nat): (r: string)
    requires players < 10
    ensures |r| == |StatusPrefix| + 4
    ensures r[..|StatusPrefix|] == StatusPrefix && r[|StatusPrefix| + 1..] == "/20"
    ensures r[|StatusPrefix|] as int - '0' as int == players
  {
    StatusPrefix + [Digit(players)] + "/20"
  }

  /** The `responses` table, with its three keys. */
  function Responses(players: nat): map<string, string>
    requires players < 10
  {
    map["help" := HelpText, "status" := StatusText(players), "players" := PlayersText]
  }

  /** `cmd.split(" ")[1]`: the second piece, missing when `cmd` holds no space. */
  function SecondWord(cmd: string): Option<string> {
    var parts := Split(cmd);
    if |parts| >= 2 then Some(parts[1]) else None
  }

  /** Template interpolation of a possibly missing value. */
  function Render(o: Option<string>): string {
    match o
    case Some(t) => t
    case None => "undefined"
  }

  function KickText(cmd: string): string {
    "Player " + Render(SecondWord(cmd)) + " has been kicked."
  }

  function UnknownText(cmd: string): string {
    "Unknown command: \"" + cmd + "\""
  }

  /** No table entry reads like the unknown-command answer or a kick notice. */
  lemma AnswersStandApart(players: nat)
    requires players < 10
    ensures forall key :: key in Responses(players) ==> Responses(players)[key] != [] && (Responses(players)[key][0] != 'U' && Responses(players)[key][0] != 'P')
  {
    var status := StatusText(players);
    assert StatusPrefix[0] == 'S';
    assert status[0] == status[..|StatusPrefix|][0];
  }

  /** `mockServerResponse(sentCommand)`. A reply reads as a kick notice exactly when
      the command starts with "kick"; the lemmas below pin down each branch. */
  function MockResponse(cmd: string, players: nat): (r: string)
    requires players < 10
    ensures StartsWith(r, "Player ") <==> StartsWith(cmd, "kick")
  {
    if StartsWith(cmd, "kick") then
      var r := KickText(cmd);
      assert r[..|"Player "|] == "Player ";
      r
    else
      var key := ToLower(cmd);
      AnswersStandApart(players);
      var r := if key in Responses(players) then Responses(players)[key] else UnknownText(cmd);
      assert r[0] != 'P';
      r
  }

  /** A word that lower-cases to a table key cannot start with "kick". */
  lemma KeyIsNotKick(cmd: string, players: nat)
    requires players < 10
    requires ToLower(cmd) in Responses(players)
    ensures !StartsWith(cmd, "kick")
  {
    var key := ToLower(cmd);
    assert key == "help" || key == "status" || key == "players";
    assert key[0] == 'h' || key[0] == 's' || key[0] == 'p';
    assert LowerChar(cmd[0]) == key[0];
    assert cmd[0] != 'k';
    assert |cmd| >= 4 && cmd[..4][0] == cmd[0];
  }

  /** A command whose lower-case form is a key gets that key's entry. */
  lemma TableAnswers(cmd: string, players: nat)
    requires players < 10
    requires ToLower(cmd) in Responses(players)
    ensures MockResponse(cmd, players) == Responses(players)[ToLower(cmd)]
  {
    KeyIsNotKick(cmd, players);
  }

  /** Table lookup ignores case: two spellings of a key get the same answer. */
  lemma CaseInsensitive(a: string, b: string, players: nat)
    requires players < 10
    requires ToLower(a) == ToLower(b) && ToLower(a) in Responses(players)
    ensures MockResponse(a, players) == MockResponse(b, players)
  {
    TableAnswers(a, players);
    TableAnswers(b, players);
  }

  /** Any case spelling of `status` reports the template with the given count. */
  lemma StatusReportsCount(cmd: string, players: nat)
    requires players < 10
    requires ToLower(cmd) == "status"
    ensures MockResponse(cmd, players) == StatusText(players)
  {
    TableAnswers(cmd, players);
  }

  /** A word starting with "kick", a space and a space-free name: the name is kicked,
      whatever follows from the next space on. "kickstart bob" counts too, and the
      kick branch is taken before the table. */
  lemma KickNamesSecondWord(cmd: string, verb: string, name: string, rest: string, players: nat)
    requires players < 10
    requires StartsWith(verb, "kick") && ' ' !in verb && ' ' !in name
    requires rest == [] || rest[0] == ' '
    requires cmd == verb + " " + name + rest
    ensures MockResponse(cmd, players) == "Player " + name + " has been kicked."
  {
    assert cmd[..|"kick"|] == verb[..|"kick"|];
    assert cmd == verb + (" " + (name + rest));
    SplitPrefix(verb, " " + (name + rest));
    var after := Split(" " + (name + rest));
    assert after == [""] + Split(name + rest) by {
      assert (" " + (name + rest))[1..] == name + rest;
    }
    SplitPrefix(name, rest);
    var tail := Split(rest);
    assert tail[0] == "" by {
      if rest != [] {
        assert Split(rest) == [""] + Split(rest[1..]);
      }
    }
    assert Split(name + rest)[0] == name + "" == name;
    assert Split(cmd)[1] == after[1] == name;
  }

  /** A word starting with "kick" and no space at all: the missing name reads "undefined". */
  lemma KickWithoutName(verb: string, players: nat)
    requires players < 10
    requires StartsWith(verb, "kick") && ' ' !in verb
    ensures MockResponse(verb, players) == "Player undefined has been kicked."
  {
    SplitPrefix(verb, "");
    assert verb + "" == verb;
    assert Split("") == [""];
  }

  /** The unknown-command answer, quoting the input as typed, comes exactly when the
      command neither starts with "kick" nor lower-cases to a key. */
  lemma UnknownExactly(cmd: string, players: nat)
    requires players < 10
    ensures MockResponse(cmd, players) == UnknownText(cmd)
        <==> !StartsWith(cmd, "kick") && ToLower(cmd) !in Responses(players)
  {
    var u := UnknownText(cmd);
    assert u[0] == 'U';
    if StartsWith(cmd, "kick") {
      assert KickText(cmd)[0] == 'P';
    } else if ToLower(cmd) in Responses(players) {
      AnswersStandApart(players);
    }
  }

  /** Upper or lower case, `help` gets the command list. */
  lemma HelpExample(players: nat)
    requires players < 10
    ensures MockResponse("HELP", players) == MockResponse("help", players) == HelpText
  {
    assert ToLower("HELP") == "help";
    CaseInsensitive("HELP", "help", players);
    TableAnswers("help", players);
  }

  /** The kick branch on a plain name. */
  lemma KickBobExample(cmd: string, players: nat)
    requires players < 10
    requires cmd == "kick bob"
    ensures MockResponse(cmd, players) == "Player bob has been kicked."
  {
    KickNamesSecondWord(cmd, "kick", "bob", "", players);
  }

  /** Any word starting with "kick" takes the kick branch, and words after the name
      are ignored. */
  lemma KickstartExample(cmd: string, players: nat)
    requires players < 10
    requires cmd == "kickstart bob now"
    ensures MockResponse(cmd, players) == "Player bob has been kicked."
  {
    KickNamesSecondWord(cmd, "kickstart", "bob", " now", players);
  }

  /** A trailing space after "kick": the name is the empty piece after it. */
  lemma KickTrailingSpace(cmd: string, players: nat)
    requires players < 10
    requires cmd == "kick "
    ensures MockResponse(cmd, players) == "Player  has been kicked."
  {
    KickNamesSecondWord(cmd, "kick", "", "", players);
  }

  /** An unknown word is quoted back. */
  lemma UnknownWordExample(players: nat)
    requires players < 10
    ensures MockResponse("xyz", players) == "Unknown command: \"xyz\""
  {
    assert ToLower("xyz") == "xyz";
    assert "xyz"[0] != 'k';
    UnknownExactly("xyz", players);
  }

  /** An upper-case "KICK" is quoted back too: the prefix test is case-sensitive, and
      the lower-cased "kick bob" is no key. */
  lemma UpperKickExample(players: nat)
    requires players < 10
    ensures MockResponse("KICK bob", players) == "Unknown command: \"KICK bob\""
  {
    assert ToLower("KICK bob") == "kick bob";
    assert "KICK bob"[0] != 'k';
    UnknownExactly("KICK bob", players);
  }
}
