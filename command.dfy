/** What a client's session does with each line it reads: Client.handleCommand
    and Client.handleNickCommand as a function from (nick, id, line) to one
    effect and the nick afterwards, and the read loop of Client.listen as that
    function folded over the lines read. The class Client in module Chat is
    proved against these functions. */
module Command {
  import opened Text

  const WelcomeMessage: string := "Welcome to the chat server! Type '/nick NAME' to set your nickname.\n"
  const UnknownCmdMsg: string := "Unsupported command\n"
  const UsageMsg: string := "Usage: /nick <nickname>\n"
  const EmptyNickMsg: string := "Nickname cannot be empty\n"
  const NickCommand: string := "/nick"

  /** The chat line broadcast for a plain message: "%s> %s\n" with the nick, or
      "user:%d> %s\n" with the ID when no nick is set. */
  function ChatLine(nick: string, id: nat, msg: string): string {
    if nick == "" then "user:" + Decimal(id) + "> " + msg + "\n" else nick + "> " + msg + "\n"
  }

  /** The notice broadcast after a rename: "User %d is now known as %s\n". */
  function RenameNotice(id: nat, nick: string): string {
    "User " + Decimal(id) + " is now known as " + nick + "\n"
  }

  /** What handling one line sends: nothing, a notice to the sender alone, or
      a text broadcast to every registered client. */
  datatype Effect = Ignore | Reply(text: string) | Broadcast(text: string)

  datatype Reaction = Reaction(effect: Effect, nick: string)

  /** handleNickCommand, given the parts of the SplitN of the trimmed line. */
  function InterpretNick(nick: string, id: nat, parts: seq<string>): Reaction {
    if |parts| != 2 then Reaction(Reply(UsageMsg), nick)
    else
      var newNick := TrimSpace(parts[1]);
      if newNick == "" then Reaction(Reply(EmptyNickMsg), nick)
      else Reaction(Broadcast(RenameNotice(id, newNick)), newNick)
  }

  /** handleCommand for a client with nick `nick` and ID `id`: the line is
      trimmed first, and React decides on the trimmed text. */
  function Interpret(nick: string, id: nat, msg: string): Reaction {
    React(nick, id, TrimSpace(msg))
  }

  /** handleCommand from the trimmed line `m` on: ignore a blank line, treat a
      line starting with '/' as a command, broadcast anything else. */
  function React(nick: string, id: nat, m: string): Reaction {
    if m == "" then Reaction(Ignore, nick)
    else if HasPrefix(m, "/") then
      var parts := SplitFirst(m, ' ');
      if ToLower(parts[0]) == NickCommand then InterpretNick(nick, id, parts)
      else Reaction(Reply(UnknownCmdMsg), nick)
    else Reaction(Broadcast(ChatLine(nick, id, m)), nick)
  }

  /** The nick at the end of a session and the effect of each line, in order. */
  datatype Transcript = Transcript(nick: string, effects: seq<Effect>)

  /** The read loop of listen, for any handler of one line: the lines are
      handled in turn, each with the nick left by the lines before it. */
  function Replay(handle: (string, string) -> Reaction, nick: string, lines: seq<string>): (t: Transcript)
    ensures |t.effects| == |lines|
    decreases |lines|
  {
    if lines == [] then Transcript(nick, [])
    else
      var before := Replay(handle, nick, lines[..|lines| - 1]);
      var last := handle(before.nick, lines[|lines| - 1]);
      Transcript(last.nick, before.effects + [last.effect])
  }

  /** What listen does with each line it reads: remove the carriage returns,
      then handleCommand. */
  function HandleLine(id: nat): (string, string) -> Reaction {
    (nick: string, line: string) => Interpret(nick, id, RemoveCR(line))
  }

  /** The session of the client with ID `id` over the lines it reads. */
  function Session(nick: string, id: nat, lines: seq<string>): Transcript {
    Replay(HandleLine(id), nick, lines)
  }

  /** Reading one more line extends the session by the handling of that line. */
  lemma SessionStep(nick: string, id: nat, lines: seq<string>, i: nat)
    requires i < |lines|
    ensures var t := Session(nick, id, lines[..i]);
      var r := Interpret(t.nick, id, RemoveCR(lines[i]));
      Session(nick, id, lines[..i + 1]) == Transcript(r.nick, t.effects + [r.effect])
  {
    assert lines[..i + 1][..i] == lines[..i];
  }

  /** A line that is blank once trimmed, and only such a line, is ignored:
      no notice, no broadcast, no nick change. */
  lemma BlankLineIgnored(nick: string, id: nat, msg: string)
    ensures Interpret(nick, id, msg) == Reaction(Ignore, nick) <==> AllSpace(msg)
  {
  }

  /** A non-blank line that does not start with '/' is broadcast once as a chat
      line of the trimmed text, under the nick or else under "user:<id>";
      the nick is unchanged. */
  lemma PlainLineBroadcast(nick: string, id: nat, msg: string)
    requires TrimSpace(msg) != "" && TrimSpace(msg)[0] != '/'
    ensures Interpret(nick, id, msg).nick == nick
    ensures nick != "" ==>
      Interpret(nick, id, msg).effect == Broadcast(nick + "> " + TrimSpace(msg) + "\n")
    ensures nick == "" ==>
      Interpret(nick, id, msg).effect == Broadcast("user:" + Decimal(id) + "> " + TrimSpace(msg) + "\n")
  {
    var m := TrimSpace(msg);
    assert !HasPrefix(m, "/") by { assert m[..1][0] == m[0]; }
  }

  /** SplitN(m, " ", 2) splits a command line after its first word: the word
      is the text up to the first space and the argument all that follows it. */
  lemma FirstWord(m: string, word: string, rest: string)
    requires m == word + rest && ' ' !in word && (rest == [] || rest[0] == ' ')
    ensures SplitFirst(m, ' ')[0] == word
    ensures |SplitFirst(m, ' ')| == 2 <==> rest != []
    ensures rest != [] ==> SplitFirst(m, ' ')[1] == rest[1..]
  {
    var parts := SplitFirst(m, ' ');
    if rest == [] {
      assert parts == [m];
    } else {
      assert m[|word|] == ' ';
      assert |parts| == 2;
      var n := |parts[0]|;
      assert (parts[0] + [' '] + parts[1])[n] == ' ';
      assert parts[0] == m[..n] == word;
      assert parts[1] == m[n + 1..] == rest[1..];
    }
  }

  /** The command word is matched case-insensitively: it is "/nick" after
      ToLower exactly when its runes are '/', then N, I, C and K in either case
      (I also as U+0130 and K also as the Kelvin sign U+212A). */
  lemma {:induction false} NickWord(word: string)
    ensures ToLower(word) == NickCommand <==>
      |word| == 5 && word[0] == '/' && word[1] in "nN" && word[2] in "iI\U{130}"
      && word[3] in "cC" && word[4] in "kK\U{212A}"
  {
    var l := ToLower(word);
    if |word| == 5 {
      assert l == NickCommand <==>
        l[0] == '/' && l[1] == 'n' && l[2] == 'i' && l[3] == 'c' && l[4] == 'k';
    }
  }

  /** "/nick" itself is already in lower case, and is one word. */
  lemma NickCommandLowered()
    ensures ToLower(NickCommand) == NickCommand
    ensures ' ' !in NickCommand
  {
    var l := ToLower(NickCommand);
    forall i | 0 <= i < 5 ensures l[i] == NickCommand[i] {
      assert l[i] == LowerRune(NickCommand[i]);
    }
  }

  /** A command whose word is not /nick (in any case) earns the sender the
      "Unsupported command" notice, nothing else, and leaves the nick alone. */
  lemma UnsupportedCommand(nick: string, id: nat, msg: string, word: string, rest: string)
    requires TrimSpace(msg) == word + rest && ' ' !in word && (rest == [] || rest[0] == ' ')
    requires word != [] && word[0] == '/' && ToLower(word) != NickCommand
    ensures Interpret(nick, id, msg) == Reaction(Reply(UnknownCmdMsg), nick)
  {
    var m := TrimSpace(msg);
    assert m != "" && HasPrefix(m, "/") by {
      assert m[0] == word[0];
      assert m[..1] == [word[0]];
    }
    FirstWord(m, word, rest);
    assert ToLower(SplitFirst(m, ' ')[0]) != NickCommand;
    assert React(nick, id, m) == Reaction(Reply(UnknownCmdMsg), nick);
  }

  /** The three notices handleCommand can send to the sender alone differ. */
  lemma NoticesDistinct()
    ensures UsageMsg != UnknownCmdMsg && UsageMsg != EmptyNickMsg && UnknownCmdMsg != EmptyNickMsg
  {
    assert UsageMsg[1] != UnknownCmdMsg[1];
    assert UsageMsg[0] != EmptyNickMsg[0] && UnknownCmdMsg[0] != EmptyNickMsg[0];
  }

  /** A trimmed line that lowers to "/nick" is a command of one word. */
  lemma BareNickParts(m: string)
    requires ToLower(m) == NickCommand
    ensures m != "" && HasPrefix(m, "/") && SplitFirst(m, ' ') == [m]
  {
    assert ' ' !in m by {
      forall i | 0 <= i < |m| ensures m[i] != ' ' {
        assert ToLower(m)[i] == LowerRune(m[i]) != ' ';
      }
    }
    assert m[0] == '/' by { assert ToLower(m)[0] == LowerRune(m[0]) == '/'; }
  }

  /** A bare /nick (in any case) earns the usage notice. */
  lemma BareNickGetsUsage(nick: string, id: nat, msg: string)
    requires ToLower(TrimSpace(msg)) == NickCommand
    ensures Interpret(nick, id, msg) == Reaction(Reply(UsageMsg), nick)
  {
    var m := TrimSpace(msg);
    BareNickParts(m);
    assert React(nick, id, m) == InterpretNick(nick, id, [m]);
  }

  /** The usage notice is sent for a bare /nick only. */
  lemma UsageOnlyForBareNick(nick: string, id: nat, msg: string)
    requires Interpret(nick, id, msg).effect == Reply(UsageMsg)
    ensures ToLower(TrimSpace(msg)) == NickCommand
  {
    NoticesDistinct();
    var m := TrimSpace(msg);
    if m != "" && HasPrefix(m, "/") {
      var parts := SplitFirst(m, ' ');
      if ToLower(parts[0]) == NickCommand {
        assert |parts| != 2;
      }
    }
  }

  /** /nick with no argument, and nothing else, earns the sender the usage
      notice alone; the nick is unchanged. */
  lemma NickWithoutArgument(nick: string, id: nat, msg: string)
    ensures Interpret(nick, id, msg).effect == Reply(UsageMsg) <==> ToLower(TrimSpace(msg)) == NickCommand
    ensures Interpret(nick, id, msg).effect == Reply(UsageMsg) ==> Interpret(nick, id, msg).nick == nick
  {
    if ToLower(TrimSpace(msg)) == NickCommand {
      BareNickGetsUsage(nick, id, msg);
    } else if Interpret(nick, id, msg).effect == Reply(UsageMsg) {
      UsageOnlyForBareNick(nick, id, msg);
    }
  }

  /** A trimmed line "/nick <arg>" (any case) is a command whose SplitN gives
      the word and the argument, and the argument is not blank. */
  lemma NickLineParts(m: string, word: string, arg: string)
    requires Trimmed(m) && m == word + " " + arg && ' ' !in word && ToLower(word) == NickCommand
    ensures m != "" && HasPrefix(m, "/")
    ensures SplitFirst(m, ' ') == [word, arg]
    ensures TrimSpace(arg) != ""
  {
    assert m == word + ([' '] + arg);
    assert word != [] && word[0] == '/' by {
      assert ToLower(word)[0] == LowerRune(word[0]) == '/';
    }
    assert m[..1] == [word[0]];
    FirstWord(m, word, [' '] + arg);
    assert arg != [] && m[|m| - 1] == arg[|arg| - 1];
  }

  /** A line "/nick <arg>" (any case) sets the nick to the trimmed argument,
      which is never empty, and broadcasts the rename notice. */
  lemma NickWithArgument(nick: string, id: nat, msg: string, word: string, arg: string)
    requires TrimSpace(msg) == word + " " + arg && ' ' !in word && ToLower(word) == NickCommand
    ensures TrimSpace(arg) != ""
    ensures Interpret(nick, id, msg) == Reaction(Broadcast(RenameNotice(id, TrimSpace(arg))), TrimSpace(arg))
  {
    var m := TrimSpace(msg);
    NickLineParts(m, word, arg);
    assert React(nick, id, m) == InterpretNick(nick, id, [word, arg]);
  }

  /** The argument SplitN leaves after the first space of a trimmed line is
      never blank: the line does not end in white space. */
  lemma ArgumentNotBlank(m: string)
    requires Trimmed(m) && |SplitFirst(m, ' ')| == 2
    ensures TrimSpace(SplitFirst(m, ' ')[1]) != ""
  {
    var parts := SplitFirst(m, ' ');
    assert m == parts[0] + [' '] + parts[1];
    assert parts[1] != [] by { assert m[|m| - 1] != ' '; }
    assert !IsSpace(parts[1][|parts[1]| - 1]) by { assert m[|m| - 1] == parts[1][|parts[1]| - 1]; }
  }

  /** The "Nickname cannot be empty" branch of handleNickCommand is dead: the
      line was trimmed before SplitN, so an argument is never blank. */
  lemma EmptyNickUnreachable(nick: string, id: nat, msg: string)
    ensures Interpret(nick, id, msg).effect != Reply(EmptyNickMsg)
  {
    var m := TrimSpace(msg);
    if m != "" && HasPrefix(m, "/") && |SplitFirst(m, ' ')| == 2 {
      ArgumentNotBlank(m);
    }
  }

  /** Only a rename changes the nick, and then to a non-empty trimmed name that
      the rename notice announces. */
  lemma NickChangesOnlyByRename(nick: string, id: nat, msg: string)
    ensures var r := Interpret(nick, id, msg);
      r.nick == nick || (r.nick != "" && Trimmed(r.nick) && r.effect == Broadcast(RenameNotice(id, r.nick)))
  {
    var m := TrimSpace(msg);
    if m != "" && HasPrefix(m, "/") {
      var parts := SplitFirst(m, ' ');
      if ToLower(parts[0]) == NickCommand {
        assert Interpret(nick, id, msg) == InterpretNick(nick, id, parts);
      }
    }
  }

  /** Lines are handled in the order read: handling `a` and then `b` is
      handling `a`, then handling `b` from the nick `a` left. */
  lemma {:induction false} ReplayAppend(handle: (string, string) -> Reaction, nick: string,
                                        a: seq<string>, b: seq<string>)
    ensures var first := Replay(handle, nick, a);
      var second := Replay(handle, first.nick, b);
      Replay(handle, nick, a + b) == Transcript(second.nick, first.effects + second.effects)
    decreases |b|
  {
    if b != [] {
      var b' := b[..|b| - 1];
      assert (a + b)[..|a + b| - 1] == a + b';
      assert (a + b)[|a + b| - 1] == b[|b| - 1];
      ReplayAppend(handle, nick, a, b');
    } else {
      assert a + b == a;
    }
  }

  /** "/nick <name>" sets the nick to a trimmed name and announces it. */
  lemma RenameLine(nick: string, id: nat, name: string)
    requires name != [] && Trimmed(name)
    ensures Interpret(nick, id, "/nick " + name + "\n") == Reaction(Broadcast(RenameNotice(id, name)), name)
  {
    var line := "/nick " + name + "\n";
    var m := NickCommand + " " + name;
    assert line == [] + m + "\n";
    assert m[0] == '/' && m[|m| - 1] == name[|name| - 1];
    TrimSpaceAround([], m, "\n");
    NickCommandLowered();
    NickWithArgument(nick, id, line, NickCommand, name);
  }

  /** Reading a single line is handling that line from the starting nick. */
  lemma ReplayOne(handle: (string, string) -> Reaction, nick: string, line: string)
    ensures Replay(handle, nick, [line])
         == Transcript(handle(nick, line).nick, [handle(nick, line).effect])
  {
    assert [line][..0] == [];
  }

  /** A line of plain text (trimmed, not starting with '/') read with its
      newline is broadcast as that text under the sender's name. */
  lemma SpeakLine(nick: string, id: nat, text: string)
    requires text != [] && Trimmed(text) && text[0] != '/' && '\r' !in text
    ensures HandleLine(id)(nick, text + "\n") == Reaction(Broadcast(ChatLine(nick, id, text)), nick)
  {
    var line := text + "\n";
    assert TrimSpace(line) == text by {
      assert line == [] + text + "\n";
      TrimSpaceAround([], text, "\n");
    }
    assert Interpret(nick, id, line) == Reaction(Broadcast(ChatLine(nick, id, text)), nick) by {
      PlainLineBroadcast(nick, id, line);
    }
    assert RemoveCR(line) == line by { assert '\r' !in line; }
  }

  /** A client without a nick that writes one line of plain text sends
      "user:<id>> <text>" to everyone and keeps no nick. */
  lemma AnonymousSpeaks(id: nat, text: string)
    requires text != [] && Trimmed(text) && text[0] != '/' && '\r' !in text
    ensures Session("", id, [text + "\n"])
         == Transcript("", [Broadcast("user:" + Decimal(id) + "> " + text + "\n")])
  {
    SpeakLine("", id, text);
    ReplayOne(HandleLine(id), "", text + "\n");
  }

  /** The line "/nick <name>" read with its newline renames the client. */
  lemma RenameRead(nick: string, id: nat, name: string)
    requires name != [] && Trimmed(name) && '\r' !in name
    ensures HandleLine(id)(nick, "/nick " + name + "\n") == Reaction(Broadcast(RenameNotice(id, name)), name)
  {
    var line := "/nick " + name + "\n";
    assert RemoveCR(line) == line by {
      assert line == "/nick " + name + "\n";
      assert forall i :: 0 <= i < |line| ==> line[i] != '\r';
    }
    RenameLine(nick, id, name);
  }

  /** Renaming to a name and then writing plain text announces the rename and
      then broadcasts "<name>> <text>"; the name may contain inner spaces. */
  lemma RenameThenSpeak(nick: string, id: nat, name: string, text: string)
    requires name != [] && Trimmed(name) && '\r' !in name
    requires text != [] && Trimmed(text) && text[0] != '/' && '\r' !in text
    ensures Session(nick, id, ["/nick " + name + "\n", text + "\n"])
         == Transcript(name, [Broadcast(RenameNotice(id, name)), Broadcast(name + "> " + text + "\n")])
  {
    var line1, line2 := "/nick " + name + "\n", text + "\n";
    var h := HandleLine(id);
    RenameRead(nick, id, name);
    SpeakLine(name, id, text);
    ReplayOne(h, nick, line1);
    ReplayOne(h, name, line2);
    ReplayAppend(h, nick, [line1], [line2]);
    assert [line1] + [line2] == [line1, line2];
  }

  /** "/frobnicate" earns the sender the "Unsupported command" notice alone. */
  lemma FrobnicateUnsupported(nick: string, id: nat, msg: string)
    requires msg == "/frobnicate\n"
    ensures Interpret(nick, id, msg) == Reaction(Reply(UnknownCmdMsg), nick)
  {
    var word := msg[..11];
    assert msg == [] + word + "\n";
    assert word[0] == '/' && word[10] == 'e' && ' ' !in word;
    TrimSpaceAround([], word, "\n");
    assert ToLower(word) != NickCommand by {
      assert |ToLower(word)| == |word| == 11;
    }
    UnsupportedCommand(nick, id, msg, word, []);
  }
}
