# A model of the chat server's registry, command interpreter and client lifecycle

The chat server in `main.go` accepts TCP clients. It keeps them in an ordered
observer list (`ChatSystem.observers`), and it runs one read loop per client
(`Client.listen`) that hands each line to `handleCommand`. A line is handled in
one of four ways:

- a blank line is ignored;
- `/nick <name>` renames the client and announces the rename to everyone;
- any other `/command` earns the sender a private notice;
- anything else is broadcast to every registered client as `"<nick>> <text>\n"`,
  or as `"user:<id>> <text>\n"` while the client has no nick.

This project models that logic in Dafny. It has four modules:

- `Text` (`text.dfy`) models the parts of Go's `strings` package the server calls:
  - `TrimSpace`, with the exact `unicode.IsSpace` set;
  - `ReplaceAll(s, "\r", "")`;
  - `HasPrefix`;
  - `SplitN(s, " ", 2)`;
  - `ToLower`;
  - the `%d` verb.
- `Registry` (`registry.dfy`) holds the observer list as a value. `RemoveFirst` is what
  removeObserver does, `Fanout` is what broadcast writes, and `NextId` is what
  generateClientID returns. Its lemmas state the list properties.
- `Command` (`command.dfy`) models handleCommand and handleNickCommand as
  `Interpret`, a function from (nick, id, line) to a `Reaction`:
  - the reaction is an effect (`Ignore`, `Reply` to the sender alone, or `Broadcast`) plus the new nick;
  - `Session` folds `Interpret` over the lines a client sends, after the carriage returns are removed, as listen does;
  - its lemmas state what each kind of line does.
- `Chat` (`chat.dfy`) holds the imperative model:
  - class `ChatSystem`, with the `observers` list and a log of every connection write (`deliveries`, in order);
  - class `Client`, with its `id`, its `nick` and whether its connection is open;
  - the accept step as method `Accept`.

  Each method is proved against the functions of `Registry` and `Command`. Two scenario methods show two consequences of the accept step:

  - client IDs repeat;
  - a client rejected for capacity stays registered for good.

Where the code and its design notes disagree, the model follows the code:

- The comments at main.go:107 and main.go:262 call the client ID unique. In fact it is `len(observers) + 1`, so it repeats after a client leaves (`IdRepeatsAfterLeave`, `ReusedIdScenario`).
- A client over the capacity limit is not denied registration. It is appended first, then closed, and since its read loop never runs it is never removed (`Accept`, `NeverRemoved`, `OverCapacityScenario`).

## Model

| member | source | states |
|---|---|---|
| Chat.ChatSystem.AddObserver | main.go:78-82 | the observer is appended: the new list is the old one plus the observer at the end, earlier entries unchanged and in order; a client of this system not yet registered keeps the list valid (every client belongs to the system, none registered twice) |
| Chat.ChatSystem.RemoveObserver | main.go:85-94 | the search loop with break leaves exactly `RemoveFirst(old list, observer)`; every remaining observer still belongs to this system and none is registered twice |
| Registry.RemoveAt | main.go:88-91 | when position k holds the first copy of x, removal gives `s[..k] + s[k+1..]`: one entry gone, the others in their order |
| Registry.RemoveAbsent | main.go:88-93 | removing an observer that is not registered leaves the list unchanged |
| Registry.RemoveMultiset | main.go:85-94 | removal takes away exactly one copy of the observer if present and keeps every other entry as often as before |
| Registry.RemoveKeepsOthers | main.go:85-94 | an entry other than the removed observer is still registered |
| Registry.RemoveKeepsNothingNew | main.go:85-94 | removal never adds an entry |
| Registry.RemoveOnlyCopy | main.go:85-94 | a client registered once is no longer registered after its removal |
| Registry.RemoveDistinct | main.go:85-94 | in a list without repeats, the removed client is no longer in the list, and the list still has no repeats |
| Registry.RemoveUndoesAdd | main.go:78-94 | removing an observer that was just added to a list without it restores the list |
| Registry.Fanout | main.go:97-103 | broadcast writes one delivery of the message per list entry, entry k receiving the k-th write, the sender included |
| Registry.FanoutAppend | main.go:100-102 | the writes to a list split into the writes to its first part followed by those to the rest |
| Chat.ChatSystem.Broadcast | main.go:97-103 | the loop notifies every observer once, in list order: the log grows by exactly `Fanout(observers, message)`; only the log changes |
| Chat.Client.Notify | main.go:115-121 | one write of the message on this client's connection is appended to the log; the sender ID plays no part |
| Chat.ChatSystem.GenerateClientID | main.go:263-267 | the ID is `NextId` of the current list: one more than the number of registered clients |
| Registry.NextId | main.go:263-267 | the ID handed out is at least 1 |
| Registry.IdRepeatsAfterLeave | main.go:262-267 | after client y joins and an earlier client leaves, the next ID equals y's ID while y is still registered: IDs are not unique |
| Chat.Accept | main.go:232-244 | the new client gets ID `NextId(old list)` and an empty nick and is appended; it is started exactly when the list is then at most MaxClients; otherwise its connection is closed but it stays in the list |
| Chat.ReusedIdScenario | main.go:232-244 | clients 1 and 2 connect, client 1 leaves, and the next client gets ID 2 while the other client with ID 2 is still registered |
| Chat.OverCapacityScenario | main.go:240-244 | after MaxClients clients, the next one is registered but closed; when the first client leaves, the rejected one is still registered, so the list is still full and the next client is rejected too |
| Registry.NeverRemoved | main.go:240-244 | a registered client that never leaves is still registered whatever other clients leave |
| Registry.RemoveEach | main.go:149 | after a series of leaves the list has lost at most one entry per leave |
| Text.TrimSpace | main.go:157 | the result does not start or end with white space; it is empty exactly when the line is all white space; a line already trimmed is returned as is |
| Text.SkipLeft | main.go:157 | the position of the first non-space rune at or after i, with only white space skipped |
| Text.SkipRight | main.go:157 | the position after the last non-space rune before j, with only white space skipped |
| Text.TrimSpaceInfix | main.go:157 | TrimSpace keeps a contiguous part of the line and drops only white space before and after it |
| Text.TrimSpaceAround | main.go:157 | TrimSpace of white space, a trimmed core and white space is exactly the core |
| Text.RemoveCR | main.go:142 | no carriage return is left, every other rune is kept as often as before, and a line without one is unchanged |
| Text.RemoveCRAppend | main.go:142 | carriage returns are removed rune by rune: removing them from a joined line is removing them from each part, so the other runes keep their order |
| Text.IndexOf | main.go:167 | the position of the first occurrence of the rune, or -1 exactly when it does not occur |
| Text.SplitFirst | main.go:167 | SplitN on one space gives one part (the line) exactly when there is no space, else the text before the first space and the text after it, which joined with the space give the line back |
| Command.FirstWord | main.go:167-168 | for a line that is a space-free word followed by nothing or by a space and more, SplitN's first part is the word, and there is a second part exactly when something follows |
| Text.ToLower | main.go:168 | the result has the same length and lowers each rune in place |
| Command.NickWord | main.go:168-171 | a command word matches /nick case-insensitively exactly when it is '/' then N, I, C, K in either case (I also as U+0130, K also as the Kelvin sign) |
| Command.NickCommandLowered | main.go:171 | "/nick" is its own lower case and has no space |
| Text.Decimal | main.go:181 | `%d` gives at least one digit, only digits, and no leading zero except for 0 itself |
| Text.DecimalRoundTrip | main.go:181 | the rendered ID parses back to the ID |
| Text.DecimalInjective | main.go:181 | two different IDs never render to the same text |
| Command.BlankLineIgnored | main.go:157-163 | a line is ignored with the nick unchanged if and only if it is all white space |
| Command.PlainLineBroadcast | main.go:177-184 | a non-blank line not starting with '/' is broadcast as `"<nick>> <trimmed line>\n"`, or as `"user:<id>> <trimmed line>\n"` when there is no nick; the nick is unchanged |
| Command.UnsupportedCommand | main.go:166-176 | a '/' line whose first word does not lower to /nick earns only the "Unsupported command" reply, with the nick unchanged |
| Command.FrobnicateUnsupported | main.go:173-175 | "/frobnicate" earns only the "Unsupported command" reply |
| Command.NoticesDistinct | main.go:62-196 | the three private notices differ from each other |
| Command.BareNickGetsUsage | main.go:171-191 | a line that lowers to "/nick" earns only the usage reply, with the nick unchanged |
| Command.UsageOnlyForBareNick | main.go:166-191 | the usage reply is given only for a line that lowers to "/nick" |
| Command.NickWithoutArgument | main.go:166-191 | a line earns the usage reply if and only if it lowers to "/nick", and the nick is then unchanged |
| Command.NickLineParts | main.go:166-168 | a trimmed "/nick <arg>" line is a command whose SplitN gives the word and the argument, and the argument is not blank |
| Command.NickWithArgument | main.go:188-204 | "/nick <arg>" in any case sets the nick to the trimmed argument, which is never empty, and broadcasts "User <id> is now known as <nick>\n" |
| Command.ArgumentNotBlank | main.go:157-194 | the text after the first space of a trimmed line is never blank |
| Command.EmptyNickUnreachable | main.go:194-197 | no line ever earns the "Nickname cannot be empty" reply, because the line is trimmed before SplitN |
| Command.NickChangesOnlyByRename | main.go:155-204 | the nick changes only through a rename, to a non-empty trimmed name that is broadcast in the rename notice |
| Command.RenameLine | main.go:188-204 | "/nick <name>\n" with a trimmed name renames the client to the name and broadcasts the rename notice |
| Text.IsSpace | main.go:157 | the runes TrimSpace drops: the Unicode White_Space set of `unicode.IsSpace` |
| Text.HasPrefix | main.go:166 | the line starts with the given prefix |
| Text.LowerRune | main.go:168 | the lower case of one rune for every rune whose lower case is an ASCII letter; other runes map to themselves |
| Command.ChatLine | main.go:179-181 | the broadcast text of a plain line: `"<nick>> <msg>
"`, or `"user:<id>> <msg>
"` when the nick is empty (its meaning is stated by PlainLineBroadcast and SpeakLine) |
| Command.RenameNotice | main.go:201 | the rename notice `"User <id> is now known as <nick>
"` (stated by NickWithArgument and RenameLine) |
| Command.InterpretNick | main.go:188-204 | handleNickCommand as a reaction: usage reply without an argument, empty-nick reply for a blank argument, else the new nick and its notice broadcast (characterised by NickWithoutArgument, NickWithArgument and EmptyNickUnreachable) |
| Command.Interpret | main.go:155-185 | handleCommand as a reaction: the line is trimmed and React decides (characterised by BlankLineIgnored, PlainLineBroadcast, UnsupportedCommand, NickWithoutArgument, NickWithArgument, EmptyNickUnreachable and NickChangesOnlyByRename) |
| Command.React | main.go:160-184 | handleCommand after the trim: blank ignored, '/' lines split and dispatched on the lowered first word, anything else broadcast as ChatLine |
| Command.Replay | main.go:131-146 | the read loop for any line handler: lines handled in order, each from the nick the earlier ones left (stated by ReplayAppend and ReplayOne) |
| Command.HandleLine | main.go:142-145 | one turn of the read loop: carriage returns removed, then handleCommand |
| Command.Session | main.go:131-146 | the read loop of listen over the lines read: Replay of HandleLine (stated by SessionStep, AnonymousSpeaks and RenameThenSpeak) |
| Chat.Client.Write | main.go:126 | one write of the text on this client's connection is appended to the log, nothing else changes |
| Chat.Client.Close | main.go:150 | the client's connection is closed |
| Chat.Client.HandleNickCommand | main.go:188-204 | the method sets the nick and writes exactly what `InterpretNick` says: the usage or empty-nick reply to the sender, or the rename notice to every observer |
| Chat.Client.HandleCommand | main.go:155-185 | the method sets the nick and writes exactly what `Interpret` says for the line |
| Chat.Render | main.go:172-183 | a reaction writes nothing for Ignore, one notice on the sender's connection for Reply, and one write per observer, in order, for Broadcast |
| Chat.RenderAllSnoc | main.go:131-146 | handling one more line appends that line's writes to the writes so far |
| Command.ReplayAppend | main.go:131-146 | reading lines a and then lines b is reading a, then reading b from the nick a left, with the effects of a before those of b |
| Command.ReplayOne | main.go:131-146 | reading one line is handling that line from the starting nick |
| Command.SessionStep | main.go:133-145 | one more line extends the session by handling that line, with carriage returns removed and the current nick |
| Chat.ReadStep | main.go:131-146 | if the writes so far are those of the session over the first i lines, handling line i gives the writes of the session over i + 1 lines |
| Chat.Client.ReadLoop | main.go:131-146 | after the loop the nick is the one `Session` ends with, and the log has grown by the writes of every line's effect, in order |
| Chat.Client.Listen | main.go:124-152 | the welcome message is written first, then each line's writes as `Session` says; the client is then removed as `RemoveFirst` says, is no longer registered at all once its session ends, and its connection is closed |
| Command.SpeakLine | main.go:142-184 | a plain trimmed text sent with its newline is broadcast as that text under the sender's name |
| Command.AnonymousSpeaks | main.go:177-183 | a client without a nick that sends plain text broadcasts `"user:<id>> <text>\n"` and keeps no nick |
| Command.RenameRead | main.go:142-204 | a "/nick <name>" line read with its newline renames the client |
| Command.RenameThenSpeak | main.go:131-204 | renaming and then sending plain text announces the rename, then broadcasts `"<name>> <text>\n"`; the name may contain inner spaces |

## Left out

- TCP listening, `Accept` errors, signal handling and shutdown (main.go:207-230, 251-260) are not modelled. They are process plumbing.
- `bufio.Reader.ReadString` and the EOF/error distinction (main.go:131-139) are not modelled. A client's input is the sequence of complete lines it sends before its connection ends. A last fragment without a newline, which ReadString returns together with the error and the loop drops without handling, is never among those lines.
- Write failures and log output are not modelled. This covers `Notify` and the welcome write (main.go:117-120, 126-129) and the `fmt.Printf`/`log` calls. `deliveries` records every write that is attempted, including writes to the closed connection of a client rejected for capacity.
- Goroutines and the mutex are not modelled. Each locked method is one atomic step. The unlocked `len(chat.observers)` read at main.go:241 is treated as part of the same sequential step.
- Chat.Client.Listen: while one client's lines are handled, the observer list does not change, so other clients joining or leaving mid-session are not modelled.
- Text.IsSpace is the full `unicode.IsSpace` set. Text.LowerRune lowers only 'A'-'Z', U+0130 and U+212A (the Kelvin sign). These are the only runes that Go's `ToLower` maps to an ASCII letter, so the comparison with "/nick" is exact. The lower case of other runes is not modelled.
- Strings are sequences of Unicode scalar values. Invalid UTF-8 input is not modelled.
- Client IDs are unbounded naturals. Go's `int` cannot overflow here: an ID is a slice length plus one, and a slice's length stays far below Go's largest `int`. IDs do grow past MaxClients + 1, since rejected clients stay in the list.
- `serversock` and `initChat` are not modelled: they are the listener plumbing.
