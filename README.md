# Room game-state machine of the party-game server

The server (`src/server.js`) runs a "fake the truth" party game over socket.io. It keeps two
global tables:

- `roomData`: room name to `{ players, answers, votes, host, currentSubject, maxRounds, currentRound }`;
- `users`: socket id to `{ name, room, score }`.

Its socket handlers update these tables one event at a time:

- join-room
- request-start-game
- submit-answer
- submit-vote
- disconnect

Two helpers go with them: `updatePlayerList` and `startNewRound`.

The project has four modules:

- **Js** (`js.dfy`) models the JavaScript built-ins whose exact behaviour matters here:
  - `String.prototype.includes`;
  - `String.prototype.replace` with a string pattern, including the `GetSubstitution` expansion of `$` patterns;
  - `parseInt` without a radix.
- **Game** (`game.dfy`) is the state machine as values. `Tables(rooms, users)` stands for the two tables. Each handler is a function from the tables before an event to the tables after it, plus the list of messages it emits (`Event`: to a room or to one socket).
- **GameProperties** (`properties.dfy`) proves what each handler does. It also proves that every handler and both timer continuations keep the consistency `Inv`:
  - every user's room exists and lists that user;
  - every room has players and no player twice.
- **Server** (`server.dfy`) holds the handlers as they run, as imperative code:
  - `Room` is a class whose fields the handlers assign in place;
  - `GameServer` holds `roomData` (a map to `Room` objects), `users` and the question pool;
  - every handler is proved to leave `View()`, the tables read out of the heap, exactly as the matching `Game` function says, and to keep `Valid()`.

`Math.random` is replaced by choice parameters:

- `qi` is the question index;
- `pi` is the index of the player chosen as the round's subject;
- `picks` is the order the random-comparator sort leaves the answers in. `ShuffleReachesEveryOrder` proves that every order is reachable.

Each `setTimeout` continuation that a completed vote schedules is returned as a `Timer` that holds the room object, as the closure does. `FireTimer` applies the continuation later, to that object. If the room has been deleted in the meantime, the tables do not change.

The code does not do the following, and the model follows the code:

- It does not deduplicate: a repeated answer or vote from the same socket is counted again.
- It keeps no game phase: every handler runs in any state.
- It does not put the subject's name into the question literally: `replace` expands `$` patterns in the name (see Findings).
- A disconnect neither hands the host role to another player nor re-checks the answer or vote thresholds.
- It never cancels a pending timer. When the next-round or game-over timer fires after its room was deleted, the tables do not change, but the "Starting Round" message and the question, or "!GAME OVER!", are still sent to the room name the timer captured, which by then may belong to a new room.
- It does not hide anything in the start-voting broadcast, which carries the whole answer records, the authors' socket ids and the `isCorrect` flag included.
- It does not refuse blank answers; only the browser client does.

## Model

| member | source | states |
|---|---|---|
| Js.IndexOfFrom | src/server.js:212 | the index found is an occurrence of the pattern at or after the start, and no earlier one exists; `None` means no occurrence from there on |
| Js.ContainsIff | src/server.js:212 | `includes` holds exactly when the pattern occurs somewhere in the text |
| Js.Contains | src/server.js:212 | no contract; `includes` is read as "the first index of the pattern exists", and `ContainsIff` states what that means |
| Js.ReplaceFirstAfterPrefix | src/server.js:223 | when the prefix does not contain the pattern and the pattern's first character does not recur in it (so it cannot overlap itself), the first occurrence is right after the prefix, and only that one is replaced |
| Js.Expand | src/server.js:223 | no contract; the replacement text of ECMAScript's GetSubstitution for a string pattern, described by `ExpandWithoutDollar`, `JsReplaceExpandsDollars` and `JsReplaceMatchKeepsText` |
| Js.JsReplace | src/server.js:223 | no contract; `replace` as written, the first occurrence replaced by the expanded name; `JsReplaceWithoutDollar`, `JsReplaceExpandsDollars` and `JsReplaceMatchKeepsText` describe it |
| Js.ReplaceFirst | src/server.js:223 | no contract; the literal first-occurrence replacement the source evidently intends, described by `ReplaceFirstAfterPrefix` and tied to `JsReplace` by `JsReplaceWithoutDollar` |
| Js.JsReplaceMatchKeepsText | src/server.js:223 | as written, `replace` with the name "$&" returns every text unchanged, because "$&" stands for the matched text |
| Js.ExpandWithoutDollar | src/server.js:223 | a replacement text without `$` is inserted as it is |
| Js.JsReplaceWithoutDollar | src/server.js:223 | with no `$` in the name, JavaScript's `replace` equals the literal first-occurrence replacement |
| Js.JsReplaceExpandsDollars | src/server.js:223 | as written, `replace` turns the name "$$" into "$"; the literal replacement keeps "$$" |
| Js.TrimStart | src/server.js:73 | `parseInt` skips exactly the leading run of white space and line terminators |
| Js.TrimStartSkips | src/server.js:73 | white space followed by a non-space character is skipped up to that character |
| Js.DigitRun | src/server.js:73 | the digit prefix that `parseInt` reads is the longest run of digits of the radix |
| Js.DigitRunOfDigits | src/server.js:73 | digits followed by a non-digit are read up to the non-digit |
| Js.ValueOfDecimal | src/server.js:73 | the digits of a decimal numeral evaluate back to the number |
| Js.ParseMagnitudeDigits | src/server.js:73 | an unsigned run of decimal digits, leading zeros included, followed by any text that does not start with a decimal digit (nor, after a lone `0`, with `x` or `X`) is read in radix 10 and parses to the digits' value |
| Js.ParseMagnitudeDecimal | src/server.js:73 | the same for the decimal numeral of `n` without leading zeros: it parses back to `n` |
| Js.ParseSignedDigits | src/server.js:73 | after the white space, one optional `+` or `-` before such a run of digits gives the digits' value or its negation |
| Js.ParseSignedOf | src/server.js:73 | a `+` or `-` sign, or none, before a magnitude gives that value or its negation |
| Js.ParseInt | src/server.js:73 | no contract; `parseInt` without a radix: leading white space, one sign, then the magnitude; `ParseIntDigits`, `ParseIntDecimal`, `ParseSignedOf` and the `RoundCountOf*` lemmas give its value |
| Js.ParseIntDigits | src/server.js:73 | `parseInt(ws + sign + ds + rest)`, for white space `ws`, an optional sign and any non-empty run `ds` of decimal digits, leading zeros included, is the signed value of `ds` for any `rest` that does not start with a decimal digit (nor, after a lone `0`, with `x` or `X`), letters included |
| Js.ParseIntDecimal | src/server.js:73 | the same for the decimal numeral of `n` without leading zeros: `parseInt` reads it back as the signed `n` |
| Js.ParseIntLeadingZeros | src/server.js:73 | "007" parses to 7: leading zeros are decimal digits, not an octal prefix |
| Game.PlayerNames | src/server.js:197-199 | the names projected from the player ids never outnumber the ids |
| Game.PickSubject | src/server.js:212-225 | the chosen subject is always a listed player of the room and a registered user |
| Game.RoundCount | src/server.js:73 | `parseInt(totalRounds) \|\| 5` never yields 0 |
| Game.Shuffled | src/server.js:102 | the sort keeps the number of answers |
| Game.TruthBeneficiary | src/server.js:118-127 | whoever gains the truth bonus is a registered user |
| Game.Without | src/server.js:176 | the filtered list holds exactly the other ids and is no longer |
| Game.UpdatePlayerList | src/server.js:190-203 | the definition the join and disconnect lemmas and `GameServer.UpdatePlayerList` are proved against; its contract: exactly one message, to the room itself, when the room exists, and none otherwise |
| Game.JoinRoom | src/server.js:37-62 | the definition the join lemmas and `GameServer.OnJoinRoom` are proved against; its contract: the joiner is registered in the room, which exists and lists the joiner |
| Game.NewRound | src/server.js:205-241 | the definition the new-round lemmas and `Room.StartNewRound` are proved against; its contract: players, host and round counters are kept, a subject is a listed, registered player, and two messages are sent |
| Game.RequestStart | src/server.js:65-81 | the definition the start lemmas and `GameServer.OnRequestStartGame` are proved against; its contract: users, room names and every room's players are unchanged |
| Game.SubmitAnswer | src/server.js:84-107 | the definition the answer lemmas and `GameServer.OnSubmitAnswer` are proved against; its contract: users, room names and every room's players are unchanged, and one message is sent exactly when the sender is registered |
| Game.CastVote | src/server.js:115-164 | the definition `Room.RecordVote` is proved against; its contract: players, host and subject are kept, and results come out exactly when this vote brings the vote count to the player count |
| Game.SubmitVote | src/server.js:110-168 | the definition the vote lemmas and `GameServer.OnSubmitVote` are proved against; its contract: registered users, room names and every room's players are unchanged, and one message is sent exactly when the sender is registered |
| Game.GameOver | src/server.js:155-159 | the definition `Room.EndGame` and `GameOverResets` are proved against; its contract: the round counter becomes 0, the players are kept, and one message is sent |
| Game.Disconnect | src/server.js:171-186 | the definition the disconnect lemmas and `GameServer.OnDisconnect` are proved against; its contract: exactly the sender's user record is removed, and no room is added |
| Game.WithPlayer | src/server.js:47-49 | no contract; `JoinAddsPlayerOnce` states that the joiner is appended only when not listed, so no duplicate appears |
| Game.TakesHost | src/server.js:52 | no contract; `JoinHost` states the host rule in both directions |
| Game.QuestionAt | src/server.js:207-208 | no contract; `questions[qi]`, where an index past the end reads `undefined`; `NewRoundSubject` states the text sent |
| Game.QuestionText | src/server.js:221-224 | no contract; the question as sent, built with JavaScript's `replace` as written; `NewRoundSubject`, `NewRoundSubstitutesName` and `DollarNameKeepsPlaceholder` describe it |
| Game.IntendedQuestionText | src/server.js:221-224 | no contract; the question with the name put in literally, as evidently intended; `IntendedTextSubstitutesName` and `QuestionTextAsIntended` describe it |
| Game.MayStart | src/server.js:66-71 | no contract; the start guard (registered sender, existing room, sender is host); `StartOnlyByHost` states that the handler acts exactly when it holds |
| Game.NewAnswer | src/server.js:89-99 | no contract; `AnswerAppends` states the record appended: the previous count as id, no votes, the sender as author, true exactly when the sender is the subject |
| Game.Beneficiary | src/server.js:120-127 | no contract; `TruthBeneficiary` and `VoteScoring` state who gains the bonus |
| Game.Award | src/server.js:121-125 | no contract; `VoteScoring` states that exactly the beneficiary's score rises by 10 and every other user is unchanged |
| Game.CountTruth | src/server.js:118-119 | no contract; `CountedAnswers` states that only the chosen answer's vote count rises by 1 |
| Game.CountFunny | src/server.js:130-131 | no contract; `CountedAnswers` states that only the chosen answer's funny-vote count rises by 1 |
| Game.Results | src/server.js:137-143 | no contract; `ResultsMatchAnswers` states one entry per answer, in order, with author, text, both counts and the truth flag |
| Game.MoreRounds | src/server.js:148 | no contract; `VoteCompletesRound` states that the round counter advances exactly when it holds |
| GameProperties.PlayerNamesAppend | src/server.js:197-199 | the names of two lists of ids joined are the names of each, joined in order |
| GameProperties.PlayerNamesSkipsUnregistered | src/server.js:198-199 | an unregistered id contributes no name and shifts no other name |
| GameProperties.PlayerNamesAllRegistered | src/server.js:197-199 | when every id is registered, the i-th name is the i-th player's name |
| GameProperties.PlayerNamesMembers | src/server.js:197-199 | a name is listed exactly when some listed, registered player has it |
| GameProperties.WithoutNoDuplicates | src/server.js:176 | filtering a player out keeps the list free of duplicates |
| GameProperties.WithoutAbsent | src/server.js:176 | filtering out an id that is not listed changes nothing |
| GameProperties.WithoutAt | src/server.js:176 | filtering the player at index `i` out of a duplicate-free list leaves the players before and after it, in their order |
| GameProperties.ShuffledIsPermutation | src/server.js:102 | the shuffled answers are a permutation of the answers |
| GameProperties.ShuffleReachesEveryOrder | src/server.js:102 | every permutation of the answers is produced by some choice of picks |
| GameProperties.FirstPickFor | src/server.js:102 | any permutation's first element can be picked first, and the rest is a permutation of what remains |
| GameProperties.JoinCreatesRoom | src/server.js:43-55 | joining an unknown room creates it with the joiner as its only player and its host, and tells the joiner it is host |
| GameProperties.JoinAddsPlayerOnce | src/server.js:48-50 | the joiner is listed afterwards, appended only when not already listed, so no duplicate appears |
| GameProperties.JoinHost | src/server.js:52-55 | the joiner becomes host, and is told so, exactly when the room had no host or the joiner is now its only player; otherwise the host is unchanged |
| GameProperties.JoinFrame | src/server.js:39-50 | the user record becomes `{name, room, score: 0}`; other rooms are unchanged; the joined room keeps its answers, votes, subject and round counters |
| GameProperties.JoinBroadcastsNames | src/server.js:61 | the last message of a join is the player list of the room, and it includes the joiner's name |
| GameProperties.RoundCountOfDigits | src/server.js:73 | a round count that starts with a run of decimal digits, leading zeros included, after white space and a sign, is taken as the digits' signed value for any text after it that does not start with a decimal digit nor, after a lone `0`, with `x` or `X`; and a value of 0 becomes 5 |
| GameProperties.RoundCountOfDecimal | src/server.js:73 | the same for the decimal numeral of `n` without leading zeros: the count is the signed `n`, and 0 becomes 5 |
| GameProperties.RoundCountLeadingZeros | src/server.js:73 | "007" gives 7 rounds |
| GameProperties.RoundCountExamples | src/server.js:73 | "3rounds" gives 3 rounds, " -2" gives -2, "ten" gives 5 |
| GameProperties.RoundCountOfNonNumber | src/server.js:73 | a round count that does not start with a sign, white space or a decimal digit, a letter for instance, becomes 5 |
| GameProperties.StartOnlyByHost | src/server.js:66-71 | the handler emits something exactly when the sender is registered, its room exists and it is the host; otherwise nothing changes |
| GameProperties.StartSetsRounds | src/server.js:73-77 | on a start, `maxRounds` is the parsed count, `currentRound` is 1, the round is reset, players, host, users and other rooms are unchanged, and "Starting Round 1 of N" is announced; round 1's subject and question are chosen exactly as `NewRoundSubject` states: there is a subject exactly when the question holds `{player}` and the chosen player is listed and registered, and the question is then sent with that player's name put in by `replace` |
| GameProperties.NewRoundResets | src/server.js:229-232 | a new round empties answers and votes and sets the subject; nothing else in the room changes |
| GameProperties.NewRoundSubject | src/server.js:207-232 | there is a subject exactly when the question holds `{player}`, the room has players and the chosen one is registered; the question sent is then the text with its first `{player}` replaced by JavaScript's `replace` with that player's name, `$` patterns expanded |
| GameProperties.NewRoundSubstitutesName | src/server.js:221-224 | for a subject whose name holds no `$`, the question "pre{player}post", for a `pre` that does not hold "{player}", is sent as "pre<name>post", with the named player as subject |
| GameProperties.IntendedTextSubstitutesName | src/server.js:221-224 | the intended text puts any name, `$` or not, into "pre{player}post" literally, for a `pre` that does not hold "{player}" |
| GameProperties.QuestionTextAsIntended | src/server.js:223 | the question text as written and as intended are equal whenever the subject's name holds no `$` |
| GameProperties.DollarNameKeepsPlaceholder | src/server.js:223 | as written, a player named "$&" leaves "pre{player}post" unchanged for every `pre`, where the literal substitution gives "pre$&post" for a `pre` that does not hold "{player}" |
| GameProperties.AnswerAppends | src/server.js:89-106 | exactly one answer is added, with the previous count as id, no votes, the sender as author, and true exactly when the sender is the subject; below the threshold the order is kept and only the sender is told to wait |
| GameProperties.AnswerOpensVoting | src/server.js:101-103 | voting starts exactly when the answer count reaches the player count, and it broadcasts the room's answers in their new order |
| GameProperties.AnswerFromUnregistered | src/server.js:85-86 | an answer from an unregistered socket changes nothing and emits nothing |
| GameProperties.RepeatAnswerOpensVoting | src/server.js:91-103 | two answers from the same player of a two-player room open the voting |
| GameProperties.VoteScoring | src/server.js:118-128 | exactly one party gains 10 points: the voter for the true answer, else the chosen answer's author if still registered; an out-of-range index awards nothing |
| GameProperties.FunnyVoteNeverScores | src/server.js:130-132 | the funny vote never affects any score |
| GameProperties.VoteFromUnregistered | src/server.js:111-112 | a vote from an unregistered socket changes nothing, emits nothing and schedules nothing |
| GameProperties.CountedAnswers | src/server.js:115-132 | counting a ballot adds one vote to the answer at the truth index and one funny vote to the answer at the funny index, each only when it is an index of the answers, and changes nothing else |
| GameProperties.VoteCounts | src/server.js:115-167 | below the threshold, the truth and funny indices each add one vote to their answer, the voter's name is recorded, and only the voter is told to wait |
| GameProperties.ResultsMatchAnswers | src/server.js:137-143 | the results have one entry per answer, in order, with author, text, both counts and the truth flag |
| GameProperties.VoteCompletesRound | src/server.js:136-164 | the last vote broadcasts one result entry per answer, carrying its votes and funny votes with this ballot counted in, clears answers and votes, advances the round exactly when rounds remain, and schedules the next round exactly then, game over otherwise; no other room changes, and no room is added or removed |
| GameProperties.GameOverResets | src/server.js:155-159 | game over sets `currentRound` to 0 and changes nothing else |
| GameProperties.DisconnectRemoves | src/server.js:172-185 | the user is unregistered and leaves its room's players, the others staying in their order; the room is deleted exactly when no players remain; other rooms are unchanged |
| GameProperties.DisconnectUnregistered | src/server.js:172-173 | a disconnect by an unregistered socket changes nothing |
| GameProperties.DisconnectKeepsRoundState | src/server.js:175-183 | a disconnect keeps the host, subject, answers, votes and round counters, and never starts voting or shows results |
| GameProperties.InitialInv | src/server.js:22-30 | the empty tables are consistent |
| GameProperties.InvRoomOfSenderExists | src/server.js:84-113 | in consistent tables the sender's room exists, as submit-answer and submit-vote assume |
| GameProperties.InvSamePlayers | src/server.js:71-77 | replacing a room record by one with the same players keeps the tables consistent |
| GameProperties.JoinKeepsInv | src/server.js:37-62 | join-room keeps the tables consistent |
| GameProperties.StartKeepsInv | src/server.js:65-81 | request-start-game keeps the tables consistent |
| GameProperties.AnswerKeepsInv | src/server.js:84-107 | submit-answer keeps the tables consistent |
| GameProperties.VoteKeepsInv | src/server.js:110-168 | submit-vote keeps the tables consistent |
| GameProperties.DisconnectKeepsInv | src/server.js:171-186 | disconnect keeps the tables consistent |
| GameProperties.TimersKeepInv | src/server.js:150-159 | both timer continuations keep the tables consistent |
| Server.Room.constructor | src/server.js:42-44 | a new room record has no players, answers, votes or host |
| Server.Room.StartNewRound | src/server.js:205-241 | the room object and the messages are exactly those of `Game.NewRound`, the question text built with JavaScript's `replace` as the source does |
| Server.Room.AddPlayer | src/server.js:48-55 | the id is appended unless already listed, and it takes the host role exactly as `Game.TakesHost` says |
| Server.Room.RecordVote | src/server.js:115-164 | the counts, the recorded voter, the results and the round advance are exactly those of `Game.CastVote` |
| Server.Room.EndGame | src/server.js:155-159 | the room object and the message are exactly those of `Game.GameOver` |
| Server.GameServer.constructor | src/server.js:22-30 | the server starts with empty, consistent tables |
| Server.GameServer.UpdatePlayerList | src/server.js:190-203 | the message sent is exactly `Game.UpdatePlayerList` of the current tables, and nothing changes |
| Server.GameServer.OnJoinRoom | src/server.js:37-62 | keeps `Valid`, and leaves the tables and the messages as `Game.JoinRoom` says; rooms that already existed keep their objects |
| Server.GameServer.ApplyJoin | src/server.js:37-62 | the handler's updates leave the tables and the messages as `Game.JoinRoom` says |
| Server.GameServer.RoomNamed | src/server.js:42-44 | returns the stored room object, or stores a fresh empty one when there is none |
| Server.GameServer.OnRequestStartGame | src/server.js:65-81 | keeps `Valid`, and leaves the tables and the messages as `Game.RequestStart` says |
| Server.GameServer.ApplyRequestStart | src/server.js:65-81 | the handler's updates leave the tables and the messages as `Game.RequestStart` says |
| Server.GameServer.OnSubmitAnswer | src/server.js:84-107 | keeps `Valid`, and leaves the tables and the messages as `Game.SubmitAnswer` says |
| Server.GameServer.ApplySubmitAnswer | src/server.js:84-107 | the handler's updates leave the tables and the messages as `Game.SubmitAnswer` says |
| Server.GameServer.OnSubmitVote | src/server.js:110-168 | keeps `Valid`, leaves the tables and the messages as `Game.SubmitVote` says, and returns a timer exactly when a follow-up is scheduled; the timer holds the sender's room object and is of the kind scheduled |
| Server.GameServer.ApplySubmitVote | src/server.js:110-168 | the handler's updates leave the tables, the messages and the timer as `Game.SubmitVote` says |
| Server.GameServer.AwardTruth | src/server.js:118-128 | the users table gains the truth bonus exactly as `Game.Award` of `Game.TruthBeneficiary` says |
| Server.GameServer.FireTimer | src/server.js:150-159 | the timer's room object becomes `Game.NewRound` or `Game.GameOver` of its state when the timer fires; the tables stay consistent, and they change only if the room is still stored |
| Server.GameServer.OnDisconnect | src/server.js:171-186 | keeps `Valid`, leaves the tables and the messages as `Game.Disconnect` says, and keeps the objects of the rooms that remain |
| Server.GameServer.ApplyDisconnect | src/server.js:171-186 | the handler's updates leave the tables and the messages as `Game.Disconnect` says |
| Server.GameServer.LeaveRoom | src/server.js:175-183 | the sender leaves the room's players, the player list is sent, and the room is deleted, with a notice, exactly when it is empty |

## Left out

- Transport: Express static serving, the HTTP server, the socket.io wiring and `socket.join` are not modelled. An `io.to(room).emit` or `socket.emit` becomes an `Event` in the returned list.
- The `setTimeout` delays are not modelled. A completed vote returns a `Timer`, and the caller fires it with `FireTimer` whenever it chooses. The 2-second delay before the question of a new round is sent is modelled as an immediate message, because the text is fixed when the round starts.
- `console.log` and loading `questions.json` are left out: they are I/O. The question pool is a sequence of question texts, fixed when the server is built. An entry whose `text` is missing or not a string is not modelled.
- `src/client.js` and `debug.js` are not part of this model. They are browser UI and loading checks.
- Strings are sequences of Dafny characters, not of UTF-16 code units.
- Js.ParseInt returns the exact value of the digits read. The source rounds that value to a double, and a numeral longer than about 309 digits becomes `Infinity`; neither is modelled.
- Socket payloads are taken as already converted:
  - a room name and a player name are strings, so a `null` name, which `updatePlayerList` filters out (src/server.js:198-199), cannot be expressed; only a missing user record is skipped;
  - a round count is a string;
  - a vote index is an integer or `None`. `None` stands for `null`, a missing index, and any key that is not an integer index of the answers.
- `null` and `undefined` are both `None`. Room names that are keys of `Object.prototype` are treated as ordinary names.
- Arithmetic is unbounded. Scores and counters in the source are doubles, which lose exactness only above 2^53.
- Game.SubmitAnswer, Game.SubmitVote and their server methods require the sender's room to exist. In the source, a missing room raises a TypeError. `InvRoomOfSenderExists` shows this never happens from consistent tables.
- Game.QuestionAt accepts a question index past the end of a non-empty pool and reads `undefined`. The source's random index is always in range, so this only adds behaviour that cannot occur.
- Server.Room.StartNewRound: a player index past the end of the players reads `undefined`, which is never registered. The source's random index is always in range, so this only adds behaviour that cannot occur.

## Findings

| source | as written | input that shows it | evidently intended | confidence | as-written member | corrected member |
|---|---|---|---|---|---|---|
| src/server.js:223 | `questionData.text.replace("{player}", randomPlayerName)` passes the player's name as a replacement pattern, so `$$`, `$&`, `` $` `` and `$'` in a name are expanded | a player named `$&` chosen as subject of "Who would {player} call?" gets the question back unchanged, placeholder and all; a name `$$` shows as `$` | the name appears in the question literally | medium, not executed | Game.QuestionText, built on Js.JsReplace and used by Game.NewRound and Server.Room.StartNewRound (shown by GameProperties.DollarNameKeepsPlaceholder and Js.JsReplaceExpandsDollars) | Game.IntendedQuestionText, built on Js.ReplaceFirst (proved by GameProperties.IntendedTextSubstitutesName; equal to the written text on names without `$` by GameProperties.QuestionTextAsIntended) |
