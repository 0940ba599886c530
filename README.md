# TargetTakedown game server, modelled in Dafny

TargetTakedown is a two-player number-guessing game served over WebSockets
by `server.js`. A player creates a game and receives a code. A second player
joins with that code. In each round both send a number. The target is 0.8
times the average of the two numbers, and whoever is closer to it wins the
round. Every other slot loses a point. A slot that lets the round time out
without a number also loses a point. The game ends when some score reaches
-10.

This project models the per-game state machine behind the socket handlers:

- the `games` registry, which maps a code to a game;
- the games themselves: slots with username, socket, score and this round's number, plus the `isTimeout` flag and the `round` field;
- the handlers `handleCreateGame`, `handleJoinGame`, `handleNumberSubmission`, `handleTimeout`, `calculateResult`, `checkGameOver` and `startNextRound`;
- the `close` handler and the `message` dispatch.

The model has four modules.

- `game.dfy` (`GameModel`) holds the values: slots, games, outbound messages and events. It also holds the `findIndex` of the first loser, a slot's number update, the one-point penalty and the clearing of a round.
- `scoring.dfy` (`Scoring`) holds the arithmetic of a round: sum, average, target, distance, and the `reduce` that picks the winner.
  - Every quantity is scaled to an exact integer: the average times 2, the target times 5 and the distance times 5. Scaling by a positive constant keeps every comparison, so the winner is the one the floating-point code picks for integer numbers.
  - With numbers a and b, the two scaled distances are |3a - 2b| and |3b - 2a|. They are equal exactly when a == b or a == -b. For numbers that are not negative only a == b remains.
- `sessions.dfy` (`Sessions`) gives one transition function per handler over a `World`. A `World` is the registry plus the log of every event sent, and each handler's function gives the new `World`. The lemmas there state what each handler does.
- `server.dfy` (`Server`) holds the handlers as the source runs them.
  - `Registry` is the shared `games` object, with the events sent so far.
  - `Connection` is one socket's closure: its id and the `gameCode` it created.
  - The methods change the registry step by step, with loops over the slots. Each is proved to end in the state that the matching `Sessions` function gives.

Three quirks of the source are kept as they are:

- `checkGameOver` deletes `games[gameCode]`. Here `gameCode` is the code of the connection running the handler, which only a `create` sets, not the code of the game being checked. On a joiner's connection nothing is deleted. On a creator's connection that handles another game, the creator's own game is deleted. The handler's context carries this code as `own: Option<string>`.
- The penalty loops run `checkGameOver` after every point taken. After a game ends it is checked again, so the game-over message can go out more than once. `TimeoutCanAnnounceGameOverThrice` shows a timeout that sends it three times.
- There is no guard against a second submission or a second timeout in the same round. `round` is never advanced.

The handler works on the game object it looked up. A change to that object reaches the registry only while the code still maps to it. `WriteBack` models this: once `checkGameOver` has removed the entry, later changes reach no one.

The source throws on some inputs.

- Two of them are preconditions here. The first is a `playerNumber` outside the game's slots, read at server.js:85-86. The second is a round end that leaves a lone creator at or below -10: the winner's name is then read from a slot 2 that does not exist.
- Two others are outside the model. One is a payload that parses to `null`. The other is a game code naming a property that every JavaScript object inherits, such as `toString` or `__proto__`. Both are described under "Left out".

Every other input, including a one-slot game, is handled as the source handles it.

## Model

| member | source | states |
|---|---|---|
| GameModel.LoserIndex | server.js:163 | the result is -1 exactly when every score is above -10; otherwise it is the lowest index whose score is at or below -10 |
| GameModel.SetNumber | server.js:85-86 | the addressed slot now holds the submitted number; its name, socket and score are kept; every other slot, the flag and the round are unchanged |
| GameModel.ClearRound | server.js:187-191 | every number is null and the timeout flag is down; scores, usernames, sockets, slot count and `round` are kept |
| GameModel.LoserPersists | server.js:163 | when scores only go down, a game with a loser still has one, and the first loser's index does not grow |
| Scoring.ArgMinFromIsFirstMin | server.js:130-133 | the strict-`<` reduce from distance Infinity and index -1 ends at the first index holding the smallest distance, or at -1 for no slots |
| Scoring.WinnerIndex | server.js:126-133 | the winner is -1 with no slots; otherwise it is the first slot whose distance to the target is minimal |
| Scoring.FirstMinUnique | server.js:130-133 | the first minimal index is unique, so the winner is fully determined by the distances |
| Scoring.TwoDistances | server.js:126-131 | with numbers a and b, the scaled distances to the target are abs(3a - 2b) and abs(3b - 2a) |
| Scoring.TwoPlayerWinner | server.js:130-133 | with two numbers, slot 1 wins exactly when strictly closer than slot 0; otherwise slot 0 wins |
| Scoring.TwoPlayerTie | server.js:131-132 | the two distances are equal exactly when a == b or a == -b |
| Scoring.NonNegativeSmallerWins | server.js:126-133 | for numbers that are not negative, the strictly smaller number wins and a tie goes to slot 0 |
| Scoring.ExampleFortySixty | server.js:126-133 | numbers 40 and 60 give average 50 and target 40, and slot 0 wins |
| Scoring.ExampleTie | server.js:126-133 | numbers 50 and 50 are both 10 from target 40, and slot 0 wins |
| Sessions.CreateGame | server.js:50-60 | the code maps to a one-slot game (the creator, score 0, no number, flag down, round 0); every other entry is unchanged; the creator is sent the code |
| Sessions.GameOverCheck | server.js:162-185 | it reports the end exactly when there is a loser; then every slot is told the name opposite the first loser and the connection's own code is deleted; otherwise nothing changes |
| Sessions.GameOverIffSomeoneAtLosingScore | server.js:163-165 | the check reports the end exactly when some score is at or below -10 |
| Sessions.LoopAnnouncements | server.js:136-141 | what the penalty loop's checks send is game-over announcements and nothing else |
| Sessions.PenalizeFrom | server.js:136-141 | the penalty loop keeps the slot count, flag and round, and leaves an announceable game |
| Sessions.PenalizeGame | server.js:136-141 | the loop takes exactly one point from each masked slot and changes nothing else in any slot |
| Sessions.LoserSurvivesLoop | server.js:136-141 | a game with a slot at or below -10 still has one after the rest of the loop |
| Sessions.PenalizeRegistry | server.js:136-141 | after the loop, the registry holds the final game under its code if the entry survives; the connection's own entry is gone when a check inside the loop found a loser |
| Sessions.PenalizeLog | server.js:136-141 | the loop appends exactly `LoopAnnouncements`: for each masked slot in order, after its point, the game-over message to every slot when some slot is then at or below -10, and nothing else |
| Sessions.QuietLoop | server.js:136-141 | a loop that leaves no slot at or below -10 sends nothing |
| Sessions.Finish | server.js:157-159 | the next round is scheduled exactly when there is no loser; otherwise the game-over announcement goes out and the own code is deleted |
| Sessions.SettleOutcome | server.js:135-159 | the end of a round in closed form: masked slots lose one point; the registry holds the new game, without the own entry when there is a loser; the log gains the loop's announcements (none when no slot ends at or below -10), then the score report to every slot, then the game-over announcement or the scheduled round |
| Sessions.TimeoutOutcome | server.js:93-120 | a timeout raises the flag and takes one point from exactly the slots without a number; numbers and the submitters' scores are kept; the log gains the loop's announcements, the new scores to every slot, then the game-over announcement or the scheduled round; without a loser it gains only the scores and the scheduled round |
| Sessions.TimeoutPreservesValid | server.js:93-120 | every game stays valid after a timeout |
| Sessions.TimeoutCanAnnounceGameOverThrice | server.js:97-119 | two slots at -9 without a number: one timeout sends slot 2's win to both slots after each point and again after the score report |
| Sessions.RepeatedTimeoutPenalisesAgain | server.js:97-105 | a second timeout in the same round takes a second point from a slot still without a number |
| Sessions.TimeoutAfterSubmissionsPenalisesNobody | server.js:100-105 | a timeout after every slot submitted changes no score and leaves the flag up |
| Sessions.ResolveOutcome | server.js:122-160 | with the flag down, exactly the slots other than the winner lose one point; every slot is sent the numbers, twice the average, five times the target, the 1-based winner and the new scores, after the loop's announcements (none without a loser); then comes the game-over announcement or the scheduled round |
| Sessions.ResolveLog | server.js:136-159 | the resolved round's log, with the result sent to the sockets of the slots as they stood before the penalties |
| Sessions.ResolvePreservesValid | server.js:122-160 | every game stays valid after a round is resolved |
| Sessions.ResolveReportsToEverySlot | server.js:144-155 | after resolving with the flag down, every slot has been sent a `result` carrying the round's numbers |
| Sessions.ResolveAfterTimeoutIsNoop | server.js:124 | with the flag up, resolving changes nothing |
| Sessions.TwoPlayerResolution | server.js:130-142 | with two slots, the winner is slot 1 only when strictly closer to the target; the winner keeps its score and the other slot loses one point |
| Sessions.SubmissionWithoutResolution | server.js:85-90 | a submission that leaves a slot without a number, or comes after a timeout, gives the old world with only that slot's number overwritten: the codes are kept, no score changes and nothing is sent |
| Sessions.SubmissionCompletingRoundReportsResult | server.js:88-89 | a submission that gives every slot a number, with the flag down, resolves the round: every slot is sent the `result` |
| Sessions.SubmissionToUnknownCode | server.js:82-83 | a submission to an unknown code changes nothing |
| Sessions.SubmissionPreservesValid | server.js:81-91 | every game stays valid after a submission |
| Sessions.JoinOutcome | server.js:62-79 | a game with a free slot takes the joiner as slot 2; slot 1 and slot 2 are sent their 1-based numbers and each other's names, then the round start; a missing or full game is left untouched |
| Sessions.CloseConnection | server.js:202-206 | close only removes entries: the connection's own non-empty code is gone afterwards, every other entry stays, and nothing is sent |
| Sessions.ScheduledRoundPreservesValid | server.js:118 | the delayed round start keeps every game valid |
| Sessions.StepPreservesValid | server.js:31-48 | every handled message keeps every game valid: one or two slots, round 0, and a lone slot above -10 |
| Server.Registry.constructor | server.js:22 | the registry starts empty and nothing has been sent |
| Server.Registry.SendTo | server.js:59 | one message goes to one connection; the registry is unchanged |
| Server.Registry.SendAll | server.js:193-199 | the loop sends the same message to every slot in slot order |
| Server.Registry.Update | server.js:102 | a change to a game object shows in the registry only while its code is registered |
| Server.Registry.Remove | server.js:181 | `delete` removes the code and nothing else |
| Server.Registry.Schedule | server.js:118 | scheduling appends a next-round event and changes no game |
| Server.Connection.constructor | server.js:28-29 | a new connection has no game code |
| Server.Connection.HandleCreateGame | server.js:50-60 | the handler ends in the state `CreateGame` gives, sets the connection's code and keeps games valid |
| Server.Connection.HandleJoinGame | server.js:62-79 | the push, the loop of `start` messages and the round start end in the state `JoinGame` gives |
| Server.Connection.StartNextRound | server.js:187-200 | the loop clears every number; the game ends as `ClearRound` gives and the registry as `NextRound` gives |
| Server.Connection.RunScheduledRound | server.js:118 | the scheduled round start ends in the state `ScheduledRound` gives |
| Server.Connection.CheckGameOver | server.js:162-185 | the answer and the new state are those of `GameOverCheck` for the connection's own code |
| Server.Connection.PenalizeWhere | server.js:136-141 | the `forEach` of point deductions with a check after each ends in the game and state `PenalizeFrom` gives |
| Server.Connection.ReportAndFinish | server.js:144-159 | the score report to every slot, followed by the end check, ends as `Finish` gives |
| Server.Connection.HandleTimeout | server.js:93-120 | the handler ends in the state `FireTimeout` gives and keeps games valid |
| Server.Connection.CalculateResult | server.js:122-160 | the handler, including its guard on a winner index of -1, ends in the state `Resolve` gives |
| Server.Connection.HandleNumberSubmission | server.js:81-91 | the handler ends in the state `SubmitNumber` gives and keeps games valid |
| Server.Connection.OnClose | server.js:202-206 | the close handler ends in the state `CloseConnection` gives |
| Server.Connection.OnMessage | server.js:31-48 | the dispatch ends in the state and own code that `Step` gives, and keeps games valid |

## Left out

- Serving static files, choosing the port, `app.listen` and opening a browser (server.js:1-19) are process set-up.
- The WebSocket transport, `JSON.parse` and `JSON.stringify` are not modelled.
  - Outbound messages are `Event`s appended to a log.
  - Inbound messages are the closed datatype `Inbound`; an unknown `type` is ignored, as the `switch` does.
  - A malformed payload that makes `JSON.parse` throw is not modelled.
- `setTimeout(..., 2000)` is recorded as a `NextRoundScheduled` event rather than as time.
  - `RunScheduledRound` looks the game up by its code when it fires.
  - The source's callback holds the game object itself. A callback that fires after the game left the registry still sends `roundStart` to that game's sockets. The model does nothing in that case.
- `generateGameCode` draws the code from `Math.random`; the model takes the code as the parameter `freshCode`. As in the source, there is no collision check, and an existing entry under that code is overwritten.
- The `games` object is a plain `{}` (server.js:22). A code such as `toString`, `constructor` or `__proto__` therefore finds an inherited property, and `join`, `number` and `timeout` throw when they read its missing `players` (server.js:64, 85, 100). The model's map holds only registered codes, so such a code counts as unregistered and the message changes nothing.
- A payload that parses to `null` throws when `data.type` is read (server.js:34). `Inbound` has no such value.
- The average and the target are floating-point values in the source; the model uses exact integer scaling. Non-integer numbers, `null` or non-numeric submissions (NaN distances) and floating-point rounding are not modelled. Numbers are integers.
- `delete games[gameCode]` on a connection that never created a game deletes the key `"undefined"`. No generated code has that form, so the model deletes nothing (`own` is `None`).
- The source crashes on these inputs, and the model makes them preconditions:
  - a submission with a `playerNumber` outside the game's slots (server.js:85-86);
  - a round end that leaves a lone creator at or below -10 (server.js:168).
- Sessions.PenalizeFrom: its own contract only keeps the slot count, flag and round. What the loop does to each slot is stated by `PenalizeGame`, `PenalizeRegistry` and `PenalizeLog`.
- Two objects aliasing one game is not modelled. An example is a game object kept by a handler after its code was re-created. Games are values in the registry, written back under their code.
