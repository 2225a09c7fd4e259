# Balance scale game server: a Dafny model

A model of the game engine of the balance-scale ("Tenbin") backend. Players
join a room over a WebSocket. Once the room is full, rounds are played: every
alive participant picks an integer in [0, 100], and the target is 0.8 times
the mean of the guesses. The closest guess wins the round. Everyone else
loses a point, and a score at or below `DEAD_LIMIT` eliminates the
participant. Extra rules apply as the field shrinks:
- rule 2: 0 against 100 with two players;
- rule 3: a near-exact hit with three players costs the others two points;
- rule 4: duplicated guesses with four players cannot win.

The model covers:

- **Round settlement** (`Rules`, `Roster`, `GameRoom`). One iteration of the
  `gameBody` loop in `src/game/game.ts`:
  - the partition of the settled collector results;
  - the target;
  - the winner loop, exactly as written, including its treatment of a
    distance of 0 as "no winner yet";
  - rules 2, 3 and 4;
  - the in-place scoring of the roster with the `DEAD_LIMIT` clamp and the
    death list;
  - the next round's start time.
  `Rules.ChooseWinners`, `Roster.ScoreDeciders` and `GameRoom.Settle` follow
  the source's loops. They are proved equal to the functions `Rules.Decide`,
  `Roster.ScoreAll` and `GameRoom.SettlementOf`, and the lemmas state what
  those functions mean.
- **Roster lifecycle and join admission** (`GameRoom.Game`,
  `SocketServer.Socket`). The `Game` class holds the participants, the
  `inProgress` flag, the broadcast game events and the round-loop variables.
  The joinGame branch of `src/game/socket.ts` guards
  `Game.AddParticipantByInfo`. Its invariant is that the roster never
  exceeds `PARTICIPANTS_PER_GAME`.
- **The per-participant guess collector** (`Collector.RoundCollector`). This
  is the promise built by `Player.makeGuess` in `src/game/player.ts`, and by
  its older inline copy `handleGuesses` in `src/game/game.ts`. The `Variant`
  parameter selects the copy: the inline one refuses messages that arrive
  before the round starts, and pads a disconnect countdown with
  `SHORTENED_TIME_MS`. Each listener and timer is a method, run to
  completion with the event time as a parameter. The events and messages it
  sends are returned as `Effect`s. The promise is a settle-once `Outcome`,
  because `successWrapper` does not clear a pending timer.
- **Scores** (`Scoring`, `PlayerModel.Player`, `BotModel.Bot`): `changeScore`
  in both participant classes.
- **Bots** (`BotModel`): the guess from a random draw, the nickname from the
  seed, and the bot's `makeGuess`.
- **News and tips** (`Visibility`, `News`, `Tips`): the `showFrom`/`showTo`
  window filters of `getNews` and `getTip`.

Four time spans are passed in as a `Timing` value, because
`src/common/constants.ts` does not define them: `DIGEST_TIME_MS`,
`ROUND_INFO_DIGEST_TIME_MS`, `ROUND_ZERO_DIGEST_TIME_MS` and
`SHORTENED_TIME_AMEND_MS`.

Where the written description of the rules and the code differ, the model
follows the code. Rule 3 is applied whenever at most three participants
decided and the winning distance is above 0 and at most 0.5. The 0-against-1
duel therefore costs the loser two points (`Rules.ZeroVersusOne`). Because of
the falsy test on `winnersDiff`:
- an exact hit can be overwritten by a later, worse guess
  (`Rules.ExactHitOverwritten`);
- an exact hit never triggers rule 3 (`Rules.ExactHitNoRule3`).

## Model

| member | source | states |
|---|---|---|
| Scoring.ChangeScore | src/game/player.ts:228-239 | the new score is the old plus delta, or DEAD_LIMIT when that sum is below it; the participant is dead iff it was or the sum reaches DEAD_LIMIT; a death is reported iff this call turned isDead from false to true |
| Scoring.DeathReportedOnce | src/game/bot.ts:49-60 | over any sequence of changeScore calls a death is reported exactly once if the participant went from alive to dead and never otherwise; a dead participant stays dead |
| Scoring.ScoreFloorKept | src/game/player.ts:230-236 | no sequence of changeScore calls takes a score below DEAD_LIMIT |
| PlayerModel.Player.constructor | src/game/player.ts:9-20 | a new player is alive with score 0 on its socket |
| PlayerModel.Player.ChangeScore | src/game/player.ts:228-239 | the field updates and the returned flag are exactly Scoring.ChangeScore of the old standing; the score floor is kept |
| PlayerModel.Player.GetInfo | src/game/player.ts:218-226 | the info carries the player's id, marks it as not a bot, and never shows a score below DEAD_LIMIT |
| PlayerModel.Player.MakeGuess | src/game/player.ts:22-34 | a fresh collector for this player, with the alive count captured once, nothing decided, listeners attached and the original round timer pending |
| BotModel.NicknameFor | src/game/bot.ts:15-18 | the nickname is one of the seven bot names |
| BotModel.NicknamesDistinct | src/game/bot.ts:6-18 | two seeds give the same name iff they are equal modulo 7, and names repeat with period 7 |
| BotModel.NamesDistinct | src/game/bot.ts:6 | the seven names are pairwise different |
| BotModel.BotGuess | src/game/bot.ts:66-76 | with two alive the guess is 0, 1 or 100, and it is 100 iff the draw is 2; otherwise the draw itself; always in [0, 100] |
| BotModel.GuessOnto | src/game/bot.ts:66-76 | every value the bot can guess (0, 1, 100 in a duel, 0..100 otherwise) comes from some draw |
| BotModel.Bot.constructor | src/game/bot.ts:8-18 | a new bot is alive with score 0 and the nickname NicknameFor(seed) |
| BotModel.Bot.ChangeScore | src/game/bot.ts:49-60 | the same update as Scoring.ChangeScore; the score floor is kept |
| BotModel.Bot.GetInfo | src/game/bot.ts:39-47 | the info carries the bot's id, marks it as a bot and never shows a score below DEAD_LIMIT |
| BotModel.Bot.GetSocket | src/game/bot.ts:62-64 | a bot has no socket |
| BotModel.Bot.MakeGuess | src/game/bot.ts:20-37 | firstDecision is emitted first; the promise always resolves, never rejects, with stillAlive true and the guess BotGuess(aliveCount, draw) in [0, 100] |
| Visibility.Visible | src/news/news.ts:80 | filtering never returns more items than it was given |
| Visibility.VisibleExactly | src/news/news.ts:79-80 | an item is returned iff it is listed and (showFrom is absent or at most now) and (showTo is absent or at least now) |
| Visibility.VisibleAppend | src/news/news.ts:78-84 | filtering distributes over concatenation, so input order is kept |
| Visibility.VisibleIsSubsequence | src/news/news.ts:78-84 | the filtered list is a subsequence of the input list |
| Visibility.UnboundedAlwaysVisible | src/news/news.ts:80-82 | an item with neither bound is always returned |
| Visibility.Messages | src/news/news.ts:83 | one message per tip, the i-th being the i-th tip's message |
| Visibility.MessagesKeepSubsequence | src/news/news.ts:81-83 | mapping tips to their messages keeps the subsequence relation |
| Visibility.VisibleMembers | src/common/tips.ts:27-28 | the shown items are exactly the listed ones whose window contains now, as a subsequence of the list |
| Visibility.VisibleMessages | src/common/tips.ts:27-29 | every shown tip's message is returned, every returned message belongs to a shown tip, and the result is a subsequence of all messages |
| News.NewsFeed | src/news/news.ts:76-84 | announcements returned iff listed and shown at now, in list order; tip messages exactly those of the shown tips, in list order |
| News.GetNews | src/news/news.ts:76-84 | over the server's own lists: an announcement is returned iff it is listed and shown at now; every tip without a window is listed; every returned message is that of a listed tip shown at now; both lists keep list order |
| Tips.GetTip | src/common/tips.ts:25-31 | "" iff no tip is eligible; otherwise an eligible message, which is the message of some listed tip |
| Tips.EligibleTips | src/common/tips.ts:27-29 | the message of every listed tip shown at now is eligible, every eligible message is that of a tip shown at now, and the list keeps the tips' order |
| Tips.PickIndex | src/common/tips.ts:31 | floor(draw * n) is an index below n |
| Tips.EveryEligibleTipReachable | src/common/tips.ts:31 | for every index k of the eligible list, the draw k/n makes getTip return the k-th eligible message |
| Tips.PickIndexInverse | src/common/tips.ts:31 | the draw k/n lies in [0, 1) and picks index k |
| Tips.NoEmptyTip | src/common/tips.ts:3-23 | no eligible message is empty, so "" only ever means "nothing eligible" |
| Tips.TipsHaveMessages | src/common/tips.ts:3-23 | every listed tip has a non-empty message |
| Rules.Reqs | src/game/game.ts:313-332 | the decided guesses are never more than the settled results |
| Rules.DisconnectDeaths | src/game/game.ts:316-331 | the partition's death entries never carry the deadLimit reason |
| Rules.Partition | src/game/game.ts:313-332 | the loop computes exactly the decided guesses and the disconnection entries |
| Rules.PartitionMembership | src/game/game.ts:313-332 | a guess is decided iff some result fulfilled with it; a rejected result, and only that, gives a "disconnectedMidgame" entry; a fulfilled result that is not alive gives a "disconnected" entry; no "deadLimit" entry comes from the partition |
| Rules.DisconnectedEntrySource | src/game/game.ts:316-323 | a "disconnected" entry always comes from a fulfilled result with stillAlive false |
| Rules.ReqsAppend | src/game/game.ts:314-332 | the decided guesses keep the results' order |
| Rules.GuessSumBounds | src/game/game.ts:334 | guesses in [0, 100] sum to between 0 and 100 times their number |
| Rules.TargetRange | src/game/game.ts:334 | with guesses in [0, 100] the target lies in [0, 80] |
| Rules.Target | src/game/game.ts:334 | the target times the number of deciders is 0.8 times the sum of the guesses; a lone decider's target is 0.8 times its guess |
| Rules.Dist | src/game/game.ts:337 | the distance is the absolute difference from the target |
| Rules.PickWinners | src/game/game.ts:359-377 | the loop's winners, winnersDiff and rule-4 flag equal the scan specification after all deciders |
| Rules.Step | src/game/game.ts:359-377 | rule 4 is recorded iff it was before or this decider shares its guess; an ineligible decider changes nothing else; an eligible one leaves a distance no larger than its own, and is a winner when that distance is its own; the distance is kept or becomes this decider's; at most one winner is added |
| Rules.ScanPrefix | src/game/game.ts:359-377 | after n iterations there are at most n winners, and a recorded distance is non-negative and needs at least one iteration |
| Rules.ScanRule4 | src/game/game.ts:362-368 | after n iterations rule 4 is recorded iff one of the first n deciders shares its guess with another |
| Rules.Decide | src/game/game.ts:339-378 | one decider is the sole winner; a 0-against-100 duel is won by the 100 and is exactly when rule 2 is recorded; every winner is a decider; the rules recorded are among 2 and 4; a recorded distance is non-negative |
| Rules.ChooseWinners | src/game/game.ts:339-378 | the branch structure of the source computes exactly Decide |
| Rules.ScanFacts | src/game/game.ts:359-377 | every winner is an eligible decider among the first n, and a distance is recorded iff one of them is eligible |
| Rules.Penalty | src/game/game.ts:386-393 | a non-winner loses 2 iff at most 3 deciders and 0 < winnersDiff <= 0.5, otherwise 1 |
| Rules.DuplicatesNeverWin | src/game/game.ts:362-368 | outside the 1-decider and rule-2 cases, with at most 4 deciders with distinct ids, a decider whose guess occurs more than once never wins and rule 4 is recorded |
| Rules.MinEligibleIsMinimum | src/game/game.ts:371-376 | MinEligible is absent iff nobody is eligible, and otherwise a lower bound of the eligible distances that some eligible decider attains |
| Rules.AtDistanceEmpty | src/game/game.ts:371-376 | nobody eligible at distance m gives no one at that distance |
| Rules.AtDistanceMembers | src/game/game.ts:371-376 | a decider is listed at distance m iff it is eligible and its guess is at distance m |
| Rules.ScanTracksMinimum | src/game/game.ts:371-376 | while the smallest eligible distance is not 0, the loop holds exactly that minimum and the eligible deciders attaining it, in order |
| Rules.MinDistanceWinners | src/game/game.ts:358-378 | when the smallest eligible distance m is not 0, the winners are exactly the eligible deciders at distance m, in decided order, and winnersDiff is m |
| Rules.NoEligibleNoWinner | src/game/game.ts:358-394 | when no decider is eligible (with at most four deciders, every guess duplicated), nobody wins, no distance is recorded and everyone loses 1 |
| Rules.ExactHitOverwritten | src/game/game.ts:373-375 | guesses 4, 1, 10 give target 4; the exact hit is replaced by the guess 1 at distance 3 |
| Rules.ExactHitNoRule3 | src/game/game.ts:388 | with three deciders and an exact hit, the others lose only 1 |
| Rules.ZeroVersusOne | src/game/game.ts:386-390 | a 0-against-1 duel is won by 0 at distance 0.4 and costs the loser 2 |
| Rules.ThreeDistinct | src/game/game.ts:363-369 | three different guesses are all eligible |
| Rules.NotMidgame | src/game/game.ts:420 | the kept entries are exactly those whose reason is not "disconnectedMidgame" |
| Rules.NextRoundStart | src/game/game.ts:419-425 | the next start is now plus the round-info digest, plus the digest time iff some death this round was not a mid-game disconnection |
| Roster.AliveCount | src/game/game.ts:61 | the alive count never exceeds the roster size |
| Roster.AliveCountMonotone | src/game/game.ts:61 | marking participants dead never raises the alive count |
| Roster.AliveCountKill | src/game/game.ts:462-465 | marking one alive participant dead lowers the alive count by exactly 1 |
| Roster.IndexOf | src/game/game.ts:383 | the index of the first participant with that id |
| Roster.SameIdsSameIndex | src/game/game.ts:383 | scoring, which keeps ids in place, keeps every participant lookup where it was |
| Roster.IndexOfSocket | src/game/game.ts:457-461 | the index of the first participant on that socket |
| Roster.WithoutSocket | src/game/game.ts:471 | removal never lengthens the roster |
| Roster.WithoutSocketExactly | src/game/game.ts:471 | a participant remains iff it was listed and is on another socket |
| Roster.WithoutSocketAppend | src/game/game.ts:471 | removal distributes over concatenation, so the others keep their order |
| Roster.WithoutSocketIdentity | src/game/game.ts:471 | with nobody on the socket, removal changes nothing |
| Roster.Close | src/game/game.ts:457-483 | an unknown socket changes nothing; after the start the roster keeps its length; before it the roster never grows |
| Roster.CloseAfterStart | src/game/game.ts:459-468 | after the start handleClose removes no one and changes only isDead, of the first participant on that socket; repeating it changes nothing; at most one fewer alive |
| Roster.CloseBeforeStart | src/game/game.ts:469-472 | before the start handleClose keeps exactly the participants on other sockets, in order, and an unknown socket changes nothing |
| Roster.Penalized | src/game/game.ts:385-406 | only score and isDead change; a winner keeps its score, anyone else loses the penalty, clamped at DEAD_LIMIT; dead iff already dead or the score reaches DEAD_LIMIT; killed iff this turned isDead on |
| Roster.ScoreAll | src/game/game.ts:381-407 | scoring keeps the roster's length, ids, nicknames and sockets; the dead stay dead; the DEAD_LIMIT floor is kept; every entry it adds has reason "deadLimit" |
| Roster.ScoreAllCharacterized | src/game/game.ts:381-407 | with distinct decider ids, each decider's record is Penalized once and every other record is unchanged; the deaths are NewlyDead |
| Roster.ScoredStep | src/game/game.ts:383 | a participant is scored by all guesses iff it was scored by the earlier ones or is the last guess's participant |
| Roster.NewlyDeadExactly | src/game/game.ts:397-406 | a "deadLimit" entry exists for an id iff it decided and scoring kills it, and no id gets two |
| Roster.NewlyDeadIds | src/game/game.ts:397-406 | every "deadLimit" entry names a decider |
| Roster.ScoreAllNext | src/game/game.ts:381-407 | one more guess updates exactly the looked-up record and appends at most its death |
| Roster.Rule3Next | src/game/game.ts:388-390 | rule 3 is recorded after one more guess iff it was before or this non-winner lost 2 |
| Roster.ScoreOne | src/game/game.ts:383-406 | one forEach body: the record and death flag are Penalized's, and rule 3 is recorded iff the 2-point penalty hit a non-winner |
| Roster.ScoreDeciders | src/game/game.ts:381-407 | the forEach loop computes exactly ScoreAll, and records rule 3 iff some non-winner lost 2 |
| GameRoom.GuessOf | src/game/game.ts:410-416 | the shown guess is absent iff the participant did not decide; otherwise its decided guess, the only one when ids are distinct |
| GameRoom.Entrants | src/game/game.ts:298-308 | the collectors go to exactly the alive participants with open sockets, never more than the alive count |
| GameRoom.Game.constructor | src/game/game.ts:9-14 | an empty room that has not started |
| GameRoom.Game.IsEnded | src/game/game.ts:45 | only a game in progress can be over; a running game that is not over has at least two alive participants |
| GameRoom.Game.AddParticipantByInfo | src/game/game.ts:18-41 | appends exactly the joiner (score 0, alive) after the others; the game starts iff the room becomes full, and inProgress is never turned off; on start round 1 begins after the round-zero digest and gameStart is broadcast |
| GameRoom.Game.Start | src/game/game.ts:278-290 | the game starts with everyone alive, round 1, the round-zero digest, the gameStart event, and the loop running |
| GameRoom.Game.HandleClose | src/game/game.ts:453-483 | the roster becomes Close of the old one; the new count is announced only when someone left before the start; nothing else changes |
| GameRoom.Game.BroadcastDisconnected | src/game/game.ts:122-126 | appends the participantDisconnectedMidgame event with the current alive count |
| GameRoom.Game.PlayRound | src/game/game.ts:290-441 | with no decided guess the loop stops and nothing changes; when a participant decided twice the roster is still scored, but nothing is broadcast, the round and start time stay and the loop stops with the game in progress; otherwise the roster is the settled one, the round advances, the next start is NextRoundStart, gameInfo is broadcast and the loop continues iff the game has not ended |
| GameRoom.Game.Conclude | src/game/game.ts:409-440 | the roster becomes the settled one; the failed at-most-one-guess assertion stops the loop with nothing else changed; otherwise the round advances, the next start is NextRoundStart, gameInfo is broadcast and the loop continues iff the game has not ended |
| GameRoom.Settle | src/game/game.ts:313-407 | the settlement steps in source order compute exactly SettlementOf |
| GameRoom.SettlementOf | src/game/game.ts:313-407 | a round settles iff someone decided; then it carries the decided guesses and Decide's winners, keeps the roster's length, records only rules among 2, 3 and 4, rule 2 iff the 0-against-100 duel and rule 3 iff some non-winner lost 2 |
| GameRoom.SettledRosterKnown | src/game/game.ts:381-412 | every decider of a settled round is on the scored roster |
| GameRoom.AtMostOneGuessEachExactly | src/game/game.ts:410-413 | for deciders on the roster, the assertion that each participant has at most one guess holds iff the decided ids are distinct |
| GameRoom.SettlementScores | src/game/game.ts:381-407 | a round settles iff someone decided; then only deciders' records change, each as Penalized says, and a "deadLimit" entry exists for an id iff scoring kills it |
| GameRoom.SettlementKeepsFloor | src/game/game.ts:396-406 | settling keeps the roster's length and ids, keeps the dead dead and never lets a score fall below DEAD_LIMIT |
| GameRoom.AllAliveCount | src/game/game.ts:26-32 | a roster of fresh joiners counts everyone as alive |
| Collector.AcceptedGuess | src/game/player.ts:91-96 | a message is accepted iff it decodes, its method is "submitGuess", its id is the player's and its guess is an integer in [0, 100] |
| Collector.Adjust | src/game/player.ts:186-198 | "all decided" is applied iff it does not move the deadline later, and a disconnect iff it does not move it earlier; an applied deadline is the event time plus the padding plus NETWORK_DELAY_MS |
| Collector.Settle | src/game/player.ts:70-77 | the first settlement of the promise wins and later ones are ignored |
| Collector.RoundCollector.constructor | src/game/player.ts:29-34 | listeners attached, nothing decided, no guess, the original timer at roundStartTime + ROUND_TIME_MS + NETWORK_DELAY_MS |
| Collector.RoundCollector.ErrorWrapper | src/game/player.ts:37-68 | detaches and clears the timer; closes the transport; settles with the recorded guess and stillAlive false, or announces the disconnection and rejects with the id |
| Collector.RoundCollector.SuccessWrapper | src/game/player.ts:70-77 | detaches and settles with the result, leaving the timer pending |
| Collector.RoundCollector.ChangeCountdown | src/game/player.ts:186-214 | when Adjust accepts, the client is sent the countdown message and the timer is replaced by the shortened one at Adjust's deadline with hasShortenedCountdown set; otherwise nothing is sent and timer and flag are unchanged |
| Collector.RoundCollector.OnFirstDecision | src/game/player.ts:155-161 | counts one more decision; when the count reaches the captured alive count, the "all decided" countdown change with its message, new timer and flag; otherwise no effect and timer and flag unchanged |
| Collector.RoundCollector.SiblingFirstDecision | src/game/player.ts:155-161 | a sibling's firstDecision counts only while this collector listens, and then has OnFirstDecision's countdown effects, timer and flag |
| Collector.RoundCollector.Message | src/game/player.ts:79-115 | an accepted guess is recorded; the first one gives exactly firstDecision, then the "all decided" countdown message, new timer and flag when this collector's count reaches the alive count, then the acknowledgement; a later one gives only the acknowledgement; anything else takes the error path; in the game.ts copy a message before the round starts takes the error path unacknowledged |
| Collector.RoundCollector.Close | src/game/player.ts:117-125 | a close or error while listening takes the error path |
| Collector.RoundCollector.SiblingDisconnected | src/game/player.ts:127-153 | fails its assertion after a countdown change; otherwise counts a disconnection and a decision, resolves at once, alive, with the guess or the dummy 0 exactly when everyone else has left, and when the count reaches the alive count applies the disconnect countdown change with its message, new timer and flag |
| Collector.RoundCollector.Timeout | src/game/player.ts:171-184 | at the original deadline: a guess with everyone decided succeeds alive; no guess takes the error path; a guess with fewer decided does nothing; a settled outcome never changes |
| Collector.RoundCollector.ShortenedTimeout | src/game/player.ts:207-213 | the changed deadline resolves alive with whatever guess there is |
| Collector.StaleTimerAfterDummyGuess | src/game/player.ts:127-184 | in a duel whose rival leaves first, the collector resolves with the dummy 0, yet the uncleared original timer later closes the transport and announces a disconnection; the outcome stays resolved |
| Collector.BothDecideEarly | src/game/player.ts:79-214 | in a duel where this player guesses and the rival decides right after, the client is sent one "all decided" countdown and the timer becomes the shortened one at the rival's decision time plus SHORTENED_TIME_MS and NETWORK_DELAY_MS |
| SocketServer.FullRoomUnreachable | src/game/socket.ts:56-72 | a full room is always in progress; since the in-progress test comes first, the "maximum number of participants" reply is never produced |
| SocketServer.Socket.constructor | src/game/socket.ts:9-14 | one fresh, empty game |
| SocketServer.Socket.OnMessage | src/game/socket.ts:49-94 | undecodable: "Cannot decode message"; another method: no reply and no change; joining a running game: "Game in progress, please try again later" and no change; otherwise success with the pre-join count and exactly the joiner appended, and the game starts (round 1 after the round-zero digest, gameStart broadcast, loop running) iff the room became full, else nothing else changes; the roster never exceeds PARTICIPANTS_PER_GAME |
| SocketServer.Socket.ConnectionClosed | src/game/game.ts:447-483 | a closed connection applies Close; the new count is announced iff a listed participant left before the start; the game's flags, round, start time and events are unchanged |
| SocketServer.Socket.Round | src/game/game.ts:290-441 | a settled round keeps the game in progress and the roster's size and ids; the loop goes on only if someone decided and no one decided twice |
| SocketServer.DoubleJoin | src/game/socket.ts:54-81 | one connection that sends joinGame twice fills the room alone; when its two collectors report a guess, the round ends the loop and leaves a game in progress with both entries under that id |

## Left out

- WebSocket transport: sending, broadcasting, the ping/pong keepalive (src/game/socket.ts:22-46), the connect message and src/common/messaging.ts. Outgoing messages are returned values, `Effect`s or entries of `gameEvents`. The updateParticipantsCount broadcasts are the counts returned by `AddParticipantByInfo` and `HandleClose`.
- Clocks and timers: `Date.now()` is a parameter, and each timer is a `Timer` field whose firing is an event method.
- The `EventEmitter` fan-out and `Promise.allSettled`: the caller delivers sibling events one at a time and hands `PlayRound` the settled results. Concurrency is not modelled.
- The asynchronous `gameBody` loop: each iteration is one `PlayRound` call, and `looping` records whether the loop goes on.
- Exceptions thrown by a listener: a failed `assert` in a sibling's disconnect listener is the `AssertionFailed` effect. How such an exception propagates into the emitting collector is not modelled.
- JSON decoding and `Number()` coercion: a decoded request carries the guess as an optional integer. The source stores the raw `r.guess`, which may be a numeric string, and rule 2's strict comparison would then fail. The model stores the integer.
- GameRoom.Game.PlayRound: the results must name participants on the roster, because the source looks them up by id (src/game/game.ts:383). When one id decided twice (`SocketServer.DoubleJoin`), the assertion at src/game/game.ts:412 throws after scoring. The model stops the loop and keeps the game in progress. The unhandled rejection of the `gameBody` promise and how the runtime reacts to it are not modelled.
- Collector.RoundCollector.ShortenedTimeout: a resolution without a guess is `Resolved(None, true)`. Turning an `Outcome` into a `Settled` result, and the NaN target such a result would produce in gameBody, are not modelled.
- The rules applied in a round are a set. The source sends `justAppliedRules` in insertion order (src/game/game.ts:439), and the model does not keep that order.
- IEEE double arithmetic for the target and distances: the model uses exact reals, so ties under rounding are not modelled.
- `Math.random`: the bot's draw, the bot seed and the tip draw are parameters. The seed is a natural number. A negative seed gives no nickname in the source, and the model does not cover it.
- uuid generation: ids are parameters.
- The announcement and tip dates are server-local `Date` values in the source. The model uses fixed epoch milliseconds for them.
- src/common/firestore.ts, src/api/*, src/server.ts and logging are foreign services and I/O. They are not part of this model.
- Game.onError (src/game/game.ts:485-490) only closes the socket, and the close event then reaches `HandleClose`.
- The Player getters and `setIsDead` (src/game/player.ts:245-262) are plain field accessors.
