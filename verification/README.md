# Urikkiri game server: a Dafny model of the room and round protocol

Urikkiri is a four-player party game. Players sign up, create or join a room
by a six-digit code, open a game connection, and play rounds. In each round
one participant is the examiner. The others submit a card for the round's
quiz. Once three cards are in, the examiner picks the best one. Its owner
scores a point, and the examiner role rotates. At five points the game ends,
the podium earns xp and the xp sets the level.

This project models the server's core as pure functions over immutable
values:

- `Coordinator` (`websocket_handler.dfy`) is the WebSocket handler. Each
  callback is one step from a `State` to a new state plus the list of
  messages it sends. The state holds the durable store, the round state and
  the lobby and game session registries. Random draws and the iteration
  order of the session maps come in through an `Oracle` parameter.
- `CoordinatorFacts` (`handler_facts.dfy`) holds the protocol properties of
  the handler, as lemmas about those steps.
- `Rounds` models the per-room round state: started flag, submitted cards,
  examiner history and examiner rotation.
- `Sessions` models the per-room session registry.
- `Play` models room creation and joining; `RoomCodes` models room-code
  generation and formatting.
- `Results` models the end-of-game ranking and xp awards.
- `Users` models xp, levels and sign-up; `Ranking` models the leaderboard
  pages; `Jwt` models bearer-token extraction.
- `Store` models the repositories as one in-memory value. `Protocol` holds
  the message values. `Common` and `Errors` hold shared helpers and the
  error codes.

Java `int` arithmetic is modelled where it can wrap: the xp total and the
ranking page size. Sessions are compared by identity, which the model
represents as whole values.

## Model

| member | source | states |
|---|---|---|
| Coordinator.OnConnect | src/main/java/com/example/urikkiriserver/global/websocket/WebSocketHandler.java:51-80 | A connection without a user principal gets WEBSOCKET_AUTHENTICATION_REQUIRED and is then closed. An authenticated one gets exactly one CONNECTED message naming its client type, which is LOBBY when none was given. |
| Coordinator.OnClose | src/main/java/com/example/urikkiriserver/global/websocket/WebSocketHandler.java:82-96 | A closed connection leaves the lobby and game sets of the room it is found in. An unknown connection changes nothing. The store and the round state never change, and the registries stay duplicate-free. |
| Coordinator.RemoveEverywhere | src/main/java/com/example/urikkiriserver/global/websocket/WebSocketSessionManager.java:24-32 | The session is gone from both sets of the room and every other member stays. Every other room keeps its entry. |
| Coordinator.RoomOf | src/main/java/com/example/urikkiriserver/global/websocket/WebSocketSessionManager.java:40-46 | A reported room really holds the session. No room is reported exactly when no room's lobby or game set holds it. |
| Coordinator.Step | src/main/java/com/example/urikkiriserver/global/websocket/WebSocketHandler.java:98-126 | An unreadable frame, or one without a kind, gets exactly one WEBSOCKET_INVALID_MESSAGE_FORMAT error and no change. Kinds without a handler, LEAVE_ROOM among them, do nothing. Every ERROR any step sends goes to the sender only, and every step keeps the state well formed. |
| Coordinator.OnCreateRoom | src/main/java/com/example/urikkiriserver/global/websocket/WebSocketHandler.java:128-149 | A created room is stored and the creator's connection joins its lobby set. The creator alone gets ROOM_CREATED with the new code. |
| Coordinator.OnJoinRoom | src/main/java/com/example/urikkiriserver/global/websocket/WebSocketHandler.java:151-218 | A missing code is refused with ROOM_CODE_REQUIRED. A failed join is refused with the service's own error and changes nothing. A successful join stores the service's rows, adds the sender to the room's lobby set and sends the join messages to that set. |
| CoordinatorFacts.MissingCodeRejected | src/main/java/com/example/urikkiriserver/global/websocket/WebSocketHandler.java:152-155 | For each of the five room-scoped kinds, a message without a room code gets one ROOM_CODE_REQUIRED error and changes nothing. |
| CoordinatorFacts.JoinerListed | src/main/java/com/example/urikkiriserver/global/websocket/WebSocketHandler.java:173-176 | The joiner's entry is always found in the returned list, so the PARTICIPANT_NOT_FOUND branch is dead after a successful join. |
| CoordinatorFacts.JoinMessagesSent | src/main/java/com/example/urikkiriserver/global/websocket/WebSocketHandler.java:165-210 | The join messages go as follows. ROOM_JOINED goes to the joiner only, first. USER_JOINED goes to exactly the other lobby sessions. GAME_READY goes to every lobby session exactly when the list has four entries. |
| CoordinatorFacts.JoinAnnouncements | src/main/java/com/example/urikkiriserver/global/websocket/WebSocketHandler.java:151-218 | After a successful JOIN_ROOM, the joiner is in the lobby set and gets the list first. Every other lobby session hears USER_JOINED and the joiner never does. GAME_READY reaches all of them exactly at four participants. |
| Coordinator.OnConnectGame | src/main/java/com/example/urikkiriserver/global/websocket/WebSocketHandler.java:224-261 | A missing code, an unknown room and a caller without a row are each refused with their error and change nothing. Otherwise the sender joins the room's game set. The game starts exactly when that set is as large as the room's row count; below it nothing else happens. |
| CoordinatorFacts.ConnectGameStartsWhenAllConnected | src/main/java/com/example/urikkiriserver/global/websocket/WebSocketHandler.java:245-253 | The participant's connection joins the game set. When every row is connected, the round state is reset and the current examiner's row id is the only history entry. |
| Coordinator.StartGame | src/main/java/com/example/urikkiriserver/global/websocket/WebSocketHandler.java:266-310 | The room is marked started with no submissions and nothing else changes. With an examiner row, that row's id is the whole history. GAME_START with the player list and a stored quiz goes to every game session. A missing examiner or quiz sends nothing and keeps the reset already made. |
| Coordinator.OnSubmitCard | src/main/java/com/example/urikkiriserver/global/websocket/WebSocketHandler.java:312-394 | The refusals are checked in the source's order. They are a missing code, a missing card id, an unknown card (CARD_NOT_FOUND), an unknown room (ROOM_NOT_FOUND), a caller without a row (PARTICIPANT_NOT_FOUND) and the examiner (EXAMINER_CANNOT_SUBMIT_CARD). Each gets exactly that one ERROR to the sender and changes nothing. An accepted card is appended to the room's list as a snapshot of the row and the card. Neither the store nor the registries change. |
| CoordinatorFacts.SubmitRouting | src/main/java/com/example/urikkiriserver/global/websocket/WebSocketHandler.java:357-386 | The submitter alone gets CARD_SUBMITTED. Below three cards nothing else is sent. At three or more, the full list in submission order goes to the first game session of the examiner's user and to nobody else. |
| CoordinatorFacts.AfterSubmitRouting | src/main/java/com/example/urikkiriserver/global/websocket/WebSocketHandler.java:357-386 | The same routing for the message part alone: the ack first, and the card list only at the quorum, only to the examiner's session. No card list goes out when the examiner has no game session. |
| Coordinator.OnExaminerSelect | src/main/java/com/example/urikkiriserver/global/websocket/WebSocketHandler.java:396-525 | A missing code gets ROOM_CODE_REQUIRED and a missing participant id gets INVALID_MESSAGE_FORMAT, both with no change. Then, in the handler's order: an unknown room gets ROOM_NOT_FOUND, a caller without a row in the room gets PARTICIPANT_NOT_FOUND, and, for an examiner caller, a selected id without a row gets PARTICIPANT_NOT_FOUND. Each refusal leaves the state unchanged. Every ERROR goes to the sender only, and the registries never change. |
| CoordinatorFacts.NonExaminerCannotSelect | src/main/java/com/example/urikkiriserver/global/websocket/WebSocketHandler.java:419-425 | A selection from a participant who is not the examiner gets one INVALID_MESSAGE_FORMAT error, and no score moves. |
| CoordinatorFacts.SelectionLooksUpByUserId | src/main/java/com/example/urikkiriserver/global/websocket/WebSocketHandler.java:428-429 | The selected id is matched against the rows' USER ids in the room. The row that goes on to score is the one whose user id is the selected value. |
| CoordinatorFacts.WinnerScoredBeforeCardLookup | src/main/java/com/example/urikkiriserver/global/websocket/WebSocketHandler.java:431-440 | The winner's row is saved one point higher before the card is looked up. When no submitted card carries the selected id, CARD_NOT_FOUND goes out and the point stays saved. |
| CoordinatorFacts.SelectionAnnounced | src/main/java/com/example/urikkiriserver/global/websocket/WebSocketHandler.java:446-461 | With the card found, the first messages are EXAMINER_SELECTED to exactly the game sessions, carrying the new score. |
| CoordinatorFacts.SelectionEndsOrContinues | src/main/java/com/example/urikkiriserver/global/websocket/WebSocketHandler.java:463-469 | A new score of five or more ends the game. The room's round state is dropped and ROUND_END follows the announcement to exactly the game sessions. Below five the submissions are cleared for the next turn. |
| CoordinatorFacts.NextTurnWithoutRows | src/main/java/com/example/urikkiriserver/global/websocket/GameRoundManager.java:74-91 | When the room has no rows left, the next turn resets the history, saves nothing and answers INVALID_MESSAGE_FORMAT. This is the exception from `nextInt(0)`, caught by the handler. |
| CoordinatorFacts.NextTurnSaves | src/main/java/com/example/urikkiriserver/global/websocket/WebSocketHandler.java:467-493 | The drawn id is one of the room's rows and is appended to the history. The store changes only by two whole-row saves: the caller's row as non-examiner, then the chosen row as examiner. |
| CoordinatorFacts.NextTurnHandsOver | src/main/java/com/example/urikkiriserver/global/websocket/WebSocketHandler.java:478-493 | After the turn the chosen row is the examiner, even when it is the caller's own row. The caller's row keeps the snapshot taken before the selection. The chosen id is the history's last entry. |
| Coordinator.HandOver | src/main/java/com/example/urikkiriserver/global/websocket/WebSocketHandler.java:480-516 | The store gets the caller's row saved as non-examiner, then the chosen row as examiner, whether or not a quiz is found. With no quiz the caller alone gets QUIZ_NOT_FOUND. With a quiz, drawn from the stored quizzes, every game session of the room gets one NEXT_ROUND naming the chosen user, their nickname and the quiz. |
| CoordinatorFacts.NextTurnAnnounced | src/main/java/com/example/urikkiriserver/global/websocket/WebSocketHandler.java:496-516 | For a room with rows, the next turn answers the caller alone with QUIZ_NOT_FOUND when no quiz is found. Otherwise it sends NEXT_ROUND to exactly the room's game sessions, each carrying the drawn row's user id and nickname and a stored quiz. |
| CoordinatorFacts.HandOverAnnounced | src/main/java/com/example/urikkiriserver/global/websocket/WebSocketHandler.java:496-516 | The messages of a hand-over: QUIZ_NOT_FOUND to the caller alone without a quiz, or NEXT_ROUND with the chosen user and a stored quiz to exactly the room's game sessions. |
| CoordinatorFacts.SavesInOrder | src/main/java/com/example/urikkiriserver/global/websocket/WebSocketHandler.java:492-493 | Of two whole-row saves, the second wins where the ids agree and the first stays where they differ. |
| Coordinator.EndGame | src/main/java/com/example/urikkiriserver/global/websocket/WebSocketHandler.java:527-592 | The room's round state is removed and no other room's changes. Only user rows change, and every user not on the podium keeps their row. ROUND_END with the ranking goes to every game session. |
| Coordinator.OnRoomExit | src/main/java/com/example/urikkiriserver/global/websocket/WebSocketHandler.java:618-690 | A started game refuses the exit with the fixed error and changes nothing. A missing code, an unknown room and a caller without a row are refused with their error. The round state never changes. |
| CoordinatorFacts.RoomExitEffects | src/main/java/com/example/urikkiriserver/global/websocket/WebSocketHandler.java:631-682 | An exit from a room not yet started deletes exactly the leaver's row. The sender leaves both of the room's sets, and the exit messages are sent. |
| CoordinatorFacts.ExitAnnounced | src/main/java/com/example/urikkiriserver/global/websocket/WebSocketHandler.java:652-682 | The leaver gets ROOM_EXIT first. The remaining lobby sessions get the leaver's id, nickname and the number of rows left, and only when some rows are left. |
| Rounds.QuorumAfterSubmissions | src/main/java/com/example/urikkiriserver/global/websocket/GameRoundManager.java:40-57 | After a start or a cleared turn, all cards are in exactly when three or more submissions have been made, whoever made them and whatever the room's size. |
| Rounds.OneSubmitterReachesQuorum | src/main/java/com/example/urikkiriserver/global/websocket/GameRoundManager.java:40-57 | The quorum counts submissions, not submitters: since a repeat is never refused, one participant submitting the same card three times completes it, and twice does not. |
| Rounds.QuorumStays | src/main/java/com/example/urikkiriserver/global/websocket/GameRoundManager.java:40-57 | A further submission never undoes a reached quorum, and clearing the turn always undoes it. |
| Rounds.StartGame | src/main/java/com/example/urikkiriserver/global/websocket/GameRoundManager.java:22-26 | After a start the room is started with no submissions and an empty history, and no other room changes. |
| Rounds.StartGameTwice | src/main/java/com/example/urikkiriserver/global/websocket/GameRoundManager.java:22-26 | Starting is idempotent. |
| Rounds.ClearSubmittedCards | src/main/java/com/example/urikkiriserver/global/websocket/GameRoundManager.java:28-31 | The room's submissions are emptied. The flag, the history and every other room stay. |
| Rounds.EndGame | src/main/java/com/example/urikkiriserver/global/websocket/GameRoundManager.java:33-37 | The room's three entries are removed, so it reads as not started, empty and without history. Other rooms stay. |
| Rounds.SubmitCard | src/main/java/com/example/urikkiriserver/global/websocket/GameRoundManager.java:40-52 | The card is appended at the end and the count grows by one, with no de-duplication. Nothing else changes. |
| Rounds.AddExaminerHistory | src/main/java/com/example/urikkiriserver/global/websocket/GameRoundManager.java:64-71 | The id is appended to the room's history and nothing else changes. |
| Rounds.SelectNextExaminer | src/main/java/com/example/urikkiriserver/global/websocket/GameRoundManager.java:74-91 | The pick is one of the ids, and there is none exactly when the list is empty. While some id has not been examiner, the pick is such an id and the state is unchanged. Once all have been examiner, the history is reset first. |
| Rounds.AnyCandidateCanBeSelected | src/main/java/com/example/urikkiriserver/global/websocket/GameRoundManager.java:80-84 | Every id not yet examiner is the pick for some random draw. |
| Rounds.AnyIdCanBeSelectedAfterReset | src/main/java/com/example/urikkiriserver/global/websocket/GameRoundManager.java:85-90 | After a full cycle, every id is the pick for some draw. |
| Rounds.RotationPicksFresh | src/main/java/com/example/urikkiriserver/global/websocket/GameRoundManager.java:74-91 | Over repeated select-and-record turns, no id repeats before the cycle completes. The history is the old history followed by the picks and stays duplicate-free. |
| Rounds.RotationCoversEveryIdOnce | src/main/java/com/example/urikkiriserver/global/websocket/GameRoundManager.java:74-91 | From an empty history, as many turns as there are distinct ids pick every id exactly once. |
| Sessions.AddSession | src/main/java/com/example/urikkiriserver/global/websocket/WebSocketSessionManager.java:19-21 | The session is in the room's set. It is appended only if absent, and other rooms and duplicate-freedom are kept. |
| Sessions.AddSessionIdempotent | src/main/java/com/example/urikkiriserver/global/websocket/WebSocketSessionManager.java:19-21 | Adding twice is adding once. |
| Sessions.RemoveSession | src/main/java/com/example/urikkiriserver/global/websocket/WebSocketSessionManager.java:24-32 | The session leaves the room's set and every other member stays. An emptied set drops the room's entry, an unknown room is a no-op, and other rooms stay. |
| Sessions.RemoveUndoesAdd | src/main/java/com/example/urikkiriserver/global/websocket/WebSocketSessionManager.java:19-32 | Removing a session just added to a room it was not in restores the registry exactly. |
| Sessions.RoomCodeOf | src/main/java/com/example/urikkiriserver/global/websocket/WebSocketSessionManager.java:40-46 | A reported room holds the session. `null` is returned exactly when no room holds it. |
| Sessions.AnyContainingRoomCanBeReported | src/main/java/com/example/urikkiriserver/global/websocket/WebSocketSessionManager.java:40-46 | Any room holding the session is reported under some map iteration order. |
| Play.JoinRoom | src/main/java/com/example/urikkiriserver/domain/play/service/JoinRoomService.java:29-89 | An unknown code is ROOM_NOT_FOUND. After the user's old rows are removed, the room is ROOM_ALREADY_FULL exactly when four rows remain. Otherwise exactly one new row is added with score 0, as examiner exactly when the room was empty, and the room never exceeds four. The first joiner gets a one-entry list marked examiner; later joiners get the full list. |
| Play.JoinAgainKeepsOneRow | src/main/java/com/example/urikkiriserver/domain/play/service/JoinRoomService.java:36-46 | Joining the same room again succeeds, and the user keeps one row without the room growing. |
| Play.CreateRoom | src/main/java/com/example/urikkiriserver/domain/play/service/CreateRoomService.java:25-47 | The new room gets a well-formed code not in use, and `findByCode` finds it. The creator's row is added as examiner with score 0; users, cards and quizzes are untouched. |
| RoomCodes.DrawnCode | src/main/java/com/example/urikkiriserver/domain/play/service/CreateRoomService.java:53 | A draw yields six digits, not starting with zero, whose value lies in 100000..999999. |
| RoomCodes.GenerateRoomCode | src/main/java/com/example/urikkiriserver/domain/play/service/CreateRoomService.java:49-57 | The result is the first drawn code not in use, and it is a valid room code. There is none exactly when every draw hits a used code. |
| RoomCodes.AnyFreeCodeCanBeGenerated | src/main/java/com/example/urikkiriserver/domain/play/service/CreateRoomService.java:49-57 | Every free six-digit code can be produced by some draw. |
| RoomCodes.ParseFormat06 | src/main/java/com/example/urikkiriserver/domain/play/service/CreateRoomService.java:53 | Reading back a `%06d` rendering gives the number. |
| RoomCodes.FormatParse | src/main/java/com/example/urikkiriserver/domain/play/service/CreateRoomService.java:53 | A room code is the `%06d` rendering of its own value. |
| Results.RankAndReward | src/main/java/com/example/urikkiriserver/global/websocket/WebSocketHandler.java:531-561 | At most four ranks are given, numbered 1.. in podium order and carrying the podium scores. Only user rows change, no user is added or removed, and every user off the podium keeps their row. |
| Results.RanksDescend | src/main/java/com/example/urikkiriserver/global/websocket/WebSocketHandler.java:531-561 | Ranks go from the highest score down. |
| Results.PodiumRewarded | src/main/java/com/example/urikkiriserver/global/websocket/WebSocketHandler.java:539-561 | The user in place i gets exactly `addXp` of the i-th reward: 20, 10, 5 and 2. |
| Results.SortIsSorted | src/main/java/com/example/urikkiriserver/global/websocket/WebSocketHandler.java:531-536 | The score sort orders rows from the highest score down. |
| Results.SortPermutes | src/main/java/com/example/urikkiriserver/global/websocket/WebSocketHandler.java:531-536 | The score sort is a permutation of the room's rows. |
| Results.SortIsStable | src/main/java/com/example/urikkiriserver/global/websocket/WebSocketHandler.java:531-536 | Rows with equal scores keep their query order. |
| Results.FirstPlaceHasTopScore | src/main/java/com/example/urikkiriserver/global/websocket/WebSocketHandler.java:531-536 | First place has a score at least that of every row. |
| Users.LevelFor | src/main/java/com/example/urikkiriserver/domain/user/domain/User.java:37-47 | The level is always between 1 and 4. |
| Users.LevelCountsStepsPassed | src/main/java/com/example/urikkiriserver/domain/user/domain/User.java:37-47 | The level is one plus the number of boundaries (10, 20, 30) that the xp exceeds. |
| Users.LevelMonotone | src/main/java/com/example/urikkiriserver/domain/user/domain/User.java:37-47 | More xp never gives a lower level. |
| Users.AddXp | src/main/java/com/example/urikkiriserver/domain/user/domain/User.java:32-35 | The xp grows by the reward, wrapping by 2^32 when the sum leaves the `int` range. The level is then the one for the new xp, and nothing else changes. |
| Users.AddXpNeverLowersLevel | src/main/java/com/example/urikkiriserver/domain/user/domain/User.java:32-47 | A non-negative reward that does not overflow never lowers a consistent level. |
| Users.AddXpOverflowResetsLevel | src/main/java/com/example/urikkiriserver/domain/user/domain/User.java:32-35 | At the top of the `int` range a reward of 20 wraps the xp negative, and the level falls to 1. |
| Users.SignUp | src/main/java/com/example/urikkiriserver/domain/user/service/SignUpService.java:22-43 | Sign-up fails with USER_EXISTS exactly when the email or the nickname is taken. Otherwise one user is added with the encoded password, 0 xp and level 1, and existing rows are untouched. The token is issued for the email, and uniqueness is kept. |
| Ranking.PlanQuery | src/main/java/com/example/urikkiriserver/domain/user/service/TotalRankingService.java:25-40 | The first-page query is used exactly when either cursor part is missing, with limit `size + 1`. A negative size, or one whose `+ 1` wraps, is rejected. |
| Ranking.GetRankingScroll | src/main/java/com/example/urikkiriserver/domain/user/service/TotalRankingService.java:20-67 | `hasNext` holds exactly when more than `size` rows come back. At most `size` items are shown, in query order. The cursor is the last shown row, and there is none exactly when no row is shown. |
| Ranking.FullPageWhenMore | src/main/java/com/example/urikkiriserver/domain/user/service/TotalRankingService.java:42-60 | A page that reports more rows is full, and its cursor is its last row. |
| Ranking.ExtraRowNotShown | src/main/java/com/example/urikkiriserver/domain/user/service/TotalRankingService.java:42-53 | The extra fetched row is never shown. |
| Ranking.PageAt | src/main/java/com/example/urikkiriserver/domain/user/service/TotalRankingService.java:20-45 | Over a repository serving one ranking with distinct ids, the request made with the cursor of the k-th row fetches `size + 1` rows starting right after that row; the first request fetches them from the top. |
| Ranking.PagesFollowRanking | src/main/java/com/example/urikkiriserver/domain/user/service/TotalRankingService.java:20-67 | Consecutive pages neither skip nor repeat a row. The page asked for after k rows shows the next `size` rows, or all that are left. It reports more exactly when rows remain beyond them, and then its cursor leads to row k + size. |
| Jwt.ParseToken | src/main/java/com/example/urikkiriserver/global/security/jwt/JwtProvider.java:56-61 | A token is returned exactly when the header starts with the prefix. It is trimmed and no longer than the header. |
| Jwt.ResolveToken | src/main/java/com/example/urikkiriserver/global/security/jwt/JwtProvider.java:63-66 | Header names match without regard to ASCII case. With no header of the configured name there is no token; otherwise the first such header's value is parsed. |
| Jwt.HeaderValue | src/main/java/com/example/urikkiriserver/global/security/jwt/JwtProvider.java:64 | The header lookup finds the first header whose lower-cased name is the key and gives its value. There is no value exactly when no header has that name. |
| Jwt.ResolveTokenIgnoresCase | src/main/java/com/example/urikkiriserver/global/security/jwt/JwtProvider.java:63-66 | A header stored as `authorization` is found when `Authorization` is configured. |
| Jwt.ParseTokenRoundTrip | src/main/java/com/example/urikkiriserver/global/security/jwt/JwtProvider.java:56-61 | The prefix followed by a trimmed token that does not contain the prefix parses back to the token. |
| Jwt.RemoveAllThroughOccurrence | src/main/java/com/example/urikkiriserver/global/security/jwt/JwtProvider.java:58 | `replace` removes an occurrence of the prefix wherever it stands: the text before the first occurrence is kept, the occurrence is dropped, and the rest is processed the same way. |
| Jwt.ParseTokenRemovesInnerPrefix | src/main/java/com/example/urikkiriserver/global/security/jwt/JwtProvider.java:56-61 | The header `Bearer abcBearer ` with prefix `Bearer ` gives the token `abc`: the inner occurrence of the prefix is removed too, not only the leading one. |

## Behaviour as written

- **Winner lookup.** EXAMINER_SELECT looks the winner up by user id
  (`findByRoomIdIdAndUserIdId`) but looks the card up by participant id. The
  two agree only when a row's id equals its user's id. The model keeps both
  lookups as written (`CoordinatorFacts.SelectionLooksUpByUserId`).
- **Whole-row saves.** The point is saved before the card is looked up, so a
  CARD_NOT_FOUND keeps the point (`CoordinatorFacts.WinnerScoredBeforeCardLookup`).
  Saves overwrite the whole row. The examiner cannot submit a card, and the
  card is matched on the participant (row) id while the winner is found by
  user id. So the next-turn saves run after a self-selection only when some
  other participant's row id equals the examiner's user id; otherwise
  CARD_NOT_FOUND ends the step first and the point stays. When they do run,
  saving the examiner's stale snapshot undoes that point
  (`CoordinatorFacts.NextTurnHandsOver`, `CoordinatorFacts.SavesInOrder`).
- **Fixed quorum.** The quorum is a fixed 3, whatever the room's size.
- **Empty room at the next turn.** With no rows left, the examiner history is
  reset before `nextInt(0)` throws, and the caller gets
  INVALID_MESSAGE_FORMAT. Within one modelled step this branch is not
  reached: the next turn runs only after the winner's row has been saved in
  this room, so the room has a row. In the server it needs a concurrent
  deletion, such as a join through the REST endpoint that removes the
  user's rows. `CoordinatorFacts.NextTurnWithoutRows` states the branch for
  the next-turn step taken on its own.
- **Message kinds.** The message-kind enum declares nine kinds. The handler
  also uses ten more, and `Protocol.MessageKind` lists all nineteen.
- **Ranking limit.** `size + 1` wraps at the top of the `int` range and is
  then refused by the page request.

## Left out

- JSON encoding and decoding, message texts, logging and the transport: an inbound frame is already decoded or `Malformed`.
- Concurrency: each callback is one atomic step; interleavings between connections are not modelled.
- The distribution of the random draws: `NextInt(draw, bound)` is `draw % bound`, so only which values are reachable is modelled.
- The iteration order of the session maps is an oracle parameter that covers every room.
- The handshake interceptor, Spring Security filters, JWT signing, claims and expiry: a connection arrives with its principal already loaded.
- The keep-alive scheduler and `sendMessage` failures: every send is assumed delivered.
- Room creation whose code draws never find a free code: the Java loop does not end. The model returns no result and no effect (`Play.CreateRoom`, `Coordinator.OnCreateRoom`), so the ROOM_CREATION_FAILED catch is never reached.
- The error broadcast in `endGame`'s catch and the generic catch-alls of the handlers whose bodies cannot throw in the model.
- `winGame`'s body is not part of this model: it is modelled as one more point (`Coordinator.Scored`).
- `QueryRandomQuizService`, the repositories and `ParticipantInfo`: modelled from their call sites as `Store` functions, not from their sources.
- Sign-in, user lookup endpoints and the REST controllers are outside the modelled core.
- Coordinator.OnExaminerSelect: its own contract states every refusal and the invariants, but not the successful path. The scoring, announcement, end-of-game and next-turn behaviour are stated by the `CoordinatorFacts` lemmas cited above (`SelectionAnnounced`, `NextTurnSaves`, `NextTurnHandsOver`, `NextTurnAnnounced`, `NextTurnWithoutRows`) and by `Coordinator.HandOver`.
- Coordinator.StartGame: the catch-all that logs a failure is modelled by sending nothing and keeping the reset already made; the log itself is left out.
- Results.PodiumRewarded: stated for podiums in which no user holds two rows; with a duplicated user the later reward lands on the already-updated user, and the model does not state that case.
- Coordinator.RemoveEverywhere: the handler calls `addGameSession`, `getLobbySessionsByRoom` and `getGameSessionsByRoom` (WebSocketHandler.java:186, 239, 245), which WebSocketSessionManager.java does not declare. The model assumes two registries, a lobby one and a game one, and that `removeSession` clears the session from both.
- Coordinator.RoomOf: for the same reason, the model assumes `getRoomCodeBySession` searches the lobby registry and then the game registry.
- Jwt.ResolveToken: header names are compared after ASCII lower-casing only; HTTP header names are ASCII tokens, so wider Unicode case folding is not modelled.
- Ranking.PageAt, Ranking.PagesFollowRanking: the ranking queries `findFirstRankings` and `findNextRankings` are not declared in the repository source. The model assumes they serve one ranking in which no user appears twice, with the next-page query returning the rows right after the cursor's row (`Ranking.Repository`).
- Store.WellFormed: it does not include distinct participant ids, ids below the next identity value, or one row per room and user. The contracts hold over every store with the weaker invariant, so also over the stores the server can reach. Where the server would throw on a duplicate row in `findByRoomIdIdAndUserIdId`, the model reads the first match.
- Users.AddXp: requires the current xp and the reward to fit in an `int`, as the `Integer` column and the `int` parameter guarantee.
