/** The protocol coordinator (`global/websocket/WebSocketHandler`): every
    callback is one atomic step from a state to a new state and the list of
    messages it sends. The handler's `@Transactional` methods are called on
    `this`, so no transaction wraps them: each repository call is its own
    write, and a failure half-way keeps what was already written. */
module Coordinator {
  import opened Common
  import opened Errors
  import opened Users
  import opened Store
  import opened Protocol
  import Rounds
  import Sessions
  import Play
  import Results

  /** Everything the handler reads and writes: the durable store, the round
      state, and the lobby and game session registries. */
  datatype State = State(
    db: Db,
    rounds: Rounds.RoundStore,
    lobby: Sessions.Registry<Session>,
    game: Sessions.Registry<Session>)

  predicate Valid(st: State) {
    WellFormed(st.db) && Sessions.Valid(st.lobby) && Sessions.Valid(st.game)
  }

  /** The choices the code leaves to chance or to the runtime: the random
      draws for the room code, the next examiner and the quiz, and the order
      in which the session maps are walked. */
  datatype Oracle = Oracle(codeDraws: seq<nat>, examinerDraw: nat, quizDraw: nat, roomOrder: seq<Code>)

  /** The outcome of one step. */
  datatype Reply = Reply(st: State, out: seq<Outbound>)

  /** The sender's principal is a stored user: the handshake loads it from
      the user table, and nothing modelled deletes users. */
  predicate Authenticated(st: State, sender: Session) {
    sender.principal.Some? && sender.principal.value.id in st.db.users.rows
  }

  /** `roomCode == null || roomCode.isEmpty()`. */
  predicate MissingCode(code: Option<string>) {
    code.None? || code.value == []
  }

  /** A single ERROR to the sender and no change. */
  function Reject(st: State, sender: Session, e: ErrorCode): (r: Reply)
    ensures r.st == st && r.out == [ErrorTo(sender, e)]
  {
    Reply(st, [ErrorTo(sender, e)])
  }

  /** Every ERROR among `out` is addressed to the sender. */
  predicate ErrorsToSenderOnly(out: seq<Outbound>, sender: Session) {
    forall i :: 0 <= i < |out| && out[i].Send? && out[i].env.kind == ERROR ==> out[i].to == sender
  }

  /** A broadcast of anything but an ERROR has no ERROR in it. */
  lemma BroadcastHasNoError(to: seq<Session>, env: Envelope, sender: Session)
    requires env.kind != ERROR
    ensures ErrorsToSenderOnly(Broadcast(to, env), sender)
  {
  }

  lemma ErrorsAppend(a: seq<Outbound>, b: seq<Outbound>, sender: Session)
    requires ErrorsToSenderOnly(a, sender) && ErrorsToSenderOnly(b, sender)
    ensures ErrorsToSenderOnly(a + b, sender)
  {
    forall i | 0 <= i < |a + b| && (a + b)[i].Send? && (a + b)[i].env.kind == ERROR
      ensures (a + b)[i].to == sender
    {
      if i < |a| {
        assert (a + b)[i] == a[i];
      } else {
        assert (a + b)[i] == b[i - |a|];
      }
    }
  }

  // ----------------------------------------------------------- connection

  /** `afterConnectionEstablished`: no principal means an
      authentication error and the connection is closed; otherwise a
      CONNECTED message naming the client type, LOBBY when none was given. */
  function OnConnect(sender: Session): (out: seq<Outbound>)
    ensures sender.principal.None? ==> out == [ErrorTo(sender, WEBSOCKET_AUTHENTICATION_REQUIRED), Close(sender)]
    ensures sender.principal.Some? ==> |out| == 1 && out[0].Send? && out[0].to == sender && out[0].env.kind == CONNECTED
    ensures sender.principal.Some? ==>
      out[0].env.data == Connected(if sender.clientType.Some? then sender.clientType.value else LOBBY)
  {
    if sender.principal.None? then [ErrorTo(sender, WEBSOCKET_AUTHENTICATION_REQUIRED), Close(sender)]
    else
      var client := if sender.clientType.None? then LOBBY else sender.clientType.value;
      [Send(sender, Envelope(CONNECTED, None, Connected(client)))]
  }

  /** `removeSession`: the connection leaves both of the room's sets. */
  function RemoveEverywhere(st: State, code: Code, s: Session): (r: State)
    ensures r.db == st.db && r.rounds == st.rounds
    ensures s !in Sessions.SessionsOf(r.lobby, code) && s !in Sessions.SessionsOf(r.game, code)
    ensures forall x :: x in Sessions.SessionsOf(r.lobby, code) <==> x in Sessions.SessionsOf(st.lobby, code) && x != s
    ensures forall x :: x in Sessions.SessionsOf(r.game, code) <==> x in Sessions.SessionsOf(st.game, code) && x != s
    ensures Sessions.SameElsewhere(st.lobby, r.lobby, code) && Sessions.SameElsewhere(st.game, r.game, code)
    ensures Valid(st) ==> Valid(r)
  {
    st.(lobby := Sessions.RemoveSession(st.lobby, code, s), game := Sessions.RemoveSession(st.game, code, s))
  }

  /** `getRoomCodeBySession` over both sets: the lobby set is searched
      first. */
  function RoomOf(st: State, s: Session, order: seq<Code>): (r: Option<Code>)
    requires Sessions.Covers(order, st.lobby) && Sessions.Covers(order, st.game)
    ensures r.Some? ==> s in Sessions.SessionsOf(st.lobby, r.value) || s in Sessions.SessionsOf(st.game, r.value)
    ensures r.None? <==> forall c :: s !in Sessions.SessionsOf(st.lobby, c) && s !in Sessions.SessionsOf(st.game, c)
  {
    var inLobby := Sessions.RoomCodeOf(st.lobby, s, order);
    if inLobby.Some? then inLobby else Sessions.RoomCodeOf(st.game, s, order)
  }

  /** `afterConnectionClosed`: the connection leaves the room it was found
      in; nothing else changes and nothing is sent. */
  function OnClose(st: State, s: Session, order: seq<Code>): (r: State)
    requires Sessions.Covers(order, st.lobby) && Sessions.Covers(order, st.game)
    ensures r.db == st.db && r.rounds == st.rounds
    ensures RoomOf(st, s, order).None? ==> r == st
    ensures RoomOf(st, s, order).Some? ==> r == RemoveEverywhere(st, RoomOf(st, s, order).value, s)
    ensures Valid(st) ==> Valid(r)
  {
    match RoomOf(st, s, order)
    case None => st
    case Some(code) => RemoveEverywhere(st, code, s)
  }

  // ---------------------------------------------------------------- lobby

  /** `handleCreateRoom`. When the draws never give a free code the Java
      loop does not end: nothing is written and nothing is sent. */
  function OnCreateRoom(st: State, sender: Session, user: User, draws: seq<nat>): (r: Reply)
    requires Valid(st) && user.id in st.db.users.rows
    ensures Play.CreateRoom(st.db, user, draws).None? ==> r == Reply(st, [])
    ensures Play.CreateRoom(st.db, user, draws).Some? ==>
      var (db', code) := Play.CreateRoom(st.db, user, draws).value;
      && r.st == st.(db := db', lobby := Sessions.AddSession(st.lobby, code, sender))
      && sender in Sessions.SessionsOf(r.st.lobby, code)
      && r.out == [Send(sender, Envelope(ROOM_CREATED, Some(code), NoData))]
    ensures ErrorsToSenderOnly(r.out, sender)
    ensures Valid(r.st)
  {
    match Play.CreateRoom(st.db, user, draws)
    case None => Reply(st, [])
    case Some((db', code)) =>
      Reply(st.(db := db', lobby := Sessions.AddSession(st.lobby, code, sender)),
            [Send(sender, Envelope(ROOM_CREATED, Some(code), NoData))])
  }

  /** The info entry of the user. */
  function InfoOfUser(userId: int): ParticipantInfo -> bool {
    (info: ParticipantInfo) => info.userId == userId
  }

  /** A session other than the sender, by session id. */
  function NotSession(id: int): Session -> bool {
    (s: Session) => s.id != id
  }

  /** What a successful join sends: ROOM_JOINED to the joiner, USER_JOINED
      with the joiner's entry to every other lobby session, and GAME_READY to
      all lobby sessions when the list has four entries. */
  function JoinMessages(sender: Session, code: Code, infos: seq<ParticipantInfo>, joiner: Option<ParticipantInfo>, lobby: seq<Session>): (out: seq<Outbound>)
    ensures ErrorsToSenderOnly(out, sender)
  {
    var ack := Send(sender, Envelope(ROOM_JOINED, Some(code), Participants(infos)));
    match joiner
    case None => [ack, ErrorTo(sender, PARTICIPANT_NOT_FOUND)]
    case Some(info) =>
      var joined := Broadcast(Filter(lobby, NotSession(sender.id)), Envelope(USER_JOINED, Some(code), Joined(info)));
      var ready := if |infos| == Play.MAX_PARTICIPANTS then Broadcast(lobby, Envelope(GAME_READY, Some(code), Participants(infos))) else [];
      BroadcastHasNoError(Filter(lobby, NotSession(sender.id)), Envelope(USER_JOINED, Some(code), Joined(info)), sender);
      BroadcastHasNoError(lobby, Envelope(GAME_READY, Some(code), Participants(infos)), sender);
      ErrorsAppend([ack], joined, sender);
      ErrorsAppend([ack] + joined, ready, sender);
      [ack] + joined + ready
  }

  /** `handleJoinRoom`. */
  function OnJoinRoom(st: State, sender: Session, user: User, code: Option<string>): (r: Reply)
    requires Valid(st) && user.id in st.db.users.rows
    ensures MissingCode(code) ==> r == Reject(st, sender, WEBSOCKET_ROOM_CODE_REQUIRED)
    ensures !MissingCode(code) && Play.JoinRoom(st.db, code.value, user).Failure? ==>
      r == Reject(st, sender, Play.JoinRoom(st.db, code.value, user).error)
    ensures !MissingCode(code) && Play.JoinRoom(st.db, code.value, user).Success? ==>
      var (db', infos) := Play.JoinRoom(st.db, code.value, user).value;
      var lobby' := Sessions.AddSession(st.lobby, code.value, sender);
      && r.st == st.(db := db', lobby := lobby')
      && sender in Sessions.SessionsOf(lobby', code.value)
      && r.out == JoinMessages(sender, code.value, infos, FindFirst(infos, InfoOfUser(user.id)), Sessions.SessionsOf(lobby', code.value))
    ensures ErrorsToSenderOnly(r.out, sender)
    ensures Valid(r.st)
  {
    if MissingCode(code) then Reject(st, sender, WEBSOCKET_ROOM_CODE_REQUIRED)
    else
      var c := code.value;
      match Play.JoinRoom(st.db, c, user)
      case Failure(e) => Reject(st, sender, e)
      case Success((db', infos)) =>
        var lobby' := Sessions.AddSession(st.lobby, c, sender);
        Reply(st.(db := db', lobby := lobby'),
              JoinMessages(sender, c, infos, FindFirst(infos, InfoOfUser(user.id)), Sessions.SessionsOf(lobby', c)))
  }

  // ----------------------------------------------------------------- game

  /** The examiner's row. */
  function IsExaminerRow(): Participant -> bool {
    (p: Participant) => p.isExaminer
  }

  /** A session whose principal is the user. */
  function OfPrincipal(userId: int): Session -> bool {
    (s: Session) => s.principal.Some? && s.principal.value.id == userId
  }

  /** `startGameForConnectedPlayers`: the round state is reset, the first
      examiner row becomes the only history entry, and GAME_START goes to
      every game session. A missing examiner or quiz only ends the start
      early (the error is logged), keeping what was already done. */
  function StartGame(st: State, code: Code, rows: seq<Participant>, quizDraw: nat): (r: Reply)
    requires Valid(st) && forall p :: p in rows ==> p in st.db.participants
    ensures r.st.db == st.db && r.st.lobby == st.lobby && r.st.game == st.game
    ensures Rounds.IsGameStarted(r.st.rounds, code) && Rounds.SubmittedCards(r.st.rounds, code) == []
    ensures Rounds.OthersUnchanged(st.rounds, r.st.rounds, code)
    ensures FindFirst(rows, IsExaminerRow()).None? ==> r.st.rounds == Rounds.StartGame(st.rounds, code) && r.out == []
    ensures FindFirst(rows, IsExaminerRow()).Some? ==>
      Rounds.ExaminerHistory(r.st.rounds, code) == [FindFirst(rows, IsExaminerRow()).value.id]
    ensures RandomQuiz(st.db, quizDraw).Failure? ==> r.out == []
    ensures FindFirst(rows, IsExaminerRow()).Some? && RandomQuiz(st.db, quizDraw).Success? ==>
      r.out == Broadcast(Sessions.SessionsOf(st.game, code),
        Envelope(GAME_START, Some(code), GameStart(Infos(st.db, rows), RandomQuiz(st.db, quizDraw).value)))
    ensures Valid(r.st)
  {
    var started := Rounds.StartGame(st.rounds, code);
    match FindFirst(rows, IsExaminerRow())
    case None => Reply(st.(rounds := started), [])
    case Some(examiner) =>
      var recorded := Rounds.AddExaminerHistory(started, code, examiner.id);
      var st' := st.(rounds := recorded);
      match RandomQuiz(st.db, quizDraw)
      case Failure(_) => Reply(st', [])
      case Success(quiz) =>
        Reply(st', Broadcast(Sessions.SessionsOf(st.game, code),
          Envelope(GAME_START, Some(code), GameStart(Infos(st.db, rows), quiz))))
  }

  /** `handleConnectGame`: the sender joins the room's game set, and the
      game starts when that set is as large as the room's row count. */
  function OnConnectGame(st: State, sender: Session, user: User, code: Option<string>, quizDraw: nat): (r: Reply)
    requires Valid(st)
    ensures MissingCode(code) ==> r == Reject(st, sender, WEBSOCKET_ROOM_CODE_REQUIRED)
    ensures !MissingCode(code) && FindRoomByCode(st.db, code.value).None? ==> r == Reject(st, sender, ROOM_NOT_FOUND)
    ensures !MissingCode(code) && FindRoomByCode(st.db, code.value).Some? ==>
      var room := FindRoomByCode(st.db, code.value).value;
      var game' := Sessions.AddSession(st.game, code.value, sender);
      var rows := RoomRows(st.db, room.id);
      && (FindRow(st.db, room.id, user.id).None? ==> r == Reject(st, sender, PARTICIPANT_NOT_FOUND))
      && (FindRow(st.db, room.id, user.id).Some? ==>
            && r.st.db == st.db && r.st.lobby == st.lobby && r.st.game == game'
            && (|Sessions.SessionsOf(game', code.value)| == |rows| ==>
                  r == StartGame(st.(game := game'), code.value, rows, quizDraw))
            && (|Sessions.SessionsOf(game', code.value)| != |rows| ==>
                  r == Reply(st.(game := game'), [])))
    ensures ErrorsToSenderOnly(r.out, sender)
    ensures Valid(r.st)
  {
    if MissingCode(code) then Reject(st, sender, WEBSOCKET_ROOM_CODE_REQUIRED)
    else
      var c := code.value;
      match FindRoomByCode(st.db, c)
      case None => Reject(st, sender, ROOM_NOT_FOUND)
      case Some(room) =>
        match FindRow(st.db, room.id, user.id)
        case None => Reject(st, sender, PARTICIPANT_NOT_FOUND)
        case Some(_) =>
          var st' := st.(game := Sessions.AddSession(st.game, c, sender));
          var rows := RoomRows(st.db, room.id);
          if |Sessions.SessionsOf(st'.game, c)| == |rows| then StartGame(st', c, rows, quizDraw)
          else Reply(st', [])
  }

  /** `SubmittedCardInfo.of`: the row's id and its user's nickname. */
  function CardInfo(db: Db, row: Participant, card: Card): (info: Rounds.SubmittedCard)
    requires row.userId in db.users.rows
    ensures info.participantId == row.id && info.cardId == card.id
  {
    Rounds.SubmittedCard(row.id, db.users.rows[row.userId].nickname, card.id, card.word, card.meaning)
  }

  /** What follows an accepted submission: the ack, then, once the quorum
      is reached, the ordered card list to the examiner's game session (the
      first one whose principal is the examiner's user), if any. */
  function AfterSubmit(st: State, sender: Session, code: Code, roomId: int): (out: seq<Outbound>)
    ensures 1 <= |out| <= 2 && out[0] == Send(sender, Envelope(CARD_SUBMITTED, Some(code), NoData))
    ensures ErrorsToSenderOnly(out, sender)
  {
    var ack := Send(sender, Envelope(CARD_SUBMITTED, Some(code), NoData));
    if !Rounds.IsAllCardsSubmitted(st.rounds, code) then [ack]
    else
      match FindFirst(RoomRows(st.db, roomId), IsExaminerRow())
      case None => [ack, ErrorTo(sender, EXAMINER_NOT_FOUND)]
      case Some(examiner) =>
        match FindFirst(Sessions.SessionsOf(st.game, code), OfPrincipal(examiner.userId))
        case None => [ack]
        case Some(target) =>
          [ack, Send(target, Envelope(ALL_CARDS_SUBMITTED, Some(code), Cards(Rounds.SubmittedCards(st.rounds, code))))]
  }

  /** The submission passes every check: a room code, a card id, a stored
      card, a stored room, the sender's row in it, and that row is not the
      examiner's. */
  predicate SubmissionAccepted(st: State, user: User, msg: Inbound) {
    && !MissingCode(msg.roomCode) && msg.cardId.Some?
    && FindCard(st.db, msg.cardId.value).Some?
    && FindRoomByCode(st.db, msg.roomCode.value).Some?
    && var row := FindRow(st.db, FindRoomByCode(st.db, msg.roomCode.value).value.id, user.id);
       row.Some? && !row.value.isExaminer
  }

  /** `handleSubmitCard`. */
  function OnSubmitCard(st: State, sender: Session, user: User, msg: Inbound): (r: Reply)
    requires Valid(st)
    ensures MissingCode(msg.roomCode) ==> r == Reject(st, sender, WEBSOCKET_ROOM_CODE_REQUIRED)
    ensures !MissingCode(msg.roomCode) && msg.cardId.None? ==> r == Reject(st, sender, WEBSOCKET_INVALID_MESSAGE_FORMAT)
    ensures (!MissingCode(msg.roomCode) && msg.cardId.Some? && FindCard(st.db, msg.cardId.value).None?) ==>
      r == Reject(st, sender, CARD_NOT_FOUND)
    ensures (!MissingCode(msg.roomCode) && msg.cardId.Some? && FindCard(st.db, msg.cardId.value).Some?
             && FindRoomByCode(st.db, msg.roomCode.value).None?) ==>
      r == Reject(st, sender, ROOM_NOT_FOUND)
    ensures (!MissingCode(msg.roomCode) && msg.cardId.Some? && FindCard(st.db, msg.cardId.value).Some?
             && FindRoomByCode(st.db, msg.roomCode.value).Some?
             && FindRow(st.db, FindRoomByCode(st.db, msg.roomCode.value).value.id, user.id).None?) ==>
      r == Reject(st, sender, PARTICIPANT_NOT_FOUND)
    ensures (!MissingCode(msg.roomCode) && msg.cardId.Some? && FindCard(st.db, msg.cardId.value).Some?
             && FindRoomByCode(st.db, msg.roomCode.value).Some?
             && FindRow(st.db, FindRoomByCode(st.db, msg.roomCode.value).value.id, user.id).Some?
             && FindRow(st.db, FindRoomByCode(st.db, msg.roomCode.value).value.id, user.id).value.isExaminer) ==>
      r == Reject(st, sender, EXAMINER_CANNOT_SUBMIT_CARD)
    ensures r.st.db == st.db && r.st.lobby == st.lobby && r.st.game == st.game
    ensures !SubmissionAccepted(st, user, msg) ==>
      r.st == st && |r.out| == 1 && r.out[0].Send? && r.out[0].to == sender && r.out[0].env.kind == ERROR
    ensures SubmissionAccepted(st, user, msg) ==>
      var c := msg.roomCode.value;
      var room := FindRoomByCode(st.db, c).value;
      var row := FindRow(st.db, room.id, user.id).value;
      && row.userId in st.db.users.rows
      && r.st.rounds == Rounds.SubmitCard(st.rounds, c, CardInfo(st.db, row, FindCard(st.db, msg.cardId.value).value))
      && r.out == AfterSubmit(r.st, sender, c, room.id)
    ensures ErrorsToSenderOnly(r.out, sender)
    ensures Valid(r.st)
  {
    if MissingCode(msg.roomCode) then Reject(st, sender, WEBSOCKET_ROOM_CODE_REQUIRED)
    else if msg.cardId.None? then Reject(st, sender, WEBSOCKET_INVALID_MESSAGE_FORMAT)
    else
      var c := msg.roomCode.value;
      match FindCard(st.db, msg.cardId.value)
      case None => Reject(st, sender, CARD_NOT_FOUND)
      case Some(card) =>
        match FindRoomByCode(st.db, c)
        case None => Reject(st, sender, ROOM_NOT_FOUND)
        case Some(room) =>
          match FindRow(st.db, room.id, user.id)
          case None => Reject(st, sender, PARTICIPANT_NOT_FOUND)
          case Some(row) =>
            if row.isExaminer then Reject(st, sender, EXAMINER_CANNOT_SUBMIT_CARD)
            else
              var st' := st.(rounds := Rounds.SubmitCard(st.rounds, c, CardInfo(st.db, row, card)));
              Reply(st', AfterSubmit(st', sender, c, room.id))
  }

  // ------------------------------------------------------------ selection

  /** The submitted card of the selected id. */
  function CardOf(id: int): Rounds.SubmittedCard -> bool {
    (card: Rounds.SubmittedCard) => card.participantId == id
  }

  /** The row with this id. */
  function HasId(id: int): Participant -> bool {
    (p: Participant) => p.id == id
  }

  /** `map(Participant::getId)`. */
  function Ids(rows: seq<Participant>): (ids: seq<int>)
    ensures |ids| == |rows|
    ensures forall i :: 0 <= i < |rows| ==> ids[i] == rows[i].id
  {
    if rows == [] then [] else [rows[0].id] + Ids(rows[1..])
  }

  /** `winGame`: one more point. */
  function Scored(p: Participant): (q: Participant)
    ensures q == p.(score := q.score) && q.score == p.score + 1
  {
    p.(score := p.score + 1)
  }

  /** `endGame`: ranks and xp for the room's rows, ROUND_END with the
      ranking to every game session, and the room's round state dropped. */
  function EndGame(st: State, code: Code, roomId: int): (r: Reply)
    requires Valid(st)
    ensures r.st.lobby == st.lobby && r.st.game == st.game
    ensures !Rounds.IsGameStarted(r.st.rounds, code) && Rounds.SubmittedCount(r.st.rounds, code) == 0
    ensures Rounds.ExaminerHistory(r.st.rounds, code) == [] && Rounds.OthersUnchanged(st.rounds, r.st.rounds, code)
    ensures var ranked := Results.RankAndReward(st.db, RoomRows(st.db, roomId));
      && r.st.db == ranked.0
      && r.out == Broadcast(Sessions.SessionsOf(st.game, code), Envelope(ROUND_END, Some(code), GameResult(ranked.1)))
    ensures r.st.db == st.db.(users := r.st.db.users) && r.st.db.users.rows.Keys == st.db.users.rows.Keys
    ensures forall id :: id in st.db.users.rows && !Results.Touches(Results.Podium(RoomRows(st.db, roomId)), id) ==>
      r.st.db.users.rows[id] == st.db.users.rows[id]
    ensures Valid(r.st)
  {
    var rows := RoomRows(st.db, roomId);
    RoomUsersPresent(st.db, roomId);
    var ranked := Results.RankAndReward(st.db, rows);
    Reply(st.(db := ranked.0, rounds := Rounds.EndGame(st.rounds, code)),
          Broadcast(Sessions.SessionsOf(st.game, code), Envelope(ROUND_END, Some(code), GameResult(ranked.1))))
  }

  /** The users of a room's rows are stored users. */
  lemma RoomUsersPresent(db: Db, roomId: int)
    requires WellFormed(db)
    ensures Results.UsersPresent(db, RoomRows(db, roomId))
  {
    var rows := RoomRows(db, roomId);
    forall i | 0 <= i < |rows|
      ensures rows[i].userId in db.users.rows
    {
      var p := rows[i];
      assert p in rows;
    }
  }

  /** The next turn after a selection below the winning score: the
      submissions are cleared, the next examiner is drawn among the room's
      rows and recorded, the caller's row is saved as non-examiner and then
      the chosen row as examiner, and NEXT_ROUND with a new quiz goes to every
      game session. */
  function NextTurn(st: State, sender: Session, code: Code, roomId: int, examiner: Participant, o: Oracle): (r: Reply)
    requires Valid(st) && examiner.userId in st.db.users.rows
    ensures r.st.lobby == st.lobby && r.st.game == st.game
    ensures Rounds.SubmittedCards(r.st.rounds, code) == []
    ensures ErrorsToSenderOnly(r.out, sender)
    ensures Valid(r.st)
  {
    var cleared := Rounds.ClearSubmittedCards(st.rounds, code);
    var rows := RoomRows(st.db, roomId);
    var (next, drawn) := Rounds.SelectNextExaminer(cleared, code, Ids(rows), o.examinerDraw);
    match next
    case None => Reply(st.(rounds := drawn), [ErrorTo(sender, WEBSOCKET_INVALID_MESSAGE_FORMAT)])
    case Some(nextId) =>
      var recorded := Rounds.AddExaminerHistory(drawn, code, nextId);
      match FindFirst(rows, HasId(nextId))
      case None => Reply(st.(rounds := recorded), [ErrorTo(sender, PARTICIPANT_NOT_FOUND)])
      case Some(nextRow) =>
        assert nextRow in rows;
        HandOver(st.(rounds := recorded), sender, code, examiner, nextRow, o.quizDraw)
  }

  /** The examiner flag moves from `examiner` to `chosen`, one save each,
      and NEXT_ROUND with a new quiz and the chosen user goes to every game
      session. */
  function HandOver(st: State, sender: Session, code: Code, examiner: Participant, chosen: Participant, quizDraw: nat): (r: Reply)
    requires Valid(st) && examiner.userId in st.db.users.rows && chosen.userId in st.db.users.rows
    ensures r.st.lobby == st.lobby && r.st.game == st.game && r.st.rounds == st.rounds
    ensures r.st.db == SaveParticipant(SaveParticipant(st.db, examiner.(isExaminer := false)), chosen.(isExaminer := true))
    ensures RandomQuiz(st.db, quizDraw).Failure? ==> r.out == [ErrorTo(sender, QUIZ_NOT_FOUND)]
    ensures RandomQuiz(st.db, quizDraw).Success? ==>
      var quiz := RandomQuiz(st.db, quizDraw).value;
      && quiz in st.db.quizzes
      && r.out == Broadcast(Sessions.SessionsOf(st.game, code),
                            Envelope(NEXT_ROUND, Some(code), NextRound(chosen.userId, st.db.users.rows[chosen.userId].nickname, quiz)))
    ensures ErrorsToSenderOnly(r.out, sender)
    ensures Valid(r.st)
  {
    var db1 := SaveParticipant(st.db, examiner.(isExaminer := false));
    var db2 := SaveParticipant(db1, chosen.(isExaminer := true));
    var st' := st.(db := db2);
    match RandomQuiz(db2, quizDraw)
    case Failure(e) => Reply(st', [ErrorTo(sender, e)])
    case Success(quiz) =>
      var nickname := st.db.users.rows[chosen.userId].nickname;
      var env := Envelope(NEXT_ROUND, Some(code), NextRound(chosen.userId, nickname, quiz));
      BroadcastHasNoError(Sessions.SessionsOf(st.game, code), env, sender);
      Reply(st', Broadcast(Sessions.SessionsOf(st.game, code), env))
  }

  /** `handleExaminerSelect`. */
  function OnExaminerSelect(st: State, sender: Session, user: User, msg: Inbound, o: Oracle): (r: Reply)
    requires Valid(st)
    ensures MissingCode(msg.roomCode) ==> r == Reject(st, sender, WEBSOCKET_ROOM_CODE_REQUIRED)
    ensures !MissingCode(msg.roomCode) && msg.participantId.None? ==> r == Reject(st, sender, WEBSOCKET_INVALID_MESSAGE_FORMAT)
    ensures (!MissingCode(msg.roomCode) && msg.participantId.Some? && FindRoomByCode(st.db, msg.roomCode.value).None?) ==>
      r == Reject(st, sender, ROOM_NOT_FOUND)
    ensures (!MissingCode(msg.roomCode) && msg.participantId.Some? && FindRoomByCode(st.db, msg.roomCode.value).Some?
             && FindRow(st.db, FindRoomByCode(st.db, msg.roomCode.value).value.id, user.id).None?) ==>
      r == Reject(st, sender, PARTICIPANT_NOT_FOUND)
    ensures (!MissingCode(msg.roomCode) && msg.participantId.Some? && FindRoomByCode(st.db, msg.roomCode.value).Some?
             && FindRow(st.db, FindRoomByCode(st.db, msg.roomCode.value).value.id, user.id).Some?
             && FindRow(st.db, FindRoomByCode(st.db, msg.roomCode.value).value.id, user.id).value.isExaminer
             && FindRow(st.db, FindRoomByCode(st.db, msg.roomCode.value).value.id, msg.participantId.value).None?) ==>
      r == Reject(st, sender, PARTICIPANT_NOT_FOUND)
    ensures r.st.lobby == st.lobby && r.st.game == st.game
    ensures ErrorsToSenderOnly(r.out, sender)
    ensures Valid(r.st)
  {
    if MissingCode(msg.roomCode) then Reject(st, sender, WEBSOCKET_ROOM_CODE_REQUIRED)
    else if msg.participantId.None? then Reject(st, sender, WEBSOCKET_INVALID_MESSAGE_FORMAT)
    else
      var c := msg.roomCode.value;
      var selected := msg.participantId.value;
      match FindRoomByCode(st.db, c)
      case None => Reject(st, sender, ROOM_NOT_FOUND)
      case Some(room) =>
        match FindRow(st.db, room.id, user.id)
        case None => Reject(st, sender, PARTICIPANT_NOT_FOUND)
        case Some(examiner) =>
          if !examiner.isExaminer then Reject(st, sender, WEBSOCKET_INVALID_MESSAGE_FORMAT)
          else
            // the selected id is looked up in the user-id position
            match FindRow(st.db, room.id, selected)
            case None => Reject(st, sender, PARTICIPANT_NOT_FOUND)
            case Some(winner) => Award(st, sender, c, room.id, examiner, winner, selected, o)
  }

  /** The part of `handleExaminerSelect` after the winner's row is found:
      the point is saved at once, then the selected card is looked up, the
      selection is announced to every game session, and the game either
      ends or moves to the next turn. */
  function Award(st: State, sender: Session, code: Code, roomId: int, examiner: Participant, winner: Participant, selected: int, o: Oracle): (r: Reply)
    requires Valid(st) && examiner in st.db.participants && winner in st.db.participants
    ensures r.st.lobby == st.lobby && r.st.game == st.game
    ensures ErrorsToSenderOnly(r.out, sender)
    ensures Valid(r.st)
  {
    var scored := Scored(winner);
    var st1 := st.(db := SaveParticipant(st.db, scored));
    match FindFirst(Rounds.SubmittedCards(st.rounds, code), CardOf(selected))
    case None => Reply(st1, [ErrorTo(sender, CARD_NOT_FOUND)])
    case Some(card) =>
      var nickname := st.db.users.rows[winner.userId].nickname;
      var env := Envelope(EXAMINER_SELECTED, Some(code), Selected(Selection(selected, card.word, nickname, scored.score)));
      var announce := Broadcast(Sessions.SessionsOf(st.game, code), env);
      var rest := EndOrNextTurn(st1, sender, code, roomId, examiner, scored.score, o);
      BroadcastHasNoError(Sessions.SessionsOf(st.game, code), env, sender);
      ErrorsAppend(announce, rest.out, sender);
      Reply(rest.st, announce + rest.out)
  }

  /** What follows the announcement: the game ends when the new score
      reaches the winning score, otherwise the next turn begins. */
  function EndOrNextTurn(st: State, sender: Session, code: Code, roomId: int, examiner: Participant, newScore: int, o: Oracle): (r: Reply)
    requires Valid(st) && examiner.userId in st.db.users.rows
    ensures r.st.lobby == st.lobby && r.st.game == st.game
    ensures newScore >= WINNING_SCORE ==> !Rounds.IsGameStarted(r.st.rounds, code)
    ensures ErrorsToSenderOnly(r.out, sender)
    ensures Valid(r.st)
  {
    if newScore >= WINNING_SCORE then EndGame(st, code, roomId)
    else NextTurn(st, sender, code, roomId, examiner, o)
  }

  /** The score that ends the game. */
  const WINNING_SCORE: int := 5

  // ----------------------------------------------------------------- exit

  /** What a completed exit sends: ROOM_EXIT to the leaver, and, when rows
      remain, ROOM_EXIT with the leaver and the number of rows left to every
      remaining lobby session. */
  function ExitMessages(sender: Session, code: Code, user: User, lobby: seq<Session>, left: nat): (out: seq<Outbound>)
    ensures ErrorsToSenderOnly(out, sender)
  {
    var ack := Send(sender, Envelope(ROOM_EXIT, Some(code), NoData));
    if left == 0 then [ack]
    else
      var env := Envelope(ROOM_EXIT, Some(code), UserExit(user.id, user.nickname, left));
      BroadcastHasNoError(lobby, env, sender);
      ErrorsAppend([ack], Broadcast(lobby, env), sender);
      [ack] + Broadcast(lobby, env)
  }

  /** `handleRoomExit`. */
  function OnRoomExit(st: State, sender: Session, user: User, code: Option<string>): (r: Reply)
    requires Valid(st)
    ensures MissingCode(code) ==> r == Reject(st, sender, WEBSOCKET_ROOM_CODE_REQUIRED)
    ensures !MissingCode(code) && FindRoomByCode(st.db, code.value).Some? && Rounds.IsGameStarted(st.rounds, code.value) ==>
      r == Reply(st, [Send(sender, Envelope(ERROR, None, Problem(GameAlreadyStarted)))])
    ensures !MissingCode(code) && FindRoomByCode(st.db, code.value).None? ==> r == Reject(st, sender, ROOM_NOT_FOUND)
    ensures (!MissingCode(code) && FindRoomByCode(st.db, code.value).Some? && !Rounds.IsGameStarted(st.rounds, code.value)
             && FindRow(st.db, FindRoomByCode(st.db, code.value).value.id, user.id).None?) ==>
      r == Reject(st, sender, PARTICIPANT_NOT_FOUND)
    ensures r.st.rounds == st.rounds
    ensures ErrorsToSenderOnly(r.out, sender)
    ensures Valid(r.st)
  {
    if MissingCode(code) then Reject(st, sender, WEBSOCKET_ROOM_CODE_REQUIRED)
    else
      var c := code.value;
      match FindRoomByCode(st.db, c)
      case None => Reject(st, sender, ROOM_NOT_FOUND)
      case Some(room) =>
        if Rounds.IsGameStarted(st.rounds, c) then
          Reply(st, [Send(sender, Envelope(ERROR, None, Problem(GameAlreadyStarted)))])
        else
          match FindRow(st.db, room.id, user.id)
          case None => Reject(st, sender, PARTICIPANT_NOT_FOUND)
          case Some(row) =>
            var db' := DeleteParticipant(st.db, row);
            var st' := RemoveEverywhere(st.(db := db'), c, sender);
            Reply(st', ExitMessages(sender, c, user, Sessions.SessionsOf(st'.lobby, c), |RoomRows(db', room.id)|))
  }

  // ------------------------------------------------------------- dispatch

  /** `handleTextMessage`: the dispatch on the message kind. A frame that
      does not decode, or has no kind, gets one INVALID_MESSAGE_FORMAT error;
      the kinds without a handler (LEAVE_ROOM among them) only log. */
  function Step(st: State, sender: Session, frame: Frame, o: Oracle): (r: Reply)
    requires Valid(st)
    requires sender.principal.Some? ==> Authenticated(st, sender)
    ensures sender.principal.None? ==> r == Reply(st, [])
    ensures sender.principal.Some? && (frame.Malformed? || frame.msg.kind.None?) ==>
      r == Reject(st, sender, WEBSOCKET_INVALID_MESSAGE_FORMAT)
    ensures sender.principal.Some? && frame.Message? && frame.msg.kind.Some? && !Handled(frame.msg.kind.value) ==>
      r == Reply(st, [])
    ensures ErrorsToSenderOnly(r.out, sender)
    ensures Valid(r.st)
  {
    if sender.principal.None? then Reply(st, [])
    else
      var user := sender.principal.value;
      match frame
      case Malformed => Reject(st, sender, WEBSOCKET_INVALID_MESSAGE_FORMAT)
      case Message(msg) =>
        match msg.kind
        case None => Reject(st, sender, WEBSOCKET_INVALID_MESSAGE_FORMAT)
        case Some(kind) =>
          match kind
          case CREATE_ROOM => OnCreateRoom(st, sender, user, o.codeDraws)
          case JOIN_ROOM => OnJoinRoom(st, sender, user, msg.roomCode)
          case ROOM_EXIT => OnRoomExit(st, sender, user, msg.roomCode)
          case CONNECT_GAME => OnConnectGame(st, sender, user, msg.roomCode, o.quizDraw)
          case SUBMIT_CARD => OnSubmitCard(st, sender, user, msg)
          case EXAMINER_SELECT => OnExaminerSelect(st, sender, user, msg, o)
          case _ => Reply(st, [])
  }

  /** The kinds `handleTextMessage` dispatches to a handler. */
  predicate Handled(kind: MessageKind) {
    kind in {CREATE_ROOM, JOIN_ROOM, ROOM_EXIT, CONNECT_GAME, SUBMIT_CARD, EXAMINER_SELECT}
  }
}
