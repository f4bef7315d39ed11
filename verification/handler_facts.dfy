/** What the coordinator promises across its handlers: input errors go to
    the sender alone and change nothing, joins and exits are announced to
    the right sessions, a game starts when everyone is connected, cards
    reach the examiner, and a selection scores, ends or hands over the
    turn. */
module CoordinatorFacts {
  import opened Common
  import opened Errors
  import opened Users
  import opened Store
  import opened Protocol
  import opened Coordinator
  import Rounds
  import Sessions
  import Play
  import Results

  // ------------------------------------------------------------ validation

  /** Every room-scoped message without a room code is answered with one
      ROOM_CODE_REQUIRED error to the sender and changes nothing. */
  lemma MissingCodeRejected(st: State, sender: Session, msg: Inbound, o: Oracle)
    requires Coordinator.Valid(st) && Authenticated(st, sender)
    requires msg.kind.Some? && msg.kind.value in {JOIN_ROOM, CONNECT_GAME, SUBMIT_CARD, EXAMINER_SELECT, ROOM_EXIT}
    requires MissingCode(msg.roomCode)
    ensures var r := Step(st, sender, Message(msg), o);
      r.st == st && r.out == [ErrorTo(sender, WEBSOCKET_ROOM_CODE_REQUIRED)]
  {
  }

  // ------------------------------------------------------------------ join

  /** A successful join lists the joiner. */
  lemma JoinerListed(db: Db, code: Code, user: User)
    requires WellFormed(db) && user.id in db.users.rows
    requires Play.JoinRoom(db, code, user).Success?
    ensures FindFirst(Play.JoinRoom(db, code, user).value.1, InfoOfUser(user.id)).Some?
  {
    var room := FindRoomByCode(db, code).value;
    var (db', infos) := Play.JoinRoom(db, code, user).value;
    var remaining := RoomRows(DeleteUserRows(db, user.id), room.id);
    if |remaining| == 0 {
      var info := infos[0];
      assert info in infos && InfoOfUser(user.id)(info);
    } else {
      var rows := RoomRows(db', room.id);
      var k := |rows| - 1;
      assert rows[k].userId == user.id;
      var info := infos[k];
      assert info in infos && InfoOfUser(user.id)(info);
    }
  }

  /** Who hears what when a join succeeded: the ack to the joiner only,
      USER_JOINED to the other sessions, GAME_READY to all of them at four. */
  lemma JoinMessagesSent(sender: Session, code: Code, infos: seq<ParticipantInfo>, info: ParticipantInfo, lobby: seq<Session>)
    ensures var out := JoinMessages(sender, code, infos, Some(info), lobby);
      && out[0] == Send(sender, Envelope(ROOM_JOINED, Some(code), Participants(infos)))
      && SentOf(out, ROOM_JOINED) == [sender]
      && SentOf(out, USER_JOINED) == Filter(lobby, NotSession(sender.id))
      && SentOf(out, GAME_READY) == (if |infos| == Play.MAX_PARTICIPANTS then lobby else [])
  {
    JoinKindSent(sender, code, infos, info, lobby, ROOM_JOINED);
    JoinKindSent(sender, code, infos, info, lobby, USER_JOINED);
    JoinKindSent(sender, code, infos, info, lobby, GAME_READY);
  }

  /** The recipients of one kind among the join messages: the ack's, the
      announcement's and the ready broadcast's, in that order. */
  lemma JoinKindSent(sender: Session, code: Code, infos: seq<ParticipantInfo>, info: ParticipantInfo, lobby: seq<Session>, kind: MessageKind)
    ensures var out := JoinMessages(sender, code, infos, Some(info), lobby);
      && out[0] == Send(sender, Envelope(ROOM_JOINED, Some(code), Participants(infos)))
      && SentOf(out, kind) ==
           (if kind == ROOM_JOINED then [sender] else [])
           + (if kind == USER_JOINED then Filter(lobby, NotSession(sender.id)) else [])
           + (if kind == GAME_READY && |infos| == Play.MAX_PARTICIPANTS then lobby else [])
  {
    var ack := Send(sender, Envelope(ROOM_JOINED, Some(code), Participants(infos)));
    var others := Filter(lobby, NotSession(sender.id));
    var joinedEnv := Envelope(USER_JOINED, Some(code), Joined(info));
    var readyEnv := Envelope(GAME_READY, Some(code), Participants(infos));
    var joined := Broadcast(others, joinedEnv);
    var ready := if |infos| == Play.MAX_PARTICIPANTS then Broadcast(lobby, readyEnv) else [];
    assert JoinMessages(sender, code, infos, Some(info), lobby) == [ack] + joined + ready;
    assert [ack][1..] == [];
    SentOfThree([ack], joined, ready, kind);
    SentOfBroadcast(others, joinedEnv, kind);
    SentOfBroadcast(lobby, readyEnv, kind);
  }

  lemma SentOfThree(a: seq<Outbound>, b: seq<Outbound>, c: seq<Outbound>, kind: MessageKind)
    ensures SentOf(a + b + c, kind) == SentOf(a, kind) + SentOf(b, kind) + SentOf(c, kind)
  {
    SentOfAppend(a + b, c, kind);
    SentOfAppend(a, b, kind);
  }

  /** A successful JOIN_ROOM acknowledges the joiner with the list,
      announces the joiner to every other lobby session of the room and
      never to the joiner, and sends GAME_READY to all of them exactly when
      the list has four entries. */
  lemma JoinAnnouncements(st: State, sender: Session, user: User, code: Code)
    requires Coordinator.Valid(st) && user.id in st.db.users.rows && code != []
    requires Play.JoinRoom(st.db, code, user).Success?
    ensures var r := OnJoinRoom(st, sender, user, Some(code));
      var infos := Play.JoinRoom(st.db, code, user).value.1;
      var lobby := Sessions.SessionsOf(r.st.lobby, code);
      && sender in lobby
      && r.out[0] == Send(sender, Envelope(ROOM_JOINED, Some(code), Participants(infos)))
      && SentOf(r.out, ROOM_JOINED) == [sender]
      && SentOf(r.out, USER_JOINED) == Filter(lobby, NotSession(sender.id))
      && sender !in SentOf(r.out, USER_JOINED)
      && SentOf(r.out, GAME_READY) == (if |infos| == Play.MAX_PARTICIPANTS then lobby else [])
  {
    var r := OnJoinRoom(st, sender, user, Some(code));
    var infos := Play.JoinRoom(st.db, code, user).value.1;
    var lobby := Sessions.SessionsOf(r.st.lobby, code);
    JoinerListed(st.db, code, user);
    var info := FindFirst(infos, InfoOfUser(user.id)).value;
    assert r.out == JoinMessages(sender, code, infos, Some(info), lobby);
    JoinMessagesSent(sender, code, infos, info, lobby);
    FilterMembers(lobby, NotSession(sender.id));
  }

  // ------------------------------------------------------------ game start

  /** CONNECT_GAME from a participant of the room puts the sender in the
      game set and starts the game exactly when that set is as large as the
      room's row count: the round state is reset and the current examiner
      is the only history entry. Below that count nothing else happens. */
  lemma ConnectGameStartsWhenAllConnected(st: State, sender: Session, user: User, code: Code, quizDraw: nat)
    requires Coordinator.Valid(st) && code != []
    requires FindRoomByCode(st.db, code).Some?
    requires FindRow(st.db, FindRoomByCode(st.db, code).value.id, user.id).Some?
    ensures var r := OnConnectGame(st, sender, user, Some(code), quizDraw);
      var rows := RoomRows(st.db, FindRoomByCode(st.db, code).value.id);
      var connected := Sessions.SessionsOf(r.st.game, code);
      var examiner := FindFirst(rows, IsExaminerRow());
      && sender in connected
      && (|connected| == |rows| ==>
            && Rounds.IsGameStarted(r.st.rounds, code)
            && Rounds.SubmittedCards(r.st.rounds, code) == []
            && (examiner.Some? ==>
                  && examiner.value.isExaminer && examiner.value in rows
                  && Rounds.ExaminerHistory(r.st.rounds, code) == [examiner.value.id]))
      && (|connected| != |rows| ==> r.st.rounds == st.rounds && r.out == [])
  {
  }

  // ------------------------------------------------------------ submission

  /** An accepted card is appended to the room's list and acknowledged;
      below the quorum that is all. At the quorum the full list, in
      submission order, goes to the first game session whose user is the
      examiner, and to no other session. */
  lemma SubmitRouting(st: State, sender: Session, user: User, msg: Inbound)
    requires Coordinator.Valid(st) && SubmissionAccepted(st, user, msg)
    ensures var r := OnSubmitCard(st, sender, user, msg);
      var c := msg.roomCode.value;
      var room := FindRoomByCode(st.db, c).value;
      var row := FindRow(st.db, room.id, user.id).value;
      var cards := Rounds.SubmittedCards(r.st.rounds, c);
      var examiner := FindFirst(RoomRows(st.db, room.id), IsExaminerRow());
      && row.userId in st.db.users.rows
      && cards == Rounds.SubmittedCards(st.rounds, c) + [CardInfo(st.db, row, FindCard(st.db, msg.cardId.value).value)]
      && SentOf(r.out, CARD_SUBMITTED) == [sender]
      && (|cards| < Rounds.QUORUM ==> |r.out| == 1)
      && (|cards| >= Rounds.QUORUM && examiner.Some? ==>
            var target := FindFirst(Sessions.SessionsOf(st.game, c), OfPrincipal(examiner.value.userId));
            && (target.Some? ==>
                  && r.out == [r.out[0], Send(target.value, Envelope(ALL_CARDS_SUBMITTED, Some(c), Cards(cards)))]
                  && SentOf(r.out, ALL_CARDS_SUBMITTED) == [target.value])
            && (target.None? ==> SentOf(r.out, ALL_CARDS_SUBMITTED) == []))
  {
    var r := OnSubmitCard(st, sender, user, msg);
    var c := msg.roomCode.value;
    var room := FindRoomByCode(st.db, c).value;
    assert FindRoomByCode(st.db, c) == Some(room);
    AfterSubmitRouting(r.st, sender, c, room.id);
  }

  /** After a submission: the ack to the sender, and, once the quorum is
      reached, the cards to the examiner's game session when it has one. */
  lemma AfterSubmitRouting(st: State, sender: Session, c: Code, roomId: int)
    ensures var out := AfterSubmit(st, sender, c, roomId);
      var cards := Rounds.SubmittedCards(st.rounds, c);
      var examiner := FindFirst(RoomRows(st.db, roomId), IsExaminerRow());
      && SentOf(out, CARD_SUBMITTED) == [sender]
      && (|cards| < Rounds.QUORUM ==> |out| == 1)
      && (|cards| >= Rounds.QUORUM && examiner.Some? ==>
            var target := FindFirst(Sessions.SessionsOf(st.game, c), OfPrincipal(examiner.value.userId));
            && (target.Some? ==>
                  && out == [out[0], Send(target.value, Envelope(ALL_CARDS_SUBMITTED, Some(c), Cards(cards)))]
                  && SentOf(out, ALL_CARDS_SUBMITTED) == [target.value])
            && (target.None? ==> SentOf(out, ALL_CARDS_SUBMITTED) == []))
  {
    var out := AfterSubmit(st, sender, c, roomId);
    var a := out[0];
    assert [a][1..] == [];
    if |out| == 2 {
      var b := out[1];
      assert out == [a] + [b];
      SentOfAppend([a], [b], CARD_SUBMITTED);
      SentOfAppend([a], [b], ALL_CARDS_SUBMITTED);
      assert [b][1..] == [];
    } else {
      assert out == [a];
    }
  }

  // ------------------------------------------------------------- selection

  /** A selection from a caller whose row is not the examiner's is refused
      with one error and no change, so no score moves. */
  lemma NonExaminerCannotSelect(st: State, sender: Session, user: User, msg: Inbound, o: Oracle)
    requires Coordinator.Valid(st) && !MissingCode(msg.roomCode) && msg.participantId.Some?
    requires FindRoomByCode(st.db, msg.roomCode.value).Some?
    requires var row := FindRow(st.db, FindRoomByCode(st.db, msg.roomCode.value).value.id, user.id);
      row.Some? && !row.value.isExaminer
    ensures OnExaminerSelect(st, sender, user, msg, o) == Reject(st, sender, WEBSOCKET_INVALID_MESSAGE_FORMAT)
  {
  }

  /** A selection from the room's examiner with a selected id that names a
      row reaches the scoring step with the row of the room whose USER id is
      the selected id: the selected value is looked up in the user-id
      position, not as a row id. */
  lemma SelectionLooksUpByUserId(st: State, sender: Session, user: User, msg: Inbound, o: Oracle)
    requires Coordinator.Valid(st) && !MissingCode(msg.roomCode) && msg.participantId.Some?
    requires FindRoomByCode(st.db, msg.roomCode.value).Some?
    requires var room := FindRoomByCode(st.db, msg.roomCode.value).value;
      && var examiner := FindRow(st.db, room.id, user.id);
      && examiner.Some? && examiner.value.isExaminer
      && FindRow(st.db, room.id, msg.participantId.value).Some?
    ensures var room := FindRoomByCode(st.db, msg.roomCode.value).value;
      var examiner := FindRow(st.db, room.id, user.id).value;
      var winner := FindRow(st.db, room.id, msg.participantId.value).value;
      && winner.userId == msg.participantId.value && winner.roomId == room.id
      && OnExaminerSelect(st, sender, user, msg, o)
           == Award(st, sender, msg.roomCode.value, room.id, examiner, winner, msg.participantId.value, o)
  {
  }

  /** The winner's score is saved one higher before the submitted card is
      looked up: when no card carries the selected id, the error goes out
      but the point stays. */
  lemma WinnerScoredBeforeCardLookup(st: State, sender: Session, code: Code, roomId: int, examiner: Participant, winner: Participant, selected: int, o: Oracle)
    requires Coordinator.Valid(st) && examiner in st.db.participants && winner in st.db.participants
    requires FindFirst(Rounds.SubmittedCards(st.rounds, code), CardOf(selected)).None?
    ensures var r := Award(st, sender, code, roomId, examiner, winner, selected, o);
      && r.st == st.(db := SaveParticipant(st.db, winner.(score := winner.score + 1)))
      && winner.(score := winner.score + 1) in r.st.db.participants
      && r.out == [ErrorTo(sender, CARD_NOT_FOUND)]
  {
    var scored := Scored(winner);
    assert scored == winner.(score := winner.score + 1);
    AwardWithoutCard(st, sender, code, roomId, examiner, winner, selected, o);
    SavedRowPresent(st.db, winner, scored);
  }

  /** With no card for the selected id, `Award` keeps the saved point and
      reports CARD_NOT_FOUND. */
  lemma AwardWithoutCard(st: State, sender: Session, code: Code, roomId: int, examiner: Participant, winner: Participant, selected: int, o: Oracle)
    requires Coordinator.Valid(st) && examiner in st.db.participants && winner in st.db.participants
    requires FindFirst(Rounds.SubmittedCards(st.rounds, code), CardOf(selected)).None?
    ensures Award(st, sender, code, roomId, examiner, winner, selected, o)
      == Reply(st.(db := SaveParticipant(st.db, Scored(winner))), [ErrorTo(sender, CARD_NOT_FOUND)])
  {
  }

  /** Saving a row over a stored row with the same id stores it. */
  lemma SavedRowPresent(db: Db, stored: Participant, p: Participant)
    requires stored in db.participants && stored.id == p.id
    ensures p in SaveParticipant(db, p).participants
  {
    var i :| 0 <= i < |db.participants| && db.participants[i] == stored;
    assert SaveParticipant(db, p).participants[i] == p;
  }

  /** With the card found, `Award` is the announcement followed by what
      the end of the game or the next turn sends. */
  lemma AwardSplits(st: State, sender: Session, code: Code, roomId: int, examiner: Participant, winner: Participant, selected: int, o: Oracle)
    requires Coordinator.Valid(st) && examiner in st.db.participants && winner in st.db.participants
    requires FindFirst(Rounds.SubmittedCards(st.rounds, code), CardOf(selected)).Some?
    ensures var game := Sessions.SessionsOf(st.game, code);
      var card := FindFirst(Rounds.SubmittedCards(st.rounds, code), CardOf(selected)).value;
      var env := Envelope(EXAMINER_SELECTED, Some(code),
        Selected(Selection(selected, card.word, st.db.users.rows[winner.userId].nickname, winner.score + 1)));
      var st1 := st.(db := SaveParticipant(st.db, Scored(winner)));
      var tail := EndOrNextTurn(st1, sender, code, roomId, examiner, winner.score + 1, o);
      Award(st, sender, code, roomId, examiner, winner, selected, o) == Reply(tail.st, Broadcast(game, env) + tail.out)
  {
  }

  /** Once the card is found, EXAMINER_SELECTED with the new score goes to
      every game session before anything else. */
  lemma SelectionAnnounced(st: State, sender: Session, code: Code, roomId: int, examiner: Participant, winner: Participant, selected: int, o: Oracle)
    requires Coordinator.Valid(st) && examiner in st.db.participants && winner in st.db.participants
    requires FindFirst(Rounds.SubmittedCards(st.rounds, code), CardOf(selected)).Some?
    ensures var game := Sessions.SessionsOf(st.game, code);
      var r := Award(st, sender, code, roomId, examiner, winner, selected, o);
      && |game| <= |r.out|
      && SentOf(r.out[..|game|], EXAMINER_SELECTED) == game
      && (forall i :: 0 <= i < |game| ==>
            r.out[i].Send? && r.out[i].env.data.Selected? && r.out[i].env.data.selection.newScore == winner.score + 1)
  {
    var game := Sessions.SessionsOf(st.game, code);
    var card := FindFirst(Rounds.SubmittedCards(st.rounds, code), CardOf(selected)).value;
    var env := Envelope(EXAMINER_SELECTED, Some(code),
      Selected(Selection(selected, card.word, st.db.users.rows[winner.userId].nickname, winner.score + 1)));
    var st1 := st.(db := SaveParticipant(st.db, Scored(winner)));
    var tail := EndOrNextTurn(st1, sender, code, roomId, examiner, winner.score + 1, o);
    AwardSplits(st, sender, code, roomId, examiner, winner, selected, o);
    var out := Broadcast(game, env) + tail.out;
    assert out[..|game|] == Broadcast(game, env);
    SentOfBroadcast(game, env, EXAMINER_SELECTED);
  }

  /** A new score of five or more ends the game: the room's round state is
      gone and, after the announcement, ROUND_END goes to every game
      session. Below five the submissions are cleared for the next turn. */
  lemma SelectionEndsOrContinues(st: State, sender: Session, code: Code, roomId: int, examiner: Participant, winner: Participant, selected: int, o: Oracle)
    requires Coordinator.Valid(st) && examiner in st.db.participants && winner in st.db.participants
    requires FindFirst(Rounds.SubmittedCards(st.rounds, code), CardOf(selected)).Some?
    ensures var game := Sessions.SessionsOf(st.game, code);
      var r := Award(st, sender, code, roomId, examiner, winner, selected, o);
      && |game| <= |r.out|
      && (winner.score + 1 >= WINNING_SCORE ==>
            && !Rounds.IsGameStarted(r.st.rounds, code)
            && Rounds.SubmittedCount(r.st.rounds, code) == 0
            && Rounds.ExaminerHistory(r.st.rounds, code) == []
            && SentOf(r.out[|game|..], ROUND_END) == game)
      && (winner.score + 1 < WINNING_SCORE ==> Rounds.SubmittedCards(r.st.rounds, code) == [])
  {
    var game := Sessions.SessionsOf(st.game, code);
    var card := FindFirst(Rounds.SubmittedCards(st.rounds, code), CardOf(selected)).value;
    var env := Envelope(EXAMINER_SELECTED, Some(code),
      Selected(Selection(selected, card.word, st.db.users.rows[winner.userId].nickname, winner.score + 1)));
    var st1 := st.(db := SaveParticipant(st.db, Scored(winner)));
    var tail := EndOrNextTurn(st1, sender, code, roomId, examiner, winner.score + 1, o);
    AwardSplits(st, sender, code, roomId, examiner, winner, selected, o);
    var out := Broadcast(game, env) + tail.out;
    assert out[|game|..] == tail.out;
    if winner.score + 1 >= WINNING_SCORE {
      var ranked := Results.RankAndReward(st1.db, RoomRows(st1.db, roomId));
      SentOfBroadcast(game, Envelope(ROUND_END, Some(code), GameResult(ranked.1)), ROUND_END);
    }
  }

  /** With no rows left the history is reset, nothing is saved, and the
      caller gets INVALID_MESSAGE_FORMAT. */
  lemma NextTurnWithoutRows(st: State, sender: Session, code: Code, roomId: int, examiner: Participant, o: Oracle)
    requires Coordinator.Valid(st) && examiner.userId in st.db.users.rows
    requires RoomRows(st.db, roomId) == []
    ensures var r := NextTurn(st, sender, code, roomId, examiner, o);
      && r.out == [ErrorTo(sender, WEBSOCKET_INVALID_MESSAGE_FORMAT)]
      && Rounds.ExaminerHistory(r.st.rounds, code) == [] && r.st.db == st.db
  {
    var rows := RoomRows(st.db, roomId);
    assert Ids(rows) == [];
  }

  /** A drawn id is the id of one of the rows, so the row is found. */
  lemma DrawnIdIsARow(rows: seq<Participant>, id: int)
    requires id in Ids(rows)
    ensures FindFirst(rows, HasId(id)).Some? && FindFirst(rows, HasId(id)).value in rows
  {
    var k :| 0 <= k < |rows| && Ids(rows)[k] == id;
    var row := rows[k];
    assert row in rows && HasId(id)(row);
  }

  /** The next turn of a room with rows: the chosen id is recorded, and the
      two flag saves are the store's only change. */
  lemma NextTurnSaves(st: State, sender: Session, code: Code, roomId: int, examiner: Participant, o: Oracle)
    requires Coordinator.Valid(st) && examiner.userId in st.db.users.rows
    requires RoomRows(st.db, roomId) != []
    ensures var rows := RoomRows(st.db, roomId);
      var drawn := Rounds.SelectNextExaminer(Rounds.ClearSubmittedCards(st.rounds, code), code, Ids(rows), o.examinerDraw);
      && drawn.0.Some?
      && FindFirst(rows, HasId(drawn.0.value)).Some?
      && var chosen := FindFirst(rows, HasId(drawn.0.value)).value;
      && var r := NextTurn(st, sender, code, roomId, examiner, o);
      && chosen in rows
      && r.st.rounds == Rounds.AddExaminerHistory(drawn.1, code, chosen.id)
      && r.st.db == SaveParticipant(SaveParticipant(st.db, examiner.(isExaminer := false)), chosen.(isExaminer := true))
  {
    var rows := RoomRows(st.db, roomId);
    var drawn := Rounds.SelectNextExaminer(Rounds.ClearSubmittedCards(st.rounds, code), code, Ids(rows), o.examinerDraw);
    DrawnIdIsARow(rows, drawn.0.value);
  }

  /** The next examiner always names a row of the room when the room has
      rows, so the turn is handed over: the chosen id is appended to the
      history, the caller's row is saved as non-examiner and then the
      chosen row as examiner, so the chosen row ends up examiner even when it
      is the caller's own. */
  lemma NextTurnHandsOver(st: State, sender: Session, code: Code, roomId: int, examiner: Participant, o: Oracle)
    requires Coordinator.Valid(st) && examiner.userId in st.db.users.rows
    requires RoomRows(st.db, roomId) != []
    ensures var rows := RoomRows(st.db, roomId);
      var drawn := Rounds.SelectNextExaminer(Rounds.ClearSubmittedCards(st.rounds, code), code, Ids(rows), o.examinerDraw);
      var r := NextTurn(st, sender, code, roomId, examiner, o);
      && drawn.0.Some?
      && FindFirst(rows, HasId(drawn.0.value)).Some?
      && var chosen := FindFirst(rows, HasId(drawn.0.value)).value;
      && chosen in rows
      && Rounds.ExaminerHistory(r.st.rounds, code) == Rounds.ExaminerHistory(drawn.1, code) + [chosen.id]
      && (forall q :: q in r.st.db.participants && q.id == chosen.id ==> q == chosen.(isExaminer := true))
      && (forall q :: q in r.st.db.participants && q.id == examiner.id && examiner.id != chosen.id ==>
            q == examiner.(isExaminer := false))
  {
    NextTurnSaves(st, sender, code, roomId, examiner, o);
    var rows := RoomRows(st.db, roomId);
    var drawn := Rounds.SelectNextExaminer(Rounds.ClearSubmittedCards(st.rounds, code), code, Ids(rows), o.examinerDraw);
    var chosen := FindFirst(rows, HasId(drawn.0.value)).value;
    SavesInOrder(st.db, examiner.(isExaminer := false), chosen.(isExaminer := true));
  }

  /** The next turn of a room with rows is announced: NEXT_ROUND, naming
      the chosen row's user and nickname and a stored quiz, goes to exactly
      the room's game sessions and is the only message. With no quiz stored,
      the caller alone gets QUIZ_NOT_FOUND, after the two saves. */
  lemma NextTurnAnnounced(st: State, sender: Session, code: Code, roomId: int, examiner: Participant, o: Oracle)
    requires Coordinator.Valid(st) && examiner.userId in st.db.users.rows
    requires RoomRows(st.db, roomId) != []
    ensures var rows := RoomRows(st.db, roomId);
      var drawn := Rounds.SelectNextExaminer(Rounds.ClearSubmittedCards(st.rounds, code), code, Ids(rows), o.examinerDraw);
      var r := NextTurn(st, sender, code, roomId, examiner, o);
      && drawn.0.Some?
      && FindFirst(rows, HasId(drawn.0.value)).Some?
      && var chosen := FindFirst(rows, HasId(drawn.0.value)).value;
      && chosen.userId in st.db.users.rows
      && (RandomQuiz(st.db, o.quizDraw).Failure? ==> r.out == [ErrorTo(sender, QUIZ_NOT_FOUND)])
      && (RandomQuiz(st.db, o.quizDraw).Success? ==>
            && SentOf(r.out, NEXT_ROUND) == Sessions.SessionsOf(st.game, code)
            && forall i :: 0 <= i < |r.out| ==>
                 r.out[i].Send? && r.out[i].env.kind == NEXT_ROUND
                 && r.out[i].env.data == NextRound(chosen.userId, st.db.users.rows[chosen.userId].nickname, RandomQuiz(st.db, o.quizDraw).value)
                 && RandomQuiz(st.db, o.quizDraw).value in st.db.quizzes)
  {
    var rows := RoomRows(st.db, roomId);
    var drawn := Rounds.SelectNextExaminer(Rounds.ClearSubmittedCards(st.rounds, code), code, Ids(rows), o.examinerDraw);
    DrawnIdIsARow(rows, drawn.0.value);
    var chosen := FindFirst(rows, HasId(drawn.0.value)).value;
    assert chosen in st.db.participants;
    var recorded := Rounds.AddExaminerHistory(drawn.1, code, drawn.0.value);
    assert NextTurn(st, sender, code, roomId, examiner, o) == HandOver(st.(rounds := recorded), sender, code, examiner, chosen, o.quizDraw);
    HandOverAnnounced(st.(rounds := recorded), sender, code, examiner, chosen, o.quizDraw);
  }

  /** The messages of a hand-over: the NEXT_ROUND broadcast, or the
      caller's QUIZ_NOT_FOUND. */
  lemma HandOverAnnounced(st: State, sender: Session, code: Code, examiner: Participant, chosen: Participant, quizDraw: nat)
    requires Coordinator.Valid(st) && examiner.userId in st.db.users.rows && chosen.userId in st.db.users.rows
    ensures var r := HandOver(st, sender, code, examiner, chosen, quizDraw);
      && (RandomQuiz(st.db, quizDraw).Failure? ==> r.out == [ErrorTo(sender, QUIZ_NOT_FOUND)])
      && (RandomQuiz(st.db, quizDraw).Success? ==>
            && SentOf(r.out, NEXT_ROUND) == Sessions.SessionsOf(st.game, code)
            && forall i :: 0 <= i < |r.out| ==>
                 r.out[i].Send? && r.out[i].env.kind == NEXT_ROUND
                 && r.out[i].env.data == NextRound(chosen.userId, st.db.users.rows[chosen.userId].nickname, RandomQuiz(st.db, quizDraw).value)
                 && RandomQuiz(st.db, quizDraw).value in st.db.quizzes)
  {
    if RandomQuiz(st.db, quizDraw).Success? {
      var env := Envelope(NEXT_ROUND, Some(code), NextRound(chosen.userId, st.db.users.rows[chosen.userId].nickname, RandomQuiz(st.db, quizDraw).value));
      SentOfBroadcast(Sessions.SessionsOf(st.game, code), env, NEXT_ROUND);
    }
  }

  /** Two whole-row saves in a row: the second row wins where the ids
      agree, and the first row stays where they do not. */
  lemma SavesInOrder(db: Db, first: Participant, second: Participant)
    ensures var db2 := SaveParticipant(SaveParticipant(db, first), second);
      && (forall q :: q in db2.participants && q.id == second.id ==> q == second)
      && (forall q :: q in db2.participants && q.id == first.id && first.id != second.id ==> q == first)
  {
    var db1 := SaveParticipant(db, first);
    var db2 := SaveParticipant(db1, second);
    forall q | q in db2.participants && q.id == second.id
      ensures q == second
    {
      var i :| 0 <= i < |db2.participants| && db2.participants[i] == q;
    }
    forall q | q in db2.participants && q.id == first.id && first.id != second.id
      ensures q == first
    {
      var i :| 0 <= i < |db2.participants| && db2.participants[i] == q;
      assert db1.participants[i] == q;
    }
  }

  // ------------------------------------------------------------------ exit

  /** A ROOM_EXIT from a participant before the game starts deletes the
      row, drops the sender from both of the room's sets, acknowledges the
      sender first, and tells the remaining lobby sessions how many rows are
      left only when some are. */
  lemma RoomExitEffects(st: State, sender: Session, user: User, code: Code)
    requires Coordinator.Valid(st) && code != []
    requires FindRoomByCode(st.db, code).Some? && !Rounds.IsGameStarted(st.rounds, code)
    requires FindRow(st.db, FindRoomByCode(st.db, code).value.id, user.id).Some?
    ensures var room := FindRoomByCode(st.db, code).value;
      var row := FindRow(st.db, room.id, user.id).value;
      var r := OnRoomExit(st, sender, user, Some(code));
      var lobby := Sessions.SessionsOf(r.st.lobby, code);
      var left := |RoomRows(r.st.db, room.id)|;
      && (forall q :: q in r.st.db.participants <==> q in st.db.participants && q.id != row.id)
      && sender !in lobby && sender !in Sessions.SessionsOf(r.st.game, code)
      && r.out == ExitMessages(sender, code, user, lobby, left)
  {
    var room := FindRoomByCode(st.db, code).value;
    var row := FindRow(st.db, room.id, user.id).value;
    assert FindRoomByCode(st.db, code) == Some(room) && FindRow(st.db, room.id, user.id) == Some(row);
  }

  /** The leaver gets the ack; the remaining lobby sessions, if rows are
      left, get the leaver's id and nickname and the count left. */
  lemma ExitAnnounced(sender: Session, code: Code, user: User, lobby: seq<Session>, left: nat)
    ensures var out := ExitMessages(sender, code, user, lobby, left);
      && out[0] == Send(sender, Envelope(ROOM_EXIT, Some(code), NoData))
      && SentOf(out, ROOM_EXIT) == [sender] + (if left > 0 then lobby else [])
      && (forall i :: 1 <= i < |out| ==> out[i].Send? && out[i].env.data == UserExit(user.id, user.nickname, left))
  {
    var ack := Send(sender, Envelope(ROOM_EXIT, Some(code), NoData));
    var env := Envelope(ROOM_EXIT, Some(code), UserExit(user.id, user.nickname, left));
    assert [ack][1..] == [];
    if left > 0 {
      SentOfAppend([ack], Broadcast(lobby, env), ROOM_EXIT);
      SentOfBroadcast(lobby, env, ROOM_EXIT);
    }
  }
}
