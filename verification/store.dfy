/** The durable store behind the repositories (`RoomRepository`,
    `ParticipantRepository`, `UserRepository`, `CardRepository`,
    `QuizRepository`), as an in-memory value. Participant rows are kept in
    insertion order, which is the order the room queries return them in. */
module Store {
  import opened Common
  import opened Errors
  import opened Users

  type Code = string

  /** A row of `tbl_room`. */
  datatype Room = Room(id: int, code: Code)

  /** A row of `tbl_participant`: `userId` and `roomId` are the foreign keys,
      `score` is `bananaScore`, `isExaminer` the examiner flag. */
  datatype Participant = Participant(id: int, roomId: int, userId: int, score: int, isExaminer: bool)

  datatype Card = Card(id: int, word: string, meaning: string)

  datatype Quiz = Quiz(id: int, content: string)

  datatype Db = Db(
    rooms: seq<Room>,
    participants: seq<Participant>,
    users: UserStore,
    cards: map<int, Card>,
    quizzes: seq<Quiz>,
    nextRoomId: int,
    nextParticipantId: int)

  /** Each user row sits under its own id, and its xp fits the `INT`
      column. */
  predicate UsersKeyed(us: UserStore) {
    forall id :: id in us.rows ==> us.rows[id].id == id && IsInt32(us.rows[id].xp)
  }

  /** The user table is keyed by id and the foreign key from a participant
      row to its user holds. */
  predicate WellFormed(db: Db) {
    && UsersKeyed(db.users)
    && forall p :: p in db.participants ==> p.userId in db.users.rows
  }

  // -------------------------------------------------------------- rooms

  /** `findByCode`. */
  function FindRoomByCode(db: Db, code: Code): (r: Option<Room>)
    ensures r.Some? ==> r.value in db.rooms && r.value.code == code
    ensures r.None? <==> forall room :: room in db.rooms ==> room.code != code
  {
    FindFirst(db.rooms, (room: Room) => room.code == code)
  }

  /** The set of codes in use (`existsByCode`). */
  function CodesInUse(db: Db): (codes: set<Code>)
    ensures forall c :: c in codes <==> exists room :: room in db.rooms && room.code == c
  {
    set room | room in db.rooms :: room.code
  }

  /** `roomRepository.save` of a new room: it gets the next identity value. */
  function InsertRoom(db: Db, code: Code): (r: (Db, Room))
    ensures r.1 == Room(db.nextRoomId, code)
    ensures r.0 == db.(rooms := db.rooms + [r.1], nextRoomId := db.nextRoomId + 1)
    ensures WellFormed(db) ==> WellFormed(r.0)
  {
    var room := Room(db.nextRoomId, code);
    (db.(rooms := db.rooms + [room], nextRoomId := db.nextRoomId + 1), room)
  }

  // ------------------------------------------------------- participants

  /** The row belongs to the room. */
  function InRoom(roomId: int): Participant -> bool {
    (p: Participant) => p.roomId == roomId
  }

  /** The row belongs to the user. */
  function OfUser(userId: int): Participant -> bool {
    (p: Participant) => p.userId == userId
  }

  /** The row belongs to someone else. */
  function NotOfUser(userId: int): Participant -> bool {
    (p: Participant) => p.userId != userId
  }

  /** `findAllByRoomIdIdWithUser` (and `countByRoomIdId` is its length). */
  function RoomRows(db: Db, roomId: int): (rows: seq<Participant>)
    ensures forall p :: p in rows <==> p in db.participants && p.roomId == roomId
    ensures |rows| <= |db.participants|
  {
    FilterMembers(db.participants, InRoom(roomId));
    Filter(db.participants, InRoom(roomId))
  }

  /** `findByRoomIdIdAndUserIdId`. */
  function FindRow(db: Db, roomId: int, userId: int): (r: Option<Participant>)
    ensures r.Some? ==> r.value in db.participants && r.value.roomId == roomId && r.value.userId == userId
    ensures r.None? <==> forall p :: p in db.participants ==> !(p.roomId == roomId && p.userId == userId)
  {
    FindFirst(db.participants, (p: Participant) => p.roomId == roomId && p.userId == userId)
  }

  /** `findAllByUserIdId`. */
  function UserRows(db: Db, userId: int): (rows: seq<Participant>)
    ensures forall p :: p in rows <==> p in db.participants && p.userId == userId
  {
    FilterMembers(db.participants, OfUser(userId));
    Filter(db.participants, OfUser(userId))
  }

  /** `deleteAll(findAllByUserIdId(userId))`: every row of the user goes,
      every other row stays, in order. */
  function DeleteUserRows(db: Db, userId: int): (r: Db)
    ensures r == db.(participants := r.participants)
    ensures forall p :: p in r.participants <==> p in db.participants && p.userId != userId
    ensures UserRows(r, userId) == []
    ensures WellFormed(db) ==> WellFormed(r)
  {
    FilterMembers(db.participants, NotOfUser(userId));
    var r := db.(participants := Filter(db.participants, NotOfUser(userId)));
    FilterNone(r.participants, OfUser(userId));
    r
  }

  /** `participantRepository.save` of a new row: the next identity value,
      score 0. */
  function InsertParticipant(db: Db, roomId: int, userId: int, isExaminer: bool): (r: (Db, Participant))
    ensures r.1 == Participant(db.nextParticipantId, roomId, userId, 0, isExaminer)
    ensures r.0 == db.(participants := db.participants + [r.1], nextParticipantId := db.nextParticipantId + 1)
    ensures WellFormed(db) && userId in db.users.rows ==> WellFormed(r.0)
  {
    var p := Participant(db.nextParticipantId, roomId, userId, 0, isExaminer);
    (db.(participants := db.participants + [p], nextParticipantId := db.nextParticipantId + 1), p)
  }

  /** Every row whose id is `p.id` replaced by `p`. */
  function ReplaceById(rows: seq<Participant>, p: Participant): (r: seq<Participant>)
    ensures |r| == |rows|
    ensures forall i :: 0 <= i < |rows| ==> r[i] == (if rows[i].id == p.id then p else rows[i])
  {
    if rows == [] then []
    else [if rows[0].id == p.id then p else rows[0]] + ReplaceById(rows[1..], p)
  }

  /** `participantRepository.save` of an existing (detached) row: the whole
      row is overwritten with the values the caller holds, whatever the
      store held. The handler's methods are not proxied, so each save is its
      own write. */
  function SaveParticipant(db: Db, p: Participant): (r: Db)
    ensures r == db.(participants := ReplaceById(db.participants, p))
    ensures forall q :: q in db.participants && q.id != p.id ==> q in r.participants
    ensures WellFormed(db) && p.userId in db.users.rows ==> WellFormed(r)
  {
    var r := db.(participants := ReplaceById(db.participants, p));
    assert WellFormed(db) && p.userId in db.users.rows ==> WellFormed(r) by {
      if WellFormed(db) && p.userId in db.users.rows {
        forall q | q in r.participants
          ensures q.userId in db.users.rows
        {
          var i :| 0 <= i < |r.participants| && r.participants[i] == q;
          var old_ := db.participants[i];
          assert old_ in db.participants;
        }
      }
    }
    assert forall q :: q in db.participants && q.id != p.id ==> q in r.participants by {
      forall q | q in db.participants && q.id != p.id
        ensures q in r.participants
      {
        var i :| 0 <= i < |db.participants| && db.participants[i] == q;
        assert r.participants[i] == q;
      }
    }
    r
  }

  /** `participantRepository.delete`: by id. */
  function DeleteParticipant(db: Db, p: Participant): (r: Db)
    ensures r == db.(participants := r.participants)
    ensures forall q :: q in r.participants <==> q in db.participants && q.id != p.id
    ensures WellFormed(db) ==> WellFormed(r)
  {
    var keep := (q: Participant) => q.id != p.id;
    FilterMembers(db.participants, keep);
    db.(participants := Filter(db.participants, keep))
  }

  // ------------------------------------------------------ users, cards, quizzes

  /** `userRepository.save` of an existing user: overwrite by id. */
  function SaveUser(db: Db, u: User): (r: Db)
    ensures r == db.(users := db.users.(rows := db.users.rows[u.id := u]))
    ensures u.id in db.users.rows ==> r.users.rows.Keys == db.users.rows.Keys
    ensures WellFormed(db) && u.id in db.users.rows && IsInt32(u.xp) ==> WellFormed(r)
  {
    db.(users := db.users.(rows := db.users.rows[u.id := u]))
  }

  /** `cardRepository.findById`. */
  function FindCard(db: Db, id: int): (r: Option<Card>)
    ensures r.Some? <==> id in db.cards
    ensures r.Some? ==> r.value == db.cards[id]
  {
    if id in db.cards then Some(db.cards[id]) else None
  }

  /** `QueryRandomQuizService.execute`: `ORDER BY RAND() LIMIT 1`; `draw`
      picks the row. No quiz at all is `QUIZ_NOT_FOUND`. */
  function RandomQuiz(db: Db, draw: nat): (r: Result<Quiz, ErrorCode>)
    ensures r.Failure? <==> db.quizzes == []
    ensures r.Failure? ==> r.error == QUIZ_NOT_FOUND
    ensures r.Success? ==> r.value in db.quizzes
  {
    if db.quizzes == [] then Failure(QUIZ_NOT_FOUND)
    else Success(db.quizzes[NextInt(draw, |db.quizzes|)])
  }

  /** `ParticipantInfo`: the row with its user's nickname and level. */
  datatype ParticipantInfo = ParticipantInfo(userId: int, nickname: string, level: int, isExaminer: bool)

  /** `ParticipantInfo.from`. */
  function InfoOf(db: Db, p: Participant): (info: ParticipantInfo)
    requires p.userId in db.users.rows
    ensures info.userId == p.userId && info.isExaminer == p.isExaminer
    ensures info.nickname == db.users.rows[p.userId].nickname && info.level == db.users.rows[p.userId].level
  {
    var u := db.users.rows[p.userId];
    ParticipantInfo(p.userId, u.nickname, u.level, p.isExaminer)
  }

  /** `rows.stream().map(ParticipantInfo::from).toList()`. */
  function Infos(db: Db, rows: seq<Participant>): (r: seq<ParticipantInfo>)
    requires forall p :: p in rows ==> p.userId in db.users.rows
    ensures |r| == |rows|
    ensures forall i :: 0 <= i < |rows| ==> r[i] == InfoOf(db, rows[i])
  {
    if rows == [] then []
    else
      var head := rows[0];
      assert head in rows;
      [InfoOf(db, head)] + Infos(db, rows[1..])
  }
}
