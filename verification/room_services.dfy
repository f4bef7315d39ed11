/** Room creation and joining (`CreateRoomService`, `JoinRoomService`). Both
    services run in one transaction each: a failure leaves the store as it
    was, which the model states by returning no store at all. */
module Play {
  import opened Common
  import opened Errors
  import opened Users
  import opened Store
  import RoomCodes

  /** `MAX_PARTICIPANTS`. */
  const MAX_PARTICIPANTS: nat := 4

  /** The row a join saves: score 0, examiner exactly when the room was
      empty after the user's old rows were removed. */
  function JoinedRow(db: Db, roomId: int, userId: int, firstInRoom: bool): Participant {
    Participant(db.nextParticipantId, roomId, userId, 0, firstInRoom)
  }

  /** `JoinRoomService.execute`. */
  function JoinRoom(db: Db, code: Code, user: User): (r: Result<(Db, seq<ParticipantInfo>), ErrorCode>)
    requires WellFormed(db) && user.id in db.users.rows
    ensures FindRoomByCode(db, code).None? ==> r == Failure(ROOM_NOT_FOUND)
    ensures FindRoomByCode(db, code).Some? ==>
      var room := FindRoomByCode(db, code).value;
      var remaining := RoomRows(DeleteUserRows(db, user.id), room.id);
      (r == Failure(ROOM_ALREADY_FULL) <==> |remaining| >= MAX_PARTICIPANTS)
    ensures r.Failure? ==> r.error == ROOM_NOT_FOUND || r.error == ROOM_ALREADY_FULL
    ensures r.Success? ==>
      var room := FindRoomByCode(db, code).value;
      var cleared := DeleteUserRows(db, user.id);
      var remaining := RoomRows(cleared, room.id);
      var row := JoinedRow(db, room.id, user.id, |remaining| == 0);
      var (db', infos) := r.value;
      && FindRoomByCode(db, code).Some?
      && db'.participants == cleared.participants + [row]
      && db' == db.(participants := db'.participants, nextParticipantId := db.nextParticipantId + 1)
      && UserRows(db', user.id) == [row]
      && RoomRows(db', room.id) == remaining + [row]
      && |RoomRows(db', room.id)| <= MAX_PARTICIPANTS
      && (|remaining| == 0 ==> infos == [ParticipantInfo(user.id, user.nickname, user.level, true)])
      && (|remaining| > 0 ==> infos == Infos(db', RoomRows(db', room.id)))
      && WellFormed(db')
  {
    var found := FindRoomByCode(db, code);
    if found.None? then Failure(ROOM_NOT_FOUND)
    else
      var room := found.value;
      var cleared := DeleteUserRows(db, user.id);
      var count := |RoomRows(cleared, room.id)|;
      if count >= MAX_PARTICIPANTS then Failure(ROOM_ALREADY_FULL)
      else
        var (db', row) := InsertParticipant(cleared, room.id, user.id, count <= 0);
        AppendOneRow(cleared, row);
        if count <= 0 then
          Success((db', [ParticipantInfo(user.id, user.nickname, user.level, true)]))
        else
          Success((db', Infos(db', RoomRows(db', room.id))))
  }

  /** What appending one row does to the room and user queries. */
  lemma AppendOneRow(db: Db, row: Participant)
    requires UserRows(db, row.userId) == []
    ensures var db' := db.(participants := db.participants + [row]);
      && RoomRows(db', row.roomId) == RoomRows(db, row.roomId) + [row]
      && UserRows(db', row.userId) == [row]
  {
    var ps := db.participants;
    FilterAppend(ps, [row], InRoom(row.roomId));
    FilterAppend(ps, [row], OfUser(row.userId));
    assert [row][1..] == [];
  }

  /** `CreateRoomService.execute`: a fresh code, the room, and the creator
      as its examiner. `None` when the draws never produce a free code
      (the loop does not end, so nothing is written). */
  function CreateRoom(db: Db, user: User, draws: seq<nat>): (r: Option<(Db, Code)>)
    requires WellFormed(db) && user.id in db.users.rows
    ensures r.None? <==> RoomCodes.GenerateRoomCode(CodesInUse(db), draws).None?
    ensures r.Some? ==>
      var (db', code) := r.value;
      var room := Room(db.nextRoomId, code);
      && RoomCodes.IsRoomCode(code) && code !in CodesInUse(db)
      && db'.rooms == db.rooms + [room]
      && db'.participants == db.participants + [Participant(db.nextParticipantId, room.id, user.id, 0, true)]
      && db'.users == db.users && db'.cards == db.cards && db'.quizzes == db.quizzes
      && FindRoomByCode(db', code) == Some(room)
      && WellFormed(db')
  {
    var generated := RoomCodes.GenerateRoomCode(CodesInUse(db), draws);
    if generated.None? then None
    else
      var code := generated.value;
      var (db1, room) := InsertRoom(db, code);
      var (db2, _) := InsertParticipant(db1, room.id, user.id, true);
      FreshCodeFindsNewRoom(db, room);
      Some((db2, code))
  }

  /** A room whose code was not in use is the one `findByCode` returns. */
  lemma FreshCodeFindsNewRoom(db: Db, room: Room)
    requires room.code !in CodesInUse(db)
    ensures FindRoomByCode(db.(rooms := db.rooms + [room]), room.code) == Some(room)
  {
    var db' := db.(rooms := db.rooms + [room]);
    forall other | other in db.rooms
      ensures other.code != room.code
    {
      assert other.code in CodesInUse(db);
    }
    var found := FindRoomByCode(db', room.code);
    assert found.Some? by {
      assert room in db'.rooms;
    }
    assert found.value !in db.rooms;
  }

  /** Joining the room one just joined keeps exactly one row for the user
      and does not grow the room. */
  lemma JoinAgainKeepsOneRow(db: Db, code: Code, user: User)
    requires WellFormed(db) && user.id in db.users.rows
    requires JoinRoom(db, code, user).Success?
    ensures var db1 := JoinRoom(db, code, user).value.0;
      && JoinRoom(db1, code, user).Success?
      && var db2 := JoinRoom(db1, code, user).value.0;
      && |UserRows(db2, user.id)| == 1
      && |RoomRows(db2, FindRoomByCode(db, code).value.id)| == |RoomRows(db1, FindRoomByCode(db, code).value.id)|
  {
    var room := FindRoomByCode(db, code).value;
    var db1 := JoinRoom(db, code, user).value.0;
    var before := RoomRows(DeleteUserRows(db, user.id), room.id);
    var row := JoinedRow(db, room.id, user.id, |before| == 0);
    assert db1.rooms == db.rooms && FindRoomByCode(db1, code) == Some(room);
    assert RoomRows(db1, room.id) == before + [row];
    assert RoomRows(DeleteUserRows(db1, user.id), room.id) == before by {
      CleanedRowsDropLast(DeleteUserRows(db, user.id), row);
    }
    JoinWithRoomRows(db1, code, user, room, before);
  }

  /** A join into a room that holds `before` once the user's rows are gone
      succeeds when there is space, and leaves the user one row. */
  lemma JoinWithRoomRows(db: Db, code: Code, user: User, room: Room, before: seq<Participant>)
    requires WellFormed(db) && user.id in db.users.rows
    requires FindRoomByCode(db, code) == Some(room)
    requires RoomRows(DeleteUserRows(db, user.id), room.id) == before
    requires |before| < MAX_PARTICIPANTS
    ensures JoinRoom(db, code, user).Success?
    ensures var db' := JoinRoom(db, code, user).value.0;
      |UserRows(db', user.id)| == 1 && |RoomRows(db', room.id)| == |before| + 1
  {
  }

  /** Removing the user's rows after appending one row of that user gives
      back the rows as they were, when the user had none. */
  lemma CleanedRowsDropLast(db: Db, row: Participant)
    requires UserRows(db, row.userId) == []
    ensures var db' := db.(participants := db.participants + [row]);
      RoomRows(DeleteUserRows(db', row.userId), row.roomId) == RoomRows(db, row.roomId)
  {
    var ps := db.participants;
    var keep := NotOfUser(row.userId);
    FilterAppend(ps, [row], keep);
    assert [row][1..] == [];
    assert Filter([row], keep) == [];
    KeepAllOfUserless(ps, row.userId);
    var db' := db.(participants := ps + [row]);
    var cleared := DeleteUserRows(db', row.userId);
    assert cleared.participants == ps;
    assert cleared == db;
  }

  /** When the user has no row, removing the user's rows changes nothing. */
  lemma {:induction false} KeepAllOfUserless(ps: seq<Participant>, userId: int)
    requires Filter(ps, OfUser(userId)) == []
    ensures Filter(ps, NotOfUser(userId)) == ps
  {
    if ps != [] {
      var head := ps[0];
      assert head in ps;
      FilterMembers(ps, OfUser(userId));
      assert forall x :: x in ps[1..] ==> x in ps;
      FilterNone(ps[1..], OfUser(userId));
      KeepAllOfUserless(ps[1..], userId);
      assert ps == [head] + ps[1..];
    }
  }
}
