/** The messages the WebSocket handler reads and writes, as plain values.
    JSON encoding is not modelled: an inbound frame is either unreadable or
    already decoded into the fields the handler looks at. */
module Protocol {
  import opened Common
  import opened Errors
  import opened Users
  import opened Store
  import Rounds
  import Results

  /** Every message kind the handler reads or writes. The shown
      `WebSocketMessageType` enum declares only the first nine; the handler
      also uses the other ten. */
  datatype MessageKind =
    | CONNECTED
    | CREATE_ROOM
    | ROOM_CREATED
    | JOIN_ROOM
    | ROOM_JOINED
    | USER_JOINED
    | LEAVE_ROOM
    | GAME_START
    | ERROR
    | ROOM_EXIT
    | CONNECT_GAME
    | SUBMIT_CARD
    | EXAMINER_SELECT
    | GAME_READY
    | CARD_SUBMITTED
    | ALL_CARDS_SUBMITTED
    | EXAMINER_SELECTED
    | NEXT_ROUND
    | ROUND_END

  /** `ClientType`, the handshake attribute saying which client connected. */
  datatype ClientType = LOBBY | GAME

  /** Why an ERROR message was sent: an error code (its message text is
      what goes on the wire), or the fixed refusal to leave a started game. */
  datatype ErrorReason = Code(code: ErrorCode) | GameAlreadyStarted

  /** `ExaminerSelectionDto`. */
  datatype Selection = Selection(participantId: int, cardWord: string, winnerNickname: string, newScore: int)

  /** The `data` part of an outbound message. */
  datatype Payload =
    | NoData
    | Connected(client: ClientType)
    | Participants(infos: seq<ParticipantInfo>)
    | Joined(info: ParticipantInfo)
    | GameStart(players: seq<ParticipantInfo>, question: Quiz)
    | Cards(cards: seq<Rounds.SubmittedCard>)
    | Selected(selection: Selection)
    | NextRound(examinerUserId: int, examinerNickname: string, quiz: Quiz)
    | GameResult(rankings: seq<Results.RankInfo>)
    | UserExit(userId: int, nickname: string, remaining: int)
    | Problem(reason: ErrorReason)

  /** `WebSocketMessage` without its human-readable text. */
  datatype Envelope = Envelope(kind: MessageKind, roomCode: Option<Code>, data: Payload)

  /** A connection: its id and the handshake attributes (`userPrincipal`,
      `clientType`). The principal is the user as loaded at handshake time. */
  datatype Session = Session(id: int, principal: Option<User>, clientType: Option<ClientType>)

  /** What the handler does to the outside world. */
  datatype Outbound = Send(to: Session, env: Envelope) | Close(to: Session)

  /** A decoded inbound message: the kind (`None` when the JSON has none),
      the room code, and the two numbers the handlers read from `data`
      (`None` when missing or not a number). */
  datatype Inbound = Inbound(kind: Option<MessageKind>, roomCode: Option<string>, cardId: Option<int>, participantId: Option<int>)

  /** A text frame: unreadable JSON, or a decoded message. */
  datatype Frame = Malformed | Message(msg: Inbound)

  /** `sendExceptionMessage`: an ERROR carrying the error code. */
  function ErrorTo(s: Session, e: ErrorCode): Outbound {
    Send(s, Envelope(ERROR, None, Problem(Code(e))))
  }

  /** The same message to each session, in the set's order. */
  function Broadcast(to: seq<Session>, env: Envelope): (out: seq<Outbound>)
    ensures |out| == |to|
    ensures forall i :: 0 <= i < |to| ==> out[i] == Send(to[i], env)
  {
    if to == [] then [] else [Send(to[0], env)] + Broadcast(to[1..], env)
  }

  /** Who receives a message among `out`. */
  function Recipients(out: seq<Outbound>): (r: seq<Session>)
    ensures |r| == |out|
    ensures forall i :: 0 <= i < |out| ==> r[i] == out[i].to
  {
    if out == [] then [] else [out[0].to] + Recipients(out[1..])
  }

  /** A broadcast reaches exactly the given sessions, in order. */
  lemma {:induction false} BroadcastReaches(to: seq<Session>, env: Envelope)
    ensures Recipients(Broadcast(to, env)) == to
  {
    if to != [] {
      BroadcastReaches(to[1..], env);
    }
  }

  /** Broadcasting to the sessions one after the other splits. */
  lemma {:induction false} BroadcastAppend(a: seq<Session>, b: seq<Session>, env: Envelope)
    ensures Broadcast(a + b, env) == Broadcast(a, env) + Broadcast(b, env)
  {
    if a == [] {
      assert a + b == b;
    } else {
      assert (a + b)[1..] == a[1..] + b;
      BroadcastAppend(a[1..], b, env);
    }
  }

  /** The sessions that are sent a message of `kind`, in sending order. */
  function SentOf(out: seq<Outbound>, kind: MessageKind): (r: seq<Session>)
    ensures |r| <= |out|
  {
    if out == [] then []
    else
      var head := out[0];
      (if head.Send? && head.env.kind == kind then [head.to] else []) + SentOf(out[1..], kind)
  }

  /** A session is among `SentOf(out, kind)` exactly when some message of
      `kind` in `out` is addressed to it. */
  lemma {:induction false} SentOfMembers(out: seq<Outbound>, kind: MessageKind, s: Session)
    ensures s in SentOf(out, kind) <==> exists i :: 0 <= i < |out| && out[i].Send? && out[i].env.kind == kind && out[i].to == s
  {
    if out != [] {
      SentOfMembers(out[1..], kind, s);
      if exists i :: 0 <= i < |out[1..]| && out[1..][i].Send? && out[1..][i].env.kind == kind && out[1..][i].to == s {
        var i :| 0 <= i < |out[1..]| && out[1..][i].Send? && out[1..][i].env.kind == kind && out[1..][i].to == s;
        assert out[i + 1] == out[1..][i];
      }
      if exists i :: 0 <= i < |out| && out[i].Send? && out[i].env.kind == kind && out[i].to == s {
        var i :| 0 <= i < |out| && out[i].Send? && out[i].env.kind == kind && out[i].to == s;
        if i > 0 {
          assert out[1..][i - 1] == out[i];
        }
      }
    }
  }

  lemma {:induction false} SentOfAppend(a: seq<Outbound>, b: seq<Outbound>, kind: MessageKind)
    ensures SentOf(a + b, kind) == SentOf(a, kind) + SentOf(b, kind)
  {
    if a == [] {
      assert a + b == b;
    } else {
      assert (a + b)[1..] == a[1..] + b;
      SentOfAppend(a[1..], b, kind);
    }
  }

  /** A broadcast of a `kind` message reaches exactly its sessions. */
  lemma {:induction false} SentOfBroadcast(to: seq<Session>, env: Envelope, kind: MessageKind)
    ensures SentOf(Broadcast(to, env), kind) == if env.kind == kind then to else []
  {
    if to != [] {
      SentOfBroadcast(to[1..], env, kind);
    }
  }
}
