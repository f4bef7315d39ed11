/** The server's error codes. The first group is the `ErrorCode` enum; the
    second group holds the codes the exception classes refer to but the enum
    does not declare. */
module Errors {

  datatype ErrorCode =
    | INTERNAL_SERVER_ERROR
    | USER_NOT_FOUND
    | USER_EXISTS
    | PASSWORD_MISMATCH
    | EXPIRED_JWT
    | INVALID_JWT
    | WEBSOCKET_AUTHENTICATION_REQUIRED
    | WEBSOCKET_INVALID_MESSAGE_FORMAT
    | WEBSOCKET_ROOM_CODE_REQUIRED
    | WEBSOCKET_ROOM_NOT_FOUND
    | WEBSOCKET_NOT_PARTICIPANT
    | WEBSOCKET_ROOM_CREATION_FAILED
    | ROOM_NOT_FOUND
    | ROOM_ALREADY_FULL
    | ALREADY_IN_ROOM
    | QUIZ_NOT_FOUND
    | CARD_NOT_FOUND
      // referenced by exception classes, missing from the enum
    | EXAMINER_CANNOT_SUBMIT_CARD
    | PARTICIPANT_NOT_FOUND
    | EXAMINER_NOT_FOUND
    | INSUFFICIENT_CARDS
}
