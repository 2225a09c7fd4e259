/** Shapes shared by the game engine (src/common/interfaces.d.ts). */
module Interfaces {
  datatype Option<T> = None | Some(value: T)

  /** Participant ids are opaque strings (uuids). */
  type Id = string
  /** The identity of a WebSocket connection: sockets are compared by reference. */
  type SocketRef = nat

  /** Why a participant left the game in a round. */
  datatype DeadReason = Disconnected | DeadLimit | DisconnectedMidgame
  datatype Dead = Dead(id: Id, reason: DeadReason)

  datatype CountdownReason = ParticipantDisconnectedMidgame | AllDecided
  /** The changeCountdown event; times are relative to when it is sent. */
  datatype ChangeCountdown = ChangeCountdown(reason: CountdownReason, startTime: Option<int>, endTime: int)

  datatype ParticipantInfo = ParticipantInfo(id: Id, nickname: string, isBot: bool, score: int, isDead: bool)

  /** A decided guess of one round. */
  datatype Guess = Guess(id: Id, guess: int)

  /** What Promise.allSettled reports for one participant's collector. */
  datatype Settled =
    | Fulfilled(id: Id, guess: int, stillAlive: bool)
    | Rejected(id: Id)

  /** A decoded client request. `guess` is None when Number(guess) is not an
      integer (NaN, a fraction, a missing field). */
  datatype Req = Req(methodName: string, id: Id, guess: Option<int>, nickname: string)

  /** A raw message: either JSON.parse failed or it produced a request. */
  datatype Incoming = Undecodable | Decoded(req: Req)

  /** How a guess collector's promise settles. A resolution built from an
      absent guess (`{...undefined, stillAlive}`) carries no guess. */
  datatype Outcome =
    | Pending
    | Resolved(guess: Option<int>, stillAlive: bool)
    | Failed(id: Id)     // the promise is rejected with {id}

  /** Side effects of a collector or bot event, in the order they happen. */
  datatype Effect =
    | EmitFirstDecision(id: Id, time: int)    // emitter "custom:firstDecision"
    | EmitDisconnected(id: Id, time: int)     // emitter "custom:participantDisconnectedMidgame"
    | BroadcastDisconnected(id: Id)           // participantDisconnectedMidgame game event
    | SendCountdown(cc: ChangeCountdown)      // changeCountdown to the own socket
    | SendAck                                 // {result: "success"} to the own socket
    | CloseTransport                          // handleClose(socket) and socket.close()
    | AssertionFailed                         // an assert in a listener threw
}
