/** The connection handler of src/game/socket.ts and the single Game it
    admits players to. The three events that change the roster are methods of
    Socket: a joinGame message, a closed connection (the game's own close
    handler) and a settled round. */
module SocketServer {
  import opened Interfaces
  import opened Constants
  import opened Roster
  import Rules
  import GameRoom

  /** The reply sent to the joining client. */
  datatype Reply = Success(participantsCount: nat) | Error(errorMsg: string)

  const IN_PROGRESS_MSG: string := "Game in progress, please try again later"
  const FULL_MSG: string := "Maximum number of participants reached"
  const UNDECODABLE_MSG: string := "Cannot decode message"

  /** Before the game starts the room is never full, so the "maximum number
      of participants" reply cannot be produced. */
  lemma FullRoomUnreachable(g: GameRoom.Game)
    requires g.Valid()
    ensures g.ParticipantsCount() >= PARTICIPANTS_PER_GAME ==> g.inProgress
  {
  }

  class Socket {
    const game: GameRoom.Game

    /** The roster never exceeds PARTICIPANTS_PER_GAME. */
    ghost predicate Valid()
      reads this, game
    {
      game.Valid() && |game.participants| <= PARTICIPANTS_PER_GAME
    }

    constructor(timing: Timing)
      ensures Valid() && fresh(game) && game.participants == [] && !game.inProgress
    {
      game := new GameRoom.Game(timing);
    }

    /** A message on connection `connId`: only joinGame is handled here. A
        join is refused while a game runs or the room is full; otherwise the
        client learns the count before it joined and is appended. */
    method OnMessage(ws: SocketRef, connId: Id, msg: Incoming, now: int) returns (reply: Option<Reply>)
      requires Valid()
      modifies game
      ensures Valid()
      ensures msg.Undecodable? ==> reply == Some(Error(UNDECODABLE_MSG)) && unchanged(game)
      ensures msg.Decoded? && msg.req.methodName != "joinGame" ==> reply.None? && unchanged(game)
      ensures msg.Decoded? && msg.req.methodName == "joinGame" && old(game.inProgress) ==>
                reply == Some(Error(IN_PROGRESS_MSG)) && unchanged(game)
      ensures msg.Decoded? && msg.req.methodName == "joinGame" && !old(game.inProgress) ==>
                reply == Some(Success(|old(game.participants)|)) &&
                game.participants == old(game.participants) + [Participant(connId, msg.req.nickname, ws, 0, false)]
      ensures msg.Decoded? && msg.req.methodName == "joinGame" && !old(game.inProgress) &&
              |game.participants| == PARTICIPANTS_PER_GAME ==>
                game.inProgress && game.looping && game.round == 1 &&
                game.roundStartTime == now + game.timing.roundZeroDigestMs &&
                game.gameEvents == old(game.gameEvents) + [GameRoom.StartInfo(game.participants, game.roundStartTime, now)]
      ensures msg.Decoded? && msg.req.methodName == "joinGame" && !old(game.inProgress) &&
              |game.participants| < PARTICIPANTS_PER_GAME ==>
                !game.inProgress && game.looping == old(game.looping) && game.round == old(game.round) &&
                game.roundStartTime == old(game.roundStartTime) && game.gameEvents == old(game.gameEvents)
    {
      if msg.Undecodable? {
        return Some(Error(UNDECODABLE_MSG));
      }
      if msg.req.methodName != "joinGame" {
        return None;
      }
      if game.inProgress {
        return Some(Error(IN_PROGRESS_MSG));
      }
      if game.ParticipantsCount() >= PARTICIPANTS_PER_GAME {
        return Some(Error(FULL_MSG));
      }
      reply := Some(Success(game.ParticipantsCount()));
      var _, _ := game.AddParticipantByInfo(ws, connId, msg.req.nickname, now);
    }

    /** A connection closes: the game's handleClose. */
    method ConnectionClosed(ws: SocketRef) returns (announcedCount: Option<nat>)
      requires Valid()
      modifies game
      ensures Valid()
      ensures game.participants == Close(old(game.participants), old(game.inProgress), ws)
      ensures announcedCount ==
                if !game.inProgress && HasSocket(old(game.participants), ws) then Some(|game.participants|) else None
      ensures game.inProgress == old(game.inProgress) && game.looping == old(game.looping)
      ensures game.round == old(game.round) && game.roundStartTime == old(game.roundStartTime)
      ensures game.gameEvents == old(game.gameEvents)
    {
      // the room keeps its size after the start and can only shrink before it
      CloseAfterStart(game.participants, ws);
      announcedCount := game.HandleClose(ws);
    }

    /** A round of the running game settles: the roster keeps its size. */
    method Round(results: seq<Settled>, now: int)
      requires Valid() && game.looping
      requires AllKnown(game.participants, Rules.Reqs(results))
      modifies game
      ensures Valid() && game.inProgress
      ensures |game.participants| == |old(game.participants)|
      ensures forall j :: 0 <= j < |game.participants| ==> game.participants[j].id == old(game.participants[j].id)
      ensures game.looping ==> Rules.Reqs(results) != [] && Rules.DistinctIds(Rules.Reqs(results))
    {
      GameRoom.SettlementKeepsFloor(game.participants, results);
      game.PlayRound(results, now);
    }
  }

  /** Nothing stops one connection from joining twice: with
      PARTICIPANTS_PER_GAME = 2 it fills the room alone, under one id. Once
      its two collectors report the same guess, the round is scored and then
      the gameInfo assertion ends the loop, leaving a game in progress that
      admits nobody and plays no further round. */
  method DoubleJoin(timing: Timing, ws: SocketRef, connId: Id, nickname: string, g: int, now: int)
    returns (s: Socket)
    ensures s.Valid() && s.game.inProgress && !s.game.looping
    ensures |s.game.participants| == 2 && s.game.participants[0].id == s.game.participants[1].id == connId
  {
    s := new Socket(timing);
    var join := Decoded(Req("joinGame", connId, None, nickname));
    var _ := s.OnMessage(ws, connId, join, now);
    var _ := s.OnMessage(ws, connId, join, now);
    var results := [Fulfilled(connId, g, true), Fulfilled(connId, g, true)];
    assert Rules.Reqs(results) == [Guess(connId, g), Guess(connId, g)];
    assert !Rules.DistinctIds(Rules.Reqs(results)) by {
      assert Rules.Reqs(results)[0].id == Rules.Reqs(results)[1].id;
    }
    assert HasId(s.game.participants, connId) by { assert s.game.participants[0].id == connId; }
    s.Round(results, now);
  }
}
