/** A human participant, the Player class of src/game/player.ts: its standing
    and the collector its makeGuess sets up for a round. */
module PlayerModel {
  import opened Interfaces
  import opened Constants
  import Scoring
  import Collector

  class Player {
    /** The uuid drawn at construction, given here as a parameter. */
    const id: Id
    const socket: SocketRef
    const nickname: string
    const isBot: bool
    var score: int
    var isDead: bool

    /** changeScore never lets the score fall below DEAD_LIMIT. */
    ghost predicate Valid()
      reads this
    {
      score >= DEAD_LIMIT && !isBot
    }

    constructor(ws: SocketRef, nickname: string, id: Id)
      ensures Valid()
      ensures this.id == id && socket == ws && this.nickname == nickname
      ensures score == 0 && !isDead
    {
      this.id := id;
      socket := ws;
      this.nickname := nickname;
      isBot := false;
      score := 0;
      isDead := false;
    }

    /** changeScore: add delta; at or below DEAD_LIMIT the score is pinned to
        it and the player dies, and only the call that kills reports it. */
    method ChangeScore(delta: int) returns (died: bool)
      requires Valid()
      modifies this
      ensures Valid()
      ensures (Scoring.Standing(score, isDead), died) ==
              Scoring.ChangeScore(Scoring.Standing(old(score), old(isDead)), delta)
    {
      score := score + delta;
      died := false;
      if score <= DEAD_LIMIT {
        score := DEAD_LIMIT;
        if !isDead {
          isDead := true;
          died := true;
        }
      }
    }

    /** getInfo: the public record of the player; a human, never below the
        score floor. */
    function GetInfo(): (r: ParticipantInfo)
      requires Valid()
      reads this
      ensures r.id == id && !r.isBot && r.score >= DEAD_LIMIT
    {
      ParticipantInfo(id, nickname, isBot, score, isDead)
    }

    function GetSocket(): SocketRef {
      socket
    }

    /** makeGuess: the collector for this round, created with the alive count
        read once at this moment, listening and with the round timer set. */
    method MakeGuess(roundStartTime: int, aliveCount: nat, timing: Timing) returns (c: Collector.RoundCollector)
      ensures fresh(c) && c.Valid()
      ensures c.variant == Collector.PlayerCollector && c.pid == id && c.aliveCount == aliveCount
      ensures c.roundStartTime == roundStartTime && c.timing == timing
      ensures c.myGuess.None? && c.numDecided == 0 && c.numDisconnected == 0 && !c.hasShortenedCountdown
      ensures c.listening && c.outcome.Pending? && c.timer == Collector.Original(c.origEnd)
    {
      c := new Collector.RoundCollector(Collector.PlayerCollector, id, roundStartTime, aliveCount, timing);
    }
  }
}
