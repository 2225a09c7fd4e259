/** A computer participant, the Bot class of src/game/bot.ts. Its random
    draws are parameters: `seed` for the nickname and `draw` for the guess. */
module BotModel {
  import opened Interfaces
  import opened Constants
  import Scoring

  const BOT_NICKNAMES: seq<string> := ["Alice", "Clara", "Ellen", "Iris", "Kate", "Nora", "Sarah"]

  /** The nickname for a seed: the seed's position in the cycle of names. */
  function NicknameFor(seed: nat): (r: string)
    ensures r in BOT_NICKNAMES
  {
    BOT_NICKNAMES[seed % |BOT_NICKNAMES|]
  }

  /** Seeds in one run of seven consecutive values give seven different
      names, and the names repeat with period seven. */
  lemma NicknamesDistinct(s: nat, t: nat)
    ensures NicknameFor(s) == NicknameFor(s + |BOT_NICKNAMES|)
    ensures NicknameFor(s) == NicknameFor(t) <==> s % |BOT_NICKNAMES| == t % |BOT_NICKNAMES|
  {
    assert (s + 7) % 7 == s % 7;
    NamesDistinct();
  }

  /** No name occurs twice in the list. */
  lemma NamesDistinct()
    ensures forall a, b :: 0 <= a < b < |BOT_NICKNAMES| ==> BOT_NICKNAMES[a] != BOT_NICKNAMES[b]
  {
    forall a, b | 0 <= a < b < |BOT_NICKNAMES|
      ensures BOT_NICKNAMES[a] != BOT_NICKNAMES[b]
    {
      assert BOT_NICKNAMES[a][0] != BOT_NICKNAMES[b][0];
    }
  }

  /** The bot's guess from a uniform draw: in a duel the draw is over {0, 1, 2}
      and 2 means 100, otherwise the draw over 0..100 is the guess. */
  function BotGuess(aliveCount: int, draw: int): (r: int)
    requires aliveCount == 2 ==> 0 <= draw <= 2
    requires aliveCount != 2 ==> 0 <= draw <= 100
    ensures 0 <= r <= 100
    ensures aliveCount == 2 ==> (r == 0 || r == 1 || r == 100) && (r == 100 <==> draw == 2) && (draw < 2 ==> r == draw)
    ensures aliveCount != 2 ==> r == draw
  {
    if aliveCount == 2 then
      if draw == 2 then 100 else draw
    else draw
  }

  /** Every guess the bot can make has a draw producing it. */
  lemma GuessOnto(aliveCount: int, v: int)
    requires if aliveCount == 2 then v == 0 || v == 1 || v == 100 else 0 <= v <= 100
    ensures exists draw :: (if aliveCount == 2 then 0 <= draw <= 2 else 0 <= draw <= 100) && BotGuess(aliveCount, draw) == v
  {
    var draw := if aliveCount == 2 && v == 100 then 2 else v;
    assert BotGuess(aliveCount, draw) == v;
  }

  class Bot {
    const id: Id
    const nickname: string
    const isBot: bool
    var score: int
    var isDead: bool

    ghost predicate Valid()
      reads this
    {
      score >= DEAD_LIMIT && isBot
    }

    constructor(id: Id, seed: nat)
      ensures Valid()
      ensures this.id == id && nickname == NicknameFor(seed) && score == 0 && !isDead
    {
      this.id := id;
      nickname := NicknameFor(seed);
      isBot := true;
      score := 0;
      isDead := false;
    }

    /** changeScore, the same rule as a human player's. */
    method ChangeScore(delta: int) returns (died: bool)
      requires Valid()
      modifies this
      ensures Valid()
      ensures (Scoring.Standing(score, isDead), died) ==
              Scoring.ChangeScore(Scoring.Standing(old(score), old(isDead)), delta)
    {
      score := score + delta;
      died := false;
      if score <= DEAD_LIMIT {
        score := DEAD_LIMIT;
        if !isDead {
          isDead := true;
          died := true;
        }
      }
    }

    /** getInfo: a bot, never below the score floor. */
    function GetInfo(): (r: ParticipantInfo)
      requires Valid()
      reads this
      ensures r.id == id && r.isBot && r.score >= DEAD_LIMIT
    {
      ParticipantInfo(id, nickname, isBot, score, isDead)
    }

    /** A bot has no connection. */
    function GetSocket(): (r: Option<SocketRef>)
      ensures r.None?
    {
      None
    }

    /** makeGuess: emits firstDecision at once and then resolves, never
        rejects, always alive, with a guess the draw determines. */
    method MakeGuess(aliveCount: nat, draw: int, now: int) returns (effects: seq<Effect>, outcome: Outcome)
      requires aliveCount == 2 ==> 0 <= draw <= 2
      requires aliveCount != 2 ==> 0 <= draw <= 100
      ensures effects == [EmitFirstDecision(id, now)]
      ensures outcome.Resolved? && outcome.stillAlive && outcome.guess.Some?
      ensures outcome.guess.value == BotGuess(aliveCount, draw) && 0 <= outcome.guess.value <= 100
    {
      effects := [EmitFirstDecision(id, now)];
      outcome := Resolved(Some(BotGuess(aliveCount, draw)), true);
    }
  }
}
