/** The score/death bookkeeping shared by Player.changeScore
    (src/game/player.ts:228-239), Bot.changeScore (src/game/bot.ts:49-60)
    and the inline scoring of Game.gameBody (src/game/game.ts:397-406). */
module Scoring {
  import opened Constants

  datatype Standing = Standing(score: int, isDead: bool)

  /** Add `delta`; a score at or below DEAD_LIMIT is clamped to it and kills.
      The flag is the "just died" report. */
  function ChangeScore(s: Standing, delta: int): (r: (Standing, bool))
    ensures r.0.score >= DEAD_LIMIT
    ensures r.0.score == s.score + delta || (s.score + delta < DEAD_LIMIT && r.0.score == DEAD_LIMIT)
    ensures r.0.isDead <==> s.isDead || s.score + delta <= DEAD_LIMIT
    ensures r.1 <==> !s.isDead && r.0.isDead
  {
    var score := s.score + delta;
    if score <= DEAD_LIMIT then
      (Standing(DEAD_LIMIT, true), !s.isDead)
    else
      (Standing(score, s.isDead), false)
  }

  /** A run of changeScore calls: the final standing and how many of the calls
      reported a death. */
  function ChangeScores(s: Standing, deltas: seq<int>): (Standing, nat)
    decreases |deltas|
  {
    if deltas == [] then (s, 0)
    else
      var (s', died) := ChangeScore(s, deltas[0]);
      var (last, reports) := ChangeScores(s', deltas[1..]);
      (last, reports + if died then 1 else 0)
  }

  /** Death is reported exactly once: by the call that kills an alive
      participant, and never again afterwards. */
  lemma {:induction false} DeathReportedOnce(s: Standing, deltas: seq<int>)
    ensures var (last, reports) := ChangeScores(s, deltas);
            reports == if !s.isDead && last.isDead then 1 else 0
    ensures s.isDead ==> ChangeScores(s, deltas).0.isDead
    decreases |deltas|
  {
    if deltas != [] {
      var (s', _) := ChangeScore(s, deltas[0]);
      DeathReportedOnce(s', deltas[1..]);
    }
  }

  /** Once the score floor is respected it stays respected over any run. */
  lemma {:induction false} ScoreFloorKept(s: Standing, deltas: seq<int>)
    requires s.score >= DEAD_LIMIT
    ensures ChangeScores(s, deltas).0.score >= DEAD_LIMIT
    decreases |deltas|
  {
    if deltas != [] {
      ScoreFloorKept(ChangeScore(s, deltas[0]).0, deltas[1..]);
    }
  }
}
