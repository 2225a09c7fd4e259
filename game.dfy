/** The Game room of src/game/game.ts: its roster, the game events it
    broadcasts, and one iteration of the gameBody round loop. */
module GameRoom {
  import opened Interfaces
  import opened Constants
  import opened Roster
  import Rules

  /** What getParticipantsInfo exposes of a participant, with the guess it
      made this round (null when it made none). */
  datatype ParticipantGuess = ParticipantGuess(id: Id, nickname: string, score: int, isDead: bool, guess: Option<int>)

  /** The events kept in gameEvents and broadcast to every open socket.
      Times are relative to the moment of sending. */
  datatype GameEvent =
    | GameStart(participants: seq<ParticipantGuess>, round: nat, gameEnded: bool, aliveCount: nat,
                roundStartTime: int, roundEndTime: int)
    | GameInfo(participants: seq<ParticipantGuess>, round: nat, roundStartTime: int, roundEndTime: int,
               gameEnded: bool, aliveCount: nat, target: real, winners: seq<Id>,
               justDiedParticipants: seq<Dead>, justAppliedRules: set<int>)
    | ParticipantDisconnectedMidgame(aliveCount: nat, id: Id)

  /** The guess a participant made this round: `reqs.filter(req => p.id === req.id)[0]`. */
  function GuessOf(reqs: seq<Guess>, id: Id): (r: Option<int>)
    ensures r.None? <==> !Decided(reqs, id)
    ensures r.Some? ==> Guess(id, r.value) in reqs
    ensures Rules.DistinctIds(reqs) ==>
              forall i :: 0 <= i < |reqs| && reqs[i].id == id ==> r == Some(reqs[i].guess)
    decreases |reqs|
  {
    if reqs == [] then None
    else if reqs[0].id == id then Some(reqs[0].guess)
    else
      var r := GuessOf(reqs[1..], id);
      assert Decided(reqs, id) <==> Decided(reqs[1..], id) by {
        if Decided(reqs, id) {
          var i :| 0 <= i < |reqs| && reqs[i].id == id;
          assert reqs[1..][i - 1].id == id;
        }
      }
      assert Rules.DistinctIds(reqs) ==> Rules.DistinctIds(reqs[1..]) by {
        assert forall i :: 0 <= i < |reqs| - 1 ==> reqs[1..][i] == reqs[i + 1];
      }
      r
  }

  /** The participantGuesses table of the gameInfo event. */
  function Board(ps: seq<Participant>, reqs: seq<Guess>): seq<ParticipantGuess> {
    seq(|ps|, j requires 0 <= j < |ps| =>
      ParticipantGuess(ps[j].id, ps[j].nickname, ps[j].score, ps[j].isDead, GuessOf(reqs, ps[j].id)))
  }

  /** The roster as gameStart shows it, before anyone has guessed. */
  function Roll(ps: seq<Participant>): seq<ParticipantGuess> {
    Board(ps, [])
  }

  /** Ids of the participants a round collects guesses from: alive and with an
      open socket, in roster order (game.ts:298-308). */
  function Entrants(ps: seq<Participant>, open: set<SocketRef>): (r: seq<Id>)
    ensures |r| <= AliveCount(ps)
    ensures forall id :: id in r <==> exists j :: 0 <= j < |ps| && ps[j].id == id && !ps[j].isDead && ps[j].socket in open
    decreases |ps|
  {
    if ps == [] then []
    else
      var init := ps[..|ps| - 1];
      var last := ps[|ps| - 1];
      var r := Entrants(init, open) + (if !last.isDead && last.socket in open then [last.id] else []);
      assert forall j :: 0 <= j < |init| ==> init[j] == ps[j];
      r
  }

  class Game {
    const timing: Timing
    var participants: seq<Participant>
    var inProgress: bool
    var gameEvents: seq<GameEvent>
    /** gameBody's while loop is running. */
    var looping: bool
    /** gameBody's local `round` and `roundStartTime`. */
    var round: nat
    var roundStartTime: int

    /** Scores never fall below DEAD_LIMIT. Before the start nobody is scored or
        dead and the room is not full; once started the room never shrinks
        below a full one. */
    ghost predicate Valid()
      reads this
    {
      (forall j :: 0 <= j < |participants| ==> participants[j].score >= DEAD_LIMIT) &&
      (looping ==> inProgress) &&
      (inProgress ==> |participants| >= PARTICIPANTS_PER_GAME) &&
      (!inProgress ==>
         |participants| < PARTICIPANTS_PER_GAME &&
         forall j :: 0 <= j < |participants| ==> participants[j].score == 0 && !participants[j].isDead)
    }

    constructor(timing: Timing)
      ensures Valid() && this.timing == timing
      ensures participants == [] && gameEvents == [] && !inProgress && !looping && round == 0
    {
      this.timing := timing;
      participants := [];
      inProgress := false;
      gameEvents := [];
      looping := false;
      round := 0;
      roundStartTime := 0;
    }

    function ParticipantsCount(): nat
      reads this`participants
    {
      |participants|
    }

    /** The game has ended: it started and at most one participant is alive. */
    function IsEnded(): (r: bool)
      reads this`inProgress, this`participants
      ensures r ==> inProgress
      ensures inProgress && !r ==> AliveCount(participants) >= 2 && |participants| >= 2
    {
      inProgress && AliveCount(participants) <= 1
    }

    /** Appends the joiner; when that fills the room the game starts: round 1
        begins after the round-zero digest and gameStart is broadcast. The
        returned count is the updateParticipantsCount sent to the others. */
    method AddParticipantByInfo(socket: SocketRef, id: Id, nickname: string, now: int)
      returns (announcedCount: nat, started: bool)
      requires Valid()
      modifies this
      ensures Valid()
      ensures participants == old(participants) + [Participant(id, nickname, socket, 0, false)]
      ensures announcedCount == |participants|
      ensures started <==> |participants| == PARTICIPANTS_PER_GAME
      ensures started ==> !old(inProgress)
      ensures inProgress <==> old(inProgress) || started
      ensures started ==>
                round == 1 && roundStartTime == now + timing.roundZeroDigestMs && looping && !IsEnded() &&
                AliveCount(participants) == |participants| &&
                gameEvents == old(gameEvents) + [StartInfo(participants, roundStartTime, now)]
      ensures !started ==>
                round == old(round) && roundStartTime == old(roundStartTime) && looping == old(looping) &&
                gameEvents == old(gameEvents)
    {
      announcedCount := |participants| + 1;
      var joiner := Participant(id, nickname, socket, 0, false);
      ghost var before := participants;
      participants := participants + [joiner];
      assert forall j :: 0 <= j < |participants| ==> participants[j] == if j < |before| then before[j] else joiner;
      started := |participants| == PARTICIPANTS_PER_GAME;
      if started {
        Start(now);
      }
    }

    /** The room has just filled: the game starts, round 1 begins after the
        round-zero digest, gameStart is broadcast and the round loop runs. */
    method Start(now: int)
      requires |participants| == PARTICIPANTS_PER_GAME && !inProgress && !looping
      requires forall j :: 0 <= j < |participants| ==> participants[j].score == 0 && !participants[j].isDead
      modifies this
      ensures Valid()
      ensures participants == old(participants) && inProgress && round == 1
      ensures roundStartTime == now + timing.roundZeroDigestMs && looping && !IsEnded()
      ensures AliveCount(participants) == |participants|
      ensures gameEvents == old(gameEvents) + [StartInfo(participants, roundStartTime, now)]
    {
      AllAliveCount(participants);
      inProgress := true;
      round := 1;
      roundStartTime := now + timing.roundZeroDigestMs;
      gameEvents := gameEvents + [StartInfo(participants, roundStartTime, now)];
      looping := !IsEnded();
    }

    /** A closed connection: unknown sockets change nothing; before the start
        the participants on it leave and the new count is announced; after the
        start the first of them is marked dead. */
    method HandleClose(ws: SocketRef) returns (announcedCount: Option<nat>)
      requires Valid()
      modifies this
      ensures Valid()
      ensures participants == Close(old(participants), old(inProgress), ws)
      ensures announcedCount ==
                if !inProgress && HasSocket(old(participants), ws) then Some(|participants|) else None
      ensures inProgress == old(inProgress) && looping == old(looping) && gameEvents == old(gameEvents)
      ensures round == old(round) && roundStartTime == old(roundStartTime)
    {
      announcedCount := None;
      if HasSocket(participants, ws) {
        if inProgress {
          var k := IndexOfSocket(participants, ws);
          if !participants[k].isDead {
            participants := participants[k := participants[k].(isDead := true)];
          }
        } else {
          ghost var before := participants;
          participants := WithoutSocket(participants, ws);
          forall j | 0 <= j < |participants|
            ensures participants[j].score == 0 && !participants[j].isDead
          {
            WithoutSocketExactly(before, ws, participants[j]);
          }
          announcedCount := Some(|participants|);
        }
      }
    }

    /** The participantDisconnectedMidgame event a collector broadcasts for a
        participant that left without a guess. */
    method BroadcastDisconnected(pid: Id)
      modifies this
      ensures gameEvents == old(gameEvents) + [GameEvent.ParticipantDisconnectedMidgame(AliveCount(participants), pid)]
      ensures participants == old(participants) && inProgress == old(inProgress) && looping == old(looping)
      ensures round == old(round) && roundStartTime == old(roundStartTime)
    {
      gameEvents := gameEvents + [GameEvent.ParticipantDisconnectedMidgame(AliveCount(participants), pid)];
    }

    /** One iteration of gameBody's loop, from the settled collector results:
        with no decided guess the loop stops; otherwise the roster is scored.
        When some participant has two decided guesses the assertion of the
        gameInfo table throws and the loop ends there, with the scores already
        changed and nothing broadcast; else the gameInfo event is broadcast
        and the next round is scheduled. */
    method PlayRound(results: seq<Settled>, now: int)
      requires Valid() && looping
      requires AllKnown(participants, Rules.Reqs(results))
      modifies this
      ensures Valid() && inProgress
      ensures SettlementOf(old(participants), results).None? ==>
                !looping && participants == old(participants) && gameEvents == old(gameEvents) &&
                round == old(round) && roundStartTime == old(roundStartTime)
      ensures SettlementOf(old(participants), results).Some? && !Rules.DistinctIds(Rules.Reqs(results)) ==>
                !looping && participants == SettlementOf(old(participants), results).value.roster &&
                gameEvents == old(gameEvents) && round == old(round) && roundStartTime == old(roundStartTime)
      ensures SettlementOf(old(participants), results).Some? && Rules.DistinctIds(Rules.Reqs(results)) ==>
                var st := SettlementOf(old(participants), results).value;
                participants == st.roster &&
                round == old(round) + 1 &&
                roundStartTime == Rules.NextRoundStart(now, st.justDied, timing.roundInfoDigestMs, timing.digestMs) &&
                looping == !IsEnded() &&
                gameEvents == old(gameEvents) + [RoundInfo(st, round, roundStartTime, now)]
    {
      var settled := Settle(participants, results);
      if settled.None? {
        looping := false;
        return;
      }
      SettlementKeepsFloor(participants, results);
      SettledRosterKnown(participants, results);
      AtMostOneGuessEachExactly(settled.value.roster, settled.value.reqs);
      Conclude(settled.value, now);
    }

    /** The rest of a loop iteration once the roster is scored: the gameInfo
        table asserts at most one guess per participant, which throws and ends
        the loop; otherwise the next round is scheduled, gameInfo broadcast, and
        the loop goes on unless the game has ended. */
    method Conclude(st: Settlement, now: int)
      requires inProgress && looping && |st.roster| >= PARTICIPANTS_PER_GAME
      requires forall j :: 0 <= j < |st.roster| ==> st.roster[j].score >= DEAD_LIMIT
      modifies this
      ensures Valid() && inProgress && participants == st.roster
      ensures !AtMostOneGuessEach(st.roster, st.reqs) ==>
                !looping && gameEvents == old(gameEvents) && round == old(round) && roundStartTime == old(roundStartTime)
      ensures AtMostOneGuessEach(st.roster, st.reqs) ==>
                round == old(round) + 1 &&
                roundStartTime == Rules.NextRoundStart(now, st.justDied, timing.roundInfoDigestMs, timing.digestMs) &&
                looping == !IsEnded() &&
                gameEvents == old(gameEvents) + [RoundInfo(st, round, roundStartTime, now)]
    {
      participants := st.roster;
      if !AtMostOneGuessEach(participants, st.reqs) {
        looping := false;
        return;
      }
      round := round + 1;
      roundStartTime := Rules.NextRoundStart(now, st.justDied, timing.roundInfoDigestMs, timing.digestMs);
      gameEvents := gameEvents + [RoundInfo(st, round, roundStartTime, now)];
      looping := !IsEnded();
    }
  }

  /** The outcome of settling one round: the scored roster, the decided
      guesses, the target, the winners, the justDiedParticipants list and the
      justAppliedRules set. */
  datatype Settlement = Settlement(roster: seq<Participant>, reqs: seq<Guess>, target: real, winners: seq<Id>,
                                   justDied: seq<Dead>, rules: set<int>)

  /** The gameStart event: round 1, everyone's standing, relative times. */
  function StartInfo(ps: seq<Participant>, roundStartTime: int, now: int): GameEvent {
    GameStart(Roll(ps), 1, AliveCount(ps) <= 1, AliveCount(ps), roundStartTime - now, roundStartTime + ROUND_TIME_MS - now)
  }

  /** The gameInfo event broadcast after a settlement; times are relative to
      now and the game has ended when at most one participant is alive. */
  function RoundInfo(st: Settlement, round: nat, roundStartTime: int, now: int): GameEvent {
    GameInfo(Board(st.roster, st.reqs), round, roundStartTime - now, roundStartTime + ROUND_TIME_MS - now,
             AliveCount(st.roster) <= 1, AliveCount(st.roster), st.target, st.winners, st.justDied, st.rules)
  }

  /** The settlement of gameBody (game.ts:313-407) as a function of the roster
      and the settled results; None when nobody decided. */
  function SettlementOf(ps: seq<Participant>, results: seq<Settled>): (r: Option<Settlement>)
    requires AllKnown(ps, Rules.Reqs(results))
    ensures r.Some? <==> Rules.Reqs(results) != []
    ensures r.Some? ==>
              var d := Rules.Decide(Rules.Reqs(results));
              r.value.reqs == Rules.Reqs(results) && r.value.winners == d.winners &&
              |r.value.roster| == |ps| &&
              r.value.rules <= {2, 3, 4} &&
              (2 in r.value.rules <==> Rules.IsRule2(r.value.reqs)) &&
              (3 in r.value.rules <==> Rule3Applied(r.value.reqs, d.winners, Rules.Penalty(|r.value.reqs|, d.diff)))
  {
    var reqs := Rules.Reqs(results);
    if reqs == [] then None
    else
      var d := Rules.Decide(reqs);
      var pen := Rules.Penalty(|reqs|, d.diff);
      var scored := ScoreAll(ps, reqs, d.winners, pen);
      Some(Settlement(scored.0, reqs, Rules.Target(reqs), d.winners, Rules.DisconnectDeaths(results) + scored.1,
                      d.rules + (if Rule3Applied(reqs, d.winners, pen) then {3} else {})))
  }

  /** The settlement steps of gameBody in source order: partition, target,
      winners, scoring. */
  method Settle(ps: seq<Participant>, results: seq<Settled>) returns (settled: Option<Settlement>)
    requires AllKnown(ps, Rules.Reqs(results))
    ensures settled == SettlementOf(ps, results)
  {
    var reqs, justDied := Rules.Partition(results);
    if |reqs| == 0 {
      return None;
    }
    var target := Rules.Target(reqs);
    var winners, winnersDiff, rules := Rules.ChooseWinners(reqs);
    var scored, deaths, rule3 := ScoreDeciders(ps, reqs, winners, winnersDiff);
    justDied := justDied + deaths;
    ghost var d := Rules.Decide(reqs);
    assert winners == d.winners && winnersDiff == d.diff;
    if rule3 {
      rules := rules + {3};
    }
    assert rules == d.rules + (if Rule3Applied(reqs, d.winners, Rules.Penalty(|reqs|, d.diff)) then {3} else {});
    settled := Some(Settlement(scored, reqs, target, winners, justDied, rules));
  }

  /** What a settlement does to the roster, for distinct decider ids: only the
      deciders' records change, each as Penalized says (a winner keeps its
      score, any other decider loses the penalty, clamped at DEAD_LIMIT); the
      "deadLimit" entries name exactly the deciders this kills, once each. */
  lemma SettlementScores(ps: seq<Participant>, results: seq<Settled>, id: Id)
    requires AllKnown(ps, Rules.Reqs(results)) && Rules.DistinctIds(Rules.Reqs(results))
    ensures SettlementOf(ps, results).Some? <==> Rules.Reqs(results) != []
    ensures SettlementOf(ps, results).Some? ==>
              var st := SettlementOf(ps, results).value;
              var pen := Rules.Penalty(|st.reqs|, Rules.Decide(st.reqs).diff);
              (forall j :: 0 <= j < |ps| ==>
                 st.roster[j] == if Scored(ps, st.reqs, j) then Penalized(ps[j], st.winners, pen).0 else ps[j]) &&
              (Dead(id, DeadLimit) in st.justDied <==>
                 Decided(st.reqs, id) && Penalized(ps[IndexOf(ps, id)], st.winners, pen).1)
  {
    var reqs := Rules.Reqs(results);
    if reqs != [] {
      var d := Rules.Decide(reqs);
      var pen := Rules.Penalty(|reqs|, d.diff);
      ScoreAllCharacterized(ps, reqs, d.winners, pen);
      NewlyDeadExactly(ps, reqs, d.winners, pen, id);
      var died := Rules.DisconnectDeaths(results);
      assert Dead(id, DeadLimit) !in died;
    }
  }

  /** Settling keeps the roster's ids and length and never lets a score fall
      below DEAD_LIMIT. */
  lemma SettlementKeepsFloor(ps: seq<Participant>, results: seq<Settled>)
    requires AllKnown(ps, Rules.Reqs(results))
    requires forall j :: 0 <= j < |ps| ==> ps[j].score >= DEAD_LIMIT
    ensures SettlementOf(ps, results).Some? ==>
              var r := SettlementOf(ps, results).value.roster;
              |r| == |ps| &&
              (forall j :: 0 <= j < |ps| ==> r[j].id == ps[j].id && r[j].score >= DEAD_LIMIT) &&
              (forall j :: 0 <= j < |ps| && ps[j].isDead ==> r[j].isDead)
  {
  }

  /** The assertion of the gameInfo table (game.ts:412): no participant has
      more than one decided guess. */
  predicate AtMostOneGuessEach(ps: seq<Participant>, reqs: seq<Guess>) {
    forall j, a, b :: 0 <= j < |ps| && 0 <= a < b < |reqs| && reqs[a].id == ps[j].id ==> reqs[b].id != ps[j].id
  }

  /** When every decided guess names a participant, that assertion holds
      exactly when no two decided guesses share an id. */
  lemma AtMostOneGuessEachExactly(ps: seq<Participant>, reqs: seq<Guess>)
    requires AllKnown(ps, reqs)
    ensures AtMostOneGuessEach(ps, reqs) <==> Rules.DistinctIds(reqs)
  {
    if AtMostOneGuessEach(ps, reqs) {
      forall a, b | 0 <= a < b < |reqs|
        ensures reqs[a].id != reqs[b].id
      {
        assert HasId(ps, reqs[a].id);
        var j :| 0 <= j < |ps| && ps[j].id == reqs[a].id;
      }
    }
  }

  /** Scoring keeps every id, so the decided guesses still name participants
      of the scored roster. */
  lemma SettledRosterKnown(ps: seq<Participant>, results: seq<Settled>)
    requires AllKnown(ps, Rules.Reqs(results))
    ensures SettlementOf(ps, results).Some? ==>
              AllKnown(SettlementOf(ps, results).value.roster, SettlementOf(ps, results).value.reqs)
  {
    var reqs := Rules.Reqs(results);
    if reqs != [] {
      var r := SettlementOf(ps, results).value.roster;
      forall i | 0 <= i < |reqs|
        ensures HasId(r, reqs[i].id)
      {
        assert HasId(ps, reqs[i].id);
        var j :| 0 <= j < |ps| && ps[j].id == reqs[i].id;
        assert r[j].id == reqs[i].id;
      }
    }
  }

  /** A roster nobody in has died counts everyone as alive. */
  lemma {:induction false} AllAliveCount(ps: seq<Participant>)
    requires forall j :: 0 <= j < |ps| ==> !ps[j].isDead
    ensures AliveCount(ps) == |ps|
    decreases |ps|
  {
    if ps != [] {
      AllAliveCount(ps[..|ps| - 1]);
    }
  }
}
