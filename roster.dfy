/** The roster of game.ts: participant records and the list operations the
    Game applies to them (src/game/game.ts:26-32, 61, 381-407, 453-483). */
module Roster {
  import opened Interfaces
  import opened Constants
  import opened Scoring
  import Rules

  /** A participant record of game.ts: `{id, nickname, socket, score, isDead}`. */
  datatype Participant = Participant(id: Id, nickname: string, socket: SocketRef, score: int, isDead: bool)

  /** `participants.filter(p => !p.isDead).length` */
  function AliveCount(ps: seq<Participant>): (n: nat)
    ensures n <= |ps|
    decreases |ps|
  {
    if ps == [] then 0
    else AliveCount(ps[..|ps| - 1]) + (if ps[|ps| - 1].isDead then 0 else 1)
  }

  /** Marking participants dead, and never reviving one, cannot raise the alive count. */
  lemma {:induction false} AliveCountMonotone(ps: seq<Participant>, qs: seq<Participant>)
    requires |ps| == |qs|
    requires forall j :: 0 <= j < |ps| && ps[j].isDead ==> qs[j].isDead
    ensures AliveCount(qs) <= AliveCount(ps)
    decreases |ps|
  {
    if ps != [] {
      AliveCountMonotone(ps[..|ps| - 1], qs[..|qs| - 1]);
    }
  }

  /** Killing one alive participant lowers the alive count by exactly one. */
  lemma {:induction false} AliveCountKill(ps: seq<Participant>, k: nat)
    requires k < |ps| && !ps[k].isDead
    ensures AliveCount(ps[k := ps[k].(isDead := true)]) == AliveCount(ps) - 1
    decreases |ps|
  {
    var qs := ps[k := ps[k].(isDead := true)];
    var n := |ps| - 1;
    assert qs[..n] == if k < n then ps[..n][k := ps[k].(isDead := true)] else ps[..n];
    if k < n {
      AliveCountKill(ps[..n], k);
    }
  }

  predicate HasId(ps: seq<Participant>, id: Id) {
    exists k :: 0 <= k < |ps| && ps[k].id == id
  }

  /** `participants.filter(pp => pp.id === id)[0]`, as an index. */
  function IndexOf(ps: seq<Participant>, id: Id): (k: nat)
    requires HasId(ps, id)
    ensures k < |ps| && ps[k].id == id
    ensures forall j :: 0 <= j < k ==> ps[j].id != id
    decreases |ps|
  {
    if ps[0].id == id then 0
    else
      assert HasId(ps[1..], id) by {
        var k :| 0 <= k < |ps| && ps[k].id == id;
        assert ps[1..][k - 1].id == id;
      }
      1 + IndexOf(ps[1..], id)
  }

  /** Two rosters with the same ids at the same positions look up alike. */
  lemma SameIdsSameIndex(ps: seq<Participant>, qs: seq<Participant>, id: Id)
    requires |ps| == |qs| && forall j :: 0 <= j < |ps| ==> ps[j].id == qs[j].id
    requires HasId(ps, id)
    ensures HasId(qs, id) && IndexOf(qs, id) == IndexOf(ps, id)
  {
    var k := IndexOf(ps, id);
    assert qs[k].id == id;
    var k' := IndexOf(qs, id);
    assert !(k' < k) && !(k < k');
  }

  // ---------------------------------------------------------------------
  // Closing a socket (game.ts:453-483)
  // ---------------------------------------------------------------------

  predicate HasSocket(ps: seq<Participant>, ws: SocketRef) {
    exists k :: 0 <= k < |ps| && ps[k].socket == ws
  }

  /** `participants.filter(p => p.socket === ws)[0]`, as an index. */
  function IndexOfSocket(ps: seq<Participant>, ws: SocketRef): (k: nat)
    requires HasSocket(ps, ws)
    ensures k < |ps| && ps[k].socket == ws
    ensures forall j :: 0 <= j < k ==> ps[j].socket != ws
    decreases |ps|
  {
    if ps[0].socket == ws then 0
    else
      assert HasSocket(ps[1..], ws) by {
        var k :| 0 <= k < |ps| && ps[k].socket == ws;
        assert ps[1..][k - 1].socket == ws;
      }
      1 + IndexOfSocket(ps[1..], ws)
  }

  /** `participants.filter(p => p.socket !== ws)` */
  function WithoutSocket(ps: seq<Participant>, ws: SocketRef): (r: seq<Participant>)
    ensures |r| <= |ps|
    decreases |ps|
  {
    if ps == [] then []
    else (if ps[0].socket != ws then [ps[0]] else []) + WithoutSocket(ps[1..], ws)
  }

  /** Removal keeps exactly the participants on other sockets ... */
  lemma {:induction false} WithoutSocketExactly(ps: seq<Participant>, ws: SocketRef, p: Participant)
    ensures p in WithoutSocket(ps, ws) <==> p in ps && p.socket != ws
    decreases |ps|
  {
    if ps != [] {
      WithoutSocketExactly(ps[1..], ws, p);
      assert ps == [ps[0]] + ps[1..];
    }
  }

  /** ... and keeps them in order: it distributes over concatenation. */
  lemma {:induction false} WithoutSocketAppend(a: seq<Participant>, b: seq<Participant>, ws: SocketRef)
    ensures WithoutSocket(a + b, ws) == WithoutSocket(a, ws) + WithoutSocket(b, ws)
    decreases |a|
  {
    if a == [] {
      assert a + b == b;
    } else {
      var head := if a[0].socket != ws then [a[0]] else [];
      assert (a + b)[0] == a[0];
      assert (a + b)[1..] == a[1..] + b;
      WithoutSocketAppend(a[1..], b, ws);
      calc {
        WithoutSocket(a + b, ws);
        head + WithoutSocket(a[1..] + b, ws);
        head + (WithoutSocket(a[1..], ws) + WithoutSocket(b, ws));
        (head + WithoutSocket(a[1..], ws)) + WithoutSocket(b, ws);
      }
    }
  }

  /** The roster after handleClose(ws): unchanged for an unknown socket; before
      the game starts every participant on ws is removed; once it has started
      the first participant on ws is marked dead. */
  function Close(ps: seq<Participant>, inProgress: bool, ws: SocketRef): (r: seq<Participant>)
    ensures !HasSocket(ps, ws) ==> r == ps
    ensures inProgress ==> |r| == |ps|
    ensures !inProgress ==> |r| <= |ps|
  {
    if !HasSocket(ps, ws) then ps
    else if inProgress then
      var k := IndexOfSocket(ps, ws);
      if !ps[k].isDead then ps[k := ps[k].(isDead := true)] else ps
    else WithoutSocket(ps, ws)
  }

  /** After the start, handleClose removes no one and only sets isDead on the
      first participant using ws; closing again changes nothing. */
  lemma CloseAfterStart(ps: seq<Participant>, ws: SocketRef)
    ensures var r := Close(ps, true, ws);
            |r| == |ps| &&
            (forall j :: 0 <= j < |ps| ==> r[j] == ps[j] || r[j] == ps[j].(isDead := true)) &&
            (forall j :: 0 <= j < |ps| && r[j] != ps[j] ==> j == IndexOfSocket(ps, ws)) &&
            (HasSocket(ps, ws) ==> r[IndexOfSocket(ps, ws)].isDead) &&
            Close(r, true, ws) == r &&
            AliveCount(r) >= AliveCount(ps) - 1
  {
    var r := Close(ps, true, ws);
    if HasSocket(ps, ws) {
      var k := IndexOfSocket(ps, ws);
      assert HasSocket(r, ws) && IndexOfSocket(r, ws) == k by {
        assert r[k].socket == ws;
        var k' := IndexOfSocket(r, ws);
        assert !(k' < k) && !(k < k');
      }
      if !ps[k].isDead {
        AliveCountKill(ps, k);
      }
    }
  }

  /** Before the start, handleClose keeps exactly the participants on other
      sockets, in order, and removes everyone on ws. */
  lemma CloseBeforeStart(ps: seq<Participant>, ws: SocketRef, p: Participant)
    ensures p in Close(ps, false, ws) <==> p in ps && p.socket != ws
    ensures |Close(ps, false, ws)| <= |ps|
    ensures Close(ps, false, ws) == WithoutSocket(ps, ws)
  {
    WithoutSocketExactly(ps, ws, p);
    if !HasSocket(ps, ws) {
      WithoutSocketIdentity(ps, ws);
    }
  }

  /** Nobody on ws: removal is the identity. */
  lemma {:induction false} WithoutSocketIdentity(ps: seq<Participant>, ws: SocketRef)
    requires !HasSocket(ps, ws)
    ensures WithoutSocket(ps, ws) == ps
    decreases |ps|
  {
    if ps != [] {
      assert forall k :: 0 <= k < |ps[1..]| ==> ps[1..][k] == ps[k + 1];
      WithoutSocketIdentity(ps[1..], ws);
      assert ps == [ps[0]] + ps[1..];
    }
  }

  // ---------------------------------------------------------------------
  // Scoring one round (game.ts:381-407)
  // ---------------------------------------------------------------------

  /** The record of one decider after scoring: a winner keeps its score, any
      other loses `pen`; then the DEAD_LIMIT clamp. The flag is a new death. */
  function Penalized(p: Participant, winners: seq<Id>, pen: int): (r: (Participant, bool))
    ensures r.0 == p.(score := r.0.score, isDead := r.0.isDead)
    ensures p.score >= DEAD_LIMIT && pen >= 0 ==>
              r.0.score == if p.id in winners then p.score
                           else if p.score - pen < DEAD_LIMIT then DEAD_LIMIT else p.score - pen
    ensures r.0.score >= DEAD_LIMIT
    ensures r.0.isDead <==> p.isDead || (if p.id in winners then p.score else p.score - pen) <= DEAD_LIMIT
    ensures r.1 <==> !p.isDead && r.0.isDead
  {
    var (st, died) := ChangeScore(Standing(p.score, p.isDead), if p.id in winners then 0 else -pen);
    (p.(score := st.score, isDead := st.isDead), died)
  }

  predicate Decided(reqs: seq<Guess>, id: Id) {
    exists i :: 0 <= i < |reqs| && reqs[i].id == id
  }

  predicate AllKnown(ps: seq<Participant>, reqs: seq<Guess>) {
    forall i :: 0 <= i < |reqs| ==> HasId(ps, reqs[i].id)
  }

  /** The scoring forEach: each decided guess in turn updates the first
      participant with its id; collects the "deadLimit" entries. */
  function ScoreAll(ps: seq<Participant>, reqs: seq<Guess>, winners: seq<Id>, pen: int): (r: (seq<Participant>, seq<Dead>))
    requires AllKnown(ps, reqs)
    ensures |r.0| == |ps|
    ensures forall j :: 0 <= j < |ps| ==> r.0[j] == ps[j].(score := r.0[j].score, isDead := r.0[j].isDead)
    ensures forall j :: 0 <= j < |ps| && ps[j].isDead ==> r.0[j].isDead
    ensures (forall j :: 0 <= j < |ps| ==> ps[j].score >= DEAD_LIMIT) ==>
              forall j :: 0 <= j < |ps| ==> r.0[j].score >= DEAD_LIMIT
    ensures forall d :: d in r.1 ==> d.reason == DeadLimit
    decreases |reqs|
  {
    if reqs == [] then (ps, [])
    else
      var (ps', died) := ScoreAll(ps, reqs[..|reqs| - 1], winners, pen);
      var id := reqs[|reqs| - 1].id;
      assert HasId(ps', id) by {
        var k :| 0 <= k < |ps| && ps[k].id == id;
        assert ps'[k].id == id;
      }
      var k := IndexOf(ps', id);
      var (p, justDied) := Penalized(ps'[k], winners, pen);
      (ps'[k := p], died + if justDied then [Dead(id, DeadLimit)] else [])
  }

  /** Whether participant j is the one a decided guess updates. */
  predicate Scored(ps: seq<Participant>, reqs: seq<Guess>, j: nat)
    requires j < |ps|
  {
    Decided(reqs, ps[j].id) && IndexOf(ps, ps[j].id) == j
  }

  /** The "deadLimit" entries computed from the roster before scoring. */
  function NewlyDead(ps: seq<Participant>, reqs: seq<Guess>, winners: seq<Id>, pen: int): seq<Dead>
    requires AllKnown(ps, reqs)
    decreases |reqs|
  {
    if reqs == [] then []
    else
      var id := reqs[|reqs| - 1].id;
      NewlyDead(ps, reqs[..|reqs| - 1], winners, pen) +
        if Penalized(ps[IndexOf(ps, id)], winners, pen).1 then [Dead(id, DeadLimit)] else []
  }

  /** With distinct decider ids, scoring touches exactly the deciders' records,
      each once as if alone, and reports a death for exactly the deciders it
      kills, in decided order. */
  lemma {:induction false} ScoreAllCharacterized(ps: seq<Participant>, reqs: seq<Guess>, winners: seq<Id>, pen: int)
    requires AllKnown(ps, reqs) && Rules.DistinctIds(reqs)
    ensures forall j :: 0 <= j < |ps| ==>
              ScoreAll(ps, reqs, winners, pen).0[j] ==
                if Scored(ps, reqs, j) then Penalized(ps[j], winners, pen).0 else ps[j]
    ensures ScoreAll(ps, reqs, winners, pen).1 == NewlyDead(ps, reqs, winners, pen)
    decreases |reqs|
  {
    if reqs != [] {
      var init := reqs[..|reqs| - 1];
      var id := reqs[|reqs| - 1].id;
      ScoreAllCharacterized(ps, init, winners, pen);
      var (ps', died) := ScoreAll(ps, init, winners, pen);
      SameIdsSameIndex(ps, ps', id);
      var k := IndexOf(ps, id);
      assert !Decided(init, id);
      assert ps'[k] == ps[k];
      forall j | 0 <= j < |ps|
        ensures ScoreAll(ps, reqs, winners, pen).0[j] ==
                  if Scored(ps, reqs, j) then Penalized(ps[j], winners, pen).0 else ps[j]
      {
        ScoredStep(ps, reqs, j);
      }
    }
  }

  /** Being scored by all the guesses is being scored by the earlier ones or
      being the first participant with the last guess's id. */
  lemma ScoredStep(ps: seq<Participant>, reqs: seq<Guess>, j: nat)
    requires AllKnown(ps, reqs) && reqs != [] && j < |ps|
    ensures var last := reqs[|reqs| - 1].id;
            HasId(ps, last) &&
            (Scored(ps, reqs, j) <==> Scored(ps, reqs[..|reqs| - 1], j) || j == IndexOf(ps, last))
  {
    var init := reqs[..|reqs| - 1];
    var x := ps[j].id;
    var last := reqs[|reqs| - 1].id;
    assert HasId(ps, last);
    assert HasId(ps, x) by {
      assert ps[j].id == x;
    }
    if j == IndexOf(ps, last) {
      assert x == last && reqs[|reqs| - 1].id == x;
    }
    if Decided(reqs, x) {
      var i :| 0 <= i < |reqs| && reqs[i].id == x;
      if i < |init| {
        assert init[i].id == x;
      }
    }
    if Decided(init, x) {
      var i :| 0 <= i < |init| && init[i].id == x;
      assert reqs[i].id == x;
    }
  }

  /** A "deadLimit" entry is reported for a decider exactly when scoring kills
      it, and at most once per id. */
  lemma {:induction false} NewlyDeadExactly(ps: seq<Participant>, reqs: seq<Guess>, winners: seq<Id>, pen: int, id: Id)
    requires AllKnown(ps, reqs) && Rules.DistinctIds(reqs)
    ensures Dead(id, DeadLimit) in NewlyDead(ps, reqs, winners, pen) <==>
              Decided(reqs, id) && Penalized(ps[IndexOf(ps, id)], winners, pen).1
    ensures forall a, b :: 0 <= a < b < |NewlyDead(ps, reqs, winners, pen)| ==>
              NewlyDead(ps, reqs, winners, pen)[a].id != NewlyDead(ps, reqs, winners, pen)[b].id
    decreases |reqs|
  {
    if reqs != [] {
      var init := reqs[..|reqs| - 1];
      var last := reqs[|reqs| - 1].id;
      NewlyDeadExactly(ps, init, winners, pen, id);
      NewlyDeadIds(ps, init, winners, pen);
      assert Decided(reqs, id) <==> Decided(init, id) || id == last;
      assert !Decided(init, last);
    }
  }

  /** Every "deadLimit" entry names a decider. */
  lemma {:induction false} NewlyDeadIds(ps: seq<Participant>, reqs: seq<Guess>, winners: seq<Id>, pen: int)
    requires AllKnown(ps, reqs)
    ensures forall d :: d in NewlyDead(ps, reqs, winners, pen) ==> Decided(reqs, d.id)
    decreases |reqs|
  {
    if reqs != [] {
      var init := reqs[..|reqs| - 1];
      NewlyDeadIds(ps, init, winners, pen);
      forall d | d in NewlyDead(ps, init, winners, pen) ensures Decided(reqs, d.id) {
        var i :| 0 <= i < |init| && init[i].id == d.id;
        assert reqs[i].id == d.id;
      }
    }
  }

  /** ScoreAll over one more guess: the first participant with its id is
      updated by Penalized and a new death is reported. */
  lemma ScoreAllNext(ps: seq<Participant>, reqs: seq<Guess>, winners: seq<Id>, pen: int, i: nat)
    requires AllKnown(ps, reqs) && i < |reqs|
    ensures AllKnown(ps, reqs[..i]) && AllKnown(ps, reqs[..i + 1])
    ensures var prev := ScoreAll(ps, reqs[..i], winners, pen);
            HasId(prev.0, reqs[i].id) &&
            var k := IndexOf(prev.0, reqs[i].id);
            var pr := Penalized(prev.0[k], winners, pen);
            ScoreAll(ps, reqs[..i + 1], winners, pen).0 == prev.0[k := pr.0] &&
            ScoreAll(ps, reqs[..i + 1], winners, pen).1 == prev.1 + if pr.1 then [Dead(reqs[i].id, DeadLimit)] else []
  {
    assert reqs[..i + 1][..i] == reqs[..i];
    var prev := ScoreAll(ps, reqs[..i], winners, pen);
    SameIdsSameIndex(ps, prev.0, reqs[i].id);
  }

  /** Whether rule 3 is recorded: some decider lost the rule-3 penalty of 2. */
  predicate Rule3Applied(reqs: seq<Guess>, winners: seq<Id>, pen: int) {
    pen == 2 && exists i :: 0 <= i < |reqs| && reqs[i].id !in winners
  }

  lemma Rule3Next(reqs: seq<Guess>, winners: seq<Id>, pen: int, i: nat)
    requires i < |reqs|
    ensures Rule3Applied(reqs[..i + 1], winners, pen) <==>
            Rule3Applied(reqs[..i], winners, pen) || (pen == 2 && reqs[i].id !in winners)
  {
    assert forall j :: 0 <= j < i ==> reqs[..i + 1][j] == reqs[..i][j];
    assert reqs[..i + 1][i] == reqs[i];
  }

  /** The forEach callback for one decider's record: a non-winner loses 2 when
      rule 3's condition holds and 1 otherwise; a score at or below
      DEAD_LIMIT is clamped to it and an alive participant dies. */
  method ScoreOne(p: Participant, winners: seq<Id>, exactish: bool) returns (q: Participant, killed: bool, rule3: bool)
    ensures (q, killed) == Penalized(p, winners, if exactish then 2 else 1)
    ensures rule3 <==> exactish && p.id !in winners
  {
    var score := p.score;
    rule3 := false;
    if p.id !in winners {
      if exactish {
        score := score - 2;
        rule3 := true;
      } else {
        score := score - 1;
      }
    }
    var isDead := p.isDead;
    killed := false;
    if score <= DEAD_LIMIT {
      score := DEAD_LIMIT;
      if !isDead {
        isDead := true;
        killed := true;
      }
    }
    q := p.(score := score, isDead := isDead);
  }

  /** The scoring forEach of gameBody (game.ts:381-407): each decider's record
      is updated in turn, a non-winner losing 2 under rule 3 and 1 otherwise,
      then clamped at DEAD_LIMIT with a "deadLimit" entry for a new death. */
  method ScoreDeciders(ps: seq<Participant>, reqs: seq<Guess>, winners: seq<Id>, winnersDiff: Option<real>)
    returns (scored: seq<Participant>, deaths: seq<Dead>, rule3: bool)
    requires AllKnown(ps, reqs)
    requires winnersDiff.Some? ==> winnersDiff.value >= 0.0
    ensures var pen := Rules.Penalty(|reqs|, winnersDiff);
            (scored, deaths) == ScoreAll(ps, reqs, winners, pen) &&
            (rule3 <==> Rule3Applied(reqs, winners, pen))
  {
    ghost var pen := Rules.Penalty(|reqs|, winnersDiff);
    var exactish := |reqs| <= 3 && !Rules.Falsy(winnersDiff) && winnersDiff.value <= 0.5;
    assert pen == if exactish then 2 else 1;
    scored, deaths, rule3 := ps, [], false;
    for i := 0 to |reqs|
      invariant AllKnown(ps, reqs[..i])
      invariant scored == ScoreAll(ps, reqs[..i], winners, pen).0
      invariant deaths == ScoreAll(ps, reqs[..i], winners, pen).1
      invariant rule3 <==> Rule3Applied(reqs[..i], winners, pen)
    {
      var req := reqs[i];
      ScoreAllNext(ps, reqs, winners, pen, i);
      var k := IndexOf(scored, req.id);
      var p, killed, exact := ScoreOne(scored[k], winners, exactish);
      assert p == Penalized(scored[k], winners, pen).0;
      assert killed == Penalized(scored[k], winners, pen).1;
      assert p.id == req.id;
      scored := scored[k := p];
      if killed {
        deaths := deaths + [Dead(p.id, DeadLimit)];
      }
      rule3 := rule3 || exact;
      Rule3Next(reqs, winners, pen, i);
    }
    assert reqs[..|reqs|] == reqs;
  }
}
