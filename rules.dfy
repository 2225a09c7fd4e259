/** The rules that settle one round of Game.gameBody (src/game/game.ts:313-394):
    splitting the settled collector results, the target, the winners with
    rules 2 and 4, and the penalty with rule 3. Distances are exact reals. */
module Rules {
  import opened Interfaces

  // ---------------------------------------------------------------------
  // Splitting the settled results (game.ts:313-332)
  // ---------------------------------------------------------------------

  /** The decided guesses: one per fulfilled result, in result order. */
  function Reqs(results: seq<Settled>): (r: seq<Guess>)
    ensures |r| <= |results|
    decreases |results|
  {
    if results == [] then []
    else
      var last := results[|results| - 1];
      Reqs(results[..|results| - 1]) + (if last.Fulfilled? then [Guess(last.id, last.guess)] else [])
  }

  /** The disconnection entries: "disconnected" for a fulfilled result that is
      no longer alive, "disconnectedMidgame" for a rejected one. */
  function DisconnectDeaths(results: seq<Settled>): (r: seq<Dead>)
    ensures forall d :: d in r ==> d.reason != DeadLimit
    decreases |results|
  {
    if results == [] then []
    else
      var last := results[|results| - 1];
      DisconnectDeaths(results[..|results| - 1]) +
        match last
        case Fulfilled(id, _, stillAlive) => if stillAlive then [] else [Dead(id, Disconnected)]
        case Rejected(id) => [Dead(id, DisconnectedMidgame)]
  }

  /** The partition loop of gameBody. */
  method Partition(results: seq<Settled>) returns (reqs: seq<Guess>, justDied: seq<Dead>)
    ensures reqs == Reqs(results)
    ensures justDied == DisconnectDeaths(results)
  {
    reqs, justDied := [], [];
    var i := 0;
    while i < |results|
      invariant 0 <= i <= |results|
      invariant reqs == Reqs(results[..i])
      invariant justDied == DisconnectDeaths(results[..i])
    {
      assert results[..i + 1][..i] == results[..i];
      var request := results[i];
      if request.Fulfilled? {
        if !request.stillAlive {
          justDied := justDied + [Dead(request.id, Disconnected)];
        }
        reqs := reqs + [Guess(request.id, request.guess)];
      } else {
        justDied := justDied + [Dead(request.id, DisconnectedMidgame)];
      }
      i := i + 1;
    }
    assert results[..i] == results;
  }

  /** Every fulfilled result, and only those, yields a guess; a rejected one
      yields only a "disconnectedMidgame" entry; a fulfilled one that is no
      longer alive yields a "disconnected" entry; nothing yields "deadLimit". */
  lemma {:induction false} PartitionMembership(results: seq<Settled>, id: Id, g: int)
    ensures Guess(id, g) in Reqs(results) <==>
              Fulfilled(id, g, true) in results || Fulfilled(id, g, false) in results
    ensures Dead(id, DisconnectedMidgame) in DisconnectDeaths(results) <==> Settled.Rejected(id) in results
    ensures Fulfilled(id, g, false) in results ==> Dead(id, Disconnected) in DisconnectDeaths(results)
    ensures Dead(id, DeadLimit) !in DisconnectDeaths(results)
    decreases |results|
  {
    if results != [] {
      var init := results[..|results| - 1];
      PartitionMembership(init, id, g);
      assert results == init + [results[|results| - 1]];
    }
  }

  /** A "disconnected" entry comes from a fulfilled result that is no longer alive. */
  lemma {:induction false} DisconnectedEntrySource(results: seq<Settled>, id: Id)
    requires Dead(id, Disconnected) in DisconnectDeaths(results)
    ensures exists r :: r in results && r.Fulfilled? && r.id == id && !r.stillAlive
    decreases |results|
  {
    var init := results[..|results| - 1];
    var last := results[|results| - 1];
    assert results == init + [last];
    if Dead(id, Disconnected) in DisconnectDeaths(init) {
      DisconnectedEntrySource(init, id);
    } else {
      assert last.Fulfilled? && last.id == id && !last.stillAlive;
    }
  }

  /** The decided guesses keep result order: splitting distributes over concatenation. */
  lemma {:induction false} ReqsAppend(a: seq<Settled>, b: seq<Settled>)
    ensures Reqs(a + b) == Reqs(a) + Reqs(b)
    decreases |b|
  {
    if b == [] {
      assert a + b == a;
    } else {
      var b' := b[..|b| - 1];
      assert (a + b)[..|a + b| - 1] == a + b';
      ReqsAppend(a, b');
    }
  }

  // ---------------------------------------------------------------------
  // Target (game.ts:334)
  // ---------------------------------------------------------------------

  function GuessSum(reqs: seq<Guess>): int
    decreases |reqs|
  {
    if reqs == [] then 0 else GuessSum(reqs[..|reqs| - 1]) + reqs[|reqs| - 1].guess
  }

  /** `sum / reqs.length * 0.8`: 0.8 times the mean guess. */
  function Target(reqs: seq<Guess>): (t: real)
    requires |reqs| > 0
    ensures t * |reqs| as real == 0.8 * GuessSum(reqs) as real
    ensures |reqs| == 1 ==> t == 0.8 * reqs[0].guess as real
  {
    (GuessSum(reqs) as real / |reqs| as real) * 0.8
  }

  predicate InRange(reqs: seq<Guess>) {
    forall i :: 0 <= i < |reqs| ==> 0 <= reqs[i].guess <= 100
  }

  lemma {:induction false} GuessSumBounds(reqs: seq<Guess>)
    requires InRange(reqs)
    ensures 0 <= GuessSum(reqs) <= 100 * |reqs|
    decreases |reqs|
  {
    if reqs != [] {
      GuessSumBounds(reqs[..|reqs| - 1]);
    }
  }

  /** With guesses in [0, 100] the target lies in [0, 80]. */
  lemma TargetRange(reqs: seq<Guess>)
    requires |reqs| > 0 && InRange(reqs)
    ensures 0.0 <= Target(reqs) <= 80.0
  {
    GuessSumBounds(reqs);
    var n := |reqs| as real;
    var mean := GuessSum(reqs) as real / n;
    assert mean * n == GuessSum(reqs) as real;
    assert 0.0 <= mean <= 100.0;
  }

  // ---------------------------------------------------------------------
  // Winners (game.ts:336-378)
  // ---------------------------------------------------------------------

  /** `Math.abs(x - target)` */
  function Dist(g: int, target: real): (d: real)
    ensures d >= 0.0
    ensures d == g as real - target || d == target - g as real
  {
    if g as real >= target then g as real - target else target - g as real
  }

  /** How many decided guesses equal v. */
  function CountGuess(reqs: seq<Guess>, v: int): nat
    decreases |reqs|
  {
    if reqs == [] then 0
    else CountGuess(reqs[..|reqs| - 1], v) + (if reqs[|reqs| - 1].guess == v then 1 else 0)
  }

  /** Rule 4: with at most 4 deciders a guess chosen more than once cannot win. */
  predicate Eligible(reqs: seq<Guess>, i: nat)
    requires i < |reqs|
  {
    !(|reqs| <= 4 && CountGuess(reqs, reqs[i].guess) > 1)
  }

  /** The loop variables `winners`, `winnersDiff` and whether rule 4 was recorded. */
  datatype Scan = Scan(winners: seq<Id>, diff: Option<real>, rule4: bool)

  /** `!winnersDiff`: null and 0 are both falsy. */
  predicate Falsy(d: Option<real>) {
    d.None? || d.value == 0.0
  }

  /** One iteration of the winner loop. */
  function Step(reqs: seq<Guess>, target: real, s: Scan, i: nat): (r: Scan)
    requires i < |reqs|
    ensures r.rule4 <==> s.rule4 || !Eligible(reqs, i)
    ensures !Eligible(reqs, i) ==> r.winners == s.winners && r.diff == s.diff
    ensures Eligible(reqs, i) ==>
              r.diff.Some? && r.diff.value <= Dist(reqs[i].guess, target) &&
              (r.diff.value == Dist(reqs[i].guess, target) ==> reqs[i].id in r.winners)
    ensures r.diff == s.diff || r.diff == Some(Dist(reqs[i].guess, target))
    ensures |r.winners| <= |s.winners| + 1
  {
    if !Eligible(reqs, i) then s.(rule4 := true)
    else
      var d := Dist(reqs[i].guess, target);
      if Falsy(s.diff) || d < s.diff.value then Scan([reqs[i].id], Some(d), s.rule4)
      else if d == s.diff.value then s.(winners := s.winners + [reqs[i].id])
      else s
  }

  /** The loop state after the first n iterations. */
  function ScanPrefix(reqs: seq<Guess>, target: real, n: nat): (r: Scan)
    requires n <= |reqs|
    ensures |r.winners| <= n
    ensures r.diff.Some? ==> r.diff.value >= 0.0 && n > 0
    decreases n
  {
    if n == 0 then Scan([], None, false)
    else Step(reqs, target, ScanPrefix(reqs, target, n - 1), n - 1)
  }

  /** The winner loop as written. */
  method PickWinners(reqs: seq<Guess>, target: real) returns (winners: seq<Id>, winnersDiff: Option<real>, rule4: bool)
    ensures Scan(winners, winnersDiff, rule4) == ScanPrefix(reqs, target, |reqs|)
  {
    winners, winnersDiff, rule4 := [], None, false;
    for i := 0 to |reqs|
      invariant Scan(winners, winnersDiff, rule4) == ScanPrefix(reqs, target, i)
    {
      var req := reqs[i];
      if |reqs| <= 4 && CountGuess(reqs, req.guess) > 1 {
        rule4 := true;
        continue;
      }
      var diff := Dist(req.guess, target);
      if winnersDiff.None? || winnersDiff.value == 0.0 || diff < winnersDiff.value {
        winners := [req.id];
        winnersDiff := Some(diff);
      } else if diff == winnersDiff.value {
        winners := winners + [req.id];
      }
    }
  }

  /** Rule 2: exactly two deciders choosing 0 and 100, in either order. */
  predicate IsRule2(reqs: seq<Guess>) {
    |reqs| == 2 &&
    ((reqs[0].guess == 0 && reqs[1].guess == 100) || (reqs[1].guess == 0 && reqs[0].guess == 100))
  }

  /** The winners of a round, the winning distance (None where the source
      leaves `winnersDiff` null) and the rules recorded so far (2 and 4). */
  datatype Decision = Decision(winners: seq<Id>, diff: Option<real>, rules: set<int>)

  function Decide(reqs: seq<Guess>): (r: Decision)
    requires |reqs| >= 1
    ensures |reqs| == 1 ==> r.winners == [reqs[0].id] && r.diff.None?
    ensures IsRule2(reqs) ==>
              r.diff.None? && r.winners == [if reqs[0].guess == 100 then reqs[0].id else reqs[1].id]
    ensures 2 in r.rules <==> IsRule2(reqs)
    ensures forall id :: id in r.winners ==> exists i :: 0 <= i < |reqs| && reqs[i].id == id
    ensures r.diff.Some? ==> r.diff.value >= 0.0
    ensures r.rules <= {2, 4}
  {
    if |reqs| == 1 then Decision([reqs[0].id], None, {})
    else if |reqs| == 2 && reqs[0].guess == 0 && reqs[1].guess == 100 then Decision([reqs[1].id], None, {2})
    else if |reqs| == 2 && reqs[1].guess == 0 && reqs[0].guess == 100 then Decision([reqs[0].id], None, {2})
    else
      var s := ScanPrefix(reqs, Target(reqs), |reqs|);
      ScanFacts(reqs, Target(reqs), |reqs|);
      Decision(s.winners, s.diff, if s.rule4 then {4} else {})
  }

  /** The branch of gameBody that picks the winners (game.ts:339-378). */
  method ChooseWinners(reqs: seq<Guess>) returns (winners: seq<Id>, winnersDiff: Option<real>, rules: set<int>)
    requires |reqs| >= 1
    ensures Decision(winners, winnersDiff, rules) == Decide(reqs)
  {
    rules := {};
    if |reqs| == 1 {
      winners, winnersDiff := [reqs[0].id], None;
    } else if |reqs| == 2 && reqs[0].guess == 0 && reqs[1].guess == 100 {
      winners, winnersDiff := [reqs[1].id], None;
      rules := {2};
    } else if |reqs| == 2 && reqs[1].guess == 0 && reqs[0].guess == 100 {
      winners, winnersDiff := [reqs[0].id], None;
      rules := {2};
    } else {
      var rule4;
      winners, winnersDiff, rule4 := PickWinners(reqs, Target(reqs));
      if rule4 {
        rules := {4};
      }
    }
  }

  /** Rule 4 is recorded iff an ineligible decider was seen. */
  lemma {:induction false} ScanRule4(reqs: seq<Guess>, target: real, n: nat)
    requires n <= |reqs|
    ensures ScanPrefix(reqs, target, n).rule4 <==> exists k :: 0 <= k < n && !Eligible(reqs, k)
    decreases n
  {
    if n > 0 {
      ScanRule4(reqs, target, n - 1);
      if !Eligible(reqs, n - 1) {
        assert exists k :: 0 <= k < n && !Eligible(reqs, k);
      } else {
        assert forall k :: 0 <= k < n && !Eligible(reqs, k) ==> k < n - 1;
      }
    }
  }

  /** What the loop state records: winners are eligible deciders seen so far,
      and a distance is recorded iff an eligible one was seen. */
  lemma {:induction false} ScanFacts(reqs: seq<Guess>, target: real, n: nat)
    requires n <= |reqs|
    ensures var s := ScanPrefix(reqs, target, n);
            (forall id :: id in s.winners ==> exists k :: 0 <= k < n && Eligible(reqs, k) && reqs[k].id == id) &&
            (s.diff.Some? <==> exists k :: 0 <= k < n && Eligible(reqs, k))
    decreases n
  {
    if n > 0 {
      ScanFacts(reqs, target, n - 1);
      var s := ScanPrefix(reqs, target, n - 1);
      var id := reqs[n - 1].id;
      if !Eligible(reqs, n - 1) {
        assert ScanPrefix(reqs, target, n) == s.(rule4 := true);
      } else {
        var d := Dist(reqs[n - 1].guess, target);
        if Falsy(s.diff) || d < s.diff.value {
          assert ScanPrefix(reqs, target, n) == Scan([id], Some(d), s.rule4);
        } else if d == s.diff.value {
          assert ScanPrefix(reqs, target, n) == s.(winners := s.winners + [id]);
        } else {
          assert ScanPrefix(reqs, target, n) == s;
        }
      }
    }
  }

  /** Rule 3's penalty: a non-winner loses 2 when there are at most 3 deciders
      and the winning distance is truthy and at most 0.5, otherwise 1. */
  function Penalty(deciders: nat, diff: Option<real>): (p: int)
    requires diff.Some? ==> diff.value >= 0.0
    ensures p == 1 || p == 2
    ensures p == 2 <==> deciders <= 3 && diff.Some? && 0.0 < diff.value <= 0.5
  {
    if deciders <= 3 && !Falsy(diff) && diff.value <= 0.5 then 2 else 1
  }

  /** No two deciders share an id. */
  predicate DistinctIds(reqs: seq<Guess>) {
    forall i, j :: 0 <= i < j < |reqs| ==> reqs[i].id != reqs[j].id
  }

  /** Rule 4: outside the 1-decider and rule-2 cases, with at most 4 deciders a
      decider whose guess occurs more than once never wins, and rule 4 is recorded. */
  lemma DuplicatesNeverWin(reqs: seq<Guess>, i: nat)
    requires |reqs| >= 2 && !IsRule2(reqs) && DistinctIds(reqs)
    requires i < |reqs| && |reqs| <= 4 && CountGuess(reqs, reqs[i].guess) > 1
    ensures reqs[i].id !in Decide(reqs).winners
    ensures 4 in Decide(reqs).rules
  {
    assert !Eligible(reqs, i);
    assert forall k :: 0 <= k < |reqs| && Eligible(reqs, k) ==> reqs[k].id != reqs[i].id;
    var t := Target(reqs);
    var s := ScanPrefix(reqs, t, |reqs|);
    ScanRule4(reqs, t, |reqs|);
    ScanFacts(reqs, t, |reqs|);
    assert Decide(reqs) == Decision(s.winners, s.diff, if s.rule4 then {4} else {});
  }

  // The smallest distance among eligible deciders, and who attains a distance.

  function MinEligible(reqs: seq<Guess>, target: real, n: nat): Option<real>
    requires n <= |reqs|
    decreases n
  {
    if n == 0 then None
    else
      var prev := MinEligible(reqs, target, n - 1);
      if !Eligible(reqs, n - 1) then prev
      else
        var d := Dist(reqs[n - 1].guess, target);
        if prev.None? || d < prev.value then Some(d) else prev
  }

  /** Ids of the eligible deciders among the first n at distance m, in order. */
  function AtDistance(reqs: seq<Guess>, target: real, n: nat, m: real): seq<Id>
    requires n <= |reqs|
    decreases n
  {
    if n == 0 then []
    else
      AtDistance(reqs, target, n - 1, m) +
        (if Eligible(reqs, n - 1) && Dist(reqs[n - 1].guess, target) == m then [reqs[n - 1].id] else [])
  }

  /** MinEligible is the minimum: a lower bound that some eligible decider attains. */
  lemma {:induction false} MinEligibleIsMinimum(reqs: seq<Guess>, target: real, n: nat)
    requires n <= |reqs|
    ensures MinEligible(reqs, target, n).None? <==> forall k :: 0 <= k < n ==> !Eligible(reqs, k)
    ensures MinEligible(reqs, target, n).Some? ==>
              (forall k :: 0 <= k < n && Eligible(reqs, k) ==>
                 Dist(reqs[k].guess, target) >= MinEligible(reqs, target, n).value) &&
              (exists k :: 0 <= k < n && Eligible(reqs, k) &&
                 Dist(reqs[k].guess, target) == MinEligible(reqs, target, n).value)
    decreases n
  {
    if n > 0 {
      MinEligibleIsMinimum(reqs, target, n - 1);
    }
  }

  /** Nobody among the first n eligible deciders is at distance m. */
  lemma {:induction false} AtDistanceEmpty(reqs: seq<Guess>, target: real, n: nat, m: real)
    requires n <= |reqs|
    requires forall k :: 0 <= k < n && Eligible(reqs, k) ==> Dist(reqs[k].guess, target) != m
    ensures AtDistance(reqs, target, n, m) == []
    decreases n
  {
    if n > 0 {
      AtDistanceEmpty(reqs, target, n - 1, m);
    }
  }

  /** While the smallest eligible distance is not 0, the loop keeps exactly the
      minimum and the deciders attaining it. */
  lemma {:induction false} ScanTracksMinimum(reqs: seq<Guess>, target: real, n: nat)
    requires n <= |reqs|
    requires MinEligible(reqs, target, n).None? || MinEligible(reqs, target, n).value > 0.0
    ensures ScanPrefix(reqs, target, n).diff == MinEligible(reqs, target, n)
    ensures ScanPrefix(reqs, target, n).winners ==
              if MinEligible(reqs, target, n).None? then []
              else AtDistance(reqs, target, n, MinEligible(reqs, target, n).value)
    decreases n
  {
    if n > 0 {
      var prev := MinEligible(reqs, target, n - 1);
      var s := ScanPrefix(reqs, target, n - 1);
      ScanTracksMinimum(reqs, target, n - 1);
      assert s.diff == prev;
      if Eligible(reqs, n - 1) {
        var d := Dist(reqs[n - 1].guess, target);
        var id := reqs[n - 1].id;
        if prev.None? || d < prev.value {
          MinEligibleIsMinimum(reqs, target, n - 1);
          AtDistanceEmpty(reqs, target, n - 1, d);
          assert ScanPrefix(reqs, target, n).winners == [id];
        } else if d == prev.value {
          assert !Falsy(s.diff);
          assert ScanPrefix(reqs, target, n).winners == s.winners + [id];
        } else {
          assert ScanPrefix(reqs, target, n) == s;
        }
      }
    }
  }

  /** The winners outside the 1-decider and rule-2 cases, when the smallest
      eligible distance m is not 0: exactly the eligible deciders at distance
      m, in decided order, and the winning distance is m. */
  lemma MinDistanceWinners(reqs: seq<Guess>)
    requires |reqs| >= 2 && !IsRule2(reqs)
    requires MinEligible(reqs, Target(reqs), |reqs|).Some?
    requires MinEligible(reqs, Target(reqs), |reqs|).value > 0.0
    ensures var m := MinEligible(reqs, Target(reqs), |reqs|).value;
            Decide(reqs).winners == AtDistance(reqs, Target(reqs), |reqs|, m) &&
            Decide(reqs).diff == Some(m) &&
            forall id :: id in Decide(reqs).winners <==>
              exists k :: 0 <= k < |reqs| && Eligible(reqs, k) && reqs[k].id == id &&
                          Dist(reqs[k].guess, Target(reqs)) == m
  {
    ScanTracksMinimum(reqs, Target(reqs), |reqs|);
    var m := MinEligible(reqs, Target(reqs), |reqs|).value;
    forall id ensures id in AtDistance(reqs, Target(reqs), |reqs|, m) <==>
        exists k :: 0 <= k < |reqs| && Eligible(reqs, k) && reqs[k].id == id &&
                    Dist(reqs[k].guess, Target(reqs)) == m {
      AtDistanceMembers(reqs, Target(reqs), |reqs|, m, id);
    }
  }

  lemma {:induction false} AtDistanceMembers(reqs: seq<Guess>, target: real, n: nat, m: real, id: Id)
    requires n <= |reqs|
    ensures id in AtDistance(reqs, target, n, m) <==>
              exists k :: 0 <= k < n && Eligible(reqs, k) && reqs[k].id == id && Dist(reqs[k].guess, target) == m
    decreases n
  {
    if n > 0 {
      AtDistanceMembers(reqs, target, n - 1, m, id);
    }
  }

  /** When no decider is eligible (every guess duplicated) nobody wins and no
      distance is recorded, so every decider loses 1. */
  lemma NoEligibleNoWinner(reqs: seq<Guess>)
    requires |reqs| >= 2 && !IsRule2(reqs)
    requires forall k :: 0 <= k < |reqs| ==> !Eligible(reqs, k)
    ensures Decide(reqs).winners == [] && Decide(reqs).diff.None?
    ensures Penalty(|reqs|, Decide(reqs).diff) == 1
  {
    MinEligibleIsMinimum(reqs, Target(reqs), |reqs|);
    ScanTracksMinimum(reqs, Target(reqs), |reqs|);
  }

  // ---------------------------------------------------------------------
  // Consequences of treating a distance of 0 as "no winner yet"
  // ---------------------------------------------------------------------

  /** An exact hit followed by a worse guess: guesses 4, 1, 10 give target 4;
      the exact 4 is replaced by the 1 (distance 3), which wins alone. */
  lemma ExactHitOverwritten()
    ensures var reqs := [Guess("a", 4), Guess("b", 1), Guess("c", 10)];
            Target(reqs) == 4.0 && Dist(4, 4.0) == 0.0 &&
            Decide(reqs).winners == ["b"] && Decide(reqs).diff == Some(3.0)
  {
    var reqs := [Guess("a", 4), Guess("b", 1), Guess("c", 10)];
    assert GuessSum(reqs) == 15 by {
      assert reqs[..2] == [Guess("a", 4), Guess("b", 1)];
      assert reqs[..2][..1] == [Guess("a", 4)];
      assert GuessSum([Guess("a", 4)]) == 4;
      assert GuessSum(reqs[..2]) == 5;
    }
    ThreeDistinct(reqs);
    assert ScanPrefix(reqs, 4.0, 1) == Scan(["a"], Some(0.0), false);
    assert ScanPrefix(reqs, 4.0, 2) == Scan(["b"], Some(3.0), false);
  }

  /** An exact hit last: guesses 1, 10, 4 give target 4 and the 4 wins at
      distance 0, yet the penalty stays 1, so rule 3 is never applied. */
  lemma ExactHitNoRule3()
    ensures var reqs := [Guess("b", 1), Guess("c", 10), Guess("a", 4)];
            Decide(reqs).winners == ["a"] && Decide(reqs).diff == Some(0.0) &&
            Penalty(|reqs|, Decide(reqs).diff) == 1
  {
    var reqs := [Guess("b", 1), Guess("c", 10), Guess("a", 4)];
    assert GuessSum(reqs) == 15 by {
      assert reqs[..2] == [Guess("b", 1), Guess("c", 10)];
      assert reqs[..2][..1] == [Guess("b", 1)];
      assert GuessSum([Guess("b", 1)]) == 1;
      assert GuessSum(reqs[..2]) == 11;
    }
    ThreeDistinct(reqs);
    assert ScanPrefix(reqs, 4.0, 1) == Scan(["b"], Some(3.0), false);
    assert ScanPrefix(reqs, 4.0, 2) == Scan(["b"], Some(3.0), false);
  }

  /** Two deciders choosing 0 and 1: target 0.4, the 0 wins at distance 0.4,
      and the loser pays rule 3's double penalty. */
  lemma ZeroVersusOne()
    ensures var reqs := [Guess("x", 0), Guess("y", 1)];
            Decide(reqs).winners == ["x"] && Decide(reqs).diff == Some(0.4) &&
            Penalty(|reqs|, Decide(reqs).diff) == 2
  {
    var reqs := [Guess("x", 0), Guess("y", 1)];
    assert reqs[..1] == [Guess("x", 0)];
    assert GuessSum(reqs) == 1;
    assert Target(reqs) == 0.4;
    assert CountGuess(reqs, 0) == 1 && CountGuess(reqs, 1) == 1;
    assert ScanPrefix(reqs, 0.4, 1) == Scan(["x"], Some(0.4), false);
  }

  /** Three deciders with pairwise different guesses are all eligible. */
  lemma ThreeDistinct(reqs: seq<Guess>)
    requires |reqs| == 3
    requires reqs[0].guess != reqs[1].guess && reqs[1].guess != reqs[2].guess && reqs[0].guess != reqs[2].guess
    ensures forall k :: 0 <= k < 3 ==> Eligible(reqs, k)
  {
    assert reqs[..2][..1] == reqs[..1];
    forall k | 0 <= k < 3 ensures CountGuess(reqs, reqs[k].guess) == 1 {
      var v := reqs[k].guess;
      assert CountGuess(reqs[..1], v) == (if reqs[0].guess == v then 1 else 0);
      assert CountGuess(reqs[..2], v) == CountGuess(reqs[..1], v) + (if reqs[1].guess == v then 1 else 0);
    }
  }

  // ---------------------------------------------------------------------
  // Next round's start (game.ts:419-425)
  // ---------------------------------------------------------------------

  /** The entries whose reason is not "disconnectedMidgame". */
  function NotMidgame(died: seq<Dead>): (r: seq<Dead>)
    ensures forall d :: d in r <==> d in died && d.reason != DisconnectedMidgame
    decreases |died|
  {
    if died == [] then []
    else
      NotMidgame(died[..|died| - 1]) +
        (if died[|died| - 1].reason != DisconnectedMidgame then [died[|died| - 1]] else [])
  }

  /** Next round's start: now plus the round-info digest, plus the digest time
      exactly when someone died for a reason other than "disconnectedMidgame". */
  function NextRoundStart(now: int, died: seq<Dead>, roundInfoDigestMs: nat, digestMs: nat): (t: int)
    ensures t == now + roundInfoDigestMs +
                 (if exists d :: d in died && d.reason != DisconnectedMidgame then digestMs else 0)
  {
    var finalDeaths := NotMidgame(died);
    assert |finalDeaths| > 0 <==> exists d :: d in died && d.reason != DisconnectedMidgame by {
      if |finalDeaths| > 0 { assert finalDeaths[0] in finalDeaths; }
    }
    if |finalDeaths| > 0 then now + roundInfoDigestMs + digestMs else now + roundInfoDigestMs
  }
}
