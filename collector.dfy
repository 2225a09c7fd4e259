/** The per-participant guess collector of one round: the promise built by
    Player.makeGuess (src/game/player.ts:22-216) and its older inline copy
    Game.handleGuesses (src/game/game.ts:84-276). Each listener and timer of
    the source is a method here, run to completion one at a time; the emitter
    events and socket messages it produces are returned as effects, and the
    promise's fate is the settle-once `outcome`. */
module Collector {
  import opened Interfaces
  import opened Constants

  /** Which copy of the collector: player.ts accepts early messages and pads a
      disconnect countdown with SHORTENED_TIME_AMEND_MS; the inline copy in
      game.ts rejects messages before the round starts and pads it with
      SHORTENED_TIME_MS. */
  datatype Variant = PlayerCollector | InlineCollector

  /** The pending `currentTimeout`: none (cleared or fired), the original round
      timer, or the one changeCountdown installed; each with its due time. */
  datatype Timer = NoTimer | Original(due: int) | Shortened(due: int)

  /** The guess a message submits, if the try block accepts it: a decoded
      request for "submitGuess" from this participant whose guess is an
      integer in [0, 100]. */
  function AcceptedGuess(msg: Incoming, pid: Id): (r: Option<int>)
    ensures r.Some? <==>
              msg.Decoded? && msg.req.methodName == "submitGuess" && msg.req.id == pid &&
              msg.req.guess.Some? && 0 <= msg.req.guess.value <= 100
    ensures r.Some? ==> r == msg.req.guess && 0 <= r.value <= 100
  {
    match msg
    case Undecodable => None
    case Decoded(req) =>
      if req.methodName != "submitGuess" then None
      else if req.id != pid then None
      else if req.guess.None? || !(0 <= req.guess.value <= 100) then None
      else req.guess
  }

  /** The padding of a disconnect countdown for each copy of the collector. */
  function AmendMs(variant: Variant, timing: Timing): int {
    if variant.PlayerCollector? then timing.amendMs else SHORTENED_TIME_MS
  }

  /** changeCountdown's `endTime` for an event at time t. */
  function CountdownEnd(reason: CountdownReason, t: int, amendMs: int, digestMs: int): int {
    if reason == ParticipantDisconnectedMidgame then amendMs + digestMs + t else SHORTENED_TIME_MS + t
  }

  /** The new internal deadline changeCountdown installs, or None when it
      leaves the original one: "all decided" may only bring the deadline
      forward, a disconnect may only push it back. */
  function Adjust(reason: CountdownReason, t: int, origEnd: int, amendMs: int, digestMs: int): (r: Option<int>)
    ensures r.Some? ==> r.value == CountdownEnd(reason, t, amendMs, digestMs) + NETWORK_DELAY_MS
    ensures reason == AllDecided ==>
              (r.Some? <==> t + SHORTENED_TIME_MS + NETWORK_DELAY_MS <= origEnd) &&
              (r.Some? ==> r.value <= origEnd)
    ensures reason == ParticipantDisconnectedMidgame ==>
              (r.Some? <==> t + amendMs + digestMs + NETWORK_DELAY_MS >= origEnd) &&
              (r.Some? ==> r.value >= origEnd)
  {
    var internalEnd := CountdownEnd(reason, t, amendMs, digestMs) + NETWORK_DELAY_MS;
    if reason == AllDecided && internalEnd > origEnd then None
    else if reason == ParticipantDisconnectedMidgame && internalEnd < origEnd then None
    else Some(internalEnd)
  }

  /** The changeCountdown message sent at time `now` for an event at time t:
      a disconnect countdown also says when the next digest starts. */
  function CountdownMessage(reason: CountdownReason, t: int, now: int, amendMs: int, digestMs: int): ChangeCountdown {
    ChangeCountdown(reason,
                    if reason == ParticipantDisconnectedMidgame then Some(t + digestMs - now) else None,
                    CountdownEnd(reason, t, amendMs, digestMs) - now)
  }

  /** What errorWrapper emits: the transport is closed and, without a guess,
      every participant and sibling collector is told of the disconnection. */
  function ErrorEffects(myGuess: Option<int>, pid: Id, now: int): seq<Effect> {
    if myGuess.Some? then [CloseTransport]
    else [CloseTransport, BroadcastDisconnected(pid), EmitDisconnected(pid, now)]
  }

  /** How errorWrapper settles: with the recorded guess and stillAlive false,
      or rejected with the participant's id. */
  function ErrorOutcome(myGuess: Option<int>, pid: Id): Outcome {
    if myGuess.Some? then Resolved(myGuess, false) else Failed(pid)
  }

  /** The first settlement of a promise wins; later ones are ignored. */
  function Settle(current: Outcome, next: Outcome): (r: Outcome)
    ensures current.Pending? ==> r == next
    ensures !current.Pending? ==> r == current
  {
    if current.Pending? then next else current
  }

  class RoundCollector {
    const variant: Variant
    const pid: Id
    const roundStartTime: int
    /** The alive count captured when the collector was created. */
    const aliveCount: nat
    const timing: Timing
    /** internalOrigEndTime: the round's end plus the network allowance. */
    const origEnd: int

    var myGuess: Option<int>
    var numDecided: nat
    var numDisconnected: nat
    var hasShortenedCountdown: bool
    var timer: Timer
    /** The socket and emitter listeners are still attached. */
    var listening: bool
    var outcome: Outcome

    /** How many firstDecision events this collector has emitted. */
    ghost var firstDecisions: nat
    /** How many times changeCountdown has been called. */
    ghost var countdownAttempts: nat
    /** The reason of the countdown change that took effect, if any. */
    ghost var adjustedFor: Option<CountdownReason>

    /** The listeners are attached exactly while the promise is pending; a
        recorded guess is in range; firstDecision is emitted once, with the
        first guess; changeCountdown is attempted once, when the decided count
        reaches the captured alive count; a changed deadline is no later than
        the original for "all decided" and no earlier for a disconnect. */
    ghost predicate Valid()
      reads this
    {
      Core() && countdownAttempts == (if 1 <= aliveCount <= numDecided then 1 else 0)
    }

    /** Valid() without the tie between the decided count and the countdown,
        which holds again once a listener has finished. */
    ghost predicate Core()
      reads this
    {
      (listening <==> outcome.Pending?) &&
      origEnd == roundStartTime + ROUND_TIME_MS + NETWORK_DELAY_MS &&
      (myGuess.Some? ==> 0 <= myGuess.value <= 100) &&
      numDisconnected <= numDecided &&
      firstDecisions == (if myGuess.Some? then 1 else 0) &&
      countdownAttempts <= 1 &&
      (hasShortenedCountdown <==> adjustedFor.Some?) &&
      (hasShortenedCountdown ==> countdownAttempts == 1) &&
      (timer.Shortened? ==>
         adjustedFor.Some? &&
         (adjustedFor.value == AllDecided ==> timer.due <= origEnd) &&
         (adjustedFor.value == ParticipantDisconnectedMidgame ==> timer.due >= origEnd))
    }

    /** The deadline changeCountdown installs for an event at time t, or None
        when it keeps the current one. */
    function Due(reason: CountdownReason, t: int): Option<int> {
      Adjust(reason, t, origEnd, AmendMs(variant, timing), timing.digestMs)
    }

    /** What changeCountdown sends at time `now`: the changeCountdown message
        when the deadline moves, nothing otherwise. */
    function Notice(reason: CountdownReason, t: int, now: int): seq<Effect> {
      if Due(reason, t).None? then []
      else [SendCountdown(CountdownMessage(reason, t, now, AmendMs(variant, timing), timing.digestMs))]
    }

    /** The timer and flag after changeCountdown for an event at time t, given
        their values before it: replaced by the shortened timer when the
        deadline moves, kept otherwise. */
    ghost predicate CountedDown(reason: CountdownReason, t: int, before: Timer, wasShortened: bool)
      reads this
    {
      if Due(reason, t).None? then timer == before && hasShortenedCountdown == wasShortened
      else timer == Shortened(Due(reason, t).value) && hasShortenedCountdown
    }

    /** The collector as makeGuess/handleGuesses sets it up: listeners
        attached, nothing decided, the original round timer pending. */
    constructor(variant: Variant, pid: Id, roundStartTime: int, aliveCount: nat, timing: Timing)
      ensures Valid()
      ensures this.variant == variant && this.pid == pid && this.roundStartTime == roundStartTime
      ensures this.aliveCount == aliveCount && this.timing == timing
      ensures myGuess.None? && numDecided == 0 && numDisconnected == 0 && !hasShortenedCountdown
      ensures listening && outcome.Pending? && timer == Original(origEnd)
    {
      this.variant := variant;
      this.pid := pid;
      this.roundStartTime := roundStartTime;
      this.aliveCount := aliveCount;
      this.timing := timing;
      this.origEnd := roundStartTime + ROUND_TIME_MS + NETWORK_DELAY_MS;
      myGuess := None;
      numDecided := 0;
      numDisconnected := 0;
      hasShortenedCountdown := false;
      timer := Original(roundStartTime + ROUND_TIME_MS + NETWORK_DELAY_MS);
      listening := true;
      outcome := Pending;
      firstDecisions := 0;
      countdownAttempts := 0;
      adjustedFor := None;
    }

    /** errorWrapper: detach, clear the timer, close the transport and settle
        with the recorded guess, or announce the disconnection and reject. */
    method ErrorWrapper(now: int) returns (effects: seq<Effect>)
      requires listening <==> outcome.Pending?
      modifies this
      ensures listening <==> outcome.Pending?
      ensures effects == ErrorEffects(myGuess, pid, now)
      ensures !listening && timer == NoTimer
      ensures outcome == Settle(old(outcome), ErrorOutcome(myGuess, pid))
      ensures myGuess == old(myGuess) && numDecided == old(numDecided) && numDisconnected == old(numDisconnected)
      ensures hasShortenedCountdown == old(hasShortenedCountdown)
      ensures firstDecisions == old(firstDecisions) && countdownAttempts == old(countdownAttempts)
      ensures adjustedFor == old(adjustedFor)
    {
      listening := false;
      timer := NoTimer;
      outcome := Settle(outcome, ErrorOutcome(myGuess, pid));
      effects := ErrorEffects(myGuess, pid, now);
    }

    /** successWrapper: detach and resolve. It leaves the timer pending. */
    method SuccessWrapper(res: Outcome)
      requires (listening <==> outcome.Pending?) && !res.Pending?
      modifies this
      ensures listening <==> outcome.Pending?
      ensures !listening && outcome == Settle(old(outcome), res)
      ensures myGuess == old(myGuess) && numDecided == old(numDecided) && numDisconnected == old(numDisconnected)
      ensures hasShortenedCountdown == old(hasShortenedCountdown) && timer == old(timer)
      ensures firstDecisions == old(firstDecisions) && countdownAttempts == old(countdownAttempts)
      ensures adjustedFor == old(adjustedFor)
    {
      listening := false;
      outcome := Settle(outcome, res);
    }

    /** changeCountdown, called once the decided count reaches the alive count:
        when Adjust accepts, the client is told and the timer is replaced. */
    method ChangeCountdown(t: int, reason: CountdownReason, now: int) returns (effects: seq<Effect>)
      requires Core() && countdownAttempts == 0 && 1 <= aliveCount == numDecided
      modifies this
      ensures Valid()
      ensures countdownAttempts == 1
      ensures effects == Notice(reason, t, now)
      ensures CountedDown(reason, t, old(timer), old(hasShortenedCountdown))
      ensures myGuess == old(myGuess) && numDecided == old(numDecided) && numDisconnected == old(numDisconnected)
      ensures listening == old(listening) && outcome == old(outcome) && firstDecisions == old(firstDecisions)
    {
      countdownAttempts := 1;
      var due := Due(reason, t);
      if due.None? {
        return [];
      }
      hasShortenedCountdown := true;
      adjustedFor := Some(reason);
      effects := [SendCountdown(CountdownMessage(reason, t, now, AmendMs(variant, timing), timing.digestMs))];
      timer := Shortened(due.value);
    }

    /** The onFirstDecision listener: one more participant has decided. */
    method OnFirstDecision(t: int, now: int) returns (effects: seq<Effect>)
      requires Valid() && listening
      modifies this
      ensures Valid()
      ensures numDecided == old(numDecided) + 1 && numDisconnected == old(numDisconnected)
      ensures countdownAttempts == (if numDecided == aliveCount then 1 else old(countdownAttempts))
      ensures numDecided == aliveCount ==>
                effects == Notice(AllDecided, t, now) &&
                CountedDown(AllDecided, t, old(timer), old(hasShortenedCountdown))
      ensures numDecided != aliveCount ==>
                effects == [] && timer == old(timer) && hasShortenedCountdown == old(hasShortenedCountdown)
      ensures myGuess == old(myGuess) && listening && outcome == old(outcome) && firstDecisions == old(firstDecisions)
    {
      numDecided := numDecided + 1;
      effects := [];
      if numDecided == aliveCount {
        effects := ChangeCountdown(t, AllDecided, now);
      }
    }

    /** A sibling's firstDecision event, delivered while the listener is on. */
    method SiblingFirstDecision(t: int, now: int) returns (effects: seq<Effect>)
      requires Valid()
      modifies this
      ensures Valid()
      ensures !old(listening) ==> effects == [] && numDecided == old(numDecided) && timer == old(timer)
      ensures old(listening) ==> numDecided == old(numDecided) + 1
      ensures old(listening) && numDecided == aliveCount ==>
                effects == Notice(AllDecided, t, now) &&
                CountedDown(AllDecided, t, old(timer), old(hasShortenedCountdown))
      ensures old(listening) && numDecided != aliveCount ==>
                effects == [] && timer == old(timer) && hasShortenedCountdown == old(hasShortenedCountdown)
      ensures numDisconnected == old(numDisconnected) && myGuess == old(myGuess)
      ensures listening == old(listening) && outcome == old(outcome)
    {
      if !listening {
        return [];
      }
      effects := OnFirstDecision(t, now);
    }

    /** A message on the socket. Inline copy only: a message before the round
        starts takes the error path and is not acknowledged. Otherwise an
        accepted guess is recorded, the first one announced with a
        firstDecision event that also reaches this collector's own listener;
        anything else takes the error path; then the client is acknowledged. */
    method Message(msg: Incoming, now: int) returns (effects: seq<Effect>)
      requires Valid()
      modifies this
      ensures Valid()
      ensures outcome == old(outcome) || old(outcome).Pending?
      ensures !old(listening) ==> effects == [] && myGuess == old(myGuess) && numDecided == old(numDecided)
      ensures old(listening) && variant == InlineCollector && now < roundStartTime ==>
                effects == ErrorEffects(old(myGuess), pid, now) && !listening &&
                outcome == ErrorOutcome(old(myGuess), pid) && myGuess == old(myGuess)
      ensures old(listening) && !(variant == InlineCollector && now < roundStartTime) ==>
                var g := AcceptedGuess(msg, pid);
                |effects| > 0 && effects[|effects| - 1] == SendAck &&
                (g.None? ==>
                   effects == ErrorEffects(old(myGuess), pid, now) + [SendAck] && !listening &&
                   outcome == ErrorOutcome(old(myGuess), pid) && myGuess == old(myGuess)) &&
                (g.Some? ==> myGuess == g && listening && outcome.Pending?) &&
                (g.Some? && old(myGuess).None? ==>
                   numDecided == old(numDecided) + 1 &&
                   (numDecided == aliveCount ==>
                      effects == [EmitFirstDecision(pid, now)] + Notice(AllDecided, now, now) + [SendAck] &&
                      CountedDown(AllDecided, now, old(timer), old(hasShortenedCountdown))) &&
                   (numDecided != aliveCount ==>
                      effects == [EmitFirstDecision(pid, now), SendAck] &&
                      timer == old(timer) && hasShortenedCountdown == old(hasShortenedCountdown))) &&
                (g.Some? && old(myGuess).Some? ==> effects == [SendAck] && numDecided == old(numDecided))
    {
      if !listening {
        return [];
      }
      if variant == InlineCollector && now < roundStartTime {
        effects := ErrorWrapper(now);
        return;
      }
      var g := AcceptedGuess(msg, pid);
      if g.Some? {
        effects := [];
        var first := myGuess.None?;
        if first {
          var own := OnFirstDecision(now, now);
          effects := [EmitFirstDecision(pid, now)] + own;
        }
        myGuess := g;
        if first {
          firstDecisions := firstDecisions + 1;
        }
      } else {
        effects := ErrorWrapper(now);
      }
      effects := effects + [SendAck];
    }

    /** The socket's close or error event: the error path. */
    method Close(now: int) returns (effects: seq<Effect>)
      requires Valid()
      modifies this
      ensures Valid()
      ensures !old(listening) ==> effects == [] && outcome == old(outcome) && listening == old(listening)
      ensures old(listening) ==>
                effects == ErrorEffects(myGuess, pid, now) && !listening && timer == NoTimer &&
                outcome == ErrorOutcome(myGuess, pid)
      ensures myGuess == old(myGuess) && numDecided == old(numDecided)
    {
      if !listening {
        return [];
      }
      effects := ErrorWrapper(now);
    }

    /** A sibling's participantDisconnectedMidgame event. It throws when a
        countdown change already took effect; otherwise it counts a
        disconnection, resolves at once (with the guess or the dummy 0) when
        everyone else has left, and counts a decision. */
    method SiblingDisconnected(t: int, now: int) returns (effects: seq<Effect>)
      requires Valid()
      modifies this
      ensures Valid()
      ensures outcome == old(outcome) || old(outcome).Pending?
      ensures !old(listening) ==> effects == [] && numDecided == old(numDecided) && listening == old(listening)
      ensures old(listening) && old(hasShortenedCountdown) ==>
                effects == [AssertionFailed] && numDecided == old(numDecided) && listening
      ensures old(listening) && !old(hasShortenedCountdown) ==>
                numDisconnected == old(numDisconnected) + 1 && numDecided == old(numDecided) + 1 &&
                (numDisconnected == aliveCount - 1 <==> !listening) &&
                (numDisconnected == aliveCount - 1 ==>
                   outcome == Resolved(if myGuess.Some? then myGuess else Some(0), true))
      ensures old(listening) && !old(hasShortenedCountdown) && numDecided == aliveCount ==>
                effects == Notice(ParticipantDisconnectedMidgame, t, now) &&
                CountedDown(ParticipantDisconnectedMidgame, t, old(timer), old(hasShortenedCountdown))
      ensures old(listening) && !old(hasShortenedCountdown) && numDecided != aliveCount ==>
                effects == [] && timer == old(timer) && hasShortenedCountdown == old(hasShortenedCountdown)
      ensures numDecided != aliveCount ==> timer == old(timer)
      ensures myGuess == old(myGuess)
    {
      if !listening {
        return [];
      }
      if hasShortenedCountdown {
        return [AssertionFailed];
      }
      numDisconnected := numDisconnected + 1;
      if numDisconnected == aliveCount - 1 {
        SuccessWrapper(Resolved(if myGuess.Some? then myGuess else Some(0), true));
      }
      numDecided := numDecided + 1;
      effects := [];
      if numDecided == aliveCount {
        effects := ChangeCountdown(t, ParticipantDisconnectedMidgame, now);
      }
    }

    /** The original round timer fires (unless it was cleared): success if
        this participant guessed and everyone decided, the error path if it
        did not guess, nothing otherwise. It can fire after the promise
        settled, which then stays as it was. */
    method Timeout(now: int) returns (effects: seq<Effect>)
      requires Valid()
      modifies this
      ensures Valid()
      ensures outcome == old(outcome) || old(outcome).Pending?
      ensures !old(timer).Original? ==> effects == [] && timer == old(timer) && outcome == old(outcome)
      ensures old(timer).Original? && myGuess.Some? && numDecided == aliveCount ==>
                effects == [] && outcome == Settle(old(outcome), Resolved(myGuess, true)) && !listening
      ensures old(timer).Original? && myGuess.None? ==>
                effects == ErrorEffects(myGuess, pid, now) && outcome == Settle(old(outcome), Failed(pid)) && !listening
      ensures old(timer).Original? && myGuess.Some? && numDecided != aliveCount ==>
                effects == [] && outcome == old(outcome) && listening == old(listening)
      ensures old(timer).Original? ==> timer == NoTimer
      ensures myGuess == old(myGuess) && numDecided == old(numDecided)
    {
      if !timer.Original? {
        return [];
      }
      timer := NoTimer;
      effects := [];
      if myGuess.Some? && numDecided == aliveCount {
        SuccessWrapper(Resolved(myGuess, true));
      } else if myGuess.None? {
        effects := ErrorWrapper(now);
      }
    }

    /** The timer changeCountdown installed fires: resolve with whatever guess
        there is (possibly none) and stillAlive true. */
    method ShortenedTimeout()
      requires Valid()
      modifies this
      ensures Valid()
      ensures !old(timer).Shortened? ==> outcome == old(outcome) && timer == old(timer)
      ensures old(timer).Shortened? ==>
                outcome == Settle(old(outcome), Resolved(myGuess, true)) && !listening && timer == NoTimer
      ensures myGuess == old(myGuess) && numDecided == old(numDecided)
    {
      if timer.Shortened? {
        timer := NoTimer;
        SuccessWrapper(Resolved(myGuess, true));
      }
    }
  }

  /** In a duel where this participant guesses at the start of the round and
      the other decides a moment later, the countdown is cut to
      SHORTENED_TIME_MS after that second decision and the client is told. */
  method BothDecideEarly(pid: Id, roundStartTime: int, timing: Timing, g: int)
    returns (timer: Timer, effects: seq<Effect>)
    requires 0 <= g <= 100
    ensures timer == Shortened(roundStartTime + 1 + SHORTENED_TIME_MS + NETWORK_DELAY_MS)
    ensures effects == [SendCountdown(ChangeCountdown(AllDecided, None, SHORTENED_TIME_MS))]
  {
    var c := new RoundCollector(PlayerCollector, pid, roundStartTime, 2, timing);
    var _ := c.Message(Decoded(Req("submitGuess", pid, Some(g), "")), roundStartTime);
    effects := c.SiblingFirstDecision(roundStartTime + 1, roundStartTime + 1);
    timer := c.timer;
  }

  /** successWrapper leaves the round timer pending. In a duel whose other
      participant leaves first, the collector resolves at once with the dummy
      guess 0; when the original timer later fires without a guess, it still
      takes the error path: handleClose runs on the transport (marking this
      participant dead once the game has started), the socket is closed and a
      disconnection is announced, while the settled outcome stays as it was. */
  method StaleTimerAfterDummyGuess(pid: Id, roundStartTime: int, timing: Timing, t: int, later: int)
    returns (outcome: Outcome, lateEffects: seq<Effect>)
    ensures outcome == Resolved(Some(0), true)
    ensures lateEffects == [CloseTransport, BroadcastDisconnected(pid), EmitDisconnected(pid, later)]
  {
    var c := new RoundCollector(PlayerCollector, pid, roundStartTime, 2, timing);
    var _ := c.SiblingDisconnected(t, t);
    lateEffects := c.Timeout(later);
    outcome := c.outcome;
  }
}
