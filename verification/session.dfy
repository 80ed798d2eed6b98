/**
 * Sessions as sequences of events fed to the engine: input changes (with the
 * clock reading at that moment), countdown ticks and resets (with the drawn
 * pool index). Properties that hold for every reachable state are proved
 * here by induction over such runs.
 */
module Session {
  import opened TypingGame

  datatype Event =
    | Input(value: string, now: Instant)
    | TickEvent
    | ResetEvent(index: nat)

  /** One event applied to a state. A reset index outside the pool is ignored. */
  function Step(s: GameState, e: Event): (r: GameState)
    ensures Valid(s) ==> Valid(r)
    ensures e.ResetEvent? && e.index < |SampleSentences| ==> r.IsIdle() && r.userInput == []
    ensures e.ResetEvent? && e.index >= |SampleSentences| ==> r == s
  {
    match e
    case Input(value, now) => Submit(s, value, now)
    case TickEvent => Tick(s)
    case ResetEvent(index) => if index < |SampleSentences| then Reset(index) else s
  }

  function Run(s: GameState, events: seq<Event>): GameState
    decreases |events|
  {
    if |events| == 0 then s else Run(Step(s, events[0]), events[1..])
  }

  /** `n` countdown ticks in a row. */
  function Ticks(s: GameState, n: nat): GameState
    decreases n
  {
    if n == 0 then s else Ticks(Tick(s), n - 1)
  }

  lemma {:induction false} RunPreservesValid(s: GameState, events: seq<Event>)
    requires Valid(s)
    ensures Valid(Run(s, events))
    decreases |events|
  {
    if |events| > 0 {
      RunPreservesValid(Step(s, events[0]), events[1..]);
    }
  }

  /**
   * Every state reachable from the initial one keeps the invariant, and its
   * statistics are in range: accuracy within [0, 100], a non-negative rate and
   * an elapsed time between 0 and 60 seconds; a game that has not started
   * reports no elapsed time, a rate of 0 and perfect accuracy.
   */
  lemma ReachableStatsInRange(events: seq<Event>)
    ensures Valid(Run(Initial(), events))
    ensures StatsInRange(Run(Initial(), events))
  {
    RunPreservesValid(Initial(), events);
    ValidStatsInRange(Run(Initial(), events));
  }

  ghost predicate StatsInRange(s: GameState)
  {
    var st := CurrentStats(s);
    && 0.0 <= st.accuracy <= 100.0
    && st.wpm >= 0.0
    && 0 <= st.timeElapsed <= SessionSeconds
    && st.correctChars <= st.totalChars
    && (s.IsIdle() ==> st.timeElapsed == 0 && st.wpm == 0.0 && st.accuracy == 100.0)
  }

  lemma ValidStatsInRange(s: GameState)
    requires Valid(s)
    ensures StatsInRange(s)
  {
  }

  /** Events that leave out resets. */
  predicate NoResets(events: seq<Event>)
  {
    forall i :: 0 <= i < |events| ==> !events[i].ResetEvent?
  }

  /**
   * A game activated by an empty input, without a start time and without an
   * armed countdown, never gets either until the next reset: later inputs do
   * not start the timer, the clock stays at 60 seconds and the rate stays 0.
   */
  lemma {:induction false} UnstartedGameStaysUntimed(s: GameState, events: seq<Event>)
    requires Valid(s) && !s.IsIdle() && s.startTime.None?
    requires NoResets(events)
    ensures var r := Run(s, events);
            && Valid(r) && !r.IsIdle() && !r.armed && r.startTime.None?
            && r.timeLeft == SessionSeconds
            && CurrentStats(r).wpm == 0.0
    decreases |events|
  {
    if |events| > 0 {
      assert NoResets(events[1..]) by {
        forall i | 0 <= i < |events[1..]|
          ensures !events[1..][i].ResetEvent?
        {
          assert events[1..][i] == events[i + 1];
        }
      }
      assert !events[0].ResetEvent?;
      UnstartedGameStaysUntimed(Step(s, events[0]), events[1..]);
    }
  }

  /** An empty input while idle activates the game without starting the timer. */
  lemma EmptyInputActivatesUntimed(s: GameState, now: Instant)
    requires Valid(s) && s.IsIdle()
    ensures var r := Submit(s, "", now);
            && r.isActive && !r.armed && r.startTime.None? && r.userInput == []
  {
  }

  /**
   * A running countdown with `t` seconds left stays active for the first
   * `t - 1` ticks, one second fewer each time, and completes at exactly the
   * `t`-th tick with the typed text untouched.
   */
  lemma {:induction false} CountdownCompletesExactly(s: GameState, n: nat)
    requires Valid(s) && s.isActive && s.armed
    ensures n < s.timeLeft ==>
              Ticks(s, n).isActive && Ticks(s, n).timeLeft == s.timeLeft - n
    ensures n >= s.timeLeft ==>
              && Ticks(s, n).isCompleted && !Ticks(s, n).isActive
              && Ticks(s, n).timeLeft == 0
    ensures Valid(Ticks(s, n)) && Ticks(s, n).userInput == s.userInput
    decreases n
  {
    if n > 0 {
      var t := Tick(s);
      if t.isActive {
        CountdownCompletesExactly(t, n - 1);
      } else {
        TimedOutStaysPut(t, n - 1);
      }
    }
  }

  /** Ticks after a timeout leave the state unchanged. */
  lemma {:induction false} TimedOutStaysPut(s: GameState, n: nat)
    requires Valid(s) && s.isCompleted
    ensures Ticks(s, n) == s
    decreases n
  {
    if n > 0 {
      CompletedIsFrozen(s, "", 1);
      TimedOutStaysPut(Tick(s), n - 1);
    }
  }

  /**
   * A typical game: the first character starts the countdown, ten ticks take
   * ten seconds off, and typing the whole sentence completes the game at
   * once with every character correct and perfect accuracy.
   */
  lemma TypedCompletionScenario(index: nat, now: Instant)
    requires index < |SampleSentences|
    ensures var sentence := SampleSentences[index];
            var s1 := Submit(Reset(index), sentence[..1], now);
            var s2 := Ticks(s1, 10);
            var s3 := Submit(s2, sentence, now);
            && s1.isActive && s1.timeLeft == 60
            && s2.isActive && s2.timeLeft == 50
            && s3.isCompleted && !s3.armed && s3.timeLeft == 50
            && CurrentStats(s3).correctChars == |sentence|
            && CurrentStats(s3).accuracy == 100.0
  {
    var sentence := SampleSentences[index];
    var s1 := Submit(Reset(index), sentence[..1], now);
    CountdownCompletesExactly(s1, 10);
    PerfectAccuracyIffPrefix(Submit(Ticks(s1, 10), sentence, now));
  }

  /** Sixty ticks after the first input end the game, and not one tick earlier. */
  lemma SixtyTicksScenario(index: nat, value: string, now: Instant)
    requires index < |SampleSentences| && |value| > 0
    ensures var s1 := Submit(Reset(index), value, now);
            && Ticks(s1, 59).isActive && Ticks(s1, 59).timeLeft == 1
            && Ticks(s1, 60).isCompleted && Ticks(s1, 60).timeLeft == 0
  {
    var s1 := Submit(Reset(index), value, now);
    CountdownCompletesExactly(s1, 59);
    CountdownCompletesExactly(s1, 60);
  }
}
