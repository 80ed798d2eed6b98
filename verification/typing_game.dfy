/**
 * The typing-session engine: one immutable `GameState` record and the three
 * transitions that change it — submitting a whole new input string, one
 * tick of the once-per-second countdown interval, and resetting the game.
 * Each handler is one atomic step on the current state.
 *
 * The countdown interval is represented by the flag `armed` (an interval is
 * registered). The clock reading taken when the game starts is a parameter
 * `now` of `Submit`.
 */
module TypingGame {
  import opened Wrappers
  import Metrics

  /** Length of a session in seconds. */
  const SessionSeconds: int := 60

  /** A wall-clock reading in milliseconds; positive, so a stored one always reads as set. */
  type Instant = t: int | t > 0 witness 1

  /** The fixed pool of target sentences. */
  const SampleSentences: seq<string> := [
    "The quick brown fox jumps over the lazy dog near the riverbank.",
    "Programming languages like JavaScript and Python make development easier for beginners.",
    "Coffee shops around the world serve millions of cups every single morning.",
    "Mountain hiking requires proper equipment, good weather, and strong determination.",
    "Digital technology continues to transform how we communicate and work together.",
    "Fresh vegetables from the garden taste much better than store-bought produce.",
    "Learning to type faster takes consistent practice and proper finger positioning.",
    "Ocean waves crash against the rocky shore while seabirds circle overhead.",
    "Modern smartphones have become essential tools for daily communication and productivity.",
    "Reading books regularly helps expand vocabulary and improve writing skills significantly."
  ]

  datatype GameState = GameState(
    isActive: bool,
    isCompleted: bool,
    startTime: Option<Instant>,
    timeLeft: int,
    currentSentence: string,
    userInput: string,
    currentIndex: int,
    armed: bool)
  {
    /** Neither running nor finished: the state a reset produces. */
    predicate IsIdle() {
      !isActive && !isCompleted
    }
  }

  /** Statistics derived from a state; nothing of it is stored. */
  datatype Stats = Stats(
    wpm: real,
    accuracy: real,
    correctChars: nat,
    totalChars: nat,
    timeElapsed: int)

  /** A fresh, not yet started game on the given sentence. */
  function NewGame(sentence: string): (s: GameState)
    ensures sentence in SampleSentences ==> Valid(s)
    ensures s.IsIdle() && !s.armed && s.startTime.None?
    ensures s.userInput == [] && s.currentIndex == 0 && s.timeLeft == SessionSeconds
    ensures s.currentSentence == sentence
  {
    GameState(false, false, None, SessionSeconds, sentence, "", 0, false)
  }

  /** The state the page mounts with: the first sentence of the pool. */
  function Initial(): (s: GameState)
    ensures Valid(s) && s.IsIdle() && s.currentSentence == SampleSentences[0]
  {
    NewGame(SampleSentences[0])
  }

  /**
   * The invariant every reachable state keeps. It does NOT say that the input
   * is no longer than the sentence, nor that an empty input means an idle
   * game: the first input and an empty input while idle break both.
   */
  ghost predicate Valid(s: GameState)
  {
    && s.currentSentence in SampleSentences
    && s.currentIndex == |s.userInput|
    && !(s.isActive && s.isCompleted)
    && 0 <= s.timeLeft <= SessionSeconds
    && (s.startTime.None? ==> !s.armed && s.timeLeft == SessionSeconds)
    && (s.isActive ==> s.timeLeft > 0)
    && (s.isActive && !s.armed ==> s.startTime.None? && s.timeLeft == SessionSeconds)
    && (s.isCompleted && s.armed ==> s.timeLeft == 0)
    && (s.isCompleted ==> s.userInput == s.currentSentence || s.timeLeft == 0)
    && (s.IsIdle() ==> s.userInput == [] && s.startTime.None? && s.timeLeft == SessionSeconds && !s.armed)
  }

  /**
   * The input-change handler, given the whole new input string and the clock
   * reading. Input after completion is ignored. The first non-empty input of a
   * game that is not active is taken without any length or completion check,
   * starts the game, records the start time and arms the countdown. Otherwise
   * an input longer than the sentence is ignored, and any other input replaces
   * the typed text, completes the game exactly when it equals the sentence,
   * and on completion disarms the countdown.
   */
  function Submit(s: GameState, value: string, now: Instant): (r: GameState)
    ensures Valid(s) ==> Valid(r)
    ensures s.isCompleted ==> r == s
    ensures r.currentSentence == s.currentSentence && r.timeLeft == s.timeLeft
    ensures r == s || (r.userInput == value && r.currentIndex == |value|)
    ensures !s.isCompleted && !s.isActive && |value| > 0 ==>
              && r.isActive && !r.isCompleted && r.userInput == value
              && r.startTime == Some(now) && r.armed
    ensures !s.isCompleted && (s.isActive || |value| == 0) && |value| > |s.currentSentence| ==> r == s
    ensures !s.isCompleted && (s.isActive || |value| == 0) && |value| <= |s.currentSentence| ==>
              && r.userInput == value
              && (r.isCompleted <==> value == s.currentSentence)
              && r.isActive == !r.isCompleted
              && r.startTime == s.startTime
              && (r.armed <==> s.armed && !r.isCompleted)
  {
    if s.isCompleted then s
    else if !s.isActive && |value| > 0 then
      s.(isActive := true, startTime := Some(now), userInput := value,
         currentIndex := |value|, armed := true)
    else if |value| > |s.currentSentence| then s
    else
      var done := value == s.currentSentence;
      s.(userInput := value, currentIndex := |value|, isCompleted := done,
         isActive := !done, armed := s.armed && !done)
  }

  /**
   * One firing of the countdown interval. Nothing fires unless the interval
   * is armed; the callback itself does not look at the phase. It takes one
   * second off, and when that reaches zero or below it clamps the time to 0,
   * completes the game and deactivates it, leaving the interval armed.
   */
  function Tick(s: GameState): (r: GameState)
    ensures Valid(s) ==> Valid(r)
    ensures !s.armed ==> r == s
    ensures r.userInput == s.userInput && r.currentIndex == s.currentIndex
    ensures r.currentSentence == s.currentSentence && r.startTime == s.startTime
    ensures r.armed == s.armed
    ensures s.timeLeft >= 0 ==> 0 <= r.timeLeft <= s.timeLeft
    ensures s.armed && s.timeLeft > 1 ==>
              r.timeLeft == s.timeLeft - 1 && r.isActive == s.isActive && r.isCompleted == s.isCompleted
    ensures s.armed && s.timeLeft <= 1 ==> r.timeLeft == 0 && r.isCompleted && !r.isActive
  {
    if !s.armed then s
    else
      var newTimeLeft := s.timeLeft - 1;
      if newTimeLeft <= 0 then s.(isActive := false, isCompleted := true, timeLeft := 0)
      else s.(timeLeft := newTimeLeft)
  }

  /**
   * Start over: disarm the countdown and begin a fresh idle game on the pool
   * sentence at `index` (`resetGame` draws the index at random). The previous
   * state plays no part.
   */
  function Reset(index: nat): (r: GameState)
    requires index < |SampleSentences|
    ensures Valid(r) && r.IsIdle() && !r.armed
    ensures r.startTime.None? && r.timeLeft == SessionSeconds
    ensures r.userInput == [] && r.currentIndex == 0
    ensures r.currentSentence == SampleSentences[index]
  {
    NewGame(SampleSentences[index])
  }

  /** Elapsed seconds: derived from the countdown once a start time is recorded, else 0. */
  function TimeElapsed(s: GameState): (e: int)
    ensures s.startTime.None? ==> e == 0
    ensures s.startTime.Some? ==> e + s.timeLeft == SessionSeconds
    ensures Valid(s) ==> e == SessionSeconds - s.timeLeft && 0 <= e <= SessionSeconds
  {
    if s.startTime.Some? then SessionSeconds - s.timeLeft else 0
  }

  /** The live statistics of a state. */
  function CurrentStats(s: GameState): (st: Stats)
    ensures st.totalChars == |s.userInput|
    ensures st.correctChars == Metrics.CorrectCount(s.userInput, s.currentSentence)
    ensures st.correctChars <= st.totalChars && st.correctChars <= |s.currentSentence|
    ensures st.timeElapsed == TimeElapsed(s)
    ensures 0.0 <= st.accuracy <= 100.0
    ensures st.totalChars == 0 ==> st.accuracy == 100.0
    ensures st.timeElapsed == 0 ==> st.wpm == 0.0
    ensures s.timeLeft <= SessionSeconds ==> st.wpm >= 0.0
  {
    var correctChars := Metrics.CorrectCount(s.userInput, s.currentSentence);
    var timeElapsed := TimeElapsed(s);
    Stats(
      Metrics.Wpm(correctChars, timeElapsed),
      Metrics.Accuracy(correctChars, |s.userInput|),
      correctChars,
      |s.userInput|,
      timeElapsed)
  }

  /** Accuracy is perfect exactly when the typed text is a prefix of the sentence. */
  lemma PerfectAccuracyIffPrefix(s: GameState)
    ensures CurrentStats(s).accuracy == 100.0 <==> s.userInput <= s.currentSentence
  {
    Metrics.AllCorrectIffPrefix(s.userInput, s.currentSentence);
  }

  /** Once completed, input and ticks change nothing at all. */
  lemma CompletedIsFrozen(s: GameState, value: string, now: Instant)
    requires Valid(s) && s.isCompleted
    ensures Submit(s, value, now) == s
    ensures Tick(s) == s
  {
  }

  /** In a valid state the countdown can only be at zero after the game completed. */
  lemma ZeroTimeMeansCompleted(s: GameState)
    requires Valid(s) && s.timeLeft == 0
    ensures s.isCompleted && !s.isActive
  {
  }

  /**
   * An active game whose input already equals the sentence (possible after a
   * first input that was the whole sentence) is not completed yet. It
   * completes on the next input that still equals the sentence, even when
   * that input repeats the held value; any other input leaves it active.
   */
  lemma MatchCompletesOnNextSubmit(s: GameState, value: string, now: Instant)
    requires Valid(s) && s.isActive && s.userInput == s.currentSentence
    ensures Submit(s, s.userInput, now).isCompleted
    ensures !Submit(s, s.userInput, now).armed
    ensures Submit(s, value, now).isCompleted <==> value == s.currentSentence
    ensures value != s.currentSentence ==> Submit(s, value, now).isActive
  {
  }

  /**
   * After the countdown ran out the interval stays armed; every further tick
   * clamps the time to zero again and leaves the state as it is.
   */
  lemma TimeoutLeavesTimerArmed(s: GameState)
    requires Valid(s) && s.isActive && s.armed && s.timeLeft == 1
    ensures Tick(s).isCompleted && Tick(s).armed && Tick(s).timeLeft == 0
    ensures Tick(Tick(s)) == Tick(s)
  {
  }
}
