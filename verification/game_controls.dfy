/**
 * The control bar: the urgency style of the countdown display, the label of
 * the reset button and the status indicator, each a function of whether the
 * game is active, whether it is completed and the seconds left.
 */
module GameControls {
  import TypingGame

  datatype TimerStyle = Urgent | Running | Muted

  datatype ButtonLabel = PlayAgain | Restart | StartGame

  datatype Indicator = GameActive | Complete | ReadyToStart

  /** Urgent in the last ten seconds of an active game; completion plays no part. */
  function TimerStyleOf(gameActive: bool, timeLeft: int): (st: TimerStyle)
    ensures st == Urgent <==> gameActive && timeLeft <= 10
    ensures st == Running <==> gameActive && timeLeft > 10
    ensures st == Muted <==> !gameActive
  {
    if timeLeft <= 10 && gameActive then Urgent
    else if gameActive then Running
    else Muted
  }

  /** Completion decides first, so a completed game offers to play again whatever `gameActive` says. */
  function ResetButtonLabel(gameActive: bool, gameCompleted: bool): (b: ButtonLabel)
    ensures b == PlayAgain <==> gameCompleted
    ensures b == Restart <==> gameActive && !gameCompleted
    ensures b == StartGame <==> !gameActive && !gameCompleted
  {
    if gameCompleted then PlayAgain
    else if gameActive then Restart
    else StartGame
  }

  /** The indicators shown, in display order; the three conditions are evaluated independently. */
  function StatusIndicators(gameActive: bool, gameCompleted: bool): (shown: seq<Indicator>)
    ensures |shown| == 1
    ensures shown[0] == GameActive <==> gameActive && !gameCompleted
    ensures shown[0] == Complete <==> gameCompleted
    ensures shown[0] == ReadyToStart <==> !gameActive && !gameCompleted
  {
    (if gameActive && !gameCompleted then [GameActive] else [])
    + (if gameCompleted then [Complete] else [])
    + (if !gameActive && !gameCompleted then [ReadyToStart] else [])
  }

  /**
   * On a valid game state the controls agree with one another: the timer is
   * urgent only while the game runs, the button and the indicator name the
   * same phase, and a timed-out game shows a muted zero.
   */
  lemma ControlsAgreeOnPhase(s: TypingGame.GameState)
    requires TypingGame.Valid(s)
    ensures var button := ResetButtonLabel(s.isActive, s.isCompleted);
            var shown := StatusIndicators(s.isActive, s.isCompleted)[0];
            && (button == PlayAgain <==> shown == Complete)
            && (button == Restart <==> shown == GameActive)
            && (button == StartGame <==> shown == ReadyToStart)
            && (TimerStyleOf(s.isActive, s.timeLeft) != Muted ==> button == Restart)
            && (s.timeLeft == 0 ==> TimerStyleOf(s.isActive, s.timeLeft) == Muted && button == PlayAgain)
  {
  }
}
