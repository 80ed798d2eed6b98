# TypeSprint typing-session engine in Dafny

TypeSprint is a 60-second typing test. The user retypes a sentence from a
fixed pool. While they type, the game scores the attempt: correct
characters, accuracy and words per minute. When the whole sentence is typed,
or when the countdown runs out, it shows a summary.

This project models the session engine of the `TypingGame` component:
- the immutable `GameState` record;
- its three transitions: a new input string (`Submit`), one firing of the
  countdown interval (`Tick`) and `Reset`;
- the metrics computed from a state.

It also models the pure classifications that three view components make from
that state:
- the per-character highlighting of `TypingDisplay`;
- the timer style, button label and status indicator of `GameControls`;
- the performance tier and incorrect-character count of `ResultsModal`.

Modules:
- `Wrappers`: `Option`, used for the nullable start time.
- `Metrics`: the correct-character count, accuracy and WPM. It gives a
  recursive definition, a reference definition as a set of agreeing
  positions, and the counting loop of `countCorrectCharacters` as a method.
- `TypingGame`: the sentence pool, `GameState`, `Submit`, `Tick`, `Reset`,
  `CurrentStats` and the invariant `Valid` that every reachable state keeps.
  `Valid` says:
  - the sentence is one of the pool;
  - the cursor index equals the input length;
  - the game is never active and completed at once;
  - the time left is within [0, 60];
  - without a start time, the countdown is unarmed and at 60;
  - an active game has time left;
  - an active game with an unarmed countdown has no start time and 60 seconds;
  - a completed game with an armed countdown has 0 seconds;
  - a completed game holds the sentence or has timed out;
  - an idle game is pristine.
- `Session`: runs of events (inputs, ticks, resets) and the properties that
  hold for every reachable state, proved by induction over runs.
- `TypingDisplay`, `GameControls`, `ResultsModal`: the view classifications.

The model follows the code as written, including these quirks:
- The first non-empty input of a game that is not active is stored without a
  length check or a completion check. A first input longer than the sentence
  is kept. A first input equal to the sentence leaves the game active.
- An empty input while idle sets the game active, but it does not arm the
  countdown or record a start time. Later inputs never start the timer, so
  the clock stays at 60 and the WPM stays 0 until a reset
  (`Session.UnstartedGameStaysUntimed`).
- The countdown callback does not check the phase. After a timeout the
  interval stays armed, and each further firing clamps the time to 0 again,
  which leaves the state unchanged (`TypingGame.TimeoutLeavesTimerArmed`).

Some comments in `TypingGame.tsx` promise more than its code does. The model
follows the code:
- TypingGame.tsx:183 says no input is taken unless the game is active. Yet an
  empty input while idle falls through to lines 205-213 and activates the
  game. So an empty input can belong to an active game; the model proves only
  that an idle game has an empty input.
- TypingGame.tsx:199 says no input beyond the sentence length is allowed. Yet
  the first input is not length-checked (lines 187-196), so the typed text
  can be longer than the sentence.
- A first input equal to the sentence is not checked for completion (lines
  187-196). An active game can therefore hold the exact sentence. It
  completes on the next input that still equals the sentence; any other input
  leaves it active (`TypingGame.MatchCompletesOnNextSubmit`). Completion does
  imply that the input equals the sentence or that the time is 0, and time 0
  implies completion.
- Only a typed completion calls `stopTimer` (lines 216-218). A timeout leaves
  the interval armed.

## Model

| member | source | states |
|---|---|---|
| Metrics.MatchesBelow | client/src/components/TypingGame.tsx:84-92 | the number of agreeing positions below n is at most n |
| Metrics.CorrectCount | client/src/components/TypingGame.tsx:84-92 | the correct count is at most the length of the input and at most the length of the target |
| Metrics.CorrectCountIsMatchSetSize | client/src/components/TypingGame.tsx:84-92 | the correct count is the number of positions i below min(len input, len target) where input[i] == target[i] |
| Metrics.AllCorrectIffPrefix | client/src/components/TypingGame.tsx:84-92 | every typed character is correct exactly when the input is a prefix of the target |
| Metrics.CountCorrectCharacters | client/src/components/TypingGame.tsx:84-92 | the counting loop over the common length returns the correct count |
| Metrics.Accuracy | client/src/components/TypingGame.tsx:76-79 | 100 for an empty input; within [0, 100] when correct <= total; 100 exactly when every character is correct; 0 when none is |
| Metrics.Wpm | client/src/components/TypingGame.tsx:66-70 | 0 when no time has elapsed, else 12 correct characters per elapsed second; never negative for non-negative elapsed time |
| Metrics.WpmMonotone | client/src/components/TypingGame.tsx:66-70 | more correct characters in the same time never give a lower WPM |
| TypingGame.NewGame | client/src/components/TypingGame.tsx:161-169 | a fresh game on any pool sentence satisfies the invariant; it is idle and unarmed, with no start time, empty input, cursor 0 and 60 seconds |
| TypingGame.Initial | client/src/components/TypingGame.tsx:45-53 | the mounted game is idle on the first pool sentence and satisfies the invariant |
| TypingGame.Submit | client/src/components/TypingGame.tsx:182-219 | keeps the invariant; input after completion is ignored; the first non-empty input of an inactive game is taken unchecked and starts and arms the game; otherwise an over-long input is ignored, any other replaces the text, completes iff it equals the sentence and disarms on completion; sentence and clock never change |
| TypingGame.Tick | client/src/components/TypingGame.tsx:120-138 | keeps the invariant; nothing happens unless armed; the time never increases or goes negative; it drops by exactly one, or, once that would reach 0, clamps to 0 and completes the game; typed text, sentence and start time are unchanged |
| TypingGame.Reset | client/src/components/TypingGame.tsx:155-169 | reset gives a valid idle, unarmed game on the chosen pool sentence, with no start time, empty input, cursor 0 and 60 seconds |
| TypingGame.TimeElapsed | client/src/components/TypingGame.tsx:99 | elapsed time is 60 minus the time left once a start time is set, and 0 before; in every valid state the start-time test never changes the result: elapsed is always 60 minus the time left, within [0, 60] |
| TypingGame.CurrentStats | client/src/components/TypingGame.tsx:97-110 | total is the input length; correct is the correct count and at most the total; accuracy is within [0, 100] and 100 for an empty input; WPM is 0 without elapsed time and never negative while time left <= 60 |
| TypingGame.PerfectAccuracyIffPrefix | client/src/components/TypingGame.tsx:98-101 | accuracy is 100 exactly when the typed text is a prefix of the sentence |
| TypingGame.CompletedIsFrozen | client/src/components/TypingGame.tsx:184 | once completed, an input and a tick both leave the state unchanged |
| TypingGame.ZeroTimeMeansCompleted | client/src/components/TypingGame.tsx:124-131 | in a valid state, zero time left means the game is completed and not active |
| TypingGame.MatchCompletesOnNextSubmit | client/src/components/TypingGame.tsx:204-218 | an active game already holding the sentence completes on an input exactly when that input equals the sentence (resubmitting the held value completes it and disarms the timer); any other input leaves it active |
| TypingGame.TimeoutLeavesTimerArmed | client/src/components/TypingGame.tsx:120-138 | the tick that times out leaves the interval armed, and a further tick changes nothing |
| Session.Step | client/src/components/TypingGame.tsx:120-219 | each input, tick or reset keeps the invariant; a reset always yields an idle game with empty input |
| Session.RunPreservesValid | client/src/components/TypingGame.tsx:120-219 | any run of events from a valid state ends in a valid state |
| Session.ReachableStatsInRange | client/src/components/TypingGame.tsx:97-110 | in every reachable state accuracy is within [0, 100], WPM >= 0, elapsed time is within [0, 60] and correct <= total; an idle game reports 0 seconds, 0 WPM and 100% |
| Session.UnstartedGameStaysUntimed | client/src/components/TypingGame.tsx:187-213 | a non-idle game with no start time never gets one, never arms, keeps 60 seconds and reports 0 WPM until a reset |
| Session.EmptyInputActivatesUntimed | client/src/components/TypingGame.tsx:205-213 | an empty input while idle activates the game without arming the timer or setting a start time |
| Session.CountdownCompletesExactly | client/src/components/TypingGame.tsx:120-138 | with t seconds left, an armed active game stays active for t-1 ticks, one second fewer each time, and completes at exactly the t-th tick with the typed text unchanged |
| Session.TimedOutStaysPut | client/src/components/TypingGame.tsx:120-138 | ticks after completion change nothing |
| Session.TypedCompletionScenario | client/src/components/TypingGame.tsx:182-219 | first character: active at 60 s; ten ticks: 50 s; the whole sentence: completed at once, disarmed, all characters correct, accuracy 100 |
| Session.SixtyTicksScenario | client/src/components/TypingGame.tsx:115-138 | after the first input the game is still active after 59 ticks and completed at exactly the 60th |
| TypingDisplay.ClassAt | client/src/components/TypingDisplay.tsx:29-42 | a typed position is Correct iff it matches and Incorrect otherwise; an untyped one is Current iff it is the cursor and Untyped otherwise |
| TypingDisplay.DisplayChar | client/src/components/TypingDisplay.tsx:45 | a space is shown as a non-breaking space; every other character is shown unchanged; a plain space is never shown |
| TypingDisplay.Highlights | client/src/components/TypingDisplay.tsx:26-42 | one class per text character, each as classified, and at most one Current position |
| TypingDisplay.Render | client/src/components/TypingDisplay.tsx:26-46 | one glyph per text character, carrying its class; no plain space is shown, and reading non-breaking spaces back as spaces recovers the text when it has no non-breaking space of its own |
| TypingDisplay.HighlightsAgreeWithCount | client/src/components/TypingDisplay.tsx:29-35 | the number of Correct positions equals the game's correct count, and Correct + Incorrect = min(len text, len input) |
| TypingDisplay.CursorShownWhileShort | client/src/components/TypingDisplay.tsx:36-42 | in a valid game the cursor is on exactly one character while the input is shorter than the sentence, and on none otherwise |
| GameControls.TimerStyleOf | client/src/components/GameControls.tsx:32-40 | urgent iff active with at most 10 seconds left; running iff active with more; muted iff inactive, whatever the time |
| GameControls.ResetButtonLabel | client/src/components/GameControls.tsx:43-66 | "Play Again" iff completed, even if also active; "Restart" iff active and not completed; "Start Game" iff neither |
| GameControls.StatusIndicators | client/src/components/GameControls.tsx:80-97 | exactly one indicator is shown for every pair of flags, and which one is fixed by the flags |
| GameControls.ControlsAgreeOnPhase | client/src/components/GameControls.tsx:32-97 | in a valid game, the button and the indicator name the same phase; a non-muted timer means "Restart"; time 0 shows a muted timer and "Play Again" |
| ResultsModal.PerformanceTier | client/src/components/ResultsModal.tsx:41-46 | Excellent iff wpm >= 70; Great iff 50 <= wpm < 70; Good iff 30 <= wpm < 50; Keep practicing iff wpm < 30 |
| ResultsModal.TierMonotone | client/src/components/ResultsModal.tsx:42-45 | a larger WPM never gives a lower tier |
| ResultsModal.IncorrectCharacters | client/src/components/ResultsModal.tsx:115 | incorrect + correct = total, and incorrect is non-negative exactly when correct <= total |
| ResultsModal.IncorrectMatchesHighlights | client/src/components/ResultsModal.tsx:115 | for any game state the incorrect count is non-negative; it equals the Incorrect highlights plus the typed characters past the end of the sentence |

## Left out

- React machinery: state hooks, callbacks and effects, stale closures and batched updates. Each handler is one atomic step on the current state.
- The showResults flag and its effect (TypingGame.tsx:239-243), the key-down handler (224-234) and the unmount cleanup (248-254). These are event and DOM plumbing with no effect on the game state.
- The focus timeout after a reset (TypingGame.tsx:174-176). It only moves the keyboard focus.
- Real timing. The countdown interval is the `armed` flag plus an explicit `Tick`. `setInterval`/`clearInterval` become setting and clearing that flag.
- Date.now(): it becomes the parameter `now` of `Submit`, typed as a positive number. So a recorded start time is always truthy, as a real clock reading is.
- Math.random: `Reset` takes the pool index as a parameter. Randomness is not modelled.
- Session.Step: ignores a reset index outside the pool. `resetGame` in `TypingGame.tsx` cannot draw one.
- Metrics.Accuracy and Metrics.Wpm use exact `real` arithmetic, not IEEE floating point. The `Math.round` used for display is not modelled.
- Strings are sequences of Unicode scalar values. JavaScript lengths count UTF-16 code units, so the two differ for characters outside the Basic Multilingual Plane.
- All JSX, CSS class strings, icons and message texts. Only the classification enums are modelled.
- TypingInput.tsx, StatisticsPanel.tsx, TypingGamePage.tsx and the components/examples files. They have no logic of their own.
