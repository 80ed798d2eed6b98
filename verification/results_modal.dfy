/**
 * The end-of-game summary: a performance tier chosen from the rate by fixed
 * thresholds, and the number of incorrect characters.
 */
module ResultsModal {
  import Metrics
  import TypingGame
  import TypingDisplay

  datatype Tier = KeepPracticing | Good | Great | Excellent

  /** Position of a tier in the ordering from lowest to highest. */
  function Rank(t: Tier): nat
  {
    match t
    case KeepPracticing => 0
    case Good => 1
    case Great => 2
    case Excellent => 3
  }

  /** Thresholds checked from the top: 70, 50 and 30 words per minute, each inclusive. */
  function PerformanceTier(wpm: real): (t: Tier)
    ensures t == Excellent <==> wpm >= 70.0
    ensures t == Great <==> 50.0 <= wpm < 70.0
    ensures t == Good <==> 30.0 <= wpm < 50.0
    ensures t == KeepPracticing <==> wpm < 30.0
  {
    if wpm >= 70.0 then Excellent
    else if wpm >= 50.0 then Great
    else if wpm >= 30.0 then Good
    else KeepPracticing
  }

  /** A higher rate never earns a lower tier. */
  lemma TierMonotone(w1: real, w2: real)
    requires w1 <= w2
    ensures Rank(PerformanceTier(w1)) <= Rank(PerformanceTier(w2))
  {
  }

  /** Typed characters that are not correct. */
  function IncorrectCharacters(totalCharacters: int, correctCharacters: int): (n: int)
    ensures n + correctCharacters == totalCharacters
    ensures n >= 0 <==> correctCharacters <= totalCharacters
  {
    totalCharacters - correctCharacters
  }

  /**
   * For the statistics of any game state the incorrect count is non-negative.
   * It equals the number of characters highlighted as incorrect plus the
   * typed characters past the end of the sentence.
   */
  lemma IncorrectMatchesHighlights(s: TypingGame.GameState)
    ensures var st := TypingGame.CurrentStats(s);
            var hs := TypingDisplay.Highlights(s.currentSentence, s.userInput, s.currentIndex);
            var n := IncorrectCharacters(st.totalChars, st.correctChars);
            && n >= 0
            && n == TypingDisplay.Occurrences(hs, TypingDisplay.Incorrect)
                    + (|s.userInput| - Metrics.Min(|s.userInput|, |s.currentSentence|))
  {
    TypingDisplay.HighlightsAgreeWithCount(s.currentSentence, s.userInput, s.currentIndex);
  }
}
