/**
 * The per-character highlighting of the target sentence: every character of
 * the text gets one class, from the typed input and the cursor position,
 * and a space is shown as a non-breaking space.
 */
module TypingDisplay {
  import Metrics
  import TypingGame

  datatype CharClass = Correct | Incorrect | Current | Untyped

  datatype Glyph = Glyph(cls: CharClass, ch: char)

  const NonBreakingSpace: char := '\U{00A0}'

  /** The class of the text character at `index`. */
  function ClassAt(text: string, userInput: string, currentIndex: int, index: nat): (c: CharClass)
    requires index < |text|
    ensures c == Correct <==> index < |userInput| && userInput[index] == text[index]
    ensures c == Incorrect <==> index < |userInput| && userInput[index] != text[index]
    ensures c == Current <==> index >= |userInput| && index == currentIndex
    ensures c == Untyped <==> index >= |userInput| && index != currentIndex
  {
    if index < |userInput| then
      if userInput[index] == text[index] then Correct else Incorrect
    else if index == currentIndex then Current
    else Untyped
  }

  /** The character shown for a text character: spaces become non-breaking. */
  function DisplayChar(c: char): (d: char)
    ensures c == ' ' ==> d == NonBreakingSpace
    ensures c != ' ' ==> d == c
    ensures d != ' '
  {
    if c == ' ' then NonBreakingSpace else c
  }

  /** The classes of the whole text, one per character. */
  function Highlights(text: string, userInput: string, currentIndex: int): (hs: seq<CharClass>)
    ensures |hs| == |text|
    ensures forall i :: 0 <= i < |hs| ==> hs[i] == ClassAt(text, userInput, currentIndex, i)
    ensures forall i, j :: 0 <= i < |hs| && 0 <= j < |hs| && hs[i] == Current && hs[j] == Current ==> i == j
  {
    seq(|text|, i requires 0 <= i < |text| => ClassAt(text, userInput, currentIndex, i))
  }

  /**
   * The rendered text: one glyph per character of the text, classed and
   * substituted. No plain space is shown, and the shown characters spell the
   * text again once non-breaking spaces are read as spaces, provided the text
   * has no non-breaking space of its own.
   */
  function Render(text: string, userInput: string, currentIndex: int): (gs: seq<Glyph>)
    ensures |gs| == |text|
    ensures forall i :: 0 <= i < |gs| ==> gs[i].ch == DisplayChar(text[i])
    ensures forall i :: 0 <= i < |gs| ==>
              gs[i].cls == Highlights(text, userInput, currentIndex)[i]
    ensures forall i :: 0 <= i < |gs| ==> gs[i].ch != ' '
    ensures NonBreakingSpace !in text ==>
              seq(|gs|, i requires 0 <= i < |gs| => ReadBack(gs[i].ch)) == text
  {
    var hs := Highlights(text, userInput, currentIndex);
    seq(|text|, i requires 0 <= i < |text| => Glyph(hs[i], DisplayChar(text[i])))
  }

  /** Reads a shown character back: a non-breaking space reads as a space. */
  function ReadBack(d: char): char
  {
    if d == NonBreakingSpace then ' ' else d
  }

  /** How often class `c` occurs in `hs`. */
  function Occurrences(hs: seq<CharClass>, c: CharClass): nat
  {
    multiset(hs)[c]
  }

  lemma OccurrencesSnoc(hs: seq<CharClass>, h: CharClass, c: CharClass)
    ensures Occurrences(hs + [h], c) == Occurrences(hs, c) + (if h == c then 1 else 0)
  {
    assert multiset(hs + [h]) == multiset(hs) + multiset{h};
  }

  lemma {:induction false} CorrectPrefixCount(text: string, userInput: string, currentIndex: int, n: nat)
    requires n <= |text|
    ensures var hs := Highlights(text, userInput, currentIndex);
            Occurrences(hs[..n], Correct)
              == Metrics.MatchesBelow(userInput, text, Metrics.Min(n, |userInput|))
  {
    var hs := Highlights(text, userInput, currentIndex);
    if n > 0 {
      CorrectPrefixCount(text, userInput, currentIndex, n - 1);
      assert hs[..n] == hs[..n - 1] + [hs[n - 1]];
      OccurrencesSnoc(hs[..n - 1], hs[n - 1], Correct);
    }
  }

  lemma {:induction false} TypedPrefixCount(text: string, userInput: string, currentIndex: int, n: nat)
    requires n <= |text|
    ensures var hs := Highlights(text, userInput, currentIndex);
            Occurrences(hs[..n], Correct) + Occurrences(hs[..n], Incorrect) == Metrics.Min(n, |userInput|)
  {
    var hs := Highlights(text, userInput, currentIndex);
    if n > 0 {
      TypedPrefixCount(text, userInput, currentIndex, n - 1);
      assert hs[..n] == hs[..n - 1] + [hs[n - 1]];
      OccurrencesSnoc(hs[..n - 1], hs[n - 1], Correct);
      OccurrencesSnoc(hs[..n - 1], hs[n - 1], Incorrect);
    }
  }

  /**
   * The number of characters highlighted as correct is the game's correct
   * character count, and the typed (correct or incorrect) positions cover the
   * common length of text and input.
   */
  lemma HighlightsAgreeWithCount(text: string, userInput: string, currentIndex: int)
    ensures var hs := Highlights(text, userInput, currentIndex);
            && Occurrences(hs, Correct) == Metrics.CorrectCount(userInput, text)
            && Occurrences(hs, Correct) + Occurrences(hs, Incorrect) == Metrics.Min(|text|, |userInput|)
  {
    var hs := Highlights(text, userInput, currentIndex);
    CorrectPrefixCount(text, userInput, currentIndex, |text|);
    TypedPrefixCount(text, userInput, currentIndex, |text|);
    assert hs[..|text|] == hs;
  }

  lemma {:induction false} CurrentPrefixCount(text: string, userInput: string, currentIndex: int, n: nat)
    requires n <= |text|
    ensures var hs := Highlights(text, userInput, currentIndex);
            Occurrences(hs[..n], Current) == if |userInput| <= currentIndex < n then 1 else 0
  {
    var hs := Highlights(text, userInput, currentIndex);
    if n > 0 {
      CurrentPrefixCount(text, userInput, currentIndex, n - 1);
      assert hs[..n] == hs[..n - 1] + [hs[n - 1]];
      OccurrencesSnoc(hs[..n - 1], hs[n - 1], Current);
    }
  }

  /**
   * For a valid game state (cursor at the end of the input) the cursor is
   * shown on exactly one character while the input is shorter than the
   * sentence, and on none once it is as long or longer.
   */
  lemma CursorShownWhileShort(s: TypingGame.GameState)
    requires TypingGame.Valid(s)
    ensures var hs := Highlights(s.currentSentence, s.userInput, s.currentIndex);
            Occurrences(hs, Current) == if |s.userInput| < |s.currentSentence| then 1 else 0
  {
    var hs := Highlights(s.currentSentence, s.userInput, s.currentIndex);
    CurrentPrefixCount(s.currentSentence, s.userInput, s.currentIndex, |s.currentSentence|);
    assert hs[..|s.currentSentence|] == hs;
  }
}
