/**
 * The scoring helpers of the typing game: how many characters of the
 * typed input match the target sentence position by position, the accuracy
 * percentage and the words-per-minute rate. All arithmetic is exact
 * (`real`); `TypingGame.tsx` uses floating-point numbers for the two ratios.
 */
module Metrics {

  function Min(a: int, b: int): (m: int)
    ensures m <= a && m <= b
    ensures m == a || m == b
  {
    if a < b then a else b
  }

  /** Number of positions below `n` at which `input` and `target` agree. */
  function MatchesBelow(input: string, target: string, n: nat): (c: nat)
    requires n <= |input| && n <= |target|
    ensures c <= n
  {
    if n == 0 then 0
    else MatchesBelow(input, target, n - 1) + (if input[n - 1] == target[n - 1] then 1 else 0)
  }

  /** The correct-character count: agreeing positions over the common length of the two strings. */
  function CorrectCount(input: string, target: string): (c: nat)
    ensures c <= |input| && c <= |target|
  {
    MatchesBelow(input, target, Min(|input|, |target|))
  }

  /** Reference definition: the set of positions where the two strings agree. */
  ghost function MatchSet(input: string, target: string): set<int>
  {
    set i | 0 <= i < Min(|input|, |target|) && input[i] == target[i]
  }

  ghost function MatchSetBelow(input: string, target: string, n: nat): set<int>
    requires n <= |input| && n <= |target|
  {
    set i | 0 <= i < n && input[i] == target[i]
  }

  lemma {:induction false} MatchesBelowIsSetSize(input: string, target: string, n: nat)
    requires n <= |input| && n <= |target|
    ensures MatchesBelow(input, target, n) == |MatchSetBelow(input, target, n)|
  {
    if n > 0 {
      MatchesBelowIsSetSize(input, target, n - 1);
      var prev := MatchSetBelow(input, target, n - 1);
      assert n - 1 !in prev;
      if input[n - 1] == target[n - 1] {
        assert MatchSetBelow(input, target, n) == prev + {n - 1};
      } else {
        assert MatchSetBelow(input, target, n) == prev;
      }
    }
  }

  /** The counted number is exactly the number of agreeing positions. */
  lemma CorrectCountIsMatchSetSize(input: string, target: string)
    ensures CorrectCount(input, target) == |MatchSet(input, target)|
  {
    MatchesBelowIsSetSize(input, target, Min(|input|, |target|));
    assert MatchSet(input, target) == MatchSetBelow(input, target, Min(|input|, |target|));
  }

  lemma {:induction false} MatchesBelowAll(input: string, target: string, n: nat)
    requires n <= |input| && n <= |target|
    ensures MatchesBelow(input, target, n) == n <==> input[..n] == target[..n]
  {
    if n > 0 {
      MatchesBelowAll(input, target, n - 1);
      assert input[..n] == input[..n - 1] + [input[n - 1]];
      assert target[..n] == target[..n - 1] + [target[n - 1]];
      if input[..n] == target[..n] {
        assert input[..n - 1] == input[..n][..n - 1];
        assert target[..n - 1] == target[..n][..n - 1];
        assert input[n - 1] == input[..n][n - 1];
        assert target[n - 1] == target[..n][n - 1];
      }
    }
  }

  /**
   * Every typed character is correct exactly when the input is a prefix of
   * the target (so in particular no longer than it).
   */
  lemma AllCorrectIffPrefix(input: string, target: string)
    ensures CorrectCount(input, target) == |input| <==> input <= target
  {
    var m := Min(|input|, |target|);
    MatchesBelowAll(input, target, m);
    if CorrectCount(input, target) == |input| {
      assert m == |input|;
      assert input[..m] == input;
    }
    if input <= target {
      assert m == |input|;
      assert input[..m] == input && target[..m] == input;
    }
  }

  /**
   * The counting loop of `countCorrectCharacters`: walks the common length of the two strings
   * and counts the positions that agree.
   */
  method CountCorrectCharacters(input: string, target: string) returns (correct: nat)
    ensures correct == CorrectCount(input, target)
  {
    correct := 0;
    var i := 0;
    var n := Min(|input|, |target|);
    while i < n
      invariant 0 <= i <= n
      invariant correct == MatchesBelow(input, target, i)
    {
      if input[i] == target[i] {
        correct := correct + 1;
      }
      i := i + 1;
    }
  }

  /** Accuracy percentage: 100 for an empty input, else the share of correct characters. */
  function Accuracy(correctChars: nat, totalChars: nat): (a: real)
    ensures totalChars == 0 ==> a == 100.0
    ensures correctChars <= totalChars ==> 0.0 <= a <= 100.0
    ensures totalChars > 0 ==> (a == 100.0 <==> correctChars == totalChars)
    ensures totalChars > 0 && correctChars == 0 ==> a == 0.0
  {
    if totalChars == 0 then 100.0
    else (correctChars as real / totalChars as real) * 100.0
  }

  /**
   * Words per minute, counting five correct characters as one word:
   * 0 when no time has elapsed, else twelve correct characters per elapsed second.
   */
  function Wpm(correctChars: nat, timeElapsed: int): (w: real)
    ensures timeElapsed == 0 ==> w == 0.0
    ensures timeElapsed != 0 ==> w == 12.0 * correctChars as real / timeElapsed as real
    ensures timeElapsed >= 0 ==> w >= 0.0
  {
    if timeElapsed == 0 then 0.0
    else
      var minutes := timeElapsed as real / 60.0;
      (correctChars as real / 5.0) / minutes
  }

  /** More correct characters over the same elapsed time never lower the rate. */
  lemma WpmMonotone(c1: nat, c2: nat, timeElapsed: int)
    requires c1 <= c2 && timeElapsed >= 0
    ensures Wpm(c1, timeElapsed) <= Wpm(c2, timeElapsed)
  {
  }
}
