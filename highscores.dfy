/**
  The in-memory rule of HighScoreManager: best scores are kept per lower-cased player
  name, a missing name reads as 0, and a score is stored only when it beats the best.
 */
module HighScores {
  import opened Wrappers

  /** Lower-casing of one character (ASCII letters only). */
  function LowerChar(ch: char): char
  {
    if 'A' <= ch <= 'Z' then (ch as int + 32) as char else ch
  }

  /** name.toLowerCase(): every character lower-cased, the length kept, and nothing upper-case left. */
  function ToLower(s: string): (r: string)
    ensures |r| == |s|
    ensures forall i :: 0 <= i < |s| ==> r[i] == LowerChar(s[i])
    ensures forall i :: 0 <= i < |r| ==> !('A' <= r[i] <= 'Z')
  {
    if s == [] then [] else [LowerChar(s[0])] + ToLower(s[1..])
  }

  /** Lower-casing twice is lower-casing once, so a stored key is its own lookup key. */
  lemma ToLowerIdempotent(s: string)
    ensures ToLower(ToLower(s)) == ToLower(s)
  {
  }

  class HighScoreManager {
    /** The properties table: lower-cased name to best score. */
    var scores: map<string, int>

    /** The best score on record for `name`, whatever its case; 0 when there is none. */
    ghost function Best(name: string): int
      reads this
    {
      var key := ToLower(name);
      if key in scores then scores[key] else 0
    }

    /** Starts from the table loaded from the score file (its contents are a parameter here). */
    constructor (stored: map<string, int>)
      ensures scores == stored
    {
      scores := stored;
    }

    /** getScore: the best on record under the lower-cased name, 0 by default; names differing only in case agree. */
    method GetScore(name: string) returns (s: int)
      ensures s == Best(name)
      ensures forall other :: ToLower(other) == ToLower(name) ==> s == Best(other)
      ensures ToLower(name) !in scores ==> s == 0
    {
      var key := ToLower(name);
      s := if key in scores then scores[key] else 0;
    }

    /**
      saveScore: stores `newScore` under the lower-cased name only when it beats the
      best on record. Afterwards the best is the larger of the two, no best goes down,
      and names with a different lower-cased form keep theirs.
     */
    method SaveScore(name: string, newScore: int)
      modifies this
      ensures Best(name) == Max(old(Best(name)), newScore)
      ensures forall other :: Best(other) >= old(Best(other))
      ensures forall other :: ToLower(other) != ToLower(name) ==> Best(other) == old(Best(other))
      ensures newScore <= old(Best(name)) ==> scores == old(scores)
    {
      var key := ToLower(name);
      ToLowerIdempotent(name);
      var currentBest := GetScore(key);
      if newScore > currentBest {
        scores := scores[key := newScore];
      }
    }
  }
}
