/** Per-letter feedback on a guess, as the line handler computes it
    (index.js, lines 113-123): one pass over the guess, and a letter that is
    not in place is marked as present whenever it occurs anywhere in the
    secret word. No pool of unclaimed letters is kept, so repeated letters
    can be reported more often than the secret contains them. */
module Feedback {

  /** Green, yellow and uncoloured cells. */
  datatype Mark = Correct | Present | Absent

  /** The classification of the guessed `letter` at position `index`. Reading
      past the end of `word` gives `undefined` in the source, which equals no
      letter, hence the bound check. */
  function Classify(word: string, letter: char, index: nat): Mark {
    if index < |word| && word[index] == letter then Correct
    else if letter in word then Present
    else Absent
  }

  /** The marks of a whole guess, one per guessed letter. */
  function Evaluate(word: string, answer: string): (r: seq<Mark>)
    ensures |r| == |answer|
    ensures forall i :: 0 <= i < |answer| ==>
      (r[i] == Correct <==> i < |word| && word[i] == answer[i]) &&
      (r[i] == Present <==> !(i < |word| && word[i] == answer[i]) && answer[i] in word) &&
      (r[i] == Absent <==> answer[i] !in word)
  {
    seq(|answer|, i requires 0 <= i < |answer| => Classify(word, answer[i], i))
  }

  /** Guessing the secret itself marks every position correct. */
  lemma SecretAllCorrect(word: string)
    ensures forall i :: 0 <= i < |word| ==> Evaluate(word, word)[i] == Correct
  {
  }

  /** Every mark is correct only if the guess is the secret (for guesses of
      the secret's length). */
  lemma AllCorrectOnlyForSecret(word: string, answer: string)
    requires |answer| == |word|
    requires forall i :: 0 <= i < |answer| ==> Evaluate(word, answer)[i] == Correct
    ensures answer == word
  {
    forall i | 0 <= i < |answer| ensures answer[i] == word[i] {
      assert Evaluate(word, answer)[i] == Correct;
    }
  }

  /** How often `c` occurs in `s[k..]`. */
  function CountFrom(s: string, c: char, k: nat): nat
    requires k <= |s|
    decreases |s| - k
  {
    if k == |s| then 0 else (if s[k] == c then 1 else 0) + CountFrom(s, c, k + 1)
  }

  /** How many of the guessed copies of `c` at positions `k..` are marked
      correct or present. */
  function MarkedFrom(word: string, answer: string, c: char, k: nat): nat
    requires k <= |answer|
    decreases |answer| - k
  {
    if k == |answer| then 0
    else (if answer[k] == c && Evaluate(word, answer)[k] != Absent then 1 else 0) + MarkedFrom(word, answer, c, k + 1)
  }

  /** How many of the guessed copies of `c` at positions `k..` are marked correct. */
  function CorrectFrom(word: string, answer: string, c: char, k: nat): nat
    requires k <= |answer|
    decreases |answer| - k
  {
    if k == |answer| then 0
    else (if answer[k] == c && Evaluate(word, answer)[k] == Correct then 1 else 0) + CorrectFrom(word, answer, c, k + 1)
  }

  /** The membership rule marks every guessed copy of a letter that occurs in
      the secret, however few times it occurs there, and none of a letter
      that does not occur. */
  lemma {:induction false} MarkedIsGuessCount(word: string, answer: string, c: char, k: nat)
    requires k <= |answer|
    ensures MarkedFrom(word, answer, c, k) == if c in word then CountFrom(answer, c, k) else 0
    decreases |answer| - k
  {
    if k < |answer| {
      MarkedIsGuessCount(word, answer, c, k + 1);
    }
  }

  /** Correct marks never over-count: a letter is marked correct at most as
      often as it occurs in the secret. */
  lemma {:induction false} CorrectBounded(word: string, answer: string, c: char, k: nat)
    requires |answer| <= |word| && k <= |answer|
    ensures CorrectFrom(word, answer, c, k) <= CountFrom(word, c, k)
    decreases |answer| - k
  {
    if k < |answer| {
      CorrectBounded(word, answer, c, k + 1);
    } else {
      assert CorrectFrom(word, answer, c, k) == 0;
    }
  }

  /** With the secret "level" and the guess "ellel", the guessed `l` at
      position 2 is marked present although both `l`s of the secret are
      already claimed by the correct `l` at position 4 and the present one at
      position 1: three marks for a letter the secret holds twice. */
  lemma SinglePassOverCounts()
    ensures Evaluate("level", "ellel") == [Present, Present, Present, Correct, Correct]
    ensures MarkedFrom("level", "ellel", 'l', 0) == 3
    ensures CountFrom("level", 'l', 0) == 2
  {
    MarkedIsGuessCount("level", "ellel", 'l', 0);
    assert 'l' in "level" by {
      assert "level"[0] == 'l';
    }
  }
}
