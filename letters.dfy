/**
 * The puzzle letters and the guess classifier of `bee_engine.py`: which
 * letters a word may use, and the fixed-priority classification of an
 * (already uppercased) guess against the letters and the answer set.
 */
module Letters {

  /** `GuessCategory` (the unused UNKNOWN member is not modelled). */
  datatype GuessCategory = Prefix | Suffix | Correct | Missing | Error

  /** The marker a partial guess carries at its start or end. */
  const Marker: char := '-'

  /** `BeeLetters`: the valid letters and the center letter. */
  datatype BeeLetters = BeeLetters(validLetters: set<char>, centerLetter: char)
  {
    /** `_non_center_letters`. */
    function NonCenterLetters(): (r: set<char>)
      ensures centerLetter !in r
      ensures r <= validLetters
      ensures validLetters <= r + {centerLetter}
    {
      validLetters - {centerLetter}
    }

    /** `is_valid_word`: every character is a valid letter; the center letter
        is not required and the empty word qualifies. */
    predicate IsValidWord(word: string)
    {
      forall i :: 0 <= i < |word| ==> word[i] in validLetters
    }
  }

  /** The set of characters a word uses. */
  function Chars(word: string): set<char>
  {
    set i | 0 <= i < |word| :: word[i]
  }

  /** A word is valid exactly when the characters it uses are among the valid letters. */
  lemma IsValidWordIffChars(letters: BeeLetters, word: string)
    ensures letters.IsValidWord(word) <==> Chars(word) <= letters.validLetters
  {
    if Chars(word) <= letters.validLetters {
      forall i | 0 <= i < |word| ensures word[i] in letters.validLetters {
        assert word[i] in Chars(word);
      }
    }
  }

  /** Validity of a concatenation is validity of both parts. */
  lemma IsValidWordConcat(letters: BeeLetters, a: string, b: string)
    ensures letters.IsValidWord(a + b) <==> letters.IsValidWord(a) && letters.IsValidWord(b)
  {
    if letters.IsValidWord(a + b) {
      forall i | 0 <= i < |a| ensures a[i] in letters.validLetters {
        assert (a + b)[i] == a[i];
      }
      forall i | 0 <= i < |b| ensures b[i] in letters.validLetters {
        assert (a + b)[|a| + i] == b[i];
      }
    }
    if letters.IsValidWord(a) && letters.IsValidWord(b) {
      forall i | 0 <= i < |a + b| ensures (a + b)[i] in letters.validLetters {
        if i < |a| { assert (a + b)[i] == a[i]; } else { assert (a + b)[i] == b[i - |a|]; }
      }
    }
  }

  /** The center letter is not required: a word made of one other valid
      letter is valid although it lacks the center letter. */
  lemma CenterLetterNotRequired(letters: BeeLetters, c: char)
    requires c in letters.NonCenterLetters()
    ensures letters.IsValidWord([c]) && letters.centerLetter !in [c]
  {
  }

  /** `classify_word` on a non-empty (uppercased) word, in the source's
      priority order: trailing marker, leading marker, answer, valid letters. */
  function Classify(word: string, letters: BeeLetters, answers: set<string>): (c: GuessCategory)
    requires |word| > 0
    ensures c == Correct ==> word in answers
    ensures c == Error ==> word !in answers && !letters.IsValidWord(word)
    ensures c == Missing ==> word !in answers && letters.IsValidWord(word)
  {
    if word[|word| - 1] == Marker && letters.IsValidWord(word[..|word| - 1]) then Prefix
    else if word[0] == Marker && letters.IsValidWord(word[1..]) then Suffix
    else if word in answers then Correct
    else if letters.IsValidWord(word) then Missing
    else Error
  }

  /** A lone marker is a PREFIX: what precedes it is the empty, hence valid, word. */
  lemma LoneMarkerIsPrefix(letters: BeeLetters, answers: set<string>)
    ensures Classify([Marker], letters, answers) == Prefix
  {
    assert [Marker][..0] == "";
  }

  /** A word of valid letters that is neither an answer nor a marker form is MISSING. */
  lemma ValidNonAnswerIsMissing(word: string, letters: BeeLetters, answers: set<string>)
    requires |word| > 0 && letters.IsValidWord(word) && word !in answers
    requires word[0] != Marker && word[|word| - 1] != Marker
    ensures Classify(word, letters, answers) == Missing
  {
  }

  /** An answer is CORRECT unless it is also a well-formed marker form. */
  lemma AnswerIsCorrect(word: string, letters: BeeLetters, answers: set<string>)
    requires |word| > 0 && word in answers
    requires word[0] != Marker && word[|word| - 1] != Marker
    ensures Classify(word, letters, answers) == Correct
  {
  }

  /** A word is rejected as ERROR exactly when it is not an answer and no
      reading of it (as a whole, or without a trailing or a leading marker)
      uses only valid letters. */
  lemma ErrorIff(word: string, letters: BeeLetters, answers: set<string>)
    requires |word| > 0
    ensures Classify(word, letters, answers) == Error <==>
      word !in answers
      && !letters.IsValidWord(word)
      && !(word[|word| - 1] == Marker && letters.IsValidWord(word[..|word| - 1]))
      && !(word[0] == Marker && letters.IsValidWord(word[1..]))
  {
  }

  /** A word with a letter outside the valid set, away from its two ends, is
      ERROR unless it is an answer. */
  lemma InvalidInteriorLetterIsError(word: string, letters: BeeLetters, answers: set<string>, k: nat)
    requires 0 < k < |word| - 1 && word[k] !in letters.validLetters
    requires word !in answers
    ensures Classify(word, letters, answers) == Error
  {
    assert word[..|word| - 1][k] == word[k];
    assert word[1..][k - 1] == word[k];
  }
}
