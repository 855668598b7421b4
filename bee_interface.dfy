/**
 * The hint logic of `bee_interface.py`: how many leading letters of each
 * unfound answer are revealed, chosen from a tier table by the current
 * progress, and the list of (leading letters, length) pairs shown.
 */
module BeeInterface {
  import opened Wrappers
  import opened StringOrder
  import opened Letters
  import opened BeeEngine

  /** A progress threshold of the tier table; `Unbounded` is `np.inf`. */
  datatype Tier = Below(bound: real) | Unbounded

  /** `progress < tier`. */
  predicate Exceeds(t: Tier, progress: real)
  {
    t.Unbounded? || progress < t.bound
  }

  /** `_tiers`. */
  const Tiers: seq<Tier> := [Below(0.7), Below(0.8), Below(0.9), Below(0.95), Unbounded]

  /** `next(i for i, t in enumerate(tiers) if progress < t)`: the first tier
      above the progress; a table ending in infinity always has one. */
  function FirstExceeding(tiers: seq<Tier>, progress: real): (i: nat)
    requires |tiers| > 0 && tiers[|tiers| - 1].Unbounded?
    ensures i < |tiers| && Exceeds(tiers[i], progress)
    ensures forall j :: 0 <= j < i ==> !Exceeds(tiers[j], progress)
  {
    if Exceeds(tiers[0], progress) then 0
    else 1 + FirstExceeding(tiers[1..], progress)
  }

  /** `number_of_letter_hints`: the least tier index whose threshold exceeds the progress. */
  function NumberOfLetterHints(progress: real): (n: nat)
    ensures n <= 4
    ensures Exceeds(Tiers[n], progress)
    ensures forall j :: 0 <= j < n ==> !Exceeds(Tiers[j], progress)
  {
    FirstExceeding(Tiers, progress)
  }

  /** The tier table spelled out: no hint letters below 70%, one from 70%,
      two from 80%, three from 90% and four from 95%, completion included. */
  lemma LetterHintsByProgress(progress: real)
    ensures NumberOfLetterHints(progress) == 0 <==> progress < 0.7
    ensures NumberOfLetterHints(progress) == 1 <==> 0.7 <= progress < 0.8
    ensures NumberOfLetterHints(progress) == 2 <==> 0.8 <= progress < 0.9
    ensures NumberOfLetterHints(progress) == 3 <==> 0.9 <= progress < 0.95
    ensures NumberOfLetterHints(progress) == 4 <==> 0.95 <= progress
  {
    var n := NumberOfLetterHints(progress);
    assert Tiers[0] == Below(0.7) && Tiers[1] == Below(0.8) && Tiers[2] == Below(0.9);
    assert Tiers[3] == Below(0.95) && Tiers[4] == Unbounded;
    if n > 0 { assert !Exceeds(Tiers[0], progress); }
    if n > 1 { assert !Exceeds(Tiers[1], progress); }
    if n > 2 { assert !Exceeds(Tiers[2], progress); }
    if n > 3 { assert !Exceeds(Tiers[3], progress); }
  }

  /** More progress never reveals fewer letters. */
  lemma LetterHintsMonotone(p: real, q: real)
    requires p <= q
    ensures NumberOfLetterHints(p) <= NumberOfLetterHints(q)
  {
    var m := NumberOfLetterHints(q);
    assert Exceeds(Tiers[m], p);
  }

  /** One row of the hint table: the first letters of a word and its length. */
  datatype Hint = Hint(letters: string, length: nat)

  /** `(word[:n], len(word))`; the slice stops at the end of a short word. */
  function HintOf(word: string, n: nat): (h: Hint)
    ensures |h.letters| == if n < |word| then n else |word|
    ensures h.letters == word[..|h.letters|]
    ensures h.length == |word|
  {
    Hint(word[..if n < |word| then n else |word|], |word|)
  }

  /** The answers still to find, in sorted order. */
  function RemainingWords(s: GameState): (r: seq<string>)
    requires WellFormed(s)
    ensures Sorted(r)
    ensures forall w :: w in r <==> w in s.answers && w !in s.categories[Correct]
    ensures |r| == |s.answers - s.categories[Correct]|
  {
    SortedElements(s.answers - s.categories[Correct])
  }

  /** The hint rows of `print_hints`; ZeroDivisionError (from the progress)
      when the puzzle has no answers. */
  function Hints(s: GameState): (r: Result<seq<Hint>, Exception>)
    requires WellFormed(s)
    ensures r.Failure? <==> |s.answers| == 0
    ensures r.Failure? ==> r.error == ZeroDivisionError
  {
    match Progress(s)
    case Failure(e) => Failure(e)
    case Success(p) =>
      var n := NumberOfLetterHints(p);
      var words := RemainingWords(s);
      Success(seq(|words|, i requires 0 <= i < |words| => HintOf(words[i], n)))
  }

  /** One hint row per answer not yet found, in sorted order of the answers,
      each the first `n` letters (or the whole word) and the length, where
      `n` comes from the tier of the current progress. */
  lemma HintsRows(s: GameState)
    requires Consistent(s) && |s.answers| > 0
    ensures |Hints(s).value| == |s.answers - s.categories[Correct]|
    ensures forall w :: w in s.answers && w !in s.categories[Correct] <==>
      exists i :: 0 <= i < |Hints(s).value| && RemainingWords(s)[i] == w
    ensures forall i :: 0 <= i < |Hints(s).value| ==>
      var w := RemainingWords(s)[i];
      var n := NumberOfLetterHints(Progress(s).value);
      && Hints(s).value[i].length == |w|
      && Hints(s).value[i].letters == w[..if n < |w| then n else |w|]
    ensures forall i, j :: 0 <= i < j < |Hints(s).value| ==> Le(RemainingWords(s)[i], RemainingWords(s)[j])
  {
    var words := RemainingWords(s);
    forall w | w in s.answers && w !in s.categories[Correct]
      ensures exists i :: 0 <= i < |words| && words[i] == w
    {
      assert w in words;
    }
  }

  /** Once every answer is found there are no hint rows left, and four letters would be shown. */
  lemma HintsWhenComplete(s: GameState)
    requires Consistent(s) && |s.answers| > 0 && s.categories[Correct] == s.answers
    ensures Hints(s) == Success([])
    ensures NumberOfLetterHints(Progress(s).value) == 4
  {
    ProgressBounds(s);
    LetterHintsByProgress(Progress(s).value);
    assert s.answers - s.categories[Correct] == {};
    assert |RemainingWords(s)| == 0;
    assert Hints(s).Success? && |Hints(s).value| == 0;
  }
}
