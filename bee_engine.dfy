/**
 * The game-state engine of `bee_engine.py`. A `GameState` is the value of a
 * `Bee` object's fields (and what a saved snapshot holds); the `After...`
 * functions give the state each `Bee` method leaves behind, the lemmas state
 * what the methods promise (the partition invariant, undo, idempotence,
 * independence of input order, save/load), and the class `Bee` updates its
 * fields in place as the source does and is proved against those functions.
 */
module BeeEngine {
  import opened Wrappers
  import opened PyText
  import opened StringOrder
  import opened ArchiveHelper
  import opened Letters

  /** The Python exceptions the game operations can raise. */
  datatype Exception = IndexError | KeyError | RuntimeError | ZeroDivisionError | FileNotFoundError

  const AllCategories: set<GuessCategory> := {Prefix, Suffix, Correct, Missing, Error}

  /** The dictionary of five empty category sets built by `__init__` and `reset_game`. */
  function EmptyCategories(): (m: map<GuessCategory, set<string>>)
    ensures m.Keys == AllCategories
    ensures forall c :: c in m ==> m[c] == {}
  {
    map[Prefix := {}, Suffix := {}, Correct := {}, Missing := {}, Error := {}]
  }

  /** The fields of a `Bee`. */
  datatype GameState = GameState(
    date: Date,
    letters: BeeLetters,
    answers: set<string>,
    guesses: set<string>,
    categories: map<GuessCategory, set<string>>,
    lastGuess: Option<string>,
    storeErrors: bool)

  /** Shape facts every reachable state has: a dated puzzle, one set per
      category, and no empty guess (the classifier cannot take one). */
  predicate WellFormed(s: GameState)
  {
    && ValidDate(s.date)
    && s.categories.Keys == AllCategories
    && "" !in s.guesses
    && (s.lastGuess.Some? ==> s.lastGuess.value != "")
  }

  /** The guesses of `s` that the classifier files under `c`. */
  function Filed(s: GameState, c: GuessCategory): set<string>
  {
    set g | g in s.guesses && |g| > 0 && Classify(g, s.letters, s.answers) == c
  }

  /** The engine's invariant: each category set holds exactly the guesses
      that classify into it. */
  ghost predicate Consistent(s: GameState)
  {
    && WellFormed(s)
    && forall c :: c in s.categories ==> s.categories[c] == Filed(s, c)
  }

  /** The invariant in the program's own terms: the five category sets
      partition the guesses (each guess lies in exactly one of them and
      they hold nothing else). */
  lemma ConsistentPartitions(s: GameState)
    requires Consistent(s)
    ensures forall c :: c in AllCategories ==> s.categories[c] <= s.guesses
    ensures forall g :: g in s.guesses ==> exists c :: c in AllCategories && g in s.categories[c]
    ensures forall c1, c2, g ::
      (c1 in AllCategories && c2 in AllCategories && g in s.categories[c1] && g in s.categories[c2]) ==> c1 == c2
  {
    forall g | g in s.guesses ensures exists c :: c in AllCategories && g in s.categories[c] {
      var c := Classify(g, s.letters, s.answers);
      assert g in Filed(s, c);
    }
  }

  /** Whether `add_guess` keeps a (non-empty) guess. */
  predicate Accepts(s: GameState, g: string)
    requires |g| > 0
  {
    Classify(g, s.letters, s.answers) != Error || s.storeErrors
  }

  /** A fresh game: `Bee(date, letters, answers)` before any guess. */
  function NewGame(date: Date, letters: BeeLetters, answers: set<string>): GameState
  {
    GameState(date, letters, answers, {}, EmptyCategories(), None, false)
  }

  // ------------------------------------------------------------ add_guess

  /** The state `add_guess(raw)` leaves behind (`raw` non-empty). */
  function AfterAddGuess(s: GameState, raw: string): (t: GameState)
    requires WellFormed(s) && raw != ""
    ensures WellFormed(t)
    ensures t.date == s.date && t.letters == s.letters && t.answers == s.answers && t.storeErrors == s.storeErrors
  {
    var g := Upper(raw);
    var c := Classify(g, s.letters, s.answers);
    if c != Error || s.storeErrors then
      s.(guesses := s.guesses + {g}, categories := s.categories[c := s.categories[c] + {g}], lastGuess := Some(g))
    else
      s
  }

  /** Adding one classified guess to the guess set adds it to its own category only. */
  lemma FiledAfterInsert(s: GameState, t: GameState, g: string, c: GuessCategory)
    requires |g| > 0 && t == s.(guesses := s.guesses + {g}, categories := t.categories, lastGuess := t.lastGuess)
    ensures Filed(t, c) == Filed(s, c) + (if Classify(g, s.letters, s.answers) == c then {g} else {})
  {
  }

  /**
   * `add_guess`: an accepted guess is uppercased, becomes a guess, sits in
   * exactly the category it classifies into, and becomes the last guess; a
   * guess classified ERROR while errors are not stored changes nothing.
   * The partition invariant is preserved.
   */
  lemma AddGuessEffect(s: GameState, raw: string)
    requires Consistent(s) && raw != ""
    ensures Consistent(AfterAddGuess(s, raw))
    ensures Accepts(s, Upper(raw)) ==>
      && AfterAddGuess(s, raw).guesses == s.guesses + {Upper(raw)}
      && AfterAddGuess(s, raw).lastGuess == Some(Upper(raw))
      && forall c :: c in AllCategories ==>
           (Upper(raw) in AfterAddGuess(s, raw).categories[c] <==> c == Classify(Upper(raw), s.letters, s.answers))
    ensures !Accepts(s, Upper(raw)) ==> AfterAddGuess(s, raw) == s
  {
    var g := Upper(raw);
    var t := AfterAddGuess(s, raw);
    var k := Classify(g, s.letters, s.answers);
    if Accepts(s, g) {
      forall c | c in t.categories ensures t.categories[c] == Filed(t, c) {
        FiledAfterInsert(s, t, g, c);
      }
    }
  }

  /** `add_guess(g)` twice leaves the same state as once. */
  lemma AddGuessIdempotent(s: GameState, raw: string)
    requires WellFormed(s) && raw != ""
    ensures AfterAddGuess(AfterAddGuess(s, raw), raw) == AfterAddGuess(s, raw)
  {
    var g := Upper(raw);
    var t := AfterAddGuess(s, raw);
    var c := Classify(g, s.letters, s.answers);
    if c != Error || s.storeErrors {
      assert t.guesses + {g} == t.guesses;
      assert t.categories[c] + {g} == t.categories[c];
      assert t.categories[c := t.categories[c] + {g}] == t.categories;
    }
  }

  // ----------------------------------------------------- remove_last_guess

  /** `remove_last_guess` raises KeyError: the last guess is no longer stored
      (as after `reset_game`, which keeps `_last_guess`). */
  predicate RemoveLastGuessRaises(s: GameState)
    requires WellFormed(s)
  {
    match s.lastGuess
    case None => false
    case Some(g) =>
      var c := Classify(g, s.letters, s.answers);
      (c != Error || s.storeErrors) && (g !in s.guesses || g !in s.categories[c])
  }

  /** The state `remove_last_guess()` leaves behind, when it returns or raises. */
  function AfterRemoveLastGuess(s: GameState): (t: GameState)
    requires WellFormed(s)
    ensures WellFormed(t)
    ensures t.date == s.date && t.letters == s.letters && t.answers == s.answers && t.storeErrors == s.storeErrors
  {
    match s.lastGuess
    case None => s
    case Some(g) =>
      var c := Classify(g, s.letters, s.answers);
      if !(c != Error || s.storeErrors) then s
      else if g !in s.guesses then s
      else if g !in s.categories[c] then s.(guesses := s.guesses - {g})
      else s.(guesses := s.guesses - {g}, categories := s.categories[c := s.categories[c] - {g}], lastGuess := None)
  }

  /** `remove_last_guess` keeps the partition invariant; from a consistent
      state it raises only when the last guess is no longer a guess, and
      then changes nothing. */
  lemma RemoveLastGuessEffect(s: GameState)
    requires Consistent(s)
    ensures Consistent(AfterRemoveLastGuess(s))
    ensures RemoveLastGuessRaises(s) <==>
      s.lastGuess.Some? && Accepts(s, s.lastGuess.value) && s.lastGuess.value !in s.guesses
    ensures RemoveLastGuessRaises(s) ==> AfterRemoveLastGuess(s) == s
  {
    var t := AfterRemoveLastGuess(s);
    if s.lastGuess.Some? {
      var g := s.lastGuess.value;
      var k := Classify(g, s.letters, s.answers);
      if (k != Error || s.storeErrors) && g in s.guesses {
        assert g in Filed(s, k);
        forall c | c in t.categories ensures t.categories[c] == Filed(t, c) {
          assert Filed(t, c) == Filed(s, c) - {g};
        }
      }
    }
  }

  /**
   * One level of undo: after an accepted `add_guess(g)` of a new guess,
   * `remove_last_guess()` succeeds, restores the guesses and every category
   * exactly and clears the last guess; a second `remove_last_guess()` is a no-op.
   */
  lemma UndoAfterAdd(s: GameState, raw: string)
    requires Consistent(s) && raw != ""
    requires Upper(raw) !in s.guesses && Accepts(s, Upper(raw))
    ensures !RemoveLastGuessRaises(AfterAddGuess(s, raw))
    ensures AfterRemoveLastGuess(AfterAddGuess(s, raw)).guesses == s.guesses
    ensures AfterRemoveLastGuess(AfterAddGuess(s, raw)).categories == s.categories
    ensures AfterRemoveLastGuess(AfterAddGuess(s, raw)).lastGuess == None
    ensures AfterRemoveLastGuess(AfterRemoveLastGuess(AfterAddGuess(s, raw)))
            == AfterRemoveLastGuess(AfterAddGuess(s, raw))
  {
    var g := Upper(raw);
    var c := Classify(g, s.letters, s.answers);
    var t := AfterAddGuess(s, raw);
    assert g !in s.categories[c];
    assert t.categories[c] - {g} == s.categories[c];
    assert t.guesses - {g} == s.guesses;
    assert t.categories[c := s.categories[c]] == s.categories;
  }

  // --------------------------------------------------- clear_error_guesses

  /** The state `clear_error_guesses()` is meant to leave: every guess filed
      under ERROR (a snapshot taken before removing) is dropped. */
  function AfterClearErrorGuesses(s: GameState): (t: GameState)
    requires WellFormed(s)
    ensures WellFormed(t)
  {
    s.(guesses := s.guesses - s.categories[Error], categories := s.categories[Error := {}])
  }

  /** Clearing errors keeps the invariant, leaves no ERROR guess and keeps
      every other guess. */
  lemma ClearErrorGuessesEffect(s: GameState)
    requires Consistent(s)
    ensures Consistent(AfterClearErrorGuesses(s))
    ensures AfterClearErrorGuesses(s).guesses == set g | g in s.guesses && Classify(g, s.letters, s.answers) != Error
    ensures forall c :: c in AllCategories && c != Error ==> AfterClearErrorGuesses(s).categories[c] == s.categories[c]
  {
    var t := AfterClearErrorGuesses(s);
    forall c | c in t.categories ensures t.categories[c] == Filed(t, c) {
      assert Filed(t, c) == Filed(s, c) - Filed(s, Error);
    }
  }

  /**
   * The loop of `clear_error_guesses` as written: it removes from the ERROR
   * set while iterating over that same set, so after the first removal the
   * iterator raises RuntimeError ("Set changed size during iteration"). A
   * first ERROR guess missing from the guesses makes `remove` raise KeyError
   * before the ERROR set is touched.
   */
  ghost function ClearErrorGuessesAsWritten(s: GameState): (r: (GameState, Option<Exception>))
    requires WellFormed(s)
  {
    var errs := s.categories[Error];
    if errs == {} then (s, None)
    else
      var g :| g in errs;
      if g !in s.guesses then (s, Some(KeyError))
      else (s.(guesses := s.guesses - {g}, categories := s.categories[Error := errs - {g}]), Some(RuntimeError))
  }

  /** With any ERROR guess the loop as written raises: RuntimeError when the
      ERROR set lies within the guesses, as in every consistent state, and
      KeyError with nothing changed when none of its guesses is stored. With
      two or more it also leaves ERROR guesses behind, unlike the intended
      snapshot iteration. */
  lemma ClearErrorGuessesAsWrittenFails(s: GameState)
    requires WellFormed(s) && |s.categories[Error]| >= 1
    ensures s.categories[Error] <= s.guesses ==> ClearErrorGuessesAsWritten(s).1 == Some(RuntimeError)
    ensures (forall g :: g in s.categories[Error] ==> g !in s.guesses) ==>
              ClearErrorGuessesAsWritten(s) == (s, Some(KeyError))
    ensures (s.categories[Error] <= s.guesses && |s.categories[Error]| >= 2) ==>
              ClearErrorGuessesAsWritten(s).0.categories[Error] != {}
    ensures (s.categories[Error] <= s.guesses && |s.categories[Error]| >= 2) ==>
              ClearErrorGuessesAsWritten(s).0 != AfterClearErrorGuesses(s)
  {
    var errs := s.categories[Error];
    var r := ClearErrorGuessesAsWritten(s);
    if errs <= s.guesses {
      var g :| g in errs && r.0.categories[Error] == errs - {g};
      assert |errs - {g}| == |errs| - 1;
    }
  }

  // ------------------------------------------------------------ reset_game

  /** The state `reset_game()` leaves: no guesses, five empty categories; the
      puzzle, the flags and the last-guess pointer are kept. */
  function AfterReset(s: GameState): (t: GameState)
    requires WellFormed(s)
    ensures Consistent(t)
    ensures t.guesses == {} && t.lastGuess == s.lastGuess
  {
    s.(guesses := {}, categories := EmptyCategories())
  }

  /** Because `reset_game` keeps `_last_guess`, a following `remove_last_guess`
      raises KeyError whenever there was an accepted last guess. */
  lemma ResetThenRemoveRaises(s: GameState)
    requires WellFormed(s) && s.lastGuess.Some? && Accepts(s, s.lastGuess.value)
    ensures RemoveLastGuessRaises(AfterReset(s))
    ensures AfterRemoveLastGuess(AfterReset(s)) == AfterReset(s)
  {
  }

  // ----------------------------------------------------------- add_guesses

  /** `add_guess` applied to each of `xs` in turn. */
  function AddAll(s: GameState, xs: seq<string>): (t: GameState)
    requires WellFormed(s) && "" !in xs
    ensures WellFormed(t)
    ensures t.date == s.date && t.letters == s.letters && t.answers == s.answers && t.storeErrors == s.storeErrors
    decreases |xs|
  {
    if |xs| == 0 then s
    else
      assert xs[|xs| - 1] in xs;
      AfterAddGuess(AddAll(s, xs[..|xs| - 1]), xs[|xs| - 1])
  }

  /** The state `add_guesses(raws)` leaves: `add_guess` over the raw strings in sorted order. */
  function AfterAddGuesses(s: GameState, raws: seq<string>): GameState
    requires WellFormed(s) && "" !in raws
  {
    var sorted := Sort(raws);
    assert "" !in multiset(sorted);
    AddAll(s, sorted)
  }

  /** `add_guesses` depends only on which strings are given, not on their order. */
  lemma AddGuessesOrderIndependent(s: GameState, a: seq<string>, b: seq<string>)
    requires WellFormed(s) && "" !in a && multiset(a) == multiset(b)
    ensures "" !in b
    ensures AfterAddGuesses(s, a) == AfterAddGuesses(s, b)
  {
    assert "" !in multiset(b);
    SortPermutationInvariant(a, b);
  }

  /** In the sorted list an empty string can only come first: the prefix
      before position `i` is free of empty strings only if `i` is 0 or no
      empty string occurs at all. */
  lemma EmptySortsFirst(raws: seq<string>, i: nat)
    requires i <= |Sort(raws)| && "" !in Sort(raws)[..i]
    ensures i < |Sort(raws)| && Sort(raws)[i] == "" ==> i == 0 && "" in raws && Sort(raws)[..i] == []
    ensures i == |Sort(raws)| ==> "" !in raws && Sort(raws)[..i] == Sort(raws)
  {
    var sorted := Sort(raws);
    if i < |sorted| && sorted[i] == "" {
      assert sorted[i] in multiset(raws);
      EmptyOnlyAtFront(sorted, i);
    }
    if i == |sorted| {
      assert sorted[..i] == sorted;
      assert "" !in multiset(raws);
    }
  }

  /** Where the loop of `add_guesses` stops: at an empty string, which can
      only come first, nothing has been added yet; at the end, the state is
      `AfterAddGuesses`. */
  lemma AddGuessesStop(s: GameState, raws: seq<string>, i: nat)
    requires WellFormed(s) && i <= |Sort(raws)| && "" !in Sort(raws)[..i]
    ensures i < |Sort(raws)| && Sort(raws)[i] == "" ==> "" in raws && AddAll(s, Sort(raws)[..i]) == s
    ensures i == |Sort(raws)| ==> "" !in raws && AddAll(s, Sort(raws)[..i]) == AfterAddGuesses(s, raws)
  {
    EmptySortsFirst(raws, i);
  }

  /** One turn of the loop of `add_guesses`: adding the next non-empty
      string extends the processed prefix by one. */
  lemma AddGuessesStep(s: GameState, sorted: seq<string>, i: nat)
    requires WellFormed(s) && i < |sorted| && "" !in sorted[..i] && sorted[i] != ""
    ensures "" !in sorted[..i + 1]
    ensures AddAll(s, sorted[..i + 1]) == AfterAddGuess(AddAll(s, sorted[..i]), sorted[i])
  {
    assert sorted[..i + 1] == sorted[..i] + [sorted[i]];
    AddAllSnoc(s, sorted[..i], sorted[i]);
  }

  /** The uppercased forms of the members of `xs` that `add_guess` keeps. */
  function AcceptedOf(s: GameState, xs: seq<string>): set<string>
    requires "" !in xs
  {
    set i | 0 <= i < |xs| && Accepts(s, Upper(xs[i])) :: Upper(xs[i])
  }

  lemma AddAllSnoc(s: GameState, xs: seq<string>, x: string)
    requires WellFormed(s) && "" !in xs && x != ""
    ensures "" !in xs + [x]
    ensures AddAll(s, xs + [x]) == AfterAddGuess(AddAll(s, xs), x)
  {
    assert (xs + [x])[..|xs|] == xs;
  }

  lemma AcceptedOfSnoc(s: GameState, xs: seq<string>, x: string)
    requires "" !in xs && x != ""
    ensures "" !in xs + [x]
    ensures AcceptedOf(s, xs + [x]) == AcceptedOf(s, xs) + (if Accepts(s, Upper(x)) then {Upper(x)} else {})
  {
    var ys := xs + [x];
    forall g | g in AcceptedOf(s, ys) ensures g in AcceptedOf(s, xs) + (if Accepts(s, Upper(x)) then {Upper(x)} else {}) {
      var i :| 0 <= i < |ys| && Accepts(s, Upper(ys[i])) && g == Upper(ys[i]);
      if i < |xs| { assert ys[i] == xs[i]; }
    }
    forall g | g in AcceptedOf(s, xs) ensures g in AcceptedOf(s, ys) {
      var i :| 0 <= i < |xs| && Accepts(s, Upper(xs[i])) && g == Upper(xs[i]);
      assert ys[i] == xs[i];
    }
    if Accepts(s, Upper(x)) {
      assert ys[|xs|] == x;
    }
  }

  /** Adding a list of guesses keeps the invariant and adds exactly the
      accepted ones. */
  lemma {:induction false} AddAllEffect(s: GameState, xs: seq<string>)
    requires Consistent(s) && "" !in xs
    ensures Consistent(AddAll(s, xs))
    ensures AddAll(s, xs).guesses == s.guesses + AcceptedOf(s, xs)
    decreases |xs|
  {
    if |xs| > 0 {
      var n := |xs| - 1;
      var init := xs[..n];
      assert xs == init + [xs[n]];
      assert xs[n] in xs;
      AddAllEffect(s, init);
      AddAllSnoc(s, init, xs[n]);
      AddGuessEffect(AddAll(s, init), xs[n]);
      AcceptedOfSnoc(s, init, xs[n]);
    }
  }

  /** The index of the last entry of `xs` that `add_guess` keeps, or -1. */
  function LastAcceptedIndex(s: GameState, xs: seq<string>): (k: int)
    requires "" !in xs
    ensures -1 <= k < |xs|
    ensures k >= 0 ==> Accepts(s, Upper(xs[k]))
    ensures forall j :: k < j < |xs| ==> !Accepts(s, Upper(xs[j]))
    decreases |xs|
  {
    if |xs| == 0 then -1
    else
      assert xs[|xs| - 1] in xs;
      if Accepts(s, Upper(xs[|xs| - 1])) then |xs| - 1
      else LastAcceptedIndex(s, xs[..|xs| - 1])
  }

  /** The last guess after adding a list is the last accepted entry; when no
      entry is accepted nothing changes at all. */
  lemma {:induction false} AddAllLastGuess(s: GameState, xs: seq<string>)
    requires WellFormed(s) && "" !in xs
    ensures LastAcceptedIndex(s, xs) == -1 ==> AddAll(s, xs) == s
    ensures LastAcceptedIndex(s, xs) >= 0 ==> AddAll(s, xs).lastGuess == Some(Upper(xs[LastAcceptedIndex(s, xs)]))
    decreases |xs|
  {
    if |xs| > 0 {
      var n := |xs| - 1;
      assert xs[n] in xs;
      AddAllLastGuess(s, xs[..n]);
    }
  }

  // ------------------------------------------------------------- _progress

  /** `_progress`: the fraction of the answers found; ZeroDivisionError when there are none. */
  function Progress(s: GameState): (r: Result<real, Exception>)
    requires WellFormed(s)
    ensures r.Failure? <==> |s.answers| == 0
    ensures r.Failure? ==> r.error == ZeroDivisionError
  {
    if |s.answers| == 0 then Failure(ZeroDivisionError)
    else Success(|s.categories[Correct]| as real / |s.answers| as real)
  }

  lemma {:induction false} SubsetCard(a: set<string>, b: set<string>)
    requires a <= b
    ensures |a| <= |b|
    ensures |a| == |b| ==> a == b
    decreases b
  {
    if b != {} {
      var x :| x in b;
      SubsetCard(a - {x}, b - {x});
      assert |b - {x}| == |b| - 1;
      if x in a {
        assert |a - {x}| == |a| - 1;
        if |a| == |b| {
          assert a == (a - {x}) + {x} && b == (b - {x}) + {x};
        }
      } else {
        assert a - {x} == a;
      }
    }
  }

  /** Progress lies in [0, 1] (every CORRECT guess is an answer) and is 1
      exactly when every answer has been found. */
  lemma ProgressBounds(s: GameState)
    requires Consistent(s) && |s.answers| > 0
    ensures 0.0 <= Progress(s).value <= 1.0
    ensures Progress(s).value == 1.0 <==> s.categories[Correct] == s.answers
  {
    var found := s.categories[Correct];
    assert found <= s.answers;
    SubsetCard(found, s.answers);
    var p := Progress(s).value;
    assert p * (|s.answers| as real) == |found| as real;
  }

  // --------------------------------------------------- save_game, load_game

  /** The archive: a snapshot of the game per puzzle date. */
  type Archive = map<Date, GameState>

  /** Every snapshot is consistent and filed under its own date. */
  ghost predicate ArchiveConsistent(archive: Archive)
  {
    forall d :: d in archive ==> archive[d].date == d && Consistent(archive[d])
  }

  /** `save_game(overwrite)`: the snapshot of `s` is written when its date is
      not archived yet or overwriting is allowed. */
  function Saved(archive: Archive, s: GameState, overwrite: bool): (a: Archive)
  {
    if s.date !in archive || overwrite then archive[s.date := s] else archive
  }

  /** Saving keeps every snapshot consistent and filed under its own date. */
  lemma SavedConsistent(archive: Archive, s: GameState, overwrite: bool)
    requires ArchiveConsistent(archive) && Consistent(s)
    ensures ArchiveConsistent(Saved(archive, s, overwrite))
  {
    if s.date !in archive || overwrite {
      var a := archive[s.date := s];
      forall d | d in a ensures a[d].date == d && Consistent(a[d]) {
        if d == s.date {
          assert a[d] == s;
        } else {
          assert a[d] == archive[d];
        }
      }
    }
  }

  /** Saving adds the game's own date and touches no other. */
  lemma SavedEffect(archive: Archive, s: GameState, overwrite: bool)
    ensures Saved(archive, s, overwrite).Keys == archive.Keys + {s.date}
    ensures forall d :: d in archive && d != s.date ==> Saved(archive, s, overwrite)[d] == archive[d]
    ensures (s.date !in archive || overwrite) ==> Saved(archive, s, overwrite)[s.date] == s
    ensures (s.date in archive && !overwrite) ==> Saved(archive, s, overwrite) == archive
  {
  }

  /** Without overwrite a second save for the same date leaves the archive
      unchanged; with overwrite it replaces the snapshot. */
  lemma SaveTwice(archive: Archive, s1: GameState, s2: GameState)
    requires s1.date == s2.date
    ensures Saved(Saved(archive, s1, false), s2, false) == Saved(archive, s1, false)
    ensures Saved(Saved(archive, s1, false), s2, true)[s2.date] == s2
  {
  }

  /** `init_from_bee`: every field is taken from the snapshot except the last guess. */
  function InitFromBee(s: GameState, snapshot: GameState): (t: GameState)
    ensures t.lastGuess == s.lastGuess
  {
    snapshot.(lastGuess := s.lastGuess)
  }

  /** `load_game(d)`: FileNotFoundError when no snapshot exists for `d`. */
  function AfterLoadGame(s: GameState, archive: Archive, d: Date): (r: Result<GameState, Exception>)
    ensures r.Failure? <==> d !in archive
    ensures r.Failure? ==> r.error == FileNotFoundError
  {
    if d in archive then Success(InitFromBee(s, archive[d])) else Failure(FileNotFoundError)
  }

  /** Save then load restores the saved game exactly, apart from the last
      guess, which loading never touches; the loaded state is consistent. */
  lemma SaveLoadRoundTrip(archive: Archive, s: GameState, current: GameState, overwrite: bool)
    requires s.date !in archive || overwrite
    requires Consistent(s) && WellFormed(current)
    ensures AfterLoadGame(current, Saved(archive, s, overwrite), s.date) == Success(s.(lastGuess := current.lastGuess))
    ensures Consistent(s.(lastGuess := current.lastGuess))
  {
    var t := s.(lastGuess := current.lastGuess);
    forall c | c in t.categories ensures t.categories[c] == Filed(t, c) {
      assert Filed(t, c) == Filed(s, c);
    }
  }

  /** The worked puzzle: letters A B C D E G L around L, answers CABLE and BADGE. */
  const ExampleLetters: BeeLetters := BeeLetters({'A', 'B', 'C', 'D', 'E', 'G', 'L'}, 'L')
  const ExampleAnswers: set<string> := {"CABLE", "BADGE"}

  /** How the worked puzzle classifies three guesses: CABLE is an answer,
      ZEBRA uses letters outside the puzzle, LEAD is valid but no answer. */
  lemma ExampleClassifications()
    ensures Upper("cable") == "CABLE" && Classify("CABLE", ExampleLetters, ExampleAnswers) == Correct
    ensures Upper("zebra") == "ZEBRA" && Classify("ZEBRA", ExampleLetters, ExampleAnswers) == Error
    ensures Upper("lead") == "LEAD" && Classify("LEAD", ExampleLetters, ExampleAnswers) == Missing
  {
    assert !ExampleLetters.IsValidWord("ZEBRA") by { assert "ZEBRA"[0] !in ExampleLetters.validLetters; }
  }

  /**
   * A worked game: "cable" is CORRECT and makes progress one half, "zebra"
   * is ERROR and dropped, "lead" is MISSING.
   */
  lemma ExampleGame()
    ensures
      var s0 := NewGame(Date(2023, 1, 1), ExampleLetters, ExampleAnswers);
      var s1 := AfterAddGuess(s0, "cable");
      var s2 := AfterAddGuess(s1, "zebra");
      var s3 := AfterAddGuess(s2, "lead");
      && s1.categories[Correct] == {"CABLE"}
      && Progress(s1) == Success(0.5)
      && s2 == s1
      && s3.categories[Missing] == {"LEAD"}
      && s3.guesses == {"CABLE", "LEAD"}
  {
    ExampleClassifications();
    var s0 := NewGame(Date(2023, 1, 1), ExampleLetters, ExampleAnswers);
    var s1 := AfterAddGuess(s0, "cable");
    assert s1.categories[Correct] == {"CABLE"};
    assert |ExampleAnswers| == 2;
  }

  // ------------------------------------------------------------- the object

  class Bee {
    var date: Date
    var letters: BeeLetters
    var answers: set<string>
    var guesses: set<string>
    var categories: map<GuessCategory, set<string>>
    var lastGuess: Option<string>
    var storeErrors: bool

    function State(): GameState
      reads this
    {
      GameState(date, letters, answers, guesses, categories, lastGuess, storeErrors)
    }

    ghost predicate Valid()
      reads this
    {
      Consistent(State())
    }

    /** `Bee(game_date, letters, answers, guesses)`: a fresh game into which the
        initial guesses are added in sorted order. */
    constructor (gameDate: Date, puzzleLetters: BeeLetters, puzzleAnswers: set<string>, initialGuesses: seq<string>)
      requires ValidDate(gameDate) && "" !in initialGuesses
      ensures Valid()
      ensures State() == AfterAddGuesses(NewGame(gameDate, puzzleLetters, puzzleAnswers), initialGuesses)
    {
      date := gameDate;
      letters := puzzleLetters;
      answers := puzzleAnswers;
      guesses := {};
      categories := EmptyCategories();
      lastGuess := None;
      storeErrors := false;
      new;
      var err := AddGuesses(initialGuesses);
    }

    method AddGuess(raw: string) returns (err: Option<Exception>)
      requires Valid()
      modifies this
      ensures Valid()
      ensures err == (if raw == "" then Some(IndexError) else None)
      ensures raw == "" ==> State() == old(State())
      ensures raw != "" ==> State() == AfterAddGuess(old(State()), raw)
    {
      var guess := Upper(raw);
      if guess == "" {
        return Some(IndexError);
      }
      AddGuessEffect(State(), raw);
      var category := Classify(guess, letters, answers);
      if category != Error || storeErrors {
        guesses := guesses + {guess};
        categories := categories[category := categories[category] + {guess}];
        lastGuess := Some(guess);
      }
      err := None;
    }

    /** `add_guesses`: the raw strings in sorted order; an empty string sorts
        first, so its IndexError comes before any change. */
    method AddGuesses(raws: seq<string>) returns (err: Option<Exception>)
      requires Valid()
      modifies this
      ensures Valid()
      ensures err == (if "" in raws then Some(IndexError) else None)
      ensures "" in raws ==> State() == old(State())
      ensures "" !in raws ==> State() == AfterAddGuesses(old(State()), raws)
    {
      ghost var start := State();
      var sorted := Sort(raws);
      var i := 0;
      while i < |sorted|
        invariant 0 <= i <= |sorted|
        invariant Valid()
        invariant "" !in sorted[..i]
        invariant State() == AddAll(start, sorted[..i])
      {
        var guess := sorted[i];
        err := AddGuess(guess);
        if err.Some? {
          AddGuessesStop(start, raws, i);
          return;
        }
        AddGuessesStep(start, sorted, i);
        i := i + 1;
      }
      AddGuessesStop(start, raws, i);
      err := None;
    }

    method RemoveLastGuess() returns (err: Option<Exception>)
      requires Valid()
      modifies this
      ensures Valid()
      ensures err == (if RemoveLastGuessRaises(old(State())) then Some(KeyError) else None)
      ensures State() == AfterRemoveLastGuess(old(State()))
    {
      RemoveLastGuessEffect(State());
      err := None;
      if lastGuess.Some? {
        var guess := lastGuess.value;
        var category := Classify(guess, letters, answers);
        if category != Error || storeErrors {
          if guess !in guesses {
            // `self._guesses.remove(guess)` raises before anything changes.
            return Some(KeyError);
          }
          // While the invariant holds the guess is in its category set too.
          guesses := guesses - {guess};
          categories := categories[category := categories[category] - {guess}];
          lastGuess := None;
        }
      }
    }

    /** `clear_error_guesses`, iterating over a copy of the ERROR set. */
    method ClearErrorGuesses()
      requires Valid()
      modifies this
      ensures Valid()
      ensures State() == AfterClearErrorGuesses(old(State()))
    {
      ClearErrorGuessesEffect(State());
      var errors := categories[Error];
      var remaining := errors;
      while remaining != {}
        invariant remaining <= errors
        invariant guesses == old(guesses) - (errors - remaining)
        invariant categories == old(categories)[Error := remaining]
        invariant date == old(date) && letters == old(letters) && answers == old(answers)
        invariant lastGuess == old(lastGuess) && storeErrors == old(storeErrors)
        decreases remaining
      {
        var guess :| guess in remaining;
        guesses := guesses - {guess};
        categories := categories[Error := categories[Error] - {guess}];
        remaining := remaining - {guess};
      }
    }

    method ResetGame()
      requires Valid()
      modifies this
      ensures Valid()
      ensures State() == AfterReset(old(State()))
    {
      guesses := {};
      categories := EmptyCategories();
    }

    /** `save_game(overwrite)` against the archive, `overwrite` defaulting to true: returns the archive afterwards. */
    method SaveGame(archive: Archive, overwrite: bool := true) returns (archive': Archive)
      requires Valid()
      ensures archive' == Saved(archive, State(), overwrite)
    {
      var snapshot := State();
      if date !in archive || overwrite {
        archive' := archive[date := snapshot];
      } else {
        archive' := archive;
      }
    }

    /** `load_game(game_date)`: the snapshot's fields replace this game's,
        except the last guess. */
    method LoadGame(archive: Archive, gameDate: Date) returns (err: Option<Exception>)
      requires Valid() && ArchiveConsistent(archive)
      modifies this
      ensures Valid()
      ensures err == (if gameDate in archive then None else Some(FileNotFoundError))
      ensures gameDate !in archive ==> State() == old(State())
      ensures gameDate in archive ==> State() == AfterLoadGame(old(State()), archive, gameDate).value
    {
      if gameDate !in archive {
        return Some(FileNotFoundError);
      }
      var snapshot := archive[gameDate];
      var t := InitFromBee(State(), snapshot);
      forall c | c in t.categories ensures t.categories[c] == Filed(t, c) {
        assert Filed(t, c) == Filed(snapshot, c);
      }
      date := snapshot.date;
      letters := snapshot.letters;
      answers := snapshot.answers;
      guesses := snapshot.guesses;
      categories := snapshot.categories;
      storeErrors := snapshot.storeErrors;
      err := None;
    }
  }
}
