# Spelling Bee helper: guess engine, archive naming and hint tiers in Dafny

This project models the core of a Spelling Bee helper written in Python:

- **Letters and classifier** (`bee_engine.py`, module `Letters`). A puzzle has valid letters and a
  center letter. A guess is valid when every character is a valid letter. A non-empty, uppercased
  guess is classified with a fixed priority: PREFIX (ends in `-` and the rest is valid), then
  SUFFIX (starts with `-` and the rest is valid), then CORRECT (an answer), then MISSING (valid
  letters only), then ERROR.
- **Game state** (`bee_engine.py`, module `BeeEngine`). A `Bee` owns a guess set, five category
  sets, a last-guess pointer and a store-errors flag. The class `Bee` updates these fields in
  place, as the source does. The datatype `GameState` is the value of those fields; it is also
  what the archive stores. Each method is proved against a function `After...` that gives the
  state it leaves. The lemmas about those functions state the engine's promises:
  - every category set holds exactly the guesses that classify into it, so the five sets
    partition the guesses;
  - `add_guess` is idempotent and `remove_last_guess` undoes it;
  - `add_guesses` does not depend on the order of its input;
  - progress lies in [0, 1];
  - saving then loading restores the game.

  The archive is a map from date to snapshot.
- **Archive naming** (`archive_helper.py`, module `ArchiveHelper`). A date becomes
  `bee-YYYY-MM-DD.pkl` or `json-YYYY-MM-DD.txt`. A file name is parsed back by dropping the
  extension and the first `-`-separated field. The game directory listing is filtered by
  extension. The directory listing is an input.
- **Hints** (`bee_interface.py`, module `BeeInterface`). The number of revealed letters is the
  first tier of `[0.7, 0.8, 0.9, 0.95, inf]` above the progress. The hint rows pair the first
  letters of each unfound answer with its length.
- Supporting modules: `PyText` (the Python string operations used: `upper`, `split`, `join`,
  `int`, `strftime` digits, `os.path.splitext`), `StringOrder` (Python string ordering and
  `sorted`) and `Wrappers` (`Option`, `Result`).

Python exceptions are modelled as explicit outcomes:
- `add_guess("")` raises IndexError, because the classifier indexes the last character.
- `remove_last_guess` after `reset_game` raises KeyError, because `reset_game` keeps
  `_last_guess`.
- `_progress` raises ZeroDivisionError when there are no answers.
- `load_game` raises FileNotFoundError for an unarchived date.
- `filename_to_date` raises ValueError, TypeError or OverflowError (a field beyond the C int
  range); here these are `DateError` values.

Progress is the exact ratio `|CORRECT| / |answers|` as a Dafny `real`; `np.inf` is the `Unbounded`
tier.

Three behaviours of the code that the model keeps as written:
- A lone `-` is PREFIX (bee_engine.py:105-106): the text before the marker is empty, and
  `is_valid_word("")` holds vacuously.
- `is_valid_word` does not uppercase its argument (bee_engine.py:39-42; the `upper` call is
  commented out). Only `add_guess` uppercases.
- `reset_game` empties the guesses and categories but does not clear `_last_guess`
  (bee_engine.py:143-149).

## Model

| member | source | states |
|---|---|---|
| `PyText.UpperChar` | bee_engine.py:118 | an ASCII lower-case letter becomes the upper-case letter 32 code points below it; every other character is unchanged |
| `PyText.Upper` | bee_engine.py:118 | `guess.upper()` keeps the length and applies `UpperChar` at every position, so each ASCII lower-case letter becomes its upper-case counterpart |
| `PyText.Split` | archive_helper.py:59 | `str.split` on one separator character always gives at least one piece; characterised by `PyText.SplitJoin` |
| `PyText.Join` | archive_helper.py:59 | definition of `sep.join`; characterised by `PyText.SplitJoin` |
| `PyText.SplitJoin` | archive_helper.py:59 | `split('-')` undoes `'-'.join` when no piece contains `-` |
| `PyText.ParseDecimal` | archive_helper.py:63 | `int(s)` succeeds exactly on non-empty strings of decimal digits |
| `PyText.DecimalRoundTrip` | archive_helper.py:35-37 | parsing a zero-padded decimal rendering of `n` gives `n` back, whatever the padding |
| `PyText.DecimalWidth2` | archive_helper.py:37 | months and days print in exactly two digits |
| `PyText.SplitExt` | archive_helper.py:18-20 | `os.path.splitext` returns a root and extension that concatenate to the path; the extension is empty or one leading dot with no further dot or `/` |
| `PyText.SplitExtHasExtension` | archive_helper.py:18-20 | for a name without `/`, `splitext` finds an extension if and only if some character before the last `.` is not a dot, so `.pkl` has no extension |
| `PyText.SplitExtOfName` | archive_helper.py:18-20 | a name `root + ext` with a single-dot extension, no `/`, and a root with at least one non-dot character splits back into exactly `root` and `ext` |
| `StringOrder.Le` | bee_engine.py:126 | definition of Python's `<=` on strings (code point by code point, a proper prefix first); characterised by the four lemmas below and `StringOrder.EmptyIsLeast` |
| `StringOrder.LeReflexive` | bee_engine.py:126 | every string is `<=` itself |
| `StringOrder.LeAntisymmetric` | bee_engine.py:126 | `a <= b` and `b <= a` only for equal strings |
| `StringOrder.LeTransitive` | bee_engine.py:126 | the string order is transitive |
| `StringOrder.LeTotal` | bee_engine.py:126 | any two strings are comparable, so `sorted` has a single answer |
| `StringOrder.EmptyIsLeast` | bee_engine.py:126 | the empty string is below every string, and only it is below the empty string |
| `StringOrder.Sort` | bee_engine.py:126 | `sorted(guesses)` is ordered by Python string order and is a permutation of its input |
| `StringOrder.SortedUnique` | bee_engine.py:126 | two sorted lists with the same multiset of strings are equal |
| `StringOrder.SortPermutationInvariant` | bee_engine.py:126 | `sorted` gives the same list for every ordering of the same input |
| `StringOrder.EmptyOnlyAtFront` | bee_engine.py:126 | in a sorted list an empty string is preceded only by empty strings, so a first empty string sits at index 0 |
| `StringOrder.SortedElements` | bee_interface.py:35 | `sorted(set)` lists each element of the set once, in increasing order |
| `ArchiveHelper.DateToDateStr` | archive_helper.py:35-37 | definition of `strftime('%Y-%m-%d')`; characterised by `ArchiveHelper.DateStrRoundTrip` |
| `ArchiveHelper.DateToGameFilename` | archive_helper.py:39-42 | the name starts with `bee-` and ends with `.pkl`; characterised by `ArchiveHelper.GameFilenameRoundTrip` |
| `ArchiveHelper.DateToJsonFilename` | archive_helper.py:48-51 | the name starts with `json-` and ends with `.txt`; characterised by `ArchiveHelper.JsonFilenameRoundTrip` |
| `ArchiveHelper.FilenameExtension` | archive_helper.py:18-20 | the extension is empty or a suffix of the name that starts with its only dot and has no `/` |
| `ArchiveHelper.FilenameToDateStr` | archive_helper.py:57-59 | definition; characterised by `ArchiveHelper.FilenameRoundTrip` |
| `ArchiveHelper.ParseFields` | archive_helper.py:63 | `int()` over the fields succeeds iff every field is a number, and gives each field's value |
| `ArchiveHelper.FilenameToDate` | archive_helper.py:61-63 | a successfully parsed file name always yields a valid calendar date |
| `ArchiveHelper.DateStrRoundTrip` | archive_helper.py:35-37 | splitting `YYYY-MM-DD` on `-` and parsing the fields gives the year, month and day |
| `ArchiveHelper.FilenameRoundTrip` | archive_helper.py:35-63 | for any prefix without `-` or `/` and any single-dot extension, the extension is recovered, dropping the first `-` field removes exactly the prefix, and the date parses back |
| `ArchiveHelper.GameFilenameRoundTrip` | archive_helper.py:39-63 | `filename_to_date(date_to_game_filename(d)) == d`, `filename_to_date_str` gives `date_to_date_str(d)`, and the extension is `.pkl` |
| `ArchiveHelper.JsonFilenameRoundTrip` | archive_helper.py:48-63 | `filename_to_date(date_to_json_filename(d)) == d`; its extension `.txt` never passes the snapshot filter |
| `ArchiveHelper.GameFilenameInjective` | archive_helper.py:39-42 | distinct valid dates get distinct snapshot file names |
| `ArchiveHelper.GetAllFilenames` | archive_helper.py:22-25 | the filtered listing is no longer than the listing; characterised by `ArchiveHelper.GetAllFilenamesMembers` and `ArchiveHelper.GetAllFilenamesAppend` |
| `ArchiveHelper.GetAllFilenamesMembers` | archive_helper.py:22-25 | the filtered listing holds exactly the listing entries whose extension is `.pkl` |
| `ArchiveHelper.GetAllFilenamesAppend` | archive_helper.py:25 | the filter distributes over concatenated listings, so it keeps listing order |
| `ArchiveHelper.ParseDates` | archive_helper.py:28-29 | the dates of the snapshot files parse one per file, and parsing fails iff some file name does not parse |
| `ArchiveHelper.ParseDatesIff` | archive_helper.py:27-29 | `filename_to_date` over a list of names raises iff some name does not parse; otherwise a date is in the result iff some name parses to it |
| `ArchiveHelper.GetAllFileDates` | archive_helper.py:27-29 | definition; characterised by `ArchiveHelper.ParseDatesIff` |
| `ArchiveHelper.IsGameDateArchived` | archive_helper.py:31-33 | definition; characterised by `ArchiveHelper.IsGameDateArchivedIff` and `ArchiveHelper.ArchivedIffListed` |
| `ArchiveHelper.IsGameDateArchivedIff` | archive_helper.py:27-33 | `is_game_date_archived(d)` raises iff some `.pkl` entry does not parse; otherwise it holds iff some `.pkl` entry parses to `d` |
| `ArchiveHelper.FilteredNamesParse` | archive_helper.py:22-27 | when every `.pkl` entry of a listing is the snapshot file of an archived date, every name the filter keeps parses to a date |
| `ArchiveHelper.ArchivedIffListed` | archive_helper.py:22-33 | when the `.pkl` entries of the listing are exactly the snapshot files of a set of dates (other files may be present), `is_game_date_archived(d)` is membership of `d` in that set |
| `Letters.BeeLetters.NonCenterLetters` | bee_engine.py:35-37 | the non-center letters exclude the center letter and, with it, cover the valid letters |
| `Letters.BeeLetters.IsValidWord` | bee_engine.py:39-42 | definition; characterised by `Letters.IsValidWordIffChars` and `Letters.IsValidWordConcat` |
| `Letters.IsValidWordIffChars` | bee_engine.py:39-42 | a word is valid iff the set of its characters is contained in the valid letters (so the empty word is valid) |
| `Letters.IsValidWordConcat` | bee_engine.py:39-42 | a concatenation is valid iff both parts are |
| `Letters.CenterLetterNotRequired` | bee_engine.py:39-42 | a word of one non-center letter is valid without the center letter |
| `Letters.Classify` | bee_engine.py:99-115 | CORRECT only for answers; MISSING only for valid non-answers; ERROR only for invalid non-answers |
| `Letters.LoneMarkerIsPrefix` | bee_engine.py:105-106 | `"-"` is classified PREFIX |
| `Letters.ValidNonAnswerIsMissing` | bee_engine.py:105-112 | a valid non-answer without a marker at either end is MISSING |
| `Letters.AnswerIsCorrect` | bee_engine.py:105-110 | an answer without a marker at either end is CORRECT |
| `Letters.ErrorIff` | bee_engine.py:105-115 | ERROR iff the word is not an answer and none of its three readings (whole, without trailing marker, without leading marker) uses only valid letters |
| `Letters.InvalidInteriorLetterIsError` | bee_engine.py:105-115 | a non-answer with an invalid letter away from both ends is ERROR |
| `BeeEngine.EmptyCategories` | bee_engine.py:54-58 | the fresh category dictionary has all five categories, each empty |
| `BeeEngine.ConsistentPartitions` | bee_engine.py:117-149 | under the invariant the five category sets partition the guesses: each holds only guesses, every guess lies in one, and no guess lies in two |
| `BeeEngine.AfterAddGuess` | bee_engine.py:117-123 | `add_guess` keeps the state well formed and never changes the date, letters, answers or the store-errors flag |
| `BeeEngine.AddGuessEffect` | bee_engine.py:117-123 | an accepted guess is added uppercased to the guesses, lies in exactly its own category and becomes the last guess; an ERROR guess with errors not stored changes nothing; the partition invariant is preserved |
| `BeeEngine.AddGuessIdempotent` | bee_engine.py:117-123 | `add_guess(g)` twice leaves the same state as once |
| `BeeEngine.RemoveLastGuessRaises` | bee_engine.py:134-135 | definition of when `set.remove` raises KeyError; characterised by `BeeEngine.RemoveLastGuessEffect` and `BeeEngine.ResetThenRemoveRaises` |
| `BeeEngine.AfterRemoveLastGuess` | bee_engine.py:129-136 | `remove_last_guess` keeps the state well formed and never changes the puzzle or the flag |
| `BeeEngine.RemoveLastGuessEffect` | bee_engine.py:129-136 | removal keeps the invariant; from a consistent state it raises KeyError iff the accepted last guess is no longer a guess, and then changes nothing |
| `BeeEngine.UndoAfterAdd` | bee_engine.py:117-136 | after an accepted add of a new guess, removal succeeds, restores the guesses and all categories exactly and clears the last guess; a second removal is a no-op |
| `BeeEngine.AfterClearErrorGuesses` | bee_engine.py:138-141 | clearing errors keeps the state well formed |
| `BeeEngine.ClearErrorGuessesEffect` | bee_engine.py:138-141 | clearing errors keeps the invariant, keeps exactly the non-ERROR guesses and leaves the other four categories unchanged |
| `BeeEngine.ClearErrorGuessesAsWritten` | bee_engine.py:138-141 | definition of the loop as written: one guess is removed, then the iterator raises RuntimeError; a first ERROR guess missing from the guesses raises KeyError instead; characterised by `BeeEngine.ClearErrorGuessesAsWrittenFails` |
| `BeeEngine.ClearErrorGuessesAsWrittenFails` | bee_engine.py:138-141 | the loop as written raises RuntimeError whenever there is an ERROR guess and the ERROR set lies within the guesses (every consistent state); KeyError with nothing changed when no ERROR guess is stored; with two or more ERROR guesses it also leaves some behind |
| `BeeEngine.AfterReset` | bee_engine.py:143-149 | reset leaves no guesses and a consistent state, and keeps the last-guess pointer |
| `BeeEngine.ResetThenRemoveRaises` | bee_engine.py:129-149 | after reset, removing an accepted last guess raises KeyError and changes nothing |
| `BeeEngine.AddAll` | bee_engine.py:126-127 | adding a list keeps the state well formed and never changes the puzzle or the flag |
| `BeeEngine.EmptySortsFirst` | bee_engine.py:125-127 | an empty raw guess sorts to index 0, so `add_guesses` raises before any change; if none is present the loop runs to the end |
| `BeeEngine.AddGuessesStep` | bee_engine.py:126-127 | one turn of the loop over the sorted strings adds the next non-empty string with `add_guess` |
| `BeeEngine.AddGuessesStop` | bee_engine.py:125-127 | the loop stopping at an empty string means an empty raw guess was given and nothing was added; the loop running to the end means there was none, and it leaves the state `add_guesses` specifies |
| `BeeEngine.AfterAddGuesses` | bee_engine.py:125-127 | definition: `add_guess` over the sorted raw strings; characterised by `BeeEngine.AddGuessesOrderIndependent`, `BeeEngine.AddAllEffect` and `BeeEngine.AddAllLastGuess` |
| `BeeEngine.AddGuessesOrderIndependent` | bee_engine.py:125-127 | `add_guesses` on two orderings of the same strings leaves the same state, the last guess included |
| `BeeEngine.LastAcceptedIndex` | bee_engine.py:120-127 | the index of the last accepted entry: that entry is accepted and none after it is |
| `BeeEngine.AddAllEffect` | bee_engine.py:117-127 | adding a list keeps the invariant and adds exactly the uppercased accepted entries |
| `BeeEngine.AddAllLastGuess` | bee_engine.py:117-127 | the last guess becomes the last accepted entry in processing order; with no accepted entry nothing changes |
| `BeeEngine.Progress` | bee_engine.py:93-95 | progress raises ZeroDivisionError exactly when there are no answers |
| `BeeEngine.ProgressBounds` | bee_engine.py:93-95 | progress lies in [0, 1] and is 1 exactly when every answer is found |
| `BeeEngine.Saved` | bee_engine.py:153-157 | definition of the archive after `save_game`; characterised by `BeeEngine.SavedEffect`, `BeeEngine.SavedConsistent` and `BeeEngine.SaveTwice` |
| `BeeEngine.SavedConsistent` | bee_engine.py:153-157 | saving a consistent game into a consistent archive keeps every snapshot consistent and filed under its own date |
| `BeeEngine.SavedEffect` | bee_engine.py:153-157 | saving writes the snapshot iff its date is unarchived or overwrite is set, adds only the game's date and touches no other date |
| `BeeEngine.SaveTwice` | bee_engine.py:153-157 | a second save without overwrite leaves the archive unchanged; with overwrite it replaces the snapshot |
| `BeeEngine.InitFromBee` | bee_engine.py:69-75 | `init_from_bee` never changes the last guess |
| `BeeEngine.AfterLoadGame` | bee_engine.py:172-175 | loading fails exactly for unarchived dates, and the failure is FileNotFoundError |
| `BeeEngine.SaveLoadRoundTrip` | bee_engine.py:153-175 | save then load restores the saved game exactly, except the last guess, and the result is consistent |
| `BeeEngine.ExampleClassifications` | bee_engine.py:105-115 | in the worked puzzle, "cable" uppercases to an answer (CORRECT), "zebra" uses letters outside the puzzle (ERROR) and "lead" is valid but no answer (MISSING) |
| `BeeEngine.ExampleGame` | bee_engine.py:99-123 | in the worked puzzle, "cable" is CORRECT with progress one half, "zebra" is dropped as ERROR and "lead" is MISSING |
| `BeeEngine.Bee.constructor` | bee_engine.py:48-61 | a new game is consistent and equals the empty game with the initial guesses added in sorted order |
| `BeeEngine.Bee.AddGuess` | bee_engine.py:117-123 | updates the fields to `AfterAddGuess` and keeps the invariant; an empty guess raises IndexError and changes nothing |
| `BeeEngine.Bee.AddGuesses` | bee_engine.py:125-127 | runs `add_guess` over the sorted raw strings; an empty string raises IndexError before any change |
| `BeeEngine.Bee.RemoveLastGuess` | bee_engine.py:129-136 | updates the fields to `AfterRemoveLastGuess` and reports KeyError exactly when the source raises it |
| `BeeEngine.Bee.ClearErrorGuesses` | bee_engine.py:138-141 | iterating over a copy of the ERROR set, drops every ERROR guess and keeps the invariant |
| `BeeEngine.Bee.ResetGame` | bee_engine.py:143-149 | empties the guesses and categories, keeps everything else and the invariant |
| `BeeEngine.Bee.SaveGame` | bee_engine.py:153-157 | returns the archive after `save_game(overwrite)`, with `overwrite` defaulting to true as in the source |
| `BeeEngine.Bee.LoadGame` | bee_engine.py:172-175 | replaces every field but the last guess with the snapshot's, or raises FileNotFoundError and changes nothing |
| `BeeInterface.FirstExceeding` | bee_interface.py:12-13 | `next` over a tier table ending in infinity returns the least index whose tier exceeds the progress |
| `BeeInterface.NumberOfLetterHints` | bee_interface.py:8-13 | the number of hint letters is in 0..4 and is the least tier index above the progress |
| `BeeInterface.LetterHintsByProgress` | bee_interface.py:8-13 | 0 below 0.7, 1 in [0.7, 0.8), 2 in [0.8, 0.9), 3 in [0.9, 0.95), 4 from 0.95 on |
| `BeeInterface.LetterHintsMonotone` | bee_interface.py:10-13 | more progress never gives fewer hint letters |
| `BeeInterface.HintOf` | bee_interface.py:36 | a hint row is the first `min(n, len(word))` letters of the word and its length |
| `BeeInterface.RemainingWords` | bee_interface.py:35 | the unfound answers, each once, in sorted order |
| `BeeInterface.Hints` | bee_interface.py:33-36 | the hint rows fail exactly when there are no answers, and the failure is ZeroDivisionError |
| `BeeInterface.HintsRows` | bee_interface.py:33-36 | one row per unfound answer, in sorted order, each the word's first letters and its length |
| `BeeInterface.HintsWhenComplete` | bee_interface.py:33-36 | once every answer is found there are no rows and the tier is 4 |

## Findings

| source | as written | input that shows it | evidently intended | confidence | as-written member | corrected member |
|---|---|---|---|---|---|---|
| bee_engine.py:138-141 | `clear_error_guesses` removes guesses from the ERROR set while iterating over that same set, so CPython, which checks the set's size on every step of the iterator, raises RuntimeError ("Set changed size during iteration") right after the first removal | a game whose ERROR set holds one guess (reachable only with `_store_errors` set, which the code never does); with two or more, ERROR guesses are also left behind | remove every ERROR guess by iterating over a copy of the set | high for Python's set semantics; latent in practice; not executed | `BeeEngine.ClearErrorGuessesAsWrittenFails` | `BeeEngine.ClearErrorGuessesEffect` |

## Left out

- Network access and HTML scraping (`webcrawler.py`): the puzzle's letters and answers are
  constructor inputs, already uppercased. `init_from_json_str` is covered by the constructor.
- Pickle serialisation and the protocol-reloading helper: a snapshot is a `GameState` value in a
  date-to-snapshot map. File I/O (`open`, `listdir`, path joins) is left out too, and so are
  `save_json_str`, `load_json_str`, `archive_from_crawler` and `start_game`'s `date.today()`
  default.
- `BeeEngine.Bee.SaveGame`: decides on the abstract archive map, not on a directory listing.
  `ArchiveHelper.ArchivedIffListed` shows the two agree when the listing's `.pkl` entries are
  the archive's snapshot files, whatever other files it holds. A listing with an unparsable
  `.pkl` name, which makes the source raise, is not modelled here. Nor is a `.pkl` name that
  parses but is not canonical, such as `bee-2023-1-1.pkl`: it makes `is_game_date_archived`
  true for 2023-01-01 while `load_game` still fails with FileNotFoundError on
  `bee-2023-01-01.pkl`, which a date-to-snapshot map cannot represent.
- `BeeEngine.Bee.LoadGame`: requires every stored snapshot to be consistent and filed under its
  own date. That holds for what `SaveGame` writes; an arbitrary unpickled object is not modelled.
- `BeeEngine.Bee.constructor`: requires no empty initial guess. The source raises IndexError from
  inside `__init__` instead.
- `Letters.Classify`: requires a non-empty word. The source raises IndexError; `Bee.AddGuess`
  models that error.
- `PyText.UpperChar`, `PyText.Upper`: only ASCII letters are case-mapped; every other character,
  including a non-ASCII lower-case letter, is kept. Python's full Unicode mapping (for example
  `é` to `É`, `ß` to `SS`) is not modelled.
- `PyText.ParseDecimal`: accepts only ASCII digit strings. Python's `int` also accepts
  surrounding whitespace, a leading `+`, underscores between digits and non-ASCII digits.
- `ArchiveHelper.DateToDateStr`: prints the year with four digits, zero-padded. Some C libraries
  print years below 1000 without padding; the round trip holds either way, because `int`
  ignores leading zeros.
- `date_to_game_filename` passes the finished name through `strftime` a second time. This is
  the identity here, because the name contains no `%`.
- `warnings.warn` for duplicate and invalid guesses: warnings have no effect on state.
- Terminal and pandas output (`print_word_list`, `print_guesses`, the `groupby` count,
  `new_guess`), `__str__`/`__repr__`, `_sorted_guesses`, the unused `GuessCategory.UNKNOWN`, and
  the `main.py` driver.
- A `Bee` or `BeeLetters` built from the default arguments, with no date and an empty center
  letter: every modelled game has a valid date and a one-character center letter. Shared
  mutable default arguments do not arise with Dafny values.
- Floating-point progress: progress is an exact `real`, and `np.inf` is a tier that every
  progress value is below.
