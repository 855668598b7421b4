/**
 * The date-keyed archive naming scheme: a puzzle date becomes
 * `bee-YYYY-MM-DD.pkl` (game snapshots) or `json-YYYY-MM-DD.txt` (raw
 * payloads), a file name is parsed back into a date, and the directory
 * listing of the game archive is filtered to the snapshot files.
 * The listing itself (`os.listdir`) is an input here.
 */
module ArchiveHelper {
  import opened Wrappers
  import opened PyText

  /** A `datetime.date`. */
  datatype Date = Date(year: int, month: int, day: int)

  const MinYear := 1
  const MaxYear := 9999

  predicate IsLeapYear(y: int)
  {
    y % 4 == 0 && (y % 100 != 0 || y % 400 == 0)
  }

  function DaysInMonth(y: int, m: int): (n: int)
    requires 1 <= m <= 12
    ensures 28 <= n <= 31
  {
    if m == 2 then (if IsLeapYear(y) then 29 else 28)
    else if m == 4 || m == 6 || m == 9 || m == 11 then 30
    else 31
  }

  /** The dates `datetime.date(year, month, day)` accepts. */
  predicate ValidDate(d: Date)
  {
    MinYear <= d.year <= MaxYear && 1 <= d.month <= 12 && 1 <= d.day <= DaysInMonth(d.year, d.month)
  }

  const GameFilePrefix: string := "bee"
  const GameFileExtension: string := ".pkl"
  const JsonFilePrefix: string := "json"
  const JsonFileExtension: string := ".txt"

  // ------------------------------------------------------------ formatting

  /** `strftime('%Y-%m-%d')`. */
  function DateToDateStr(d: Date): (s: string)
    requires ValidDate(d)
  {
    Decimal(d.year, 4) + "-" + Decimal(d.month, 2) + "-" + Decimal(d.day, 2)
  }

  /** The name every snapshot of `prefix` files is stored under for `d`. */
  function DateToFilename(prefix: string, d: Date, ext: string): (r: string)
    requires ValidDate(d)
    ensures |r| > |prefix| + |ext|
    ensures r[..|prefix|] == prefix && r[|prefix|] == '-' && r[|r| - |ext|..] == ext
  {
    prefix + "-" + DateToDateStr(d) + ext
  }

  function DateToGameFilename(d: Date): (r: string)
    requires ValidDate(d)
    ensures |r| > |GameFilePrefix| + |GameFileExtension|
    ensures r[..|GameFilePrefix|] == GameFilePrefix && r[|GameFilePrefix|] == '-'
    ensures r[|r| - |GameFileExtension|..] == GameFileExtension
  {
    DateToFilename(GameFilePrefix, d, GameFileExtension)
  }

  function DateToJsonFilename(d: Date): (r: string)
    requires ValidDate(d)
    ensures |r| > |JsonFilePrefix| + |JsonFileExtension|
    ensures r[..|JsonFilePrefix|] == JsonFilePrefix && r[|JsonFilePrefix|] == '-'
    ensures r[|r| - |JsonFileExtension|..] == JsonFileExtension
  {
    DateToFilename(JsonFilePrefix, d, JsonFileExtension)
  }

  // --------------------------------------------------------------- parsing

  /** `filename_extension`: empty, or a dot-led suffix of the name with no further dot and no '/'. */
  function FilenameExtension(filename: string): (r: string)
    ensures r == "" || (r[0] == '.' && '.' !in r[1..] && '/' !in r)
    ensures |r| <= |filename| && filename[|filename| - |r|..] == r
  {
    var parts := SplitExt(filename);
    assert filename[|parts.0|..] == parts.1;
    parts.1
  }

  /** Everything after the first '-' of the name without its extension. */
  function FilenameToDateStr(filename: string): string
  {
    Join(Split(SplitExt(filename).0, '-')[1..], '-')
  }

  /** Why `filename_to_date` raises: `int()` refuses a field (ValueError),
      `date()` gets the wrong number of fields (TypeError), an invalid date
      (ValueError) or a field beyond the C int range (OverflowError). */
  datatype DateError =
    | NotAnInteger(field: string)
    | WrongFieldCount(count: nat)
    | DateOutOfRange(year: int, month: int, day: int)

  /** `int(f)` for each field, in order; the first field that is not a number fails. */
  function ParseFields(fields: seq<string>): (r: Result<seq<nat>, DateError>)
    ensures r.Success? ==> |r.value| == |fields|
    ensures r.Success? ==> forall i :: 0 <= i < |fields| ==> ParseDecimal(fields[i]) == Some(r.value[i])
    ensures r.Failure? <==> exists i :: 0 <= i < |fields| && ParseDecimal(fields[i]).None?
  {
    if |fields| == 0 then Success([])
    else
      match ParseDecimal(fields[0])
      case None => Failure(NotAnInteger(fields[0]))
      case Some(n) =>
        match ParseFields(fields[1..])
        case Failure(e) => Failure(e)
        case Success(ns) => Success([n] + ns)
  }

  /** `date(*(int(s) for s in filename_to_date_str(filename).split('-')))`. */
  function FilenameToDate(filename: string): (r: Result<Date, DateError>)
    ensures r.Success? ==> ValidDate(r.value)
  {
    match ParseFields(Split(FilenameToDateStr(filename), '-'))
    case Failure(e) => Failure(e)
    case Success(ns) =>
      if |ns| != 3 then Failure(WrongFieldCount(|ns|))
      else
        var d := Date(ns[0], ns[1], ns[2]);
        if ValidDate(d) then Success(d) else Failure(DateOutOfRange(ns[0], ns[1], ns[2]))
  }

  // ------------------------------------------------------- the directory

  /** The test `get_all_filenames` applies to each listing entry. */
  predicate IsGameFilename(filename: string)
  {
    FilenameExtension(filename) == GameFileExtension
  }

  /** The entries of `xs` that satisfy `keep`, in order (a list comprehension with a condition). */
  function Filter(xs: seq<string>, keep: string -> bool): (r: seq<string>)
    ensures |r| <= |xs|
  {
    if |xs| == 0 then []
    else (if keep(xs[0]) then [xs[0]] else []) + Filter(xs[1..], keep)
  }

  /** `get_all_filenames`: the listing entries with the snapshot extension, in listing order. */
  function GetAllFilenames(listing: seq<string>): (r: seq<string>)
    ensures |r| <= |listing|
  {
    Filter(listing, IsGameFilename)
  }

  /** `filename_to_date` over a list of names; the first name that does not parse fails. */
  function ParseDates(filenames: seq<string>): (r: Result<seq<Date>, DateError>)
    ensures r.Success? ==> |r.value| == |filenames|
    ensures r.Success? ==> forall i :: 0 <= i < |filenames| ==> FilenameToDate(filenames[i]) == Success(r.value[i])
    ensures r.Failure? ==> exists i :: 0 <= i < |filenames| && FilenameToDate(filenames[i]).Failure?
  {
    if |filenames| == 0 then Success([])
    else
      var first := FilenameToDate(filenames[0]);
      if first.Failure? then Failure(first.error)
      else
        var rest := ParseDates(filenames[1..]);
        if rest.Failure? then
          var j :| 0 <= j < |filenames| - 1 && FilenameToDate(filenames[1..][j]).Failure?;
          assert FilenameToDate(filenames[j + 1]).Failure?;
          Failure(rest.error)
        else
          var ds := [first.value] + rest.value;
          assert forall i :: 0 < i < |filenames| ==> filenames[i] == filenames[1..][i - 1] && ds[i] == rest.value[i - 1];
          Success(ds)
  }

  function GetAllFileDates(listing: seq<string>): Result<seq<Date>, DateError>
  {
    ParseDates(GetAllFilenames(listing))
  }

  function IsGameDateArchived(listing: seq<string>, d: Date): Result<bool, DateError>
  {
    match GetAllFileDates(listing)
    case Failure(e) => Failure(e)
    case Success(dates) => Success(d in dates)
  }

  // -------------------------------------------------------------- lemmas

  lemma DigitsHaveNo(s: string, c: char)
    requires AllDigits(s) && !IsDigit(c)
    ensures c !in s
  {
  }

  lemma DateStrParts(d: Date)
    requires ValidDate(d)
    ensures DateToDateStr(d) == Join([Decimal(d.year, 4), Decimal(d.month, 2), Decimal(d.day, 2)], '-')
    ensures '/' !in DateToDateStr(d)
  {
    var y, m, dd := Decimal(d.year, 4), Decimal(d.month, 2), Decimal(d.day, 2);
    DigitsHaveNo(y, '/');
    DigitsHaveNo(m, '/');
    DigitsHaveNo(dd, '/');
    assert Join([dd], '-') == dd;
    assert [m, dd][1..] == [dd];
    assert [y, m, dd][1..] == [m, dd];
  }

  /** Parsing the date string back gives the date. */
  lemma {:induction false} DateStrRoundTrip(d: Date)
    requires ValidDate(d)
    ensures ParseFields(Split(DateToDateStr(d), '-')) == Success([d.year as nat, d.month as nat, d.day as nat])
  {
    var y, m, dd := Decimal(d.year, 4), Decimal(d.month, 2), Decimal(d.day, 2);
    DigitsHaveNo(y, '-');
    DigitsHaveNo(m, '-');
    DigitsHaveNo(dd, '-');
    DateStrParts(d);
    SplitJoin([y, m, dd], '-');
    DecimalRoundTrip(d.year, 4);
    DecimalRoundTrip(d.month, 2);
    DecimalRoundTrip(d.day, 2);
    var fields := [y, m, dd];
    assert fields[1..] == [m, dd] && fields[1..][1..] == [dd] && fields[1..][1..][1..] == [];
    assert [dd][1..] == [] && [m, dd][1..] == [dd];
    assert ParseDecimal(dd) == Some(d.day as nat);
    assert ParseFields([dd][1..]) == Success([]);
    assert [d.day as nat] + [] == [d.day as nat];
    assert ParseFields([dd]) == Success([d.day as nat]);
    assert [d.month as nat] + [d.day as nat] == [d.month as nat, d.day as nat];
    assert ParseFields([m, dd]) == Success([d.month as nat, d.day as nat]);
    assert [d.year as nat] + [d.month as nat, d.day as nat] == [d.year as nat, d.month as nat, d.day as nat];
  }

  /**
   * The naming scheme is lossless for any prefix without '-' or '/' and any
   * single-dot extension: the extension is recovered, dropping the first
   * '-'-separated field removes exactly the prefix, and the date parses back.
   */
  lemma {:induction false} FilenameRoundTrip(prefix: string, d: Date, ext: string)
    requires ValidDate(d)
    requires '-' !in prefix && '/' !in prefix
    requires |ext| >= 1 && ext[0] == '.' && '.' !in ext[1..] && '/' !in ext
    ensures FilenameExtension(DateToFilename(prefix, d, ext)) == ext
    ensures FilenameToDateStr(DateToFilename(prefix, d, ext)) == DateToDateStr(d)
    ensures FilenameToDate(DateToFilename(prefix, d, ext)) == Success(d)
  {
    var ds := DateToDateStr(d);
    var root := prefix + "-" + ds;
    var y, m, dd := Decimal(d.year, 4), Decimal(d.month, 2), Decimal(d.day, 2);
    DateStrParts(d);
    assert root[|prefix|] == '-';
    SplitExtOfName(root, ext);
    assert DateToFilename(prefix, d, ext) == root + ext;
    DigitsHaveNo(y, '-');
    DigitsHaveNo(m, '-');
    DigitsHaveNo(dd, '-');
    var parts := [prefix, y, m, dd];
    assert parts[1..] == [y, m, dd];
    assert Join(parts, '-') == root;
    SplitJoin(parts, '-');
    assert FilenameToDateStr(root + ext) == ds;
    DateStrRoundTrip(d);
  }

  /** `filename_to_date(date_to_game_filename(d)) == d`. */
  lemma GameFilenameRoundTrip(d: Date)
    requires ValidDate(d)
    ensures FilenameToDate(DateToGameFilename(d)) == Success(d)
    ensures FilenameToDateStr(DateToGameFilename(d)) == DateToDateStr(d)
    ensures FilenameExtension(DateToGameFilename(d)) == GameFileExtension
  {
    assert GameFileExtension[1..] == "pkl";
    FilenameRoundTrip(GameFilePrefix, d, GameFileExtension);
  }

  /** `filename_to_date(date_to_json_filename(d)) == d`; a raw-payload file
      never passes the snapshot filter. */
  lemma JsonFilenameRoundTrip(d: Date)
    requires ValidDate(d)
    ensures FilenameToDate(DateToJsonFilename(d)) == Success(d)
    ensures FilenameToDateStr(DateToJsonFilename(d)) == DateToDateStr(d)
    ensures FilenameExtension(DateToJsonFilename(d)) == JsonFileExtension != GameFileExtension
  {
    assert JsonFileExtension[1..] == "txt";
    FilenameRoundTrip(JsonFilePrefix, d, JsonFileExtension);
  }

  /** Distinct dates get distinct snapshot files. */
  lemma GameFilenameInjective(d1: Date, d2: Date)
    requires ValidDate(d1) && ValidDate(d2)
    requires DateToGameFilename(d1) == DateToGameFilename(d2)
    ensures d1 == d2
  {
    GameFilenameRoundTrip(d1);
    GameFilenameRoundTrip(d2);
  }

  lemma {:induction false} FilterMembers(xs: seq<string>, keep: string -> bool)
    ensures forall x :: x in Filter(xs, keep) <==> x in xs && keep(x)
  {
    if |xs| > 0 {
      FilterMembers(xs[1..], keep);
      assert xs == [xs[0]] + xs[1..];
    }
  }

  lemma {:induction false} FilterAppend(a: seq<string>, b: seq<string>, keep: string -> bool)
    ensures Filter(a + b, keep) == Filter(a, keep) + Filter(b, keep)
  {
    if |a| == 0 {
      assert a + b == b;
    } else {
      var head := if keep(a[0]) then [a[0]] else [];
      assert (a + b)[0] == a[0];
      assert (a + b)[1..] == a[1..] + b;
      FilterAppend(a[1..], b, keep);
      calc {
        Filter(a + b, keep);
        head + Filter(a[1..] + b, keep);
        head + (Filter(a[1..], keep) + Filter(b, keep));
        (head + Filter(a[1..], keep)) + Filter(b, keep);
        Filter(a, keep) + Filter(b, keep);
      }
    }
  }

  /** The filtered listing holds exactly the listing entries with the snapshot extension. */
  lemma GetAllFilenamesMembers(listing: seq<string>)
    ensures forall f :: f in GetAllFilenames(listing) <==> f in listing && FilenameExtension(f) == GameFileExtension
  {
    FilterMembers(listing, IsGameFilename);
  }

  /** The filter distributes over concatenated listings, so it keeps listing order. */
  lemma GetAllFilenamesAppend(a: seq<string>, b: seq<string>)
    ensures GetAllFilenames(a + b) == GetAllFilenames(a) + GetAllFilenames(b)
  {
    FilterAppend(a, b, IsGameFilename);
  }

  /** Parsing a list of names fails iff some name does not parse; otherwise
      a date is among the results iff some name parses to it. */
  lemma ParseDatesIff(names: seq<string>, d: Date)
    ensures ParseDates(names).Failure? <==> exists f :: f in names && FilenameToDate(f).Failure?
    ensures ParseDates(names).Success? ==>
      (d in ParseDates(names).value <==> exists f :: f in names && FilenameToDate(f) == Success(d))
  {
    match ParseDates(names)
    case Failure(_) =>
      var i :| 0 <= i < |names| && FilenameToDate(names[i]).Failure?;
      assert names[i] in names;
    case Success(dates) =>
      if d in dates {
        var i :| 0 <= i < |dates| && dates[i] == d;
        assert names[i] in names;
      }
      if exists f :: f in names && FilenameToDate(f) == Success(d) {
        var f :| f in names && FilenameToDate(f) == Success(d);
        var i :| 0 <= i < |names| && names[i] == f;
        assert dates[i] == d;
      }
      forall f | f in names ensures FilenameToDate(f).Success? {
        var i :| 0 <= i < |names| && names[i] == f;
      }
  }

  /** `is_game_date_archived(d)` holds iff some snapshot entry of the listing
      parses to `d`; it raises iff some snapshot entry does not parse. */
  lemma IsGameDateArchivedIff(listing: seq<string>, d: Date)
    ensures IsGameDateArchived(listing, d).Failure? <==>
      exists f :: f in GetAllFilenames(listing) && FilenameToDate(f).Failure?
    ensures IsGameDateArchived(listing, d).Success? ==>
      (IsGameDateArchived(listing, d).value <==>
        exists f :: f in listing && FilenameExtension(f) == GameFileExtension && FilenameToDate(f) == Success(d))
  {
    var names := GetAllFilenames(listing);
    ParseDatesIff(names, d);
    GetAllFilenamesMembers(listing);
    if exists f :: f in names && FilenameToDate(f) == Success(d) {
      var f :| f in names && FilenameToDate(f) == Success(d);
      assert f in listing && FilenameExtension(f) == GameFileExtension;
    }
    if exists f :: f in listing && FilenameExtension(f) == GameFileExtension && FilenameToDate(f) == Success(d) {
      var f :| f in listing && FilenameExtension(f) == GameFileExtension && FilenameToDate(f) == Success(d);
      assert f in names;
    }
  }

  /** In a listing of snapshot names, the entry naming `k` parses to `k`, and
      an entry parses to `d` only if it names `d`. */
  lemma ListedNameParses(archived: set<Date>, f: string, d: Date)
    requires forall k :: k in archived ==> ValidDate(k)
    requires exists k :: k in archived && f == DateToGameFilename(k)
    ensures FilenameToDate(f).Success?
    ensures FilenameToDate(f) == Success(d) ==> d in archived && f == DateToGameFilename(d)
  {
    var k :| k in archived && f == DateToGameFilename(k);
    GameFilenameRoundTrip(k);
  }

  /** When every `.pkl` entry of a listing is the snapshot file of an archived
      date, every entry that survives the filter parses. */
  lemma FilteredNamesParse(listing: seq<string>, archived: set<Date>, d: Date)
    requires forall k :: k in archived ==> ValidDate(k)
    requires forall f :: f in listing && IsGameFilename(f) ==> exists k :: k in archived && f == DateToGameFilename(k)
    ensures forall f :: f in GetAllFilenames(listing) ==> FilenameToDate(f).Success?
  {
    GetAllFilenamesMembers(listing);
    forall f | f in GetAllFilenames(listing) ensures FilenameToDate(f).Success? {
      ListedNameParses(archived, f, d);
    }
  }

  /** A listing whose `.pkl` entries are exactly the snapshot files of a set of
      archived dates, whatever other files it holds, answers
      `is_game_date_archived` with membership in that set. */
  lemma ArchivedIffListed(listing: seq<string>, archived: set<Date>, d: Date)
    requires forall k :: k in archived ==> ValidDate(k) && DateToGameFilename(k) in listing
    requires forall f :: f in listing && IsGameFilename(f) ==> exists k :: k in archived && f == DateToGameFilename(k)
    ensures IsGameDateArchived(listing, d) == Success(d in archived)
  {
    IsGameDateArchivedIff(listing, d);
    FilteredNamesParse(listing, archived, d);
    if d in archived {
      GameFilenameRoundTrip(d);
      assert IsGameFilename(DateToGameFilename(d));
    }
    if IsGameDateArchived(listing, d) == Success(true) {
      var f :| f in listing && FilenameExtension(f) == GameFileExtension && FilenameToDate(f) == Success(d);
      assert IsGameFilename(f);
      ListedNameParses(archived, f, d);
    }
  }
}
