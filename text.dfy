/**
 * The parts of Python's `str` and `os.path` behaviour that the puzzle engine
 * and the archive naming scheme rely on: `str.upper` (ASCII letters),
 * `str.split` / `str.join` on a one-character separator, `int` on a decimal
 * string, zero-padded decimal formatting, and `os.path.splitext`.
 */
module PyText {
  import opened Wrappers

  // ---------------------------------------------------------------- upper

  function UpperChar(c: char): (u: char)
    ensures 'a' <= c <= 'z' ==> u as int == c as int - 32
    ensures !('a' <= u <= 'z')
    ensures !('a' <= c <= 'z') ==> u == c
  {
    if 'a' <= c <= 'z' then (c as int - 32) as char else c
  }

  /** `s.upper()`, restricted to ASCII letters. */
  function Upper(s: string): (r: string)
    ensures |r| == |s|
    ensures forall i :: 0 <= i < |s| ==> r[i] == UpperChar(s[i])
  {
    seq(|s|, i requires 0 <= i < |s| => UpperChar(s[i]))
  }

  // ------------------------------------------------------ split and join

  /** `s.split(sep)`: never empty; a string without `sep` gives `[s]`. */
  function Split(s: string, sep: char): (parts: seq<string>)
    ensures |parts| >= 1
  {
    if |s| == 0 then [""]
    else
      var rest := Split(s[1..], sep);
      if s[0] == sep then [""] + rest
      else [[s[0]] + rest[0]] + rest[1..]
  }

  /** `sep.join(parts)`. */
  function Join(parts: seq<string>, sep: char): string
  {
    if |parts| == 0 then ""
    else if |parts| == 1 then parts[0]
    else parts[0] + [sep] + Join(parts[1..], sep)
  }

  lemma {:induction false} SplitNoSep(s: string, sep: char)
    requires sep !in s
    ensures Split(s, sep) == [s]
  {
    if |s| > 0 {
      SplitNoSep(s[1..], sep);
      assert [s[0]] + s[1..] == s;
    }
  }

  lemma {:induction false} SplitAfterPiece(a: string, sep: char, b: string)
    requires sep !in a
    ensures Split(a + [sep] + b, sep) == [a] + Split(b, sep)
  {
    if |a| == 0 {
      assert a + [sep] + b == [sep] + b;
      assert ([sep] + b)[1..] == b;
    } else {
      SplitAfterPiece(a[1..], sep, b);
      assert (a + [sep] + b)[1..] == a[1..] + [sep] + b;
      assert [a[0]] + a[1..] == a;
    }
  }

  /** Splitting undoes joining when no piece contains the separator. */
  lemma {:induction false} SplitJoin(parts: seq<string>, sep: char)
    requires |parts| >= 1
    requires forall i :: 0 <= i < |parts| ==> sep !in parts[i]
    ensures Split(Join(parts, sep), sep) == parts
  {
    if |parts| == 1 {
      SplitNoSep(parts[0], sep);
    } else {
      SplitJoin(parts[1..], sep);
      SplitAfterPiece(parts[0], sep, Join(parts[1..], sep));
      assert [parts[0]] + parts[1..] == parts;
    }
  }

  // ---------------------------------------------------------- int(s)

  predicate IsDigit(c: char) { '0' <= c <= '9' }

  predicate AllDigits(s: string) { forall i :: 0 <= i < |s| ==> IsDigit(s[i]) }

  function DigitChar(n: nat): (c: char)
    requires n < 10
    ensures IsDigit(c)
  {
    ('0' as int + n) as char
  }

  /** The value of a string of decimal digits, most significant first. */
  function DigitsValue(s: string): nat
    requires AllDigits(s)
  {
    if |s| == 0 then 0
    else DigitsValue(s[..|s| - 1]) * 10 + (s[|s| - 1] as int - '0' as int)
  }

  /** `int(s)` on a decimal string; `None` stands for the source's ValueError. */
  function ParseDecimal(s: string): (r: Option<nat>)
    ensures r.Some? <==> |s| > 0 && AllDigits(s)
  {
    if |s| > 0 && AllDigits(s) then Some(DigitsValue(s)) else None
  }

  /** The decimal digits of `n`, zero-padded on the left to at least `width` digits. */
  function Decimal(n: nat, width: nat): (s: string)
    ensures |s| >= 1 && |s| >= width
    ensures AllDigits(s)
    decreases n + width
  {
    if n < 10 && width <= 1 then [DigitChar(n)]
    else Decimal(n / 10, if width == 0 then 0 else width - 1) + [DigitChar(n % 10)]
  }

  /** Parsing a formatted number gives the number back, whatever the padding. */
  lemma {:induction false} DecimalRoundTrip(n: nat, width: nat)
    ensures ParseDecimal(Decimal(n, width)) == Some(n)
    decreases n + width
  {
    var s := Decimal(n, width);
    if n < 10 && width <= 1 {
      assert s[..0] == "";
    } else {
      var w' := if width == 0 then 0 else width - 1;
      var t := Decimal(n / 10, w');
      DecimalRoundTrip(n / 10, w');
      assert s == t + [DigitChar(n % 10)];
      assert s[..|s| - 1] == t;
      assert DigitsValue(s) == DigitsValue(t) * 10 + n % 10;
    }
  }

  /** Numbers below `10^k` print in exactly `k` digits when the width is `k`. */
  lemma {:induction false} DecimalWidth2(n: nat)
    requires n < 100
    ensures |Decimal(n, 2)| == 2
  {
    assert Decimal(n / 10, 1) == [DigitChar(n / 10)];
  }

  // ------------------------------------------------------ os.path.splitext

  /** `s.rfind(c)`: the last index of `c` in `s`, or -1. */
  function LastIndexOf(s: string, c: char): (i: int)
    ensures -1 <= i < |s|
    ensures i >= 0 ==> s[i] == c
    ensures forall j :: i < j < |s| ==> s[j] != c
  {
    if |s| == 0 then -1
    else if s[|s| - 1] == c then |s| - 1
    else LastIndexOf(s[..|s| - 1], c)
  }

  /**
   * `os.path.splitext(p)` on a POSIX path: the extension runs from the last
   * '.' of the final path component, unless every character of that
   * component before the dot is itself a dot (a leading-dot name has no
   * extension).
   */
  function SplitExt(p: string): (r: (string, string))
    ensures r.0 + r.1 == p
    ensures r.1 == "" || (r.1[0] == '.' && '.' !in r.1[1..] && '/' !in r.1)
  {
    var sepIndex := LastIndexOf(p, '/');
    var dotIndex := LastIndexOf(p, '.');
    if dotIndex > sepIndex && exists k :: sepIndex + 1 <= k < dotIndex && p[k] != '.' then
      assert forall j :: 0 <= j < |p| - dotIndex - 1 ==> p[dotIndex..][1..][j] == p[dotIndex + 1 + j];
      (p[..dotIndex], p[dotIndex..])
    else
      (p, "")
  }

  /** The leading-dot rule: a name without '/' has an extension exactly when
      some character before its last '.' is not itself a dot, so `.pkl` and
      `..` have none. */
  lemma SplitExtHasExtension(p: string)
    requires '/' !in p
    ensures SplitExt(p).1 != "" <==> exists k :: 0 <= k < LastIndexOf(p, '.') && p[k] != '.'
  {
    assert LastIndexOf(p, '/') == -1;
  }

  /** A name `root + ext` whose extension starts with its only dot, and which
      has no directory part, splits back into `root` and `ext`. */
  lemma SplitExtOfName(root: string, ext: string)
    requires '/' !in root && '/' !in ext
    requires |ext| >= 1 && ext[0] == '.' && '.' !in ext[1..]
    requires exists k :: 0 <= k < |root| && root[k] != '.'
    ensures SplitExt(root + ext) == (root, ext)
  {
    var p := root + ext;
    var d := LastIndexOf(p, '.');
    assert p[|root|] == '.';
    forall j | |root| < j < |p| ensures p[j] != '.' {
      assert p[j] == ext[1..][j - |root| - 1];
    }
    assert d == |root|;
    forall j | 0 <= j < |p| ensures p[j] != '/' {
      if j < |root| { assert p[j] == root[j]; } else { assert p[j] == ext[j - |root|]; }
    }
    assert LastIndexOf(p, '/') == -1;
    var k :| 0 <= k < |root| && root[k] != '.';
    assert p[k] != '.';
    assert p[..d] == root && p[d..] == ext;
  }
}
