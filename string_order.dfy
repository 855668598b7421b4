/**
 * Python's ordering of `str` values (code point by code point, a proper
 * prefix first) and the built-in `sorted` on lists and sets of strings.
 */
module StringOrder {

  /** `a <= b` on Python strings. */
  predicate Le(a: string, b: string)
  {
    |a| == 0 || (|b| > 0 && (a[0] < b[0] || (a[0] == b[0] && Le(a[1..], b[1..]))))
  }

  lemma {:induction false} LeReflexive(a: string)
    ensures Le(a, a)
  {
    if |a| > 0 { LeReflexive(a[1..]); }
  }

  lemma {:induction false} LeAntisymmetric(a: string, b: string)
    requires Le(a, b) && Le(b, a)
    ensures a == b
  {
    if |a| > 0 {
      LeAntisymmetric(a[1..], b[1..]);
      assert a == [a[0]] + a[1..] && b == [b[0]] + b[1..];
    }
  }

  lemma {:induction false} LeTransitive(a: string, b: string, c: string)
    requires Le(a, b) && Le(b, c)
    ensures Le(a, c)
  {
    if |a| > 0 && a[0] == b[0] && b[0] == c[0] {
      LeTransitive(a[1..], b[1..], c[1..]);
    }
  }

  lemma {:induction false} LeTotal(a: string, b: string)
    ensures Le(a, b) || Le(b, a)
  {
    if |a| > 0 && |b| > 0 && a[0] == b[0] {
      LeTotal(a[1..], b[1..]);
    }
  }

  /** The empty string sorts before every other string, and only it is below "". */
  lemma EmptyIsLeast(a: string)
    ensures Le("", a)
    ensures Le(a, "") <==> a == ""
  {
  }

  ghost predicate Sorted(s: seq<string>)
  {
    forall i, j :: 0 <= i < j < |s| ==> Le(s[i], s[j])
  }

  /** Putting a lower bound of a sorted list in front keeps it sorted. */
  lemma ConsSorted(x: string, s: seq<string>)
    requires Sorted(s)
    requires forall k :: 0 <= k < |s| ==> Le(x, s[k])
    ensures Sorted([x] + s)
  {
    forall i, j | 0 <= i < j < |s| + 1 ensures Le(([x] + s)[i], ([x] + s)[j]) {
      if i > 0 { assert ([x] + s)[i] == s[i - 1]; }
      assert ([x] + s)[j] == s[j - 1];
    }
  }

  /** Insertion of one string into a sorted list. */
  function Insert(x: string, s: seq<string>): (r: seq<string>)
    requires Sorted(s)
    ensures Sorted(r)
    ensures multiset(r) == multiset(s) + multiset{x}
    decreases |s|, 1
  {
    if |s| == 0 then [x]
    else if Le(x, s[0]) then
      assert forall k :: 0 <= k < |s| ==> Le(x, s[k]) by {
        forall k | 0 < k < |s| ensures Le(x, s[k]) { LeTransitive(x, s[0], s[k]); }
      }
      ConsSorted(x, s);
      [x] + s
    else
      InsertBelowHead(x, s);
      [s[0]] + Insert(x, s[1..])
  }

  lemma InsertBelowHead(x: string, s: seq<string>)
    requires Sorted(s) && |s| > 0 && !Le(x, s[0])
    ensures Sorted([s[0]] + Insert(x, s[1..]))
    ensures multiset([s[0]] + Insert(x, s[1..])) == multiset(s) + multiset{x}
    decreases |s|, 0
  {
    var t := Insert(x, s[1..]);
    LeTotal(x, s[0]);
    assert s == [s[0]] + s[1..];
    forall j | 0 <= j < |t| ensures Le(s[0], t[j]) {
      assert t[j] in multiset(t);
      if t[j] != x {
        assert t[j] in multiset(s[1..]);
        var k :| 0 <= k < |s[1..]| && s[1..][k] == t[j];
        assert s[k + 1] == t[j];
      }
    }
    ConsSorted(s[0], t);
  }

  /** `sorted(xs)` on a list of strings. */
  function Sort(xs: seq<string>): (r: seq<string>)
    ensures Sorted(r)
    ensures multiset(r) == multiset(xs)
  {
    if |xs| == 0 then []
    else
      assert xs == [xs[0]] + xs[1..];
      Insert(xs[0], Sort(xs[1..]))
  }

  /** The head of a sorted list is below everything in it. */
  lemma HeadIsLeast(a: seq<string>, x: string)
    requires Sorted(a) && |a| > 0 && x in multiset(a)
    ensures Le(a[0], x)
  {
    var k :| 0 <= k < |a| && a[k] == x;
    if k == 0 { LeReflexive(x); }
  }

  lemma TailMultiset(a: seq<string>)
    requires |a| > 0
    ensures multiset(a[1..]) == multiset(a) - multiset{a[0]}
  {
    assert a == [a[0]] + a[1..];
  }

  /** Two non-empty sorted lists with the same elements start with the same string. */
  lemma SortedSameHead(a: seq<string>, b: seq<string>)
    requires Sorted(a) && Sorted(b) && |a| > 0 && |b| > 0
    requires multiset(a) == multiset(b)
    ensures a[0] == b[0]
  {
    assert a[0] in multiset(a) && b[0] in multiset(b);
    HeadIsLeast(a, b[0]);
    HeadIsLeast(b, a[0]);
    LeAntisymmetric(a[0], b[0]);
  }

  /** A sorted list is determined by the multiset of its elements: `sorted`
      gives one answer for every ordering of the same input. */
  lemma {:induction false} SortedUnique(a: seq<string>, b: seq<string>)
    requires Sorted(a) && Sorted(b)
    requires multiset(a) == multiset(b)
    ensures a == b
    decreases |a|
  {
    assert |a| == |multiset(a)| && |b| == |multiset(b)|;
    if |a| > 0 {
      SortedSameHead(a, b);
      TailMultiset(a);
      TailMultiset(b);
      SortedUnique(a[1..], b[1..]);
      assert a == [a[0]] + a[1..] && b == [b[0]] + b[1..];
    }
  }

  /** Sorting gives the same list for any two orderings of the same strings. */
  lemma SortPermutationInvariant(xs: seq<string>, ys: seq<string>)
    requires multiset(xs) == multiset(ys)
    ensures Sort(xs) == Sort(ys)
  {
    SortedUnique(Sort(xs), Sort(ys));
  }

  /** In a sorted list an empty string can only be preceded by empty strings. */
  lemma EmptyOnlyAtFront(s: seq<string>, i: nat)
    requires Sorted(s) && i < |s| && s[i] == ""
    ensures forall j :: 0 <= j <= i ==> s[j] == ""
    ensures "" !in s[..i] ==> i == 0
  {
    if i > 0 {
      assert Le(s[0], s[i]);
      assert s[..i][0] == s[0];
    }
  }

  predicate IsLeast(m: string, S: set<string>)
  {
    m in S && forall y :: y in S ==> Le(m, y)
  }

  lemma {:induction false} HasLeast(S: set<string>)
    requires S != {}
    ensures exists m :: IsLeast(m, S)
    decreases S
  {
    var x :| x in S;
    if S == {x} {
      LeReflexive(x);
      assert IsLeast(x, S);
    } else {
      HasLeast(S - {x});
      var m :| IsLeast(m, S - {x});
      LeTotal(m, x);
      if Le(m, x) {
        assert IsLeast(m, S);
      } else {
        LeReflexive(x);
        forall y | y in S ensures Le(x, y) {
          if y != x { LeTransitive(x, m, y); }
        }
        assert IsLeast(x, S);
      }
    }
  }

  lemma LeastUnique(S: set<string>)
    ensures forall m1, m2 :: IsLeast(m1, S) && IsLeast(m2, S) ==> m1 == m2
  {
    forall m1, m2 | IsLeast(m1, S) && IsLeast(m2, S) ensures m1 == m2 {
      LeAntisymmetric(m1, m2);
    }
  }

  /** `sorted(S)` on a set of strings: its elements in increasing order, each once. */
  function SortedElements(S: set<string>): (r: seq<string>)
    ensures Sorted(r)
    ensures |r| == |S|
    ensures forall x :: x in r <==> x in S
    decreases S
  {
    if S == {} then []
    else
      HasLeast(S);
      LeastUnique(S);
      var m :| IsLeast(m, S);
      var t := SortedElements(S - {m});
      assert Sorted([m] + t) by {
        forall j | 0 <= j < |t| ensures Le(m, t[j]) { assert t[j] in S; }
      }
      [m] + t
  }
}
