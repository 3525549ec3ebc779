/** `slice::sort` on records: a sort by the derived order of `LogLine`.
    Rust's sort is a stable merge sort; because two records compare equal only
    when they are identical, every correct sort gives the same sequence, so an
    insertion sort on sequences stands in for it. */
module Sorting {
  import opened LogLines

  /** Ascending under the derived order. */
  ghost predicate Sorted(s: seq<LogLine>) {
    forall i, j :: 0 <= i < j < |s| ==> Le(s[i], s[j])
  }

  /** Inserts `x` into a sorted sequence, before the first element not below it. */
  function Insert(x: LogLine, s: seq<LogLine>): (r: seq<LogLine>)
    requires Sorted(s)
    ensures Sorted(r)
    ensures multiset(r) == multiset(s) + multiset{x}
  {
    if |s| == 0 then [x]
    else if Le(x, s[0]) then
      PrependSorted(x, s);
      [x] + s
    else
      var rest := Insert(x, s[1..]);
      LeTotal(x, s[0]);
      HeadSplit(s);
      PrependBelowAll(s[0], rest, s[1..], x);
      [s[0]] + rest
  }

  lemma HeadSplit(s: seq<LogLine>)
    requires |s| > 0
    ensures s == [s[0]] + s[1..]
    ensures multiset(s) == multiset{s[0]} + multiset(s[1..])
  {
  }

  /** A record not above the head of a sorted sequence may go in front of it. */
  lemma PrependSorted(x: LogLine, s: seq<LogLine>)
    requires Sorted(s) && |s| > 0 && Le(x, s[0])
    ensures Sorted([x] + s)
  {
    forall i, j | 0 <= i < j < |[x] + s|
      ensures Le(([x] + s)[i], ([x] + s)[j])
    {
      assert ([x] + s)[j] == s[j - 1];
      if i == 0 {
        if j > 1 {
          LeTransitive(x, s[0], s[j - 1]);
        }
      } else {
        assert ([x] + s)[i] == s[i - 1];
      }
    }
  }

  /** The head of a sorted sequence is not above any of its other elements,
      nor above a record it is known not to be above. */
  lemma BelowAll(y: LogLine, s: seq<LogLine>, x: LogLine, z: LogLine)
    requires Sorted([y] + s) && Le(y, x)
    requires z in multiset(s) + multiset{x}
    ensures Le(y, z)
  {
    if z != x {
      assert z in multiset(s);
      var k :| 0 <= k < |s| && s[k] == z;
      assert ([y] + s)[0] == y && ([y] + s)[k + 1] == z;
    }
  }

  /** A record not above any element of `s` nor `x` may go in front of the
      sorted result of inserting `x` into `s`. */
  lemma PrependBelowAll(y: LogLine, rest: seq<LogLine>, s: seq<LogLine>, x: LogLine)
    requires Sorted([y] + s) && Sorted(rest) && Le(y, x)
    requires multiset(rest) == multiset(s) + multiset{x}
    ensures Sorted([y] + rest)
  {
    forall i, j | 0 <= i < j < |[y] + rest|
      ensures Le(([y] + rest)[i], ([y] + rest)[j])
    {
      assert ([y] + rest)[j] == rest[j - 1];
      if i == 0 {
        assert rest[j - 1] in multiset(rest);
        BelowAll(y, s, x, rest[j - 1]);
      } else {
        assert ([y] + rest)[i] == rest[i - 1];
      }
    }
  }

  /** Sorts a sequence of records: the result is ascending and holds exactly
      the same records, each as often as in the input. */
  function Sort(s: seq<LogLine>): (r: seq<LogLine>)
    ensures Sorted(r)
    ensures multiset(r) == multiset(s)
  {
    if |s| == 0 then []
    else
      assert s == [s[0]] + s[1..];
      Insert(s[0], Sort(s[1..]))
  }

  /** There is only one ascending arrangement of a given multiset of records,
      because the order is total and antisymmetric. */
  lemma {:induction false} SortedUnique(a: seq<LogLine>, b: seq<LogLine>)
    requires Sorted(a) && Sorted(b)
    requires multiset(a) == multiset(b)
    ensures a == b
    decreases |a|
  {
    if |a| == 0 {
      assert |multiset(b)| == 0;
    } else {
      assert a[0] in multiset(b);
      HeadIsLeast(a, b[0]);
      HeadIsLeast(b, a[0]);
      LeAntisymmetric(a[0], b[0]);
      HeadSplit(a);
      HeadSplit(b);
      assert multiset(a[1..]) == multiset(a) - multiset{a[0]};
      assert multiset(b[1..]) == multiset(b) - multiset{b[0]};
      SortedUnique(a[1..], b[1..]);
    }
  }

  /** The head of a sorted sequence is not above any of its elements. */
  lemma HeadIsLeast(s: seq<LogLine>, y: LogLine)
    requires Sorted(s) && y in multiset(s)
    ensures |s| > 0 && Le(s[0], y)
  {
    var i :| 0 <= i < |s| && s[i] == y;
    if i == 0 {
      assert Compare(y, y) == Ordering.Equal;
    }
  }

  /** Sorting an already sorted sequence changes nothing; in particular
      sorting twice is the same as sorting once. */
  lemma SortIdempotent(s: seq<LogLine>)
    ensures Sorted(s) ==> Sort(s) == s
    ensures Sort(Sort(s)) == Sort(s)
  {
    if Sorted(s) {
      SortedUnique(Sort(s), s);
    }
    SortedUnique(Sort(Sort(s)), Sort(s));
  }
}
