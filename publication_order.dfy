/** The ordering both selector modules apply to publications: the comparator
    `left.year === right.year ? left.order - right.order : right.year - left.year`,
    run by a stable sort on a copy of the input. The sort is generic in the record type,
    taking the two key projections as arguments. */
module PublicationOrder {

  /** The comparator is negative or zero: a publication of `(y1, o1)` may stand before one
      of `(y2, o2)`, a newer year first and, within a year, the smaller order first. */
  predicate Precedes(y1: int, o1: int, y2: int, o2: int)
  {
    y1 > y2 || (y1 == y2 && o1 <= o2)
  }

  /** Every earlier element may stand before every later one. */
  ghost predicate Sorted<T>(s: seq<T>, year: T -> int, order: T -> int)
  {
    forall i, j :: 0 <= i < j < |s| ==> Precedes(year(s[i]), order(s[i]), year(s[j]), order(s[j]))
  }

  /** `x` placed in the sorted `s` just before the first element it may precede. */
  function Insert<T>(x: T, s: seq<T>, year: T -> int, order: T -> int): (r: seq<T>)
    ensures |r| == |s| + 1
    ensures multiset(r) == multiset(s) + multiset{x}
    decreases |s|
  {
    if s == [] || Precedes(year(x), order(x), year(s[0]), order(s[0])) then
      [x] + s
    else
      assert s == [s[0]] + s[1..];
      [s[0]] + Insert(x, s[1..], year, order)
  }

  /** Inserting into a sorted sequence keeps it sorted. */
  lemma {:induction false} InsertSorted<T>(x: T, s: seq<T>, year: T -> int, order: T -> int)
    requires Sorted(s, year, order)
    ensures Sorted(Insert(x, s, year, order), year, order)
    decreases |s|
  {
    if s != [] && !Precedes(year(x), order(x), year(s[0]), order(s[0])) {
      var rest := Insert(x, s[1..], year, order);
      InsertSorted(x, s[1..], year, order);
      assert s == [s[0]] + s[1..];
      var r := [s[0]] + rest;
      forall k | 0 <= k < |rest|
        ensures Precedes(year(s[0]), order(s[0]), year(rest[k]), order(rest[k]))
      {
        assert rest[k] in multiset(s[1..]) + multiset{x};
        if rest[k] != x {
          assert rest[k] in s[1..];
          var j :| 0 <= j < |s[1..]| && s[1..][j] == rest[k];
          assert s[j + 1] == rest[k];
        }
      }
      forall i, j | 0 <= i < j < |r|
        ensures Precedes(year(r[i]), order(r[i]), year(r[j]), order(r[j]))
      {
        if i == 0 {
          assert r[j] == rest[j - 1];
        } else {
          assert r[i] == rest[i - 1] && r[j] == rest[j - 1];
        }
      }
    }
  }

  /** The publications ordered by descending year and then ascending order; publications with
      the same year and order keep their input order. */
  function Sort<T>(s: seq<T>, year: T -> int, order: T -> int): (r: seq<T>)
    ensures |r| == |s| && multiset(r) == multiset(s)
    ensures Sorted(r, year, order)
    decreases |s|
  {
    if s == [] then []
    else
      assert s == [s[0]] + s[1..];
      var rest := Sort(s[1..], year, order);
      InsertSorted(s[0], rest, year, order);
      Insert(s[0], rest, year, order)
  }

  lemma SortedTail<T>(s: seq<T>, year: T -> int, order: T -> int)
    requires s != [] && Sorted(s, year, order)
    ensures Sorted(s[1..], year, order)
  {
    forall i, j | 0 <= i < j < |s| - 1
      ensures Precedes(year(s[1..][i]), order(s[1..][i]), year(s[1..][j]), order(s[1..][j]))
    {
      assert s[1..][i] == s[i + 1] && s[1..][j] == s[j + 1];
    }
  }

  /** Each element may stand before the next: the adjacent form of `Sorted` that the
      selector tests check (non-increasing years, ascending order within a year). */
  lemma SortedAdjacent<T>(s: seq<T>, year: T -> int, order: T -> int)
    requires Sorted(s, year, order)
    ensures forall i :: 0 <= i < |s| - 1 ==> year(s[i]) >= year(s[i + 1])
    ensures forall i :: 0 <= i < |s| - 1 && year(s[i]) == year(s[i + 1]) ==> order(s[i]) <= order(s[i + 1])
  {
    forall i | 0 <= i < |s| - 1
      ensures Precedes(year(s[i]), order(s[i]), year(s[i + 1]), order(s[i + 1]))
    {
    }
  }

  /** When no two publications share an order value, a sorted sequence is strictly ascending
      in order within each year. */
  lemma SortedStrict<T>(s: seq<T>, year: T -> int, order: T -> int)
    requires Sorted(s, year, order)
    requires forall i, j :: 0 <= i < j < |s| ==> order(s[i]) != order(s[j])
    ensures forall i :: 0 <= i < |s| - 1 && year(s[i]) == year(s[i + 1]) ==> order(s[i]) < order(s[i + 1])
  {
    SortedAdjacent(s, year, order);
  }

  /** Two sorted arrangements of the same publications with distinct order values start alike. */
  lemma SortedHeadsEqual<T>(a: seq<T>, b: seq<T>, year: T -> int, order: T -> int)
    requires a != [] && multiset(a) == multiset(b)
    requires Sorted(a, year, order) && Sorted(b, year, order)
    requires forall i, j :: 0 <= i < j < |a| ==> order(a[i]) != order(a[j])
    ensures b != [] && a[0] == b[0]
  {
    assert b[0] in multiset(a) && a[0] in multiset(b) by {
      assert a[0] in multiset(a);
      assert |b| > 0 by { assert |multiset(b)| == |multiset(a)|; }
      assert b[0] in multiset(b);
    }
    var k :| 0 <= k < |a| && a[k] == b[0];
    var m :| 0 <= m < |b| && b[m] == a[0];
    assert Precedes(year(b[0]), order(b[0]), year(a[0]), order(a[0])) by {
      if m > 0 { assert Precedes(year(b[0]), order(b[0]), year(b[m]), order(b[m])); }
    }
    assert k == 0;
  }

  lemma MultisetTails<T>(a: seq<T>, b: seq<T>)
    requires a != [] && b != [] && a[0] == b[0] && multiset(a) == multiset(b)
    ensures multiset(a[1..]) == multiset(b[1..])
  {
    assert a == [a[0]] + a[1..] && b == [b[0]] + b[1..];
    assert multiset(a[1..]) == multiset(a) - multiset{a[0]};
    assert multiset(b[1..]) == multiset(b) - multiset{b[0]};
  }

  /** When order values are pairwise distinct, there is only one sorted arrangement of a
      collection of publications: every correct sort, stable or not, returns `Sort`'s result. */
  lemma {:induction false} SortedPermutationUnique<T>(a: seq<T>, b: seq<T>, year: T -> int, order: T -> int)
    requires multiset(a) == multiset(b)
    requires Sorted(a, year, order) && Sorted(b, year, order)
    requires forall i, j :: 0 <= i < j < |a| ==> order(a[i]) != order(a[j])
    ensures a == b
    decreases |a|
  {
    if a == [] {
      assert |multiset(b)| == 0;
    } else {
      SortedHeadsEqual(a, b, year, order);
      assert a == [a[0]] + a[1..] && b == [b[0]] + b[1..];
      assert |a| == |b| by { assert |multiset(a)| == |multiset(b)|; }
      MultisetTails(a, b);
      SortedTail(a, year, order);
      SortedTail(b, year, order);
      forall i, j | 0 <= i < j < |a[1..]| ensures order(a[1..][i]) != order(a[1..][j]) {
        assert a[1..][i] == a[i + 1] && a[1..][j] == a[j + 1];
      }
      SortedPermutationUnique(a[1..], b[1..], year, order);
    }
  }
}
