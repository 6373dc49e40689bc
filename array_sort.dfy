/**
 * `Array.prototype.sort` on an array of keys, as a stable sort: insertion sort from the
 * right, where an element only moves left past elements that compare strictly greater.
 */
module ArraySort {
  import opened Sequences

  /** A compare function: negative when `a` goes first, positive when `b` does. */
  type Comparator = (string, string) -> int

  /** `a` goes first or ties with `b`. */
  predicate Precedes(cmp: Comparator, a: string, b: string) {
    cmp(a, b) <= 0
  }

  /**
   * A consistent comparator in the sense of `Array.prototype.sort`: its sign flips with its
   * arguments, and its "goes first or ties" relation is a total preorder. Transitivity is
   * triggered on `Precedes` and concludes on `cmp`, so its instances do not chain.
   */
  ghost predicate Consistent(cmp: Comparator) {
    && (forall a, b :: cmp(a, b) < 0 <==> cmp(b, a) > 0)
    && (forall a, b :: cmp(a, b) <= 0 || cmp(b, a) <= 0)
    && (forall a, b, c {:trigger Precedes(cmp, a, b), Precedes(cmp, b, c)} ::
          Precedes(cmp, a, b) && Precedes(cmp, b, c) ==> cmp(a, c) <= 0)
  }

  ghost predicate SortedBy(s: seq<string>, cmp: Comparator) {
    forall i, j :: 0 <= i < j < |s| ==> cmp(s[i], s[j]) <= 0
  }

  /** Inserts `x` into `r` after every element that does not compare greater than it. */
  function Insert(r: seq<string>, x: string, cmp: Comparator): (o: seq<string>)
    ensures multiset(o) == multiset(r) + multiset{x}
  {
    if r == [] then [x]
    else
      assert r == r[..|r| - 1] + [r[|r| - 1]];
      if cmp(r[|r| - 1], x) <= 0 then r + [x]
      else Insert(r[..|r| - 1], x, cmp) + [r[|r| - 1]]
  }

  /** The keys in the order `keys.sort(cmp)` leaves them. */
  function SortBy(s: seq<string>, cmp: Comparator): (o: seq<string>)
    ensures multiset(o) == multiset(s)
  {
    if s == [] then []
    else
      assert s == s[..|s| - 1] + [s[|s| - 1]];
      Insert(SortBy(s[..|s| - 1], cmp), s[|s| - 1], cmp)
  }

  /** A sorted sequence stays sorted when an element no smaller than all of it is appended. */
  lemma SortedSnoc(s: seq<string>, x: string, cmp: Comparator)
    requires SortedBy(s, cmp)
    requires forall y :: y in s ==> cmp(y, x) <= 0
    ensures SortedBy(s + [x], cmp)
  {
    forall i, j | 0 <= i < j < |s| + 1 ensures cmp((s + [x])[i], (s + [x])[j]) <= 0 {
      assert (s + [x])[i] == s[i];
      if j == |s| {
        assert s[i] in s;
      } else {
        assert (s + [x])[j] == s[j];
      }
    }
  }

  /** In a sorted sequence every element goes no later than anything its last element precedes. */
  lemma SortedBelow(r: seq<string>, x: string, cmp: Comparator)
    requires Consistent(cmp) && SortedBy(r, cmp)
    requires r != [] && cmp(r[|r| - 1], x) <= 0
    ensures forall y :: y in r ==> cmp(y, x) <= 0
  {
    forall y | y in r ensures cmp(y, x) <= 0 {
      var i :| 0 <= i < |r| && r[i] == y;
      if i < |r| - 1 {
        assert Precedes(cmp, r[i], r[|r| - 1]) && Precedes(cmp, r[|r| - 1], x);
      }
    }
  }

  /** Inserting keeps a common upper bound of the elements. */
  lemma InsertBelow(r: seq<string>, x: string, bound: string, cmp: Comparator)
    requires forall y :: y in r ==> cmp(y, bound) <= 0
    requires cmp(x, bound) <= 0
    ensures forall y :: y in Insert(r, x, cmp) ==> cmp(y, bound) <= 0
  {
    var o := Insert(r, x, cmp);
    forall y | y in o ensures cmp(y, bound) <= 0 {
      assert y in multiset(o);
      if y != x {
        assert y in multiset(r);
      }
    }
  }

  lemma {:induction false} InsertSorted(r: seq<string>, x: string, cmp: Comparator)
    requires Consistent(cmp) && SortedBy(r, cmp)
    ensures SortedBy(Insert(r, x, cmp), cmp)
  {
    if r != [] {
      var pre, last := r[..|r| - 1], r[|r| - 1];
      if cmp(last, x) <= 0 {
        SortedBelow(r, x, cmp);
        SortedSnoc(r, x, cmp);
      } else {
        assert SortedBy(pre, cmp);
        SortedBelow(pre + [last], last, cmp);
        assert pre + [last] == r;
        InsertSorted(pre, x, cmp);
        InsertBelow(pre, x, last, cmp);
        SortedSnoc(Insert(pre, x, cmp), last, cmp);
      }
    }
  }

  /** With a consistent comparator the keys come out sorted. */
  lemma {:induction false} SortBySorted(s: seq<string>, cmp: Comparator)
    requires Consistent(cmp)
    ensures SortedBy(SortBy(s, cmp), cmp)
  {
    if s != [] {
      SortBySorted(s[..|s| - 1], cmp);
      InsertSorted(SortBy(s[..|s| - 1], cmp), s[|s| - 1], cmp);
    }
  }

  lemma {:induction false} InsertDistinct(r: seq<string>, x: string, cmp: Comparator)
    requires Distinct(r) && x !in r
    ensures Distinct(Insert(r, x, cmp))
  {
    if r != [] {
      var pre, last := r[..|r| - 1], r[|r| - 1];
      if cmp(last, x) > 0 {
        assert r == pre + [last];
        InsertDistinct(pre, x, cmp);
        var o := Insert(pre, x, cmp);
        assert last !in multiset(o);
      }
    }
  }

  /** Sorting distinct keys gives distinct keys; they are the same keys, by SortBy's ensures. */
  lemma {:induction false} SortByDistinct(s: seq<string>, cmp: Comparator)
    requires Distinct(s)
    ensures Distinct(SortBy(s, cmp))
  {
    if s != [] {
      var pre := s[..|s| - 1];
      SortByDistinct(pre, cmp);
      assert s[|s| - 1] !in multiset(SortBy(pre, cmp));
      InsertDistinct(SortBy(pre, cmp), s[|s| - 1], cmp);
    }
  }

  /**
   * The default order of `sort()` without a compare function: character by character, a
   * proper prefix first.
   */
  function DefaultCompare(a: string, b: string): (r: int)
    ensures r == 0 <==> a == b
  {
    if a == [] && b == [] then 0
    else if a == [] then -1
    else if b == [] then 1
    else if a[0] < b[0] then -1
    else if a[0] > b[0] then 1
    else DefaultCompare(a[1..], b[1..])
  }

  lemma {:induction false} DefaultCompareFlip(a: string, b: string)
    ensures DefaultCompare(b, a) == -DefaultCompare(a, b)
  {
    if a != [] && b != [] && a[0] == b[0] {
      DefaultCompareFlip(a[1..], b[1..]);
    }
  }

  lemma {:induction false} DefaultCompareTransitive(a: string, b: string, c: string)
    requires DefaultCompare(a, b) <= 0 && DefaultCompare(b, c) <= 0
    ensures DefaultCompare(a, c) <= 0
  {
    if a != [] && b != [] && c != [] && a[0] == b[0] && b[0] == c[0] {
      DefaultCompareTransitive(a[1..], b[1..], c[1..]);
    }
  }

  /** The default order is consistent, so `sort()` sorts. */
  lemma DefaultCompareConsistent()
    ensures Consistent(DefaultCompare)
  {
    forall a, b ensures DefaultCompare(a, b) < 0 <==> DefaultCompare(b, a) > 0 {
      DefaultCompareFlip(a, b);
    }
    forall a, b ensures DefaultCompare(a, b) <= 0 || DefaultCompare(b, a) <= 0 {
      DefaultCompareFlip(a, b);
    }
    forall a, b, c | Precedes(DefaultCompare, a, b) && Precedes(DefaultCompare, b, c)
      ensures DefaultCompare(a, c) <= 0
    {
      DefaultCompareTransitive(a, b, c);
    }
  }
}
