/** Sorted, de-duplicated sequences: what Python's `sorted(set(...))`, pandas'
    `sorted(series.unique())` and the sorted keys of a pandas `groupby` produce.
    The order is a parameter so that strings, dates and week labels share one
    definition. */
module Sorting {

  /** `lt` is irreflexive, transitive and relates every two distinct values. */
  ghost predicate StrictTotalOrder<T(!new)>(lt: (T, T) -> bool) {
    && (forall x :: !lt(x, x))
    && (forall x, y, z :: lt(x, y) && lt(y, z) ==> lt(x, z))
    && (forall x, y :: x != y ==> lt(x, y) || lt(y, x))
  }

  ghost predicate StrictlySorted<T>(s: seq<T>, lt: (T, T) -> bool) {
    forall i, j :: 0 <= i < j < |s| ==> lt(s[i], s[j])
  }

  ghost predicate Distinct<T>(s: seq<T>) {
    forall i, j :: 0 <= i < j < |s| ==> s[i] != s[j]
  }

  function Elems<T(==)>(s: seq<T>): set<T> {
    set x | x in s
  }

  /** Inserts `x` into the sorted `s`, dropping it when it is already there. */
  function Insert<T(==, !new)>(x: T, s: seq<T>, lt: (T, T) -> bool): (r: seq<T>)
    ensures Elems(r) == Elems(s) + {x}
    ensures |r| <= |s| + 1
    ensures StrictTotalOrder(lt) && StrictlySorted(s, lt) ==> StrictlySorted(r, lt)
  {
    if s == [] then [x]
    else if x == s[0] then s
    else if lt(x, s[0]) then [x] + s
    else
      var rest := Insert(x, s[1..], lt);
      assert Elems(s) == {s[0]} + Elems(s[1..]);
      assert Elems([s[0]] + rest) == {s[0]} + Elems(rest);
      assert StrictTotalOrder(lt) && StrictlySorted(s, lt) ==> StrictlySorted([s[0]] + rest, lt) by {
        if StrictTotalOrder(lt) && StrictlySorted(s, lt) {
          forall j | 0 < j < |[s[0]] + rest|
            ensures lt(([s[0]] + rest)[0], ([s[0]] + rest)[j])
          {
            assert ([s[0]] + rest)[j] == rest[j - 1];
            assert rest[j - 1] in Elems(rest);
          }
        }
      }
      [s[0]] + rest
  }

  /** The distinct values of `s` in ascending `lt` order. */
  function SortDistinct<T(==, !new)>(s: seq<T>, lt: (T, T) -> bool): (r: seq<T>)
    ensures Elems(r) == Elems(s)
    ensures StrictTotalOrder(lt) ==> StrictlySorted(r, lt) && Distinct(r)
    ensures |r| <= |s|
  {
    if s == [] then []
    else
      var rest := SortDistinct(s[1..], lt);
      assert Elems(s) == {s[0]} + Elems(s[1..]);
      var r := Insert(s[0], rest, lt);
      SortedIsDistinct(r, lt);
      r
  }

  lemma SortedIsDistinct<T(!new)>(s: seq<T>, lt: (T, T) -> bool)
    ensures StrictTotalOrder(lt) && StrictlySorted(s, lt) ==> Distinct(s)
  {
  }

  /** Two strictly sorted sequences with the same elements are the same
      sequence: the sorted form of a set does not depend on where the set came
      from. */
  lemma {:induction false} SortedUnique<T(!new)>(a: seq<T>, b: seq<T>, lt: (T, T) -> bool)
    requires StrictTotalOrder(lt)
    requires StrictlySorted(a, lt) && StrictlySorted(b, lt)
    requires Elems(a) == Elems(b)
    ensures a == b
  {
    assert a != [] ==> a[0] in Elems(b);
    assert b != [] ==> b[0] in Elems(a);
    if a != [] {
      LeastIsHead(a, lt);
      LeastIsHead(b, lt);
      assert a[0] == b[0];
      assert Elems(a) == {a[0]} + Elems(a[1..]);
      assert Elems(b) == {b[0]} + Elems(b[1..]);
      assert a[0] !in Elems(a[1..]);
      assert b[0] !in Elems(b[1..]);
      SortedUnique(a[1..], b[1..], lt);
      assert a == [a[0]] + a[1..];
      assert b == [b[0]] + b[1..];
    }
  }

  /** A sequence without repetitions has as many elements as positions:
      `nunique` of a de-duplicated column is its length. */
  lemma {:induction false} DistinctCard<T>(s: seq<T>)
    requires Distinct(s)
    ensures |Elems(s)| == |s|
  {
    if s != [] {
      DistinctCard(s[1..]);
      assert Elems(s) == {s[0]} + Elems(s[1..]);
      assert s[0] !in Elems(s[1..]);
    }
  }

  /** The head of a sorted sequence is its least element. */
  lemma LeastIsHead<T(!new)>(s: seq<T>, lt: (T, T) -> bool)
    requires StrictlySorted(s, lt) && s != []
    ensures forall x :: x in s ==> x == s[0] || lt(s[0], x)
  {
  }

  /** Sorting only depends on the set of values sorted. */
  lemma SortDistinctOfSameElems<T(!new)>(s: seq<T>, t: seq<T>, lt: (T, T) -> bool)
    requires StrictTotalOrder(lt)
    requires Elems(s) == Elems(t)
    ensures SortDistinct(s, lt) == SortDistinct(t, lt)
  {
    SortedUnique(SortDistinct(s, lt), SortDistinct(t, lt), lt);
  }
}
