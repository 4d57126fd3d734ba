/** Group-by arithmetic over sequences: the row subset a pandas boolean mask or
    a `groupby` group selects, the column sums of such a subset, and the facts
    that make group totals add up to the whole. */
module Tally {

  import opened Sorting

  /** The elements of `xs` whose `key` is `k`, in their original order: the
      rows of `df[df[key] == k]`. */
  function Where<T(==, !new), K(==)>(xs: seq<T>, key: T -> K, k: K): (r: seq<T>)
    ensures |r| <= |xs|
    ensures forall x :: x in r <==> x in xs && key(x) == k
  {
    if xs == [] then []
    else (if key(xs[0]) == k then [xs[0]] else []) + Where(xs[1..], key, k)
  }

  /** The image of `xs` under `f`, position by position: one column of a table. */
  function Project<T, U>(xs: seq<T>, f: T -> U): (r: seq<U>)
    ensures |r| == |xs|
    ensures forall i :: 0 <= i < |xs| ==> r[i] == f(xs[i])
  {
    if xs == [] then [] else [f(xs[0])] + Project(xs[1..], f)
  }

  /** The size of a group is how often its key occurs in the key column:
      `size()` of a group and `value_counts()` of the column agree. */
  lemma {:induction false} WhereCountsKey<T(!new), K>(xs: seq<T>, key: T -> K, k: K)
    ensures |Where(xs, key, k)| == multiset(Project(xs, key))[k]
  {
    if xs != [] {
      WhereCountsKey(xs[1..], key, k);
      assert Project(xs, key) == [key(xs[0])] + Project(xs[1..], key);
    }
  }

  /** A value occurs in a column exactly when some row carries it. */
  lemma ProjectMembers<T, U>(xs: seq<T>, f: T -> U)
    ensures forall u :: u in Project(xs, f) <==> exists x :: x in xs && f(x) == u
  {
    forall u | exists x :: x in xs && f(x) == u
      ensures u in Project(xs, f)
    {
      var x :| x in xs && f(x) == u;
      var i :| 0 <= i < |xs| && xs[i] == x;
      assert Project(xs, f)[i] == u;
    }
  }

  /** `df[w].sum()`. */
  function Sum<T>(xs: seq<T>, w: T -> int): int {
    if xs == [] then 0 else w(xs[0]) + Sum(xs[1..], w)
  }

  /** The sizes of the groups `ks` added up. */
  function CountPerKey<T(==, !new), K(==)>(xs: seq<T>, key: T -> K, ks: seq<K>): nat {
    if ks == [] then 0 else |Where(xs, key, ks[0])| + CountPerKey(xs, key, ks[1..])
  }

  /** The column sums of the groups `ks` added up. */
  function SumPerKey<T(==, !new), K(==)>(xs: seq<T>, key: T -> K, w: T -> int, ks: seq<K>): int {
    if ks == [] then 0 else Sum(Where(xs, key, ks[0]), w) + SumPerKey(xs, key, w, ks[1..])
  }

  lemma {:induction false} SumAppend<T>(a: seq<T>, b: seq<T>, w: T -> int)
    ensures Sum(a + b, w) == Sum(a, w) + Sum(b, w)
  {
    if a == [] {
      assert a + b == b;
    } else {
      assert (a + b)[1..] == a[1..] + b;
      SumAppend(a[1..], b, w);
    }
  }

  lemma {:induction false} WhereAppend<T(!new), K>(a: seq<T>, b: seq<T>, key: T -> K, k: K)
    ensures Where(a + b, key, k) == Where(a, key, k) + Where(b, key, k)
  {
    if a == [] {
      assert a + b == b;
    } else {
      assert (a + b)[1..] == a[1..] + b;
      WhereAppend(a[1..], b, key, k);
    }
  }

  /** Removing the first element lowers the added-up group sizes by one
      exactly when that element's key is among the groups. */
  lemma {:induction false} CountPerKeyStep<T(!new), K>(xs: seq<T>, key: T -> K, ks: seq<K>)
    requires xs != [] && Distinct(ks)
    ensures CountPerKey(xs, key, ks)
         == (if key(xs[0]) in ks then 1 else 0) + CountPerKey(xs[1..], key, ks)
  {
    if ks != [] {
      assert Distinct(ks[1..]);
      CountPerKeyStep(xs, key, ks[1..]);
      assert key(xs[0]) == ks[0] ==> key(xs[0]) !in ks[1..];
      assert key(xs[0]) in ks <==> key(xs[0]) == ks[0] || key(xs[0]) in ks[1..];
    }
  }

  lemma {:induction false} SumPerKeyStep<T(!new), K>(xs: seq<T>, key: T -> K, w: T -> int, ks: seq<K>)
    requires xs != [] && Distinct(ks)
    ensures SumPerKey(xs, key, w, ks)
         == (if key(xs[0]) in ks then w(xs[0]) else 0) + SumPerKey(xs[1..], key, w, ks)
  {
    if ks != [] {
      assert Distinct(ks[1..]);
      SumPerKeyStep(xs, key, w, ks[1..]);
      assert key(xs[0]) == ks[0] ==> key(xs[0]) !in ks[1..];
      assert key(xs[0]) in ks <==> key(xs[0]) == ks[0] || key(xs[0]) in ks[1..];
      assert Sum(Where(xs, key, ks[0]), w)
          == (if key(xs[0]) == ks[0] then w(xs[0]) else 0) + Sum(Where(xs[1..], key, ks[0]), w) by {
        if key(xs[0]) == ks[0] {
          assert Where(xs, key, ks[0]) == [xs[0]] + Where(xs[1..], key, ks[0]);
          assert (Where(xs, key, ks[0]))[1..] == Where(xs[1..], key, ks[0]);
        } else {
          assert Where(xs, key, ks[0]) == Where(xs[1..], key, ks[0]);
        }
      }
    }
  }

  /** Grouping by `key` loses and duplicates nothing: when the groups `ks` are
      distinct and cover every key in `xs`, their sizes add up to `|xs|`. */
  lemma {:induction false} CountPartition<T(!new), K>(xs: seq<T>, key: T -> K, ks: seq<K>)
    requires Distinct(ks)
    requires forall x :: x in xs ==> key(x) in ks
    ensures CountPerKey(xs, key, ks) == |xs|
  {
    if xs == [] {
      EmptyGroups(xs, key, ks);
    } else {
      CountPerKeyStep(xs, key, ks);
      CountPartition(xs[1..], key, ks);
    }
  }

  /** The column sums of a covering set of distinct groups add up to the
      column sum of the whole. */
  lemma {:induction false} SumPartition<T(!new), K>(xs: seq<T>, key: T -> K, w: T -> int, ks: seq<K>)
    requires Distinct(ks)
    requires forall x :: x in xs ==> key(x) in ks
    ensures SumPerKey(xs, key, w, ks) == Sum(xs, w)
  {
    if xs == [] {
      EmptyGroups(xs, key, ks);
      EmptySums(xs, key, w, ks);
    } else {
      SumPerKeyStep(xs, key, w, ks);
      SumPartition(xs[1..], key, w, ks);
    }
  }

  lemma {:induction false} EmptyGroups<T(!new), K>(xs: seq<T>, key: T -> K, ks: seq<K>)
    requires xs == []
    ensures CountPerKey(xs, key, ks) == 0
  {
    if ks != [] {
      EmptyGroups(xs, key, ks[1..]);
    }
  }

  lemma {:induction false} EmptySums<T(!new), K>(xs: seq<T>, key: T -> K, w: T -> int, ks: seq<K>)
    requires xs == []
    ensures SumPerKey(xs, key, w, ks) == 0
  {
    if ks != [] {
      EmptySums(xs, key, w, ks[1..]);
    }
  }

  /** Two masks applied one after the other select the same rows in either
      order. */
  lemma {:induction false} WhereCommutes<T(!new), K, J>(xs: seq<T>, k1: T -> K, a: K, k2: T -> J, b: J)
    ensures Where(Where(xs, k1, a), k2, b) == Where(Where(xs, k2, b), k1, a)
  {
    if xs != [] {
      var x := xs[0];
      var head1 := if k1(x) == a then [x] else [];
      var head2 := if k2(x) == b then [x] else [];
      calc {
        Where(Where(xs, k1, a), k2, b);
        Where(head1 + Where(xs[1..], k1, a), k2, b);
        { WhereAppend(head1, Where(xs[1..], k1, a), k2, b); }
        Where(head1, k2, b) + Where(Where(xs[1..], k1, a), k2, b);
        { WhereCommutes(xs[1..], k1, a, k2, b); }
        Where(head1, k2, b) + Where(Where(xs[1..], k2, b), k1, a);
        { assert Where(head1, k2, b) == Where(head2, k1, a); }
        Where(head2, k1, a) + Where(Where(xs[1..], k2, b), k1, a);
        { WhereAppend(head2, Where(xs[1..], k2, b), k1, a); }
        Where(head2 + Where(xs[1..], k2, b), k1, a);
        Where(Where(xs, k2, b), k1, a);
      }
    }
  }

  /** Two masks that agree on every element select the same rows. */
  lemma {:induction false} WhereSameMask<T(!new), K, J>(xs: seq<T>, k1: T -> K, a: K, k2: T -> J, b: J)
    requires forall x :: x in xs ==> (k1(x) == a <==> k2(x) == b)
    ensures Where(xs, k1, a) == Where(xs, k2, b)
  {
    if xs != [] {
      WhereSameMask(xs[1..], k1, a, k2, b);
    }
  }

  /** Column sums do not depend on row order. */
  lemma {:induction false} SumPermutation<T>(xs: seq<T>, ys: seq<T>, w: T -> int)
    requires multiset(xs) == multiset(ys)
    ensures Sum(xs, w) == Sum(ys, w)
  {
    if xs == [] {
      assert |ys| == |multiset(ys)| == 0;
    } else {
      var x := xs[0];
      assert x in multiset(xs);
      var i :| 0 <= i < |ys| && ys[i] == x;
      var rest := ys[..i] + ys[i + 1..];
      MultisetRemoveAt(ys, i);
      MultisetRemoveHead(xs);
      SumPermutation(xs[1..], rest, w);
      SumRemoveAt(ys, i, w);
    }
  }

  lemma MultisetRemoveHead<T>(xs: seq<T>)
    requires xs != []
    ensures multiset(xs[1..]) == multiset(xs) - multiset{xs[0]}
  {
    assert xs == [xs[0]] + xs[1..];
  }

  lemma MultisetRemoveAt<T>(ys: seq<T>, i: nat)
    requires i < |ys|
    ensures multiset(ys[..i] + ys[i + 1..]) == multiset(ys) - multiset{ys[i]}
  {
    assert ys == ys[..i] + [ys[i]] + ys[i + 1..];
  }

  lemma {:induction false} SumRemoveAt<T>(ys: seq<T>, i: nat, w: T -> int)
    requires i < |ys|
    ensures Sum(ys, w) == w(ys[i]) + Sum(ys[..i] + ys[i + 1..], w)
  {
    if i == 0 {
      assert ys[..0] + ys[1..] == ys[1..];
    } else {
      var t := ys[1..];
      SumRemoveAt(t, i - 1, w);
      var z := ys[..i] + ys[i + 1..];
      assert z == [ys[0]] + (t[..i - 1] + t[i..]);
      assert z[1..] == t[..i - 1] + t[i..];
    }
  }

  /** A column of non-negative values has a non-negative sum. */
  lemma {:induction false} SumNonNegative<T>(xs: seq<T>, w: T -> int)
    requires forall x :: x in xs ==> w(x) >= 0
    ensures Sum(xs, w) >= 0
  {
    if xs != [] {
      assert xs[0] in xs;
      assert forall x :: x in xs[1..] ==> x in xs;
      SumNonNegative(xs[1..], w);
    }
  }

  /** A boolean mask and its negation split the rows between them. */
  lemma MaskPartition<T(!new)>(xs: seq<T>, p: T -> bool)
    ensures |Where(xs, p, true)| + |Where(xs, p, false)| == |xs|
  {
    assert Distinct([true, false]);
    forall x | x in xs ensures p(x) in [true, false] {
      assert p(x) == [true, false][if p(x) then 0 else 1];
    }
    CountPartition(xs, p, [true, false]);
  }

  /** A column of non-negative values sums to 0 exactly when every value is 0. */
  lemma {:induction false} SumZeroIffAllZero<T>(xs: seq<T>, w: T -> int)
    requires forall x :: x in xs ==> w(x) >= 0
    ensures Sum(xs, w) == 0 <==> forall x :: x in xs ==> w(x) == 0
  {
    if xs != [] {
      assert xs[0] in xs;
      assert forall x :: x in xs[1..] ==> x in xs;
      assert forall x :: x in xs ==> x == xs[0] || x in xs[1..];
      SumNonNegative(xs[1..], w);
      SumZeroIffAllZero(xs[1..], w);
    }
  }

  /** A mask implied by another selects at least as many rows. */
  lemma {:induction false} WhereMonotone<T(!new), K, J>(xs: seq<T>, k1: T -> K, a: K, k2: T -> J, b: J)
    requires forall x :: x in xs && k1(x) == a ==> k2(x) == b
    ensures |Where(xs, k1, a)| <= |Where(xs, k2, b)|
  {
    if xs != [] {
      assert xs[0] in xs;
      assert forall x :: x in xs[1..] ==> x in xs;
      WhereMonotone(xs[1..], k1, a, k2, b);
    }
  }
}
