/** The "most frequent value" aggregations: `x.mode().iloc[0]` for the
    legion `Result` and legion hour, `series.mode()[0]` for a player's
    preferred hour. pandas returns the modal values sorted ascending, so the
    first of them is the least of the most frequent values. */
module Modes {

  import opened Sorting
  import opened Text

  /** The placeholder used when a group has no value. */
  const NotAvailable: string := "N/A"

  /** How often `y` occurs in `xs`. */
  function Occurrences(xs: seq<string>, y: string): nat {
    multiset(xs)[y]
  }

  /** `m` is a most frequent value of `xs` and no other most frequent value
      sorts before it. */
  ghost predicate IsLeastMode(xs: seq<string>, m: string) {
    && m in xs
    && (forall y :: y in xs ==> Occurrences(xs, y) <= Occurrences(xs, m))
    && (forall y :: y in xs && Occurrences(xs, y) == Occurrences(xs, m) ==> !StrLt(y, m))
  }

  /** The first of the ascending candidates `cands` with the greatest count in
      `xs`. */
  function Best(cands: seq<string>, xs: seq<string>): (m: string)
    requires cands != [] && StrictlySorted(cands, StrLt)
    ensures m in cands
    ensures forall c :: c in cands ==> Occurrences(xs, c) <= Occurrences(xs, m)
    ensures forall c :: c in cands && Occurrences(xs, c) == Occurrences(xs, m) ==> c == m || StrLt(m, c)
  {
    if |cands| == 1 then cands[0]
    else
      var b := Best(cands[1..], xs);
      assert forall c :: c in cands <==> c == cands[0] || c in cands[1..];
      if Occurrences(xs, cands[0]) >= Occurrences(xs, b) then
        assert forall c :: c in cands[1..] ==> StrLt(cands[0], c);
        cands[0]
      else b
  }

  /** The value the source's mode lambdas produce: the least most-frequent
      value, or "N/A" for an empty group. */
  function Mode(xs: seq<string>): (m: string)
    ensures xs == [] ==> m == NotAvailable
    ensures xs != [] ==> IsLeastMode(xs, m)
  {
    if xs == [] then NotAvailable
    else
      StrOrdersAreTotal();
      var cands := SortDistinct(xs, StrLt);
      assert forall y :: y in xs <==> y in Elems(cands);
      assert cands != [] by {
        assert xs[0] in Elems(cands);
      }
      var m := Best(cands, xs);
      assert forall y :: y in xs && Occurrences(xs, y) == Occurrences(xs, m) ==> !StrLt(y, m) by {
        forall y | y in xs && Occurrences(xs, y) == Occurrences(xs, m) ensures !StrLt(y, m) {
          assert y in cands;
          if y == m {
            StrLtIrreflexive(y);
          } else {
            StrLtAsymmetric(m, y);
          }
        }
      }
      m
  }

  /** The least mode is determined by the values and their counts alone. */
  lemma LeastModeUnique(xs: seq<string>, m1: string, m2: string)
    requires IsLeastMode(xs, m1) && IsLeastMode(xs, m2)
    ensures m1 == m2
  {
    assert Occurrences(xs, m1) == Occurrences(xs, m2);
    if m1 != m2 {
      StrLtConnected(m1, m2);
    }
  }

  /** Reordering the rows of a group does not change its mode. */
  lemma ModeIgnoresOrder(xs: seq<string>, ys: seq<string>)
    requires multiset(xs) == multiset(ys)
    ensures Mode(xs) == Mode(ys)
  {
    if xs != [] {
      assert |ys| == |multiset(ys)| == |multiset(xs)| == |xs|;
      assert forall y :: y in xs <==> y in ys by {
        forall y ensures y in xs <==> y in ys {
          assert y in xs <==> y in multiset(xs);
          assert y in ys <==> y in multiset(ys);
        }
      }
      LeastModeUnique(xs, Mode(xs), Mode(ys));
    } else {
      assert |ys| == |multiset(ys)| == 0;
    }
  }
}
