/** SQL aggregates over the non-null values of a column, and averages of group averages. */
module Statistics {
  import opened Prelude

  function Sum(xs: seq<real>): real {
    if xs == [] then 0.0 else xs[0] + Sum(xs[1..])
  }

  function Mean(xs: seq<real>): real
    requires xs != []
  {
    Sum(xs) / (|xs| as real)
  }

  /** AVG, MIN and MAX are NULL when no value is left. */
  function Avg(xs: seq<real>): Option<real> {
    if xs == [] then None else Some(Mean(xs))
  }

  function Min(xs: seq<real>): (m: Option<real>)
    ensures m.None? <==> xs == []
    ensures m.Some? ==> m.value in xs && forall x :: x in xs ==> m.value <= x
  {
    if xs == [] then None else
      assert xs == [xs[0]] + xs[1..];
      var rest := Min(xs[1..]);
      if rest.Some? && rest.value < xs[0] then rest else Some(xs[0])
  }

  function Max(xs: seq<real>): (m: Option<real>)
    ensures m.None? <==> xs == []
    ensures m.Some? ==> m.value in xs && forall x :: x in xs ==> x <= m.value
  {
    if xs == [] then None else
      assert xs == [xs[0]] + xs[1..];
      var rest := Max(xs[1..]);
      if rest.Some? && rest.value > xs[0] then rest else Some(xs[0])
  }

  ghost predicate Bounded(xs: seq<real>, lo: real, hi: real) {
    forall x :: x in xs ==> lo <= x <= hi
  }

  lemma {:induction false} SumConcat(xs: seq<real>, ys: seq<real>)
    ensures Sum(xs + ys) == Sum(xs) + Sum(ys)
  {
    if xs == [] {
      assert [] + ys == ys;
    } else {
      assert (xs + ys)[1..] == xs[1..] + ys;
      SumConcat(xs[1..], ys);
    }
  }

  /** `x` added up `n` times. */
  function Times(n: nat, x: real): real {
    if n == 0 then 0.0 else x + Times(n - 1, x)
  }

  lemma {:induction false} TimesIsProduct(n: nat, x: real)
    ensures Times(n, x) == (n as real) * x
  {
    if n > 0 {
      TimesIsProduct(n - 1, x);
      assert (n as real) * x == x + ((n - 1) as real) * x;
    }
  }

  lemma {:induction false} SumBounded(xs: seq<real>, lo: real, hi: real)
    requires Bounded(xs, lo, hi)
    ensures Times(|xs|, lo) <= Sum(xs) <= Times(|xs|, hi)
  {
    if xs != [] {
      assert forall x :: x in xs[1..] ==> x in xs;
      SumBounded(xs[1..], lo, hi);
      assert xs[0] in xs;
    }
  }

  lemma DivBetween(s: real, n: real, lo: real, hi: real)
    requires n > 0.0 && lo * n <= s <= hi * n
    ensures lo <= s / n <= hi
  {
    var q := s / n;
    assert q * n == s;
    if q < lo {
      Grows(q, lo, n);
    }
    if hi < q {
      Grows(hi, q, n);
    }
  }

  lemma Grows(x: real, y: real, n: real)
    requires x < y && n > 0.0
    ensures x * n < y * n
  {
    assert (y - x) * n > 0.0;
  }

  lemma MeanBounded(xs: seq<real>, lo: real, hi: real)
    requires xs != [] && Bounded(xs, lo, hi)
    ensures lo <= Mean(xs) <= hi
  {
    SumBounded(xs, lo, hi);
    TimesIsProduct(|xs|, lo);
    TimesIsProduct(|xs|, hi);
    DivBetween(Sum(xs), |xs| as real, lo, hi);
  }

  // ---------------------------------------------------------------- groups

  predicate NonEmptyGroups(groups: seq<seq<real>>) {
    forall i :: 0 <= i < |groups| ==> groups[i] != []
  }

  function Flat(groups: seq<seq<real>>): seq<real> {
    if groups == [] then [] else groups[0] + Flat(groups[1..])
  }

  function Means(groups: seq<seq<real>>): seq<real>
    requires NonEmptyGroups(groups)
  {
    if groups == [] then [] else [Mean(groups[0])] + Means(groups[1..])
  }

  lemma {:induction false} MeansBounded(groups: seq<seq<real>>, lo: real, hi: real)
    requires NonEmptyGroups(groups) && Bounded(Flat(groups), lo, hi)
    ensures Bounded(Means(groups), lo, hi) && |Means(groups)| == |groups| && |Flat(groups)| >= |groups|
  {
    if groups != [] {
      var head, rest := groups[0], Flat(groups[1..]);
      assert forall x :: x in head || x in rest ==> x in head + rest;
      MeanBounded(head, lo, hi);
      MeansBounded(groups[1..], lo, hi);
    }
  }

  /** The average of averages lies between the extremes, so within their spread of the true mean. */
  lemma MeanOfMeansBounded(groups: seq<seq<real>>, lo: real, hi: real)
    requires groups != [] && NonEmptyGroups(groups) && Bounded(Flat(groups), lo, hi)
    ensures Means(groups) != [] && Flat(groups) != []
    ensures lo <= Mean(Means(groups)) <= hi
    ensures lo - hi <= Mean(Means(groups)) - Mean(Flat(groups)) <= hi - lo
  {
    MeansBounded(groups, lo, hi);
    MeanBounded(Means(groups), lo, hi);
    MeanBounded(Flat(groups), lo, hi);
  }

  predicate SameCounts(groups: seq<seq<real>>, n: nat) {
    forall i :: 0 <= i < |groups| ==> |groups[i]| == n
  }

  lemma {:induction false} TimesDistributes(n: nat, x: real, y: real)
    ensures Times(n, x + y) == Times(n, x) + Times(n, y)
  {
    if n > 0 {
      TimesDistributes(n - 1, x, y);
    }
  }

  lemma {:induction false} TimesOne(n: nat)
    ensures Times(n, 1.0) == n as real
  {
    if n > 0 {
      TimesOne(n - 1);
    }
  }

  lemma SumOfMean(xs: seq<real>)
    requires xs != []
    ensures Sum(xs) == Times(|xs|, Mean(xs))
  {
    TimesIsProduct(|xs|, Mean(xs));
  }

  lemma SumOfMeans(groups: seq<seq<real>>)
    requires groups != [] && NonEmptyGroups(groups)
    ensures Sum(Means(groups)) == Mean(groups[0]) + Sum(Means(groups[1..]))
    ensures |Means(groups)| == 1 + |Means(groups[1..])|
  {
    assert Means(groups)[1..] == Means(groups[1..]);
  }

  /** With `n` values in every group, sums and sizes are `n` times those of the means. */
  lemma {:induction false} EqualCounts(groups: seq<seq<real>>, n: nat)
    requires NonEmptyGroups(groups) && SameCounts(groups, n)
    ensures |Means(groups)| == |groups|
    ensures Sum(Flat(groups)) == Times(n, Sum(Means(groups)))
    ensures |Flat(groups)| as real == Times(n, |groups| as real)
  {
    if groups == [] {
      TimesIsProduct(n, 0.0);
    } else {
      var head, rest := groups[0], groups[1..];
      assert |head| == n;
      EqualCounts(rest, n);
      SumConcat(head, Flat(rest));
      SumOfMeans(groups);
      SumOfMean(head);
      TimesDistributes(n, Mean(head), Sum(Means(rest)));
      TimesOne(n);
      TimesDistributes(n, 1.0, |rest| as real);
    }
  }

  lemma SameRatio(n: nat, s: real, k: real, total: real, size: real)
    requires n > 0 && k > 0.0 && total == Times(n, s) && size == Times(n, k)
    ensures size > 0.0 && total / size == s / k
  {
    TimesIsProduct(n, s);
    TimesIsProduct(n, k);
    Cancel(n as real, s, k);
  }

  lemma Cancel(c: real, s: real, k: real)
    requires c > 0.0 && k > 0.0
    ensures c * k > 0.0 && (c * s) / (c * k) == s / k
  {
    var q := s / k;
    assert q * k == s;
    assert (c * k) * q == c * s;
  }

  /** When all groups have the same size, the average of averages is the true mean. */
  lemma EqualCountsAreExact(groups: seq<seq<real>>, n: nat)
    requires groups != [] && NonEmptyGroups(groups) && SameCounts(groups, n)
    ensures Means(groups) != [] && Flat(groups) != []
    ensures Mean(Means(groups)) == Mean(Flat(groups))
  {
    EqualCounts(groups, n);
    assert |groups[0]| == n;
    SameRatio(n, Sum(Means(groups)), |groups| as real, Sum(Flat(groups)), |Flat(groups)| as real);
  }

  // ---------------------------------------------------------------- exactness, both ways

  predicate Positive(counts: seq<nat>) {
    forall i :: 0 <= i < |counts| ==> counts[i] > 0
  }

  predicate Shaped(groups: seq<seq<real>>, counts: seq<nat>) {
    |groups| == |counts| && forall i :: 0 <= i < |counts| ==> |groups[i]| == counts[i]
  }

  predicate AllEqual(counts: seq<nat>) {
    forall i, j :: 0 <= i < |counts| && 0 <= j < |counts| ==> counts[i] == counts[j]
  }

  function Total(counts: seq<nat>): nat {
    if counts == [] then 0 else counts[0] + Total(counts[1..])
  }

  function Constant(n: nat, x: real): seq<real> {
    seq(n, _ => x)
  }

  lemma {:induction false} SumConstant(n: nat, x: real)
    ensures Sum(Constant(n, x)) == (n as real) * x
  {
    if n > 0 {
      assert Constant(n, x)[1..] == Constant(n - 1, x);
      SumConstant(n - 1, x);
      assert (n as real) * x == ((n - 1) as real) * x + x;
    }
  }

  /** Ones in group `a`, zeros everywhere else. */
  function Indicator(counts: seq<nat>, a: int): seq<seq<real>> {
    if counts == [] then [] else
      [Constant(counts[0], if a == 0 then 1.0 else 0.0)] + Indicator(counts[1..], a - 1)
  }

  lemma {:induction false} IndicatorShape(counts: seq<nat>, a: int)
    requires Positive(counts)
    ensures Shaped(Indicator(counts, a), counts) && NonEmptyGroups(Indicator(counts, a))
    ensures |Flat(Indicator(counts, a))| == Total(counts)
    ensures |Means(Indicator(counts, a))| == |counts|
  {
    if counts != [] {
      assert counts[0] > 0;
      IndicatorShape(counts[1..], a - 1);
      var all := Indicator(counts, a);
      assert all[1..] == Indicator(counts[1..], a - 1);
    }
  }

  lemma {:induction false} IndicatorSums(counts: seq<nat>, a: int)
    requires Positive(counts) && NonEmptyGroups(Indicator(counts, a))
    ensures Sum(Flat(Indicator(counts, a))) == if 0 <= a < |counts| then counts[a] as real else 0.0
    ensures Sum(Means(Indicator(counts, a))) == if 0 <= a < |counts| then 1.0 else 0.0
  {
    if counts != [] {
      var x := if a == 0 then 1.0 else 0.0;
      var head, rest := Constant(counts[0], x), Indicator(counts[1..], a - 1);
      var all := Indicator(counts, a);
      assert all[0] == head && all[1..] == rest;
      IndicatorSums(counts[1..], a - 1);
      SumConstant(counts[0], x);
      SumConcat(head, Flat(rest));
      SumOfMeans(all);
      assert counts[0] > 0;
      MeanBounded(head, x, x);
    }
  }

  /** Whatever the values, the average of averages is the true mean. */
  ghost predicate AlwaysExact(counts: seq<nat>)
    requires Positive(counts)
  {
    forall groups :: Shaped(groups, counts) && NonEmptyGroups(groups) && Means(groups) != [] && Flat(groups) != []
      ==> Mean(Means(groups)) == Mean(Flat(groups))
  }

  /** For given group sizes, averaging the averages is exact for all values just when the sizes agree. */
  lemma ExactIffEqualCounts(counts: seq<nat>)
    requires counts != [] && Positive(counts)
    ensures AlwaysExact(counts) <==> AllEqual(counts)
  {
    if AllEqual(counts) {
      forall groups | Shaped(groups, counts) && NonEmptyGroups(groups) && Means(groups) != [] && Flat(groups) != []
        ensures Mean(Means(groups)) == Mean(Flat(groups))
      {
        EqualCountsAreExact(groups, counts[0]);
      }
    }
    if AlwaysExact(counts) {
      forall i | 0 <= i < |counts|
        ensures counts[i] * |counts| == Total(counts)
      {
        ExactFixesCount(counts, i);
      }
      forall i, j | 0 <= i < |counts| && 0 <= j < |counts|
        ensures counts[i] == counts[j]
      {
        EqualFactors(counts[i], counts[j], |counts|);
      }
    }
  }

  lemma ExactFixesCount(counts: seq<nat>, a: nat)
    requires a < |counts| && Positive(counts) && AlwaysExact(counts)
    ensures counts[a] * |counts| == Total(counts)
  {
    var groups := Indicator(counts, a);
    IndicatorShape(counts, a);
    IndicatorSums(counts, a);
    assert Means(groups) != [] && Mean(Means(groups)) == 1.0 / (|counts| as real);
    TotalPositive(counts);
    assert Mean(Flat(groups)) == (counts[a] as real) / (Total(counts) as real);
    CrossMultiply(|counts|, Total(counts), counts[a]);
  }

  lemma {:induction false} TotalPositive(counts: seq<nat>)
    requires counts != [] && Positive(counts)
    ensures Total(counts) > 0
  {
    assert counts[0] > 0;
  }

  lemma CrossMultiply(k: nat, n: nat, c: nat)
    requires k > 0 && n > 0 && 1.0 / (k as real) == (c as real) / (n as real)
    ensures c * k == n
  {
    var rk, rn, rc := k as real, n as real, c as real;
    var q := 1.0 / rk;
    assert q * rk == 1.0 && q * rn == rc;
    assert rc * rk == (q * rk) * rn;
    assert (c * k) as real == rc * rk;
  }

  lemma EqualFactors(x: nat, y: nat, k: nat)
    requires k > 0 && x * k == y * k
    ensures x == y
  {
    assert (x - y) * k == 0;
  }
}
