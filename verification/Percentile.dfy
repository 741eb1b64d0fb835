/** Nearest-rank percentiles for the latency gate (`_pct` and `summarise` in
    guardrail-gateway/app/bench.py), over exact reals. */
module Percentile {
  import Numbers
  import opened Sorting

  function AtMost(): Order<real> {
    (x, y) => x <= y
  }

  /** To the nearest integer, a tie to the even one. */
  function RoundEven(x: real): int {
    var low := x.Floor;
    var rest := x - low as real;
    if rest < 0.5 || (rest == 0.5 && low % 2 == 0) then low else low + 1
  }

  /** `round(x, 3)` */
  function Round3(x: real): real {
    RoundEven(x * 1000.0) as real / 1000.0
  }

  /** Index of the nearest rank to `target` of n samples, kept inside the list. */
  function Rank(target: real, n: nat): (k: nat)
    requires n > 0
    ensures k < n
  {
    var k := Numbers.Ceiling(target) - 1;
    if k < 0 then 0 else if k > n - 1 then n - 1 else k
  }

  /** The sample of that rank. */
  function Ranked(values: seq<real>, target: real): real
    requires values != []
  {
    SortIsPermutation(AtMost(), values);
    SameElements(Sort(AtMost(), values), values);
    Sort(AtMost(), values)[Rank(target, |values|)]
  }

  /** `_pct`: the percentile of rank q * n, rounded; 0 without samples. */
  function Pct(values: seq<real>, q: real): real {
    if values == [] then 0.0 else Round3(Ranked(values, q * |values| as real))
  }

  function Sum(values: seq<real>): real {
    if values == [] then 0.0 else values[0] + Sum(values[1..])
  }

  function Max(values: seq<real>): (m: real)
    requires values != []
    ensures m in values && forall x :: x in values ==> x <= m
  {
    if |values| == 1 then values[0]
    else
      var rest := Max(values[1..]);
      assert forall x :: x in values ==> x == values[0] || x in values[1..];
      if values[0] >= rest then values[0] else rest
  }

  datatype Summary = Summary(n: nat, p50: real, p95: real, p99: real, max: real, mean: real)

  function Summarise(samples: seq<real>): Summary {
    Summary(|samples|, Pct(samples, 0.50), Pct(samples, 0.95), Pct(samples, 0.99),
            if samples != [] then Round3(Max(samples)) else 0.0,
            if samples != [] then Round3(Sum(samples) / |samples| as real) else 0.0)
  }

  // ----- What a percentile is

  function CountAtMost(s: seq<real>, r: real): nat {
    if s == [] then 0 else (if s[0] <= r then 1 else 0) + CountAtMost(s[1..], r)
  }

  function CountBelow(s: seq<real>, r: real): nat {
    if s == [] then 0 else (if s[0] < r then 1 else 0) + CountBelow(s[1..], r)
  }

  lemma {:induction false} InsertKeepsCounts(x: real, s: seq<real>, r: real)
    ensures CountAtMost(Insert(AtMost(), x, s), r) == CountAtMost([x] + s, r)
    ensures CountBelow(Insert(AtMost(), x, s), r) == CountBelow([x] + s, r)
  {
    assert ([x] + s)[1..] == s;
    if s != [] && x > s[0] {
      InsertKeepsCounts(x, s[1..], r);
      assert ([x] + s[1..])[1..] == s[1..];
      assert ([s[0]] + Insert(AtMost(), x, s[1..]))[1..] == Insert(AtMost(), x, s[1..]);
    }
  }

  lemma {:induction false} SortKeepsCounts(s: seq<real>, r: real)
    ensures CountAtMost(Sort(AtMost(), s), r) == CountAtMost(s, r)
    ensures CountBelow(Sort(AtMost(), s), r) == CountBelow(s, r)
  {
    if s != [] {
      SortKeepsCounts(s[1..], r);
      InsertKeepsCounts(s[0], Sort(AtMost(), s[1..]), r);
      assert ([s[0]] + Sort(AtMost(), s[1..]))[1..] == Sort(AtMost(), s[1..]);
    }
  }

  lemma {:induction false} CountsInSorted(s: seq<real>, k: nat)
    requires Sorted(AtMost(), s) && k < |s|
    ensures CountAtMost(s, s[k]) >= k + 1 && CountBelow(s, s[k]) <= k
  {
    if k == 0 {
      AllFrom(s, s[0]);
    } else {
      assert AtMost()(s[0], s[k]);
      CountsInSorted(s[1..], k - 1);
    }
  }

  lemma {:induction false} AllFrom(s: seq<real>, r: real)
    requires forall i :: 0 <= i < |s| ==> r <= s[i]
    ensures CountBelow(s, r) == 0
  {
    if s != [] {
      AllFrom(s[1..], r);
    }
  }

  lemma RankBounds(target: real, n: nat)
    requires n > 0 && 0.0 < target <= n as real
    ensures Rank(target, n) as real < target <= (Rank(target, n) + 1) as real
  {
  }

  lemma ProductBounds(q: real, n: real, target: real)
    requires 0.0 < q <= 1.0 && n > 0.0 && target == q * n
    ensures 0.0 < target <= n
  {
  }

  lemma AtMostIsTotal()
    ensures Total(AtMost())
  {
  }

  /** The nearest rank: for every target in (0, n], at least that many samples are at most the ranked
      one, fewer are below it, and it is one of the samples. */
  lemma RankedSplits(values: seq<real>, target: real)
    requires values != [] && 0.0 < target <= |values| as real
    ensures Ranked(values, target) in values
    ensures CountAtMost(values, Ranked(values, target)) as real >= target
    ensures CountBelow(values, Ranked(values, target)) as real < target
  {
    var s := Sort(AtMost(), values);
    AtMostIsTotal();
    SortIsSorted(AtMost(), values);
    SortIsPermutation(AtMost(), values);
    SameElements(s, values);
    var k := Rank(target, |values|);
    CountsInSorted(s, k);
    SortKeepsCounts(values, s[k]);
    RankBounds(target, |values|);
    assert s[k] in s;
  }

  /** For every q in (0, 1], with target = q * n: at least q * n samples are at most the percentile,
      fewer than q * n are below it, and it is one of the samples. */
  lemma PercentileSplits(values: seq<real>, q: real, target: real)
    requires values != [] && 0.0 < q <= 1.0 && target == q * |values| as real
    ensures Ranked(values, target) in values
    ensures CountAtMost(values, Ranked(values, target)) as real >= target
    ensures CountBelow(values, Ranked(values, target)) as real < target
  {
    ProductBounds(q, |values| as real, target);
    RankedSplits(values, target);
  }

  /** These two counts determine the sample. */
  lemma PercentileIsUnique(values: seq<real>, target: real, r: real)
    requires values != [] && 0.0 < target <= |values| as real
    requires CountAtMost(values, r) as real >= target && CountBelow(values, r) as real < target
    ensures r == Ranked(values, target)
  {
    var p := Ranked(values, target);
    RankedSplits(values, target);
    if r < p {
      CountsNest(values, r, p);
    } else if p < r {
      CountsNest(values, p, r);
    }
  }

  lemma {:induction false} CountsNest(s: seq<real>, low: real, high: real)
    requires low < high
    ensures CountAtMost(s, low) <= CountBelow(s, high)
  {
    if s != [] {
      CountsNest(s[1..], low, high);
    }
  }

  lemma FloorMonotone(x: real, y: real)
    requires x <= y
    ensures x.Floor <= y.Floor
  {
  }

  /** A larger target, also outside (0, n], gives no smaller sample, and none exceeds the maximum. */
  lemma RankedMonotone(values: seq<real>, s: real, t: real)
    requires values != [] && s <= t
    ensures Ranked(values, s) <= Ranked(values, t) <= Max(values)
  {
    var sorted := Sort(AtMost(), values);
    AtMostIsTotal();
    SortIsSorted(AtMost(), values);
    SortIsPermutation(AtMost(), values);
    SameElements(sorted, values);
    FloorMonotone(-t, -s);
    var i, j := Rank(s, |values|), Rank(t, |values|);
    assert i <= j && (i == j || AtMost()(sorted[i], sorted[j]));
    assert sorted[j] in sorted;
  }

  /** For every q, also outside (0, 1], a larger q gives no smaller percentile. */
  lemma PercentileMonotone(values: seq<real>, p: real, q: real, s: real, t: real)
    requires values != [] && p <= q && s == p * |values| as real && t == q * |values| as real
    ensures Ranked(values, s) <= Ranked(values, t) <= Max(values)
  {
    Numbers.ProductMonotone(p, q, |values| as real);
    RankedMonotone(values, s, t);
  }

  // ----- Rounding keeps the order

  lemma RoundEvenMonotone(x: real, y: real)
    requires x <= y
    ensures RoundEven(x) <= RoundEven(y)
  {
  }

  lemma RoundMonotone(x: real, y: real)
    requires x <= y
    ensures Round3(x) <= Round3(y)
  {
    RoundEvenMonotone(x * 1000.0, y * 1000.0);
    DivideMonotone(RoundEven(x * 1000.0) as real, RoundEven(y * 1000.0) as real);
  }

  lemma DivideMonotone(x: real, y: real)
    requires x <= y
    ensures x / 1000.0 <= y / 1000.0
  {
  }

  lemma {:induction false} SumBounded(values: seq<real>, m: real, n: real, bound: real)
    requires forall x :: x in values ==> x <= m
    requires n == |values| as real && bound == m * n
    ensures Sum(values) <= bound
  {
    if values != [] {
      assert values[0] in values && forall x :: x in values[1..] ==> x in values;
      SumBounded(values[1..], m, n - 1.0, bound - m);
    }
  }

  lemma MeanBound(sum: real, m: real, n: real, bound: real)
    requires n > 0.0 && bound == m * n && sum <= bound
    ensures sum / n <= m
  {
  }

  lemma PctMonotone(values: seq<real>, s: real, t: real)
    requires values != [] && s <= t
    ensures Round3(Ranked(values, s)) <= Round3(Ranked(values, t)) <= Round3(Max(values))
  {
    RankedMonotone(values, s, t);
    RoundMonotone(Ranked(values, s), Ranked(values, t));
    RoundMonotone(Ranked(values, t), Max(values));
  }

  lemma MeanAtMostMax(values: seq<real>, m: real, n: real)
    requires values != [] && n == |values| as real && forall x :: x in values ==> x <= m
    ensures Sum(values) / n <= m
  {
    SumBounded(values, m, n, m * n);
    MeanBound(Sum(values), m, n, m * n);
  }

  lemma PercentilesAreOrdered(samples: seq<real>, a: real, b: real, c: real)
    requires samples != []
    requires a == 0.50 * |samples| as real && b == 0.95 * |samples| as real && c == 0.99 * |samples| as real
    ensures Round3(Ranked(samples, a)) <= Round3(Ranked(samples, b))
    ensures Round3(Ranked(samples, b)) <= Round3(Ranked(samples, c)) <= Round3(Max(samples))
  {
    PctMonotone(samples, a, b);
    PctMonotone(samples, b, c);
  }

  /** The figures of a summary are ordered as reported, after rounding too. */
  lemma SummaryIsOrdered(samples: seq<real>)
    ensures var s := Summarise(samples); s.p50 <= s.p95 <= s.p99 <= s.max && s.mean <= s.max
  {
    if samples != [] {
      var n := |samples| as real;
      PercentilesAreOrdered(samples, 0.50 * n, 0.95 * n, 0.99 * n);
      MeanAtMostMax(samples, Max(samples), n);
      RoundMonotone(Sum(samples) / n, Max(samples));
    }
  }

  /** Rounding moves a value by at most half a thousandth, to a whole number of thousandths. */
  lemma RoundIsNearest(x: real)
    ensures -0.0005 <= Round3(x) - x <= 0.0005
    ensures Round3(x) * 1000.0 == RoundEven(x * 1000.0) as real
  {
  }

  /** Of two equally near thousandths it takes the even one. */
  lemma RoundTiesToEven(x: real, n: int)
    requires x * 1000.0 == n as real + 0.5
    ensures RoundEven(x * 1000.0) == if n % 2 == 0 then n else n + 1
  {
    Numbers.FloorIs(x * 1000.0, n);
  }

  lemma {:induction false} SumIsAdditive(a: seq<real>, b: seq<real>)
    ensures Sum([]) == 0.0 && Sum(a + b) == Sum(a) + Sum(b)
    ensures forall x :: Sum([x]) == x
  {
    if a == [] {
      assert a + b == b;
    } else {
      assert (a + b)[1..] == a[1..] + b;
      SumIsAdditive(a[1..], b);
    }
  }

  /** A reported figure is a sample, rounded, that splits the samples at the target. */
  ghost predicate Reports(figure: real, samples: seq<real>, target: real) {
    exists v :: v in samples && figure == Round3(v) && CountAtMost(samples, v) as real >= target
                && CountBelow(samples, v) as real < target
  }

  /** What a summary of some samples reports: their number; the samples that split them at half, at 95 and at 99 parts
      of a hundred; the largest one; and the sum over the number; each rounded. Without samples all is zero. */
  lemma SummaryReports(samples: seq<real>, a: real, b: real, c: real)
    requires a == 0.50 * |samples| as real && b == 0.95 * |samples| as real && c == 0.99 * |samples| as real
    ensures Summarise(samples).n == |samples|
    ensures samples == [] ==> Summarise(samples) == Summary(0, 0.0, 0.0, 0.0, 0.0, 0.0)
    ensures samples != [] ==>
      var s := Summarise(samples);
      && Reports(s.p50, samples, a) && Reports(s.p95, samples, b) && Reports(s.p99, samples, c)
      && (exists m :: m in samples && (forall x :: x in samples ==> x <= m) && s.max == Round3(m))
      && s.mean == Round3(Sum(samples) / |samples| as real)
  {
    if samples != [] {
      PercentileSplits(samples, 0.50, a);
      PercentileSplits(samples, 0.95, b);
      PercentileSplits(samples, 0.99, c);
      var m := Max(samples);
      assert m in samples;
    }
  }
}
